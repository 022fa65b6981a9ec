/** Addresses as text: Go's `net.IP` printer for IPv4, and its parser for IPv4 and IPv6. */
module IPText {
  import opened Wrappers
  import opened Net
  import Text
  import HardwareAddr

  // ----- decimal text

  function Digit(n: nat): (c: char)
    requires n < 10
    ensures '0' <= c <= '9' && c as int - '0' as int == n
  {
    '0' + n as char
  }

  predicate IsDigit(c: char) { '0' <= c <= '9' }

  function DigitValue(c: char): (n: nat)
    requires IsDigit(c)
  {
    c as int - '0' as int
  }

  function Decimal(n: nat): (s: string)
    requires n < 1000
    ensures 1 <= |s| <= 3 && forall i :: 0 <= i < |s| ==> IsDigit(s[i])
  {
    if n < 10 then [Digit(n)]
    else if n < 100 then [Digit(n / 10), Digit(n % 10)]
    else [Digit(n / 100), Digit(n / 10 % 10), Digit(n % 10)]
  }

  predicate IsNumber(s: string) {
    s != "" && forall i :: 0 <= i < |s| ==> IsDigit(s[i])
  }

  /** The number its digits denote, leading zeros or not. */
  function Value(s: string): (n: nat)
    requires forall i :: 0 <= i < |s| ==> IsDigit(s[i])
  {
    if s == "" then 0 else 10 * Value(s[..|s| - 1]) + DigitValue(s[|s| - 1])
  }

  /** A number is printed in its digits, without leading zeros. */
  lemma DecimalWritten(n: nat)
    requires n < 1000
    ensures IsNumber(Decimal(n)) && Value(Decimal(n)) == n
    ensures |Decimal(n)| > 1 ==> Decimal(n)[0] != '0'
  {
    var s := Decimal(n);
    assert s[..0] == "" && Value("") == 0;
    assert Value(s[..1]) == DigitValue(s[0]) by {
      assert s[..1][..0] == "";
    }
    if n >= 10 {
      assert s[..2][..1] == s[..1];
    }
    if n >= 100 {
      assert s[..3][..2] == s[..2] && s[..3] == s;
      assert n == 100 * (n / 100) + 10 * (n / 10 % 10) + n % 10;
    } else if n >= 10 {
      assert s[..2] == s;
    } else {
      assert s[..1] == s;
    }
  }

  /** One field of a dotted address: up to three digits, no leading zero, at most 255. */
  function ParseOctet(s: string): (b: Option<byte>) {
    if !(1 <= |s| <= 3) || (exists i :: 0 <= i < |s| && !IsDigit(s[i])) then None
    else if |s| == 1 then Some(DigitValue(s[0]))
    else if s[0] == '0' then None
    else if |s| == 2 then Some(10 * DigitValue(s[0]) + DigitValue(s[1]))
    else
      var n := 100 * DigitValue(s[0]) + 10 * DigitValue(s[1]) + DigitValue(s[2]);
      if n < 256 then Some(n) else None
  }

  lemma OctetRoundTrip(b: byte)
    ensures ParseOctet(Decimal(b)) == Some(b)
  {
    var s := Decimal(b);
    assert b == 100 * (b / 100) + 10 * (b / 10 % 10) + b % 10;
    if b >= 100 {
      assert DigitValue(s[0]) == b / 100 && DigitValue(s[1]) == b / 10 % 10 && DigitValue(s[2]) == b % 10;
    } else if b >= 10 {
      assert DigitValue(s[0]) == b / 10 && DigitValue(s[1]) == b % 10;
    }
  }

  /** A field is read as `b` exactly when it is written as `b` is printed. */
  lemma OctetExact(s: string, b: byte)
    ensures ParseOctet(s) == Some(b) <==> s == Decimal(b)
  {
    OctetRoundTrip(b);
    if ParseOctet(s) == Some(b) {
      if |s| == 1 {
        assert s == [Digit(b)];
      } else if |s| == 2 {
        TwoDigits(s, b);
      } else {
        ThreeDigits(s, b);
      }
    }
  }

  lemma TwoDigits(s: string, b: byte)
    requires |s| == 2 && IsDigit(s[0]) && IsDigit(s[1]) && s[0] != '0'
    requires b == 10 * DigitValue(s[0]) + DigitValue(s[1])
    ensures s == Decimal(b)
  {
    assert b / 10 == DigitValue(s[0]) && b % 10 == DigitValue(s[1]);
    assert s == [s[0], s[1]];
  }

  lemma ThreeDigits(s: string, b: byte)
    requires |s| == 3 && IsDigit(s[0]) && IsDigit(s[1]) && IsDigit(s[2]) && s[0] != '0'
    requires b == 100 * DigitValue(s[0]) + 10 * DigitValue(s[1]) + DigitValue(s[2])
    ensures s == Decimal(b)
  {
    assert b / 100 == DigitValue(s[0]) && b / 10 % 10 == DigitValue(s[1]) && b % 10 == DigitValue(s[2]);
    assert s == [s[0], s[1], s[2]];
  }

  // ----- IPv4 text

  function OctetTexts(v4: IP): (r: seq<string>)
    requires |v4| == 4
  {
    [Decimal(v4[0]), Decimal(v4[1]), Decimal(v4[2]), Decimal(v4[3])]
  }

  /** `net.IP.String` of an IPv4 address in either form. */
  function IPv4String(ip: IP): (s: string)
    requires IsIPv4(ip)
  {
    Text.Join(OctetTexts(To4(ip)), '.')
  }

  function ParseIPv4(s: string): (r: Option<IP>)
    ensures r.Some? ==> |r.value| == 4
  {
    var parts := Text.Split(s, '.');
    if |parts| != 4 then None
    else match (ParseOctet(parts[0]), ParseOctet(parts[1]), ParseOctet(parts[2]), ParseOctet(parts[3]))
      case (Some(a), Some(b), Some(c), Some(d)) => Some([a, b, c, d])
      case _ => None
  }

  lemma IPv4RoundTrip(ip: IP)
    requires IsIPv4(ip)
    ensures ParseIPv4(IPv4String(ip)) == Some(To4(ip))
  {
    var v4 := To4(ip);
    Text.SplitJoin(OctetTexts(v4), '.');
    OctetRoundTrip(v4[0]);
    OctetRoundTrip(v4[1]);
    OctetRoundTrip(v4[2]);
    OctetRoundTrip(v4[3]);
    assert v4 == [v4[0], v4[1], v4[2], v4[3]];
  }

  /** An IPv4 address is printed as its four octets in decimal with dots between them. */
  lemma IPv4Written(v4: IP)
    requires |v4| == 4
    ensures IPv4String(v4) == Decimal(v4[0]) + ("." + (Decimal(v4[1]) + ("." + (Decimal(v4[2]) + ("." + Decimal(v4[3]))))))
  {
    var t := OctetTexts(v4);
    assert t[1..][1..] == t[2..] && t[2..][1..] == [t[3]];
    assert Text.Join(t[2..], '.') == t[2] + "." + t[3];
    assert Text.Join(t[1..], '.') == t[1] + "." + Text.Join(t[2..], '.');
  }

  /** The four fields are accepted exactly as they are printed: no leading zeros, nothing left out. */
  lemma IPv4Exact(s: string, v4: IP)
    requires |v4| == 4
    ensures ParseIPv4(s) == Some(v4) <==> s == IPv4String(v4)
  {
    IPv4RoundTrip(v4);
    if ParseIPv4(s) == Some(v4) {
      var parts := Text.Split(s, '.');
      OctetExact(parts[0], v4[0]);
      OctetExact(parts[1], v4[1]);
      OctetExact(parts[2], v4[2]);
      OctetExact(parts[3], v4[3]);
      assert parts == OctetTexts(v4);
      Text.JoinSplit(s, '.');
    }
  }

  /** Only digits and dots are printed. */
  lemma IPv4StringHasNo(ip: IP, c: char)
    requires IsIPv4(ip) && !IsDigit(c) && c != '.'
    ensures c !in IPv4String(ip) && IPv4String(ip) != ""
  {
    JoinHasNo(OctetTexts(To4(ip)), '.', c);
  }

  lemma {:induction false} JoinHasNo(parts: seq<string>, sep: char, c: char)
    requires c != sep && forall i :: 0 <= i < |parts| ==> c !in parts[i]
    ensures c !in Text.Join(parts, sep)
    ensures |parts| > 0 && parts[0] != "" ==> Text.Join(parts, sep) != ""
  {
    if |parts| > 1 {
      JoinHasNo(parts[1..], sep, c);
    }
  }

  // ----- IPv6 groups

  function HexNumber(s: string): (n: nat)
    requires forall i :: 0 <= i < |s| ==> HardwareAddr.HexValue(s[i]).Some?
  {
    if s == "" then 0 else 16 * HexNumber(s[..|s| - 1]) + HardwareAddr.HexValue(s[|s| - 1]).value
  }

  /** One to four hexadecimal digits, in either letter case. */
  predicate IsGroup(s: string) {
    1 <= |s| <= 4 && forall i :: 0 <= i < |s| ==> HardwareAddr.HexValue(s[i]).Some?
  }

  lemma {:induction false} GroupFits(s: string)
    requires |s| <= 4 && forall i :: 0 <= i < |s| ==> HardwareAddr.HexValue(s[i]).Some?
    ensures HexNumber(s) < [1, 16, 256, 4096, 65536][|s|] <= 65536
  {
    if s != "" {
      GroupFits(s[..|s| - 1]);
    }
  }

  /** The parts spell the bytes: groups of 16 bits, of which the last 32 bits may be a dotted IPv4 address. */
  predicate SpellsGroups(parts: seq<string>, bytes: IP, dotted: bool) {
    if |parts| == 0 then bytes == []
    else if dotted && |parts| == 1 && '.' in parts[0] then |bytes| == 4 && parts[0] == IPv4String(bytes)
    else
      && |bytes| >= 2
      && IsGroup(parts[0]) && HexNumber(parts[0]) == 256 * (bytes[0] as int) + bytes[1] as int
      && SpellsGroups(parts[1..], bytes[2..], dotted)
  }

  function ReadGroups(parts: seq<string>, dotted: bool): (r: Option<IP>) {
    if |parts| == 0 then Some([])
    else if dotted && |parts| == 1 && '.' in parts[0] then ParseIPv4(parts[0])
    else if !IsGroup(parts[0]) then None
    else
      GroupFits(parts[0]);
      var v: nat := HexNumber(parts[0]);
      assert v < 65536;
      match ReadGroups(parts[1..], dotted)
      case None => None
      case Some(rest) => Some([v / 256, v % 256] + rest)
  }

  lemma {:induction false} GroupsExact(parts: seq<string>, bytes: IP, dotted: bool)
    ensures ReadGroups(parts, dotted) == Some(bytes) <==> SpellsGroups(parts, bytes, dotted)
    decreases |parts|
  {
    if |parts| == 0 {
    } else if dotted && |parts| == 1 && '.' in parts[0] {
      if |bytes| == 4 {
        IPv4Exact(parts[0], bytes);
      }
    } else if IsGroup(parts[0]) {
      GroupFits(parts[0]);
      if |bytes| >= 2 {
        GroupsExact(parts[1..], bytes[2..], dotted);
        assert bytes == [bytes[0], bytes[1]] + bytes[2..];
      }
    }
  }

  lemma {:induction false} GroupsArePlain(parts: seq<string>, bytes: IP, dotted: bool)
    requires SpellsGroups(parts, bytes, dotted)
    ensures forall i :: 0 <= i < |parts| ==> parts[i] != "" && ':' !in parts[i]
    decreases |parts|
  {
    if |parts| == 0 {
    } else if dotted && |parts| == 1 && '.' in parts[0] {
      IPv4StringHasNo(bytes, ':');
    } else {
      GroupsArePlain(parts[1..], bytes[2..], dotted);
      assert forall i :: 1 <= i < |parts| ==> parts[i] == parts[1..][i - 1];
    }
  }

  // ----- IPv6 text

  function Zeros(n: nat): (r: IP) { seq(n, _ => 0) }

  /** All eight groups, separated by colons. */
  predicate SpellsFull(s: string, v6: IP, parts: seq<string>) {
    |v6| == 16 && SpellsGroups(parts, v6, true) && s == Text.Join(parts, ':')
  }

  /** Groups around a double colon, which stands for one group of zeros or more. */
  predicate SpellsShort(s: string, v6: IP, l: seq<string>, r: seq<string>, a: IP, b: IP) {
    && SpellsGroups(l, a, false) && SpellsGroups(r, b, true) && |a| + |b| <= 14
    && v6 == a + Zeros(16 - |a| - |b|) + b
    && s == Text.Join(l, ':') + ("::" + Text.Join(r, ':'))
  }

  /** The text forms of section 2.2 of RFC 4291. */
  ghost predicate SpellsIPv6(s: string, v6: IP) {
    (exists parts :: SpellsFull(s, v6, parts)) || (exists l, r, a, b :: SpellsShort(s, v6, l, r, a, b))
  }

  /** The position of the first double colon, or the length. */
  function DoubleColon(s: string): (i: nat)
    ensures i <= |s| && (i < |s| ==> i + 2 <= |s| && s[i] == ':' && s[i + 1] == ':')
  {
    if |s| < 2 then |s|
    else if s[0] == ':' && s[1] == ':' then 0
    else 1 + DoubleColon(s[1..])
  }

  function ReadHalf(s: string, dotted: bool): (r: Option<IP>) {
    if s == "" then Some([]) else ReadGroups(Text.Split(s, ':'), dotted)
  }

  function ParseIPv6(s: string): (r: Option<IP>)
    ensures r.Some? ==> |r.value| == 16
  {
    var i := DoubleColon(s);
    if i == |s| then
      match ReadGroups(Text.Split(s, ':'), true)
      case None => None
      case Some(v6) => if |v6| == 16 then Some(v6) else None
    else
      match (ReadHalf(s[..i], false), ReadHalf(s[i + 2..], true))
      case (Some(a), Some(b)) => if |a| + |b| <= 14 then Some(a + Zeros(16 - |a| - |b|) + b) else None
      case _ => None
  }

  lemma {:induction false} SkipsPlain(part: string, rest: string)
    requires ':' !in part
    ensures DoubleColon(part + rest) == |part| + DoubleColon(rest)
  {
    if part == "" {
      assert part + rest == rest;
    } else {
      assert (part + rest)[1..] == part[1..] + rest;
      SkipsPlain(part[1..], rest);
    }
  }

  lemma SkipsOneGroup(part: string, j: string, rest: string)
    requires part != "" && ':' !in part && j != "" && j[0] != ':'
    ensures DoubleColon(part + (":" + (j + rest))) == |part| + 1 + DoubleColon(j + rest)
  {
    SkipsPlain(part, ":" + (j + rest));
    assert (":" + (j + rest))[1..] == j + rest && (j + rest)[0] == j[0];
  }

  /** No double colon comes up among groups. */
  lemma {:induction false} SkipsGroups(parts: seq<string>, rest: string)
    requires forall i :: 0 <= i < |parts| ==> parts[i] != "" && ':' !in parts[i]
    ensures DoubleColon(Text.Join(parts, ':') + rest) == |Text.Join(parts, ':')| + DoubleColon(rest)
    ensures |parts| > 0 ==> Text.Join(parts, ':') != "" && Text.Join(parts, ':')[0] != ':'
  {
    if |parts| == 0 {
      assert "" + rest == rest;
    } else if |parts| == 1 {
      SkipsPlain(parts[0], rest);
    } else {
      var j := Text.Join(parts[1..], ':');
      SkipsGroups(parts[1..], rest);
      SkipsOneGroup(parts[0], j, rest);
      assert Text.Join(parts, ':') == parts[0] + ":" + j;
      assert parts[0] + ":" + j + rest == parts[0] + (":" + (j + rest));
    }
  }

  /** Splitting joined groups gives them back. */
  lemma HalfReads(s: string, parts: seq<string>, bytes: IP, dotted: bool)
    requires s == Text.Join(parts, ':') && SpellsGroups(parts, bytes, dotted)
    ensures ReadHalf(s, dotted) == Some(bytes)
    ensures |parts| > 0 ==> s != "" && Text.Split(s, ':') == parts
  {
    GroupsArePlain(parts, bytes, dotted);
    GroupsExact(parts, bytes, dotted);
    if |parts| > 0 {
      SkipsGroups(parts, "");
      Text.SplitJoin(parts, ':');
    }
  }

  lemma ReadsFull(s: string, v6: IP, parts: seq<string>)
    requires SpellsFull(s, v6, parts)
    ensures ParseIPv6(s) == Some(v6)
  {
    GroupsArePlain(parts, v6, true);
    SkipsGroups(parts, "");
    assert s + "" == s;
    HalfReads(s, parts, v6, true);
  }

  lemma AroundDoubleColon(left: string, right: string)
    ensures var s := left + ("::" + right); s[..|left|] == left && s[|left| + 2..] == right
  {
    assert ("::" + right)[2..] == right;
  }

  lemma HalvesRead(s: string, left: string, right: string, a: IP, b: IP)
    requires s == left + ("::" + right) && DoubleColon(s) == |left|
    requires ReadHalf(left, false) == Some(a) && ReadHalf(right, true) == Some(b) && |a| + |b| <= 14
    ensures ParseIPv6(s) == Some(a + Zeros(16 - |a| - |b|) + b)
  {
    AroundDoubleColon(left, right);
  }

  lemma ReadsShort(s: string, v6: IP, l: seq<string>, r: seq<string>, a: IP, b: IP)
    requires SpellsShort(s, v6, l, r, a, b)
    ensures ParseIPv6(s) == Some(v6)
  {
    var left, right := Text.Join(l, ':'), Text.Join(r, ':');
    GroupsArePlain(l, a, false);
    SkipsGroups(l, "::" + right);
    HalfReads(left, l, a, false);
    HalfReads(right, r, b, true);
    HalvesRead(s, left, right, a, b);
  }

  lemma HalfSpells(s: string, dotted: bool, bytes: IP) returns (parts: seq<string>)
    requires ReadHalf(s, dotted) == Some(bytes)
    ensures s == Text.Join(parts, ':') && SpellsGroups(parts, bytes, dotted)
  {
    if s == "" {
      parts := [];
    } else {
      parts := Text.Split(s, ':');
      Text.JoinSplit(s, ':');
      GroupsExact(parts, bytes, dotted);
    }
  }

  /** The parser accepts exactly those forms, and reads what they spell. */
  lemma IPv6Exact(s: string, v6: IP)
    ensures ParseIPv6(s) == Some(v6) <==> SpellsIPv6(s, v6)
  {
    if ParseIPv6(s) == Some(v6) {
      IPv6Spelled(s, v6);
    }
    if parts :| SpellsFull(s, v6, parts) {
      ReadsFull(s, v6, parts);
    }
    if l, r, a, b :| SpellsShort(s, v6, l, r, a, b) {
      ReadsShort(s, v6, l, r, a, b);
    }
  }

  lemma IPv6Spelled(s: string, v6: IP)
    requires ParseIPv6(s) == Some(v6)
    ensures SpellsIPv6(s, v6)
  {
    var i := DoubleColon(s);
    if i == |s| {
      Text.JoinSplit(s, ':');
      GroupsExact(Text.Split(s, ':'), v6, true);
      assert SpellsFull(s, v6, Text.Split(s, ':'));
    } else {
      var a, b := ReadHalf(s[..i], false).value, ReadHalf(s[i + 2..], true).value;
      var l := HalfSpells(s[..i], false, a);
      var r := HalfSpells(s[i + 2..], true, b);
      assert s == s[..i] + ("::" + s[i + 2..]);
      assert SpellsShort(s, v6, l, r, a, b);
    }
  }

  // ----- either

  function ParseAddr(s: string): (r: Option<IP>)
    ensures r.Some? ==> IsValid(r.value)
  {
    if ':' in s then ParseIPv6(s) else ParseIPv4(s)
  }

  /** An IPv4 address as it is printed, or an IPv6 address in any of its forms. */
  ghost predicate SpellsAddr(s: string, ip: IP) {
    if |ip| == 4 then s == IPv4String(ip) else SpellsIPv6(s, ip)
  }

  lemma NoColonNoIPv6(s: string)
    requires ':' !in s
    ensures ParseIPv6(s) == None
  {
    Text.SplitWithoutSeparator(s, ':');
    SkipsPlain(s, "");
    assert s + "" == s;
    assert [s][1..] == [] && ReadGroups([], true) == Some([]);
  }

  lemma AddrExact(s: string, ip: IP)
    requires IsValid(ip)
    ensures ParseAddr(s) == Some(ip) <==> SpellsAddr(s, ip)
  {
    if |ip| == 4 {
      IPv4Exact(s, ip);
      IPv4StringHasNo(ip, ':');
    } else {
      IPv6Exact(s, ip);
      if ':' !in s {
        NoColonNoIPv6(s);
      }
    }
  }
}
