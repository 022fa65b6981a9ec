/**
 An address with its network (manifest/ipnet.go), over Go's `net.IP` and `net.IPMask`
 printers and `net.ParseCIDR`.
 */
module IPWithNet {
  import opened Wrappers
  import opened Net
  import opened IPText
  import Text
  import HardwareAddr

  /** `ip` is None for a nil address. */
  datatype IPWithNet = IPWithNet(ip: Option<IP>, netIP: IP, mask: seq<byte>)

  const EMPTY := IPWithNet(None, [], [])

  // ----- masks

  const POWERS: seq<int> := [1, 2, 4, 8, 16, 32, 64, 128, 256]

  function Clamp(ones: int): (k: nat)
    ensures k <= 8
  {
    if ones <= 0 then 0 else if ones >= 8 then 8 else ones
  }

  /** A byte starting with `ones` one bits, as far as they fit. */
  function MaskByte(ones: int): (b: byte) {
    256 - POWERS[8 - Clamp(ones)]
  }

  /** `b` with all but its first `ones` bits cleared. */
  function KeepBits(b: byte, ones: int): (r: byte) {
    b - b % POWERS[8 - Clamp(ones)]
  }

  /** That is the start of the block of its length that `b` lies in. */
  lemma BlockStart(b: byte, ones: int)
    ensures KeepBits(b, ones) % POWERS[8 - Clamp(ones)] == 0
    ensures KeepBits(b, ones) <= b < KeepBits(b, ones) + POWERS[8 - Clamp(ones)]
  {
    var k := Clamp(ones);
    if
    case k == 0 =>
    case k == 1 =>
    case k == 2 =>
    case k == 3 =>
    case k == 4 =>
    case k == 5 =>
    case k == 6 =>
    case k == 7 =>
    case k == 8 =>
  }

  /** Bit `j` of a byte, counted from the most significant. */
  predicate Bit(b: byte, j: nat)
    requires j < 8
  {
    b / POWERS[7 - j] % 2 == 1
  }

  lemma MaskBits(ones: int, j: nat)
    requires j < 8
    ensures Bit(MaskByte(ones), j) <==> j < ones
  {
    var k := Clamp(ones);
    if
    case k == 0 =>
    case k == 1 =>
    case k == 2 =>
    case k == 3 =>
    case k == 4 =>
    case k == 5 =>
    case k == 6 =>
    case k == 7 =>
    case k == 8 =>
  }

  /** `net.CIDRMask(n, 8 * size)` */
  function CIDRMask(n: nat, size: nat): (m: seq<byte>)
    requires n <= 8 * size
    ensures |m| == size
  {
    seq(size, i requires 0 <= i < size => MaskByte(n - 8 * i))
  }

  /** `net.IPMask.String`: plain hexadecimal, no dots. */
  function MaskString(m: seq<byte>): (s: string) {
    if |m| == 0 then "<nil>" else HexString(m)
  }

  function HexString(m: seq<byte>): (s: string)
    ensures |s| == 2 * |m|
  {
    if |m| == 0 then "" else HardwareAddr.ByteText(m[0]) + HexString(m[1..])
  }

  /** `net.IP.Mask` with a mask of `n` ones. */
  function ApplyMask(ip: IP, n: nat): (r: IP)
    requires n <= 8 * |ip|
    ensures |r| == |ip|
  {
    seq(|ip|, i requires 0 <= i < |ip| => KeepBits(ip[i], n - 8 * i))
  }

  /** The mask of length `n` has exactly its first `n` bits set. */
  lemma CIDRMaskBits(n: nat, size: nat, i: nat)
    requires n <= 8 * size && i < 8 * size
    ensures Bit(CIDRMask(n, size)[i / 8], i % 8) <==> i < n
  {
    MaskBits(n - 8 * (i / 8), i % 8);
  }

  // ----- net.ParseCIDR

  const BIG := 0xFFFFFF

  /** `dtoi` continued at index `i` with the value read so far: value, index reached, success. */
  function Dtoi(s: string, i: nat, n: nat): (r: (nat, nat, bool))
    requires i <= |s|
    decreases |s| - i
  {
    if i < |s| && IsDigit(s[i]) then
      var v := 10 * n + DigitValue(s[i]);
      if v >= BIG then (BIG, i, false) else Dtoi(s, i + 1, v)
    else if i == 0 then (0, 0, false)
    else (n, i, true)
  }

  function ParsePrefixLength(s: string, max: nat): (n: Option<nat>)
    ensures n.Some? ==> n.value <= max
  {
    var (n, i, ok) := Dtoi(s, 0, 0);
    if ok && i == |s| && n <= max then Some(n) else None
  }

  lemma {:induction false} ValueGrows(s: string, i: nat)
    requires i <= |s| && forall j :: 0 <= j < |s| ==> IsDigit(s[j])
    ensures Value(s[..i]) <= Value(s)
    decreases |s|
  {
    if i < |s| {
      assert s[..|s| - 1][..i] == s[..i];
      ValueGrows(s[..|s| - 1], i);
    } else {
      assert s[..i] == s;
    }
  }

  lemma {:induction false} DtoiReads(s: string, i: nat)
    requires i <= |s| && IsNumber(s)
    ensures Value(s) < BIG ==> Dtoi(s, i, Value(s[..i])) == (Value(s), |s|, true)
    ensures Value(s[..i]) < BIG <= Value(s) ==> !Dtoi(s, i, Value(s[..i])).2
    decreases |s| - i
  {
    if i < |s| {
      assert s[..i + 1][..i] == s[..i];
      assert Value(s[..i + 1]) == 10 * Value(s[..i]) + DigitValue(s[i]);
      ValueGrows(s, i + 1);
      DtoiReads(s, i + 1);
    } else {
      assert s[..i] == s;
    }
  }

  lemma {:induction false} DtoiStops(s: string, i: nat, n: nat)
    requires i <= |s|
    ensures Dtoi(s, i, n).2 && Dtoi(s, i, n).1 == |s| ==> |s| > 0 && forall j :: i <= j < |s| ==> IsDigit(s[j])
    decreases |s| - i
  {
    if i < |s| && IsDigit(s[i]) {
      DtoiStops(s, i + 1, 10 * n + DigitValue(s[i]));
    }
  }

  /** A prefix length is any decimal number up to the length of the address, with leading zeros or without. */
  lemma PrefixLengthExact(s: string, max: nat, n: nat)
    requires max < BIG
    ensures ParsePrefixLength(s, max) == Some(n) <==> SpellsLength(s, max, n)
  {
    DtoiStops(s, 0, 0);
    if IsNumber(s) {
      assert s[..0] == "";
      DtoiReads(s, 0);
    }
  }

  /** What a CIDR text denotes: the 16-byte address, its network and its mask. */
  function Network(ip: IP, n: nat): (w: IPWithNet)
    requires IsValid(ip) && n <= 8 * |ip|
  {
    IPWithNet(Some(To16(ip)), ApplyMask(ip, n), CIDRMask(n, |ip|))
  }

  /** How many values the i-th byte takes in a network of length `n`. */
  function BlockSize(n: nat, i: nat): (p: nat)
    ensures p > 0
  {
    if n >= 8 * i + 8 then 1 else if n <= 8 * i then 256 else [128, 64, 32, 16, 8, 4, 2][n - 8 * i - 1]
  }

  /** Byte by byte, the mask is the block's complement, and the network is the start of the block the address lies in. */
  lemma NetworkInFull(ip: IP, n: nat, i: nat)
    requires IsValid(ip) && n <= 8 * |ip| && i < |ip|
    ensures var w, p := Network(ip, n), BlockSize(n, i);
            && w.ip.Some? && |w.ip.value| == 16 && Equal(w.ip.value, ip)
            && |w.netIP| == |ip| && |w.mask| == |ip|
            && w.mask[i] == 256 - p
            && w.netIP[i] % p == 0 && w.netIP[i] <= ip[i] < w.netIP[i] + p
  {
    BlockStart(ip[i], n - 8 * i);
    assert POWERS[8 - Clamp(n - 8 * i)] == BlockSize(n, i);
    if |ip| == 4 {
      assert To16(ip)[..12] == V4_IN_V6_PREFIX && To16(ip)[12..] == ip;
    }
  }

  function ReadCIDR(addr: string, length: string): (r: Option<IPWithNet>) {
    match ParseAddr(addr)
    case None => None
    case Some(ip) =>
      match ParsePrefixLength(length, 8 * |ip|)
      case None => None
      case Some(n) => Some(Network(ip, n))
  }

  function ParseCIDR(s: string): (r: Option<IPWithNet>) {
    var i := Text.IndexOf(s, '/');
    if i == |s| then None else ReadCIDR(s[..i], s[i + 1..])
  }

  /** The text before the first slash spells the address, the one behind it is its prefix length in decimal. */
  ghost predicate SpellsCIDR(s: string, ip: IP, n: nat) {
    var i := Text.IndexOf(s, '/');
    i < |s| && IsValid(ip) && SpellsAddr(s[..i], ip) && SpellsLength(s[i + 1..], 8 * |ip|, n)
  }

  predicate SpellsLength(s: string, max: nat, n: nat) {
    IsNumber(s) && Value(s) == n && n <= max
  }

  lemma ReadCIDRExact(addr: string, length: string, w: IPWithNet)
    ensures ReadCIDR(addr, length) == Some(w) <==>
            exists ip, n :: IsValid(ip) && SpellsAddr(addr, ip) && SpellsLength(length, 8 * |ip|, n) && w == Network(ip, n)
  {
    if ReadCIDR(addr, length) == Some(w) {
      var ip := ParseAddr(addr).value;
      var n := ParsePrefixLength(length, 8 * |ip|).value;
      AddrExact(addr, ip);
      PrefixLengthExact(length, 8 * |ip|, n);
    }
    if ip, n :| IsValid(ip) && SpellsAddr(addr, ip) && SpellsLength(length, 8 * |ip|, n) && w == Network(ip, n) {
      AddrExact(addr, ip);
      PrefixLengthExact(length, 8 * |ip|, n);
    }
  }

  /** Exactly such texts are accepted, and what they spell is what is read. */
  lemma ParseCIDRExact(s: string, w: IPWithNet)
    ensures ParseCIDR(s) == Some(w) <==> exists ip, n :: SpellsCIDR(s, ip, n) && w == Network(ip, n)
  {
    var i := Text.IndexOf(s, '/');
    if i < |s| {
      ReadCIDRExact(s[..i], s[i + 1..], w);
      if ip, n :| IsValid(ip) && SpellsAddr(s[..i], ip) && SpellsLength(s[i + 1..], 8 * |ip|, n) && w == Network(ip, n) {
        assert SpellsCIDR(s, ip, n);
      }
    }
  }

  lemma ParseCIDRAfterPrint(ip: IP, tail: string)
    requires IsIPv4(ip)
    ensures ParseCIDR(IPv4String(ip) + "/" + tail) ==
            match ParsePrefixLength(tail, 32)
            case None => None
            case Some(n) => Some(Network(To4(ip), n))
  {
    var a := IPv4String(ip);
    var s := a + "/" + tail;
    IPv4StringHasNo(ip, '/');
    Text.IndexOfSeparator(a, tail, '/');
    assert s[..|a|] == a && s[|a| + 1..] == tail;
    AddrExact(a, To4(ip));
  }

  // ----- marshalling

  /** `IPWithNet.String`, which is also `MarshalText`. */
  function MarshalText(w: IPWithNet): (s: string)
    requires w.ip.Some? && IsIPv4(w.ip.value)
  {
    IPv4String(w.ip.value) + "/" + MaskString(w.mask)
  }

  /** The CIDR form of section 3.1 of RFC 4632: the prefix length in decimal. */
  function CIDRText(ip: IP, n: nat): (s: string)
    requires IsIPv4(ip) && n <= 32
  {
    IPv4String(ip) + "/" + Decimal(n)
  }

  lemma DecimalPrefixLength(n: nat)
    requires n <= 32
    ensures ParsePrefixLength(Decimal(n), 32) == Some(n)
  {
    var s := Decimal(n);
    if n < 10 {
      assert Dtoi(s, 0, 0) == Dtoi(s, 1, n);
    } else {
      assert DigitValue(s[0]) == n / 10 && DigitValue(s[1]) == n % 10;
      assert Dtoi(s, 0, 0) == Dtoi(s, 1, n / 10) == Dtoi(s, 2, n);
    }
  }

  lemma HexOfFour(m: seq<byte>)
    requires |m| == 4
    ensures HexString(m) == HardwareAddr.ByteText(m[0]) + HardwareAddr.ByteText(m[1]) +
                            HardwareAddr.ByteText(m[2]) + HardwareAddr.ByteText(m[3])
  {
    assert m[1..][1..] == m[2..] && m[2..][1..] == m[3..] && m[3..][1..] == [];
    assert HexString(m[3..]) == HardwareAddr.ByteText(m[3]) + HexString([]);
    assert HexString(m[2..]) == HardwareAddr.ByteText(m[2]) + HexString(m[3..]);
    assert HexString(m[1..]) == HardwareAddr.ByteText(m[1]) + HexString(m[2..]);
  }

  lemma MaskTextUnrolled(n: nat)
    requires n <= 32
    ensures MaskString(CIDRMask(n, 4)) ==
            HardwareAddr.ByteText(MaskByte(n)) + HardwareAddr.ByteText(MaskByte(n - 8)) +
            HardwareAddr.ByteText(MaskByte(n - 16)) + HardwareAddr.ByteText(MaskByte(n - 24))
  {
    var m := CIDRMask(n, 4);
    assert m[0] == MaskByte(n) && m[1] == MaskByte(n - 8) && m[2] == MaskByte(n - 16) && m[3] == MaskByte(n - 24);
    HexOfFour(m);
  }

  lemma DtoiStep(s: string, i: nat, n: nat)
    requires i < |s| && IsDigit(s[i]) && 10 * n + DigitValue(s[i]) < BIG
    ensures Dtoi(s, i, n) == Dtoi(s, i + 1, 10 * n + DigitValue(s[i]))
  {
  }

  lemma {:induction false} DtoiZeros(s: string, i: nat)
    requires 0 < |s| && i <= |s| && forall j :: i <= j < |s| ==> s[j] == '0'
    ensures Dtoi(s, i, 0) == if i < |s| || i > 0 then (0, |s|, true) else (0, 0, false)
    decreases |s| - i
  {
    if i < |s| {
      DtoiStep(s, i, 0);
      DtoiZeros(s, i + 1);
    }
  }

  /** An eight followed by seven zeros overflows. */
  lemma DtoiHalf(s: string)
    requires |s| == 8 && s[0] == '8' && forall j :: 1 <= j < 8 ==> s[j] == '0'
    ensures !Dtoi(s, 0, 0).2
  {
    DtoiStep(s, 0, 0);
    DtoiStep(s, 1, 8);
    DtoiStep(s, 2, 80);
    DtoiStep(s, 3, 800);
    DtoiStep(s, 4, 8000);
    DtoiStep(s, 5, 80000);
    DtoiStep(s, 6, 800000);
  }

  /** A hexadecimal mask reads as a prefix length only when it is all zero. */
  lemma HexMaskAsPrefixLength(n: nat)
    requires n <= 32
    ensures ParsePrefixLength(MaskString(CIDRMask(n, 4)), 32) == if n == 0 then Some(0) else None
  {
    var s := MaskString(CIDRMask(n, 4));
    MaskTextUnrolled(n);
    if n == 0 {
      assert forall j :: 0 <= j < |s| ==> s[j] == '0';
      DtoiZeros(s, 0);
    } else if n == 1 {
      assert s[0] == '8' && forall j :: 1 <= j < 8 ==> s[j] == '0';
      DtoiHalf(s);
    } else {
      assert s[0] == HardwareAddr.ByteText(MaskByte(n))[0];
      assert HardwareAddr.HexValue(s[0]) == Some(MaskByte(n) / 16);
      assert !IsDigit(s[0]);
    }
  }

  /**
   `MarshalText` prints the mask in hexadecimal, so its own text is accepted back exactly
   at prefix length zero.
   */
  lemma MarshalTextReadableIffZero(ip: IP, n: nat)
    requires IsIPv4(ip) && n <= 32
    ensures var w := Network(To4(ip), n);
            ParseCIDR(MarshalText(w)) == if n == 0 then Some(w) else None
  {
    var v4 := To4(ip);
    var w := Network(v4, n);
    HexMaskAsPrefixLength(n);
    assert To16(v4)[12..] == v4 && To16(v4)[..12] == V4_IN_V6_PREFIX;
    ParseCIDRAfterPrint(w.ip.value, MaskString(w.mask));
  }

  /** The decimal form denotes the address and network it was printed from, at every length. */
  lemma CIDRTextRoundTrip(ip: IP, n: nat)
    requires IsIPv4(ip) && n <= 32
    ensures ParseCIDR(CIDRText(ip, n)) == Some(Network(To4(ip), n))
  {
    DecimalPrefixLength(n);
    ParseCIDRAfterPrint(ip, Decimal(n));
  }

  /** A variable of type `IPWithNet`, as a pointer receiver sees it. */
  class IPWithNetVar {
    var value: IPWithNet

    constructor (w: IPWithNet)
      ensures value == w
    {
      value := w;
    }

    /** Empty text clears the variable; a bad text leaves it alone. */
    method UnmarshalText(text: string) returns (ok: bool)
      modifies this
      ensures ok <==> text == "" || exists ip, n :: SpellsCIDR(text, ip, n)
      ensures !ok ==> value == old(value)
      ensures ok && text == "" ==> value == EMPTY
      ensures ok && text != "" ==> exists ip, n :: SpellsCIDR(text, ip, n) && value == Network(ip, n)
      ensures ok && text != "" ==> value.ip.Some? && |value.ip.value| == 16
    {
      if text == "" {
        value := EMPTY;
        return true;
      }
      var v := ParseCIDR(text);
      AcceptedIff(text);
      if v.None? {
        return false;
      }
      ParseCIDRExact(text, v.value);
      value := v.value;
      return true;
    }
  }

  lemma AcceptedIff(s: string)
    ensures ParseCIDR(s).Some? <==> exists ip, n :: SpellsCIDR(s, ip, n)
  {
    if ParseCIDR(s).Some? {
      ParseCIDRExact(s, ParseCIDR(s).value);
    }
    if ip, n :| SpellsCIDR(s, ip, n) {
      ParseCIDRExact(s, Network(ip, n));
    }
  }
}
