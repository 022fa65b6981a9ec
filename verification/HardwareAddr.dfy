/**
 Hardware addresses and their text (manifest/mac.go), over Go's `net.HardwareAddr`
 printer and `net.ParseMAC` parser. The printed text is the store's MAC index key.
 */
module HardwareAddr {
  import opened Wrappers
  import opened Net

  type MAC = seq<byte>

  // ----- hexadecimal digits

  const HEX_DIGITS: string := "0123456789abcdef"

  function HexValue(c: char): (v: Option<nat>)
    ensures v.Some? ==> v.value < 16
  {
    if '0' <= c <= '9' then Some(c as int - '0' as int)
    else if 'a' <= c <= 'f' then Some(c as int - 'a' as int + 10)
    else if 'A' <= c <= 'F' then Some(c as int - 'A' as int + 10)
    else None
  }

  /** `hi` and `lo`, in either letter case, are the two hexadecimal digits of `b`. */
  predicate SpellsByte(hi: char, lo: char, b: byte) {
    && HexValue(hi) == Some(b / 16)
    && HexValue(lo) == Some(b % 16)
  }

  function ParseByte(hi: char, lo: char): (b: Option<byte>)
    ensures b.Some? <==> HexValue(hi).Some? && HexValue(lo).Some?
    ensures b.Some? ==> SpellsByte(hi, lo, b.value)
  {
    match (HexValue(hi), HexValue(lo))
    case (Some(h), Some(l)) => Some(16 * h + l)
    case _ => None
  }

  function ByteText(b: byte): (s: string)
    ensures |s| == 2 && SpellsByte(s[0], s[1], b)
  {
    [HEX_DIGITS[b / 16], HEX_DIGITS[b % 16]]
  }

  // ----- printing

  /** `HardwareAddr.String`: lower-case pairs joined by colons. */
  function String(a: MAC): (s: string)
    ensures |a| > 0 ==> |s| == 3 * |a| - 1
    ensures |a| == 0 ==> s == ""
  {
    if |a| == 0 then ""
    else if |a| == 1 then ByteText(a[0])
    else ByteText(a[0]) + ":" + String(a[1..])
  }

  // ----- parsing

  function ParsePairs(s: string, sep: char): (r: Option<MAC>) {
    if |s| < 2 then None
    else match ParseByte(s[0], s[1])
      case None => None
      case Some(b) =>
        if |s| == 2 then Some([b])
        else if s[2] != sep then None
        else match ParsePairs(s[3..], sep)
          case None => None
          case Some(rest) => Some([b] + rest)
  }

  function ParseQuads(s: string): (r: Option<MAC>) {
    if |s| < 4 then None
    else match (ParseByte(s[0], s[1]), ParseByte(s[2], s[3]))
      case (Some(b), Some(c)) =>
        if |s| == 4 then Some([b, c])
        else if s[4] != '.' then None
        else (match ParseQuads(s[5..])
              case None => None
              case Some(rest) => Some([b, c] + rest))
      case _ => None
  }

  predicate IsMACLength(n: int) { n == 6 || n == 8 || n == 20 }

  function ParseMAC(s: string): (r: Option<MAC>) {
    if |s| < 14 then None
    else if s[2] == ':' || s[2] == '-' then
      if (|s| + 1) % 3 == 0 && IsMACLength((|s| + 1) / 3) then ParsePairs(s, s[2]) else None
    else if s[4] == '.' then
      if (|s| + 1) % 5 == 0 && IsMACLength(2 * (|s| + 1) / 5) then ParseQuads(s) else None
    else None
  }

  // ----- the three documented spellings, position by position

  predicate SpellsPairs(s: string, hw: MAC, sep: char) {
    && |hw| >= 1
    && |s| == 3 * |hw| - 1
    && (forall i :: 0 <= i < |hw| ==> SpellsByte(s[3 * i], s[3 * i + 1], hw[i]))
    && (forall i :: 0 <= i < |hw| - 1 ==> s[3 * i + 2] == sep)
  }

  predicate SpellsQuads(s: string, hw: MAC) {
    && |hw| >= 2 && |hw| % 2 == 0
    && |s| == 5 * (|hw| / 2) - 1
    && (forall i :: 0 <= i < |hw| / 2 ==>
          && SpellsByte(s[5 * i], s[5 * i + 1], hw[2 * i])
          && SpellsByte(s[5 * i + 2], s[5 * i + 3], hw[2 * i + 1]))
    && (forall i :: 0 <= i < |hw| / 2 - 1 ==> s[5 * i + 4] == '.')
  }

  /** `s` is a colon, hyphen or dotted spelling of `hw`, in any mixture of letter cases. */
  predicate Spells(s: string, hw: MAC) {
    SpellsPairs(s, hw, ':') || SpellsPairs(s, hw, '-') || SpellsQuads(s, hw)
  }

  /** Dropping or adding the first group of a pair spelling. */
  lemma PairsStep(s: string, sep: char, hw: MAC)
    requires |s| >= 3 && |hw| >= 2
    ensures SpellsPairs(s, hw, sep) <==>
            SpellsByte(s[0], s[1], hw[0]) && s[2] == sep && SpellsPairs(s[3..], hw[1..], sep)
  {
    var t, rest := s[3..], hw[1..];
    if SpellsPairs(s, hw, sep) {
      assert SpellsByte(s[3 * 0], s[3 * 0 + 1], hw[0]) && s[3 * 0 + 2] == sep;
      forall i | 0 <= i < |rest| ensures SpellsByte(t[3 * i], t[3 * i + 1], rest[i]) {
        assert SpellsByte(s[3 * (i + 1)], s[3 * (i + 1) + 1], hw[i + 1]);
      }
      forall i | 0 <= i < |rest| - 1 ensures t[3 * i + 2] == sep {
        assert s[3 * (i + 1) + 2] == sep;
      }
    }
    if SpellsByte(s[0], s[1], hw[0]) && s[2] == sep && SpellsPairs(t, rest, sep) {
      forall i | 0 <= i < |hw| ensures SpellsByte(s[3 * i], s[3 * i + 1], hw[i]) {
        if i > 0 { assert SpellsByte(t[3 * (i - 1)], t[3 * (i - 1) + 1], rest[i - 1]); }
      }
      forall i | 0 <= i < |hw| - 1 ensures s[3 * i + 2] == sep {
        if i > 0 { assert t[3 * (i - 1) + 2] == sep; }
      }
    }
  }

  lemma {:induction false} PairsComplete(s: string, sep: char, hw: MAC)
    requires SpellsPairs(s, hw, sep)
    ensures ParsePairs(s, sep) == Some(hw)
    decreases |s|
  {
    assert SpellsByte(s[3 * 0], s[3 * 0 + 1], hw[0]);
    if |hw| == 1 {
      assert hw == [hw[0]];
    } else {
      PairsStep(s, sep, hw);
      PairsComplete(s[3..], sep, hw[1..]);
      assert hw == [hw[0]] + hw[1..];
    }
  }

  lemma {:induction false} PairsSound(s: string, sep: char)
    requires ParsePairs(s, sep).Some?
    ensures SpellsPairs(s, ParsePairs(s, sep).value, sep)
    decreases |s|
  {
    var hw := ParsePairs(s, sep).value;
    if |s| > 2 {
      PairsSound(s[3..], sep);
      var rest := ParsePairs(s[3..], sep).value;
      assert hw[1..] == rest;
      PairsStep(s, sep, hw);
    }
  }

  /** Dropping the first group of a dotted spelling. */
  lemma QuadsDrop(s: string, hw: MAC)
    requires |s| >= 5 && |hw| >= 4 && SpellsQuads(s, hw)
    ensures SpellsByte(s[0], s[1], hw[0]) && SpellsByte(s[2], s[3], hw[1]) && s[4] == '.'
    ensures SpellsQuads(s[5..], hw[2..])
  {
    var t, rest := s[5..], hw[2..];
    assert SpellsByte(s[5 * 0], s[5 * 0 + 1], hw[2 * 0]) && s[5 * 0 + 4] == '.';
    forall i | 0 <= i < |rest| / 2
      ensures SpellsByte(t[5 * i], t[5 * i + 1], rest[2 * i])
      ensures SpellsByte(t[5 * i + 2], t[5 * i + 3], rest[2 * i + 1])
    {
      assert SpellsByte(s[5 * (i + 1)], s[5 * (i + 1) + 1], hw[2 * (i + 1)]);
    }
    forall i | 0 <= i < |rest| / 2 - 1 ensures t[5 * i + 4] == '.' {
      assert s[5 * (i + 1) + 4] == '.';
    }
  }

  /** Adding a first group to a dotted spelling. */
  lemma QuadsAdd(s: string, hw: MAC)
    requires |s| >= 5 && |hw| >= 4
    requires SpellsByte(s[0], s[1], hw[0]) && SpellsByte(s[2], s[3], hw[1]) && s[4] == '.'
    requires SpellsQuads(s[5..], hw[2..])
    ensures SpellsQuads(s, hw)
  {
    var t, rest := s[5..], hw[2..];
    forall i | 0 <= i < |hw| / 2
      ensures SpellsByte(s[5 * i], s[5 * i + 1], hw[2 * i])
      ensures SpellsByte(s[5 * i + 2], s[5 * i + 3], hw[2 * i + 1])
    {
      if i > 0 { assert SpellsByte(t[5 * (i - 1)], t[5 * (i - 1) + 1], rest[2 * (i - 1)]); }
    }
    forall i | 0 <= i < |hw| / 2 - 1 ensures s[5 * i + 4] == '.' {
      if i > 0 { assert t[5 * (i - 1) + 4] == '.'; }
    }
  }

  lemma {:induction false} QuadsComplete(s: string, hw: MAC)
    requires SpellsQuads(s, hw)
    ensures ParseQuads(s) == Some(hw)
    decreases |s|
  {
    assert SpellsByte(s[5 * 0], s[5 * 0 + 1], hw[2 * 0]);
    if |hw| == 2 {
      assert hw == [hw[0], hw[1]];
    } else {
      QuadsDrop(s, hw);
      QuadsComplete(s[5..], hw[2..]);
      assert hw == [hw[0], hw[1]] + hw[2..];
    }
  }

  lemma {:induction false} QuadsSound(s: string)
    requires ParseQuads(s).Some?
    ensures SpellsQuads(s, ParseQuads(s).value)
    decreases |s|
  {
    var hw := ParseQuads(s).value;
    if |s| > 4 {
      QuadsSound(s[5..]);
      var rest := ParseQuads(s[5..]).value;
      assert hw[2..] == rest;
      QuadsAdd(s, hw);
    }
  }

  // ----- main results

  /**
   The parser accepts exactly the colon, hyphen and dotted spellings of 6-, 8- and 20-byte
   addresses, in any letter case, and returns the address that is spelled.
   */
  lemma ParseMACExact(s: string, hw: MAC)
    ensures ParseMAC(s) == Some(hw) <==> (|hw| == 6 || |hw| == 8 || |hw| == 20) && Spells(s, hw)
  {
    if ParseMAC(s) == Some(hw) {
      if s[2] == ':' || s[2] == '-' {
        PairsSound(s, s[2]);
      } else {
        QuadsSound(s);
      }
    }
    if IsMACLength(|hw|) && Spells(s, hw) {
      if SpellsQuads(s, hw) {
        QuadsComplete(s, hw);
        assert SpellsByte(s[5 * 0 + 2], s[5 * 0 + 3], hw[2 * 0 + 1]) && s[5 * 0 + 4] == '.';
      } else {
        var sep := if SpellsPairs(s, hw, ':') then ':' else '-';
        assert s[3 * 0 + 2] == sep;
        PairsComplete(s, sep, hw);
      }
    }
  }

  lemma {:induction false} StringSpells(hw: MAC)
    requires |hw| >= 1
    ensures SpellsPairs(String(hw), hw, ':')
  {
    if |hw| > 1 {
      StringSpells(hw[1..]);
      assert String(hw)[3..] == String(hw[1..]);
      PairsStep(String(hw), ':', hw);
    }
  }

  /** What is printed is lower-case: pairs of hexadecimal digits with colons between them. */
  lemma {:induction false} StringWritten(hw: MAC)
    ensures hw != [] ==> SpellsPairs(String(hw), hw, ':')
    ensures forall c :: c in String(hw) ==> c == ':' || '0' <= c <= '9' || 'a' <= c <= 'f'
  {
    if |hw| > 0 {
      StringSpells(hw);
      ByteWritten(hw[0]);
      if |hw| > 1 {
        StringWritten(hw[1..]);
      }
    }
  }

  lemma ByteWritten(b: byte)
    ensures forall c :: c in ByteText(b) ==> '0' <= c <= '9' || 'a' <= c <= 'f'
  {
    forall i | 0 <= i < 16 ensures '0' <= HEX_DIGITS[i] <= '9' || 'a' <= HEX_DIGITS[i] <= 'f' {}
  }

  /** Printing distinguishes all byte strings, of any length. */
  lemma StringInjective(a: MAC, b: MAC)
    requires String(a) == String(b)
    ensures a == b
  {
    if |a| > 0 && |b| > 0 {
      StringSpells(a);
      StringSpells(b);
      PairsComplete(String(a), ':', a);
      PairsComplete(String(b), ':', b);
    }
  }

  /** Parsing what was printed gives the address back exactly for the lengths of real addresses. */
  lemma TextRoundTrip(hw: MAC)
    ensures ParseMAC(String(hw)) == Some(hw) <==> |hw| == 6 || |hw| == 8 || |hw| == 20
  {
    ParseMACExact(String(hw), hw);
    if |hw| > 0 {
      StringSpells(hw);
    }
  }

  /** Every accepted spelling of an address yields the same store key, and of no other address. */
  lemma SpellingsShareKey(s: string, t: string)
    requires ParseMAC(s).Some? && ParseMAC(t).Some?
    ensures String(ParseMAC(s).value) == String(ParseMAC(t).value) <==>
            exists hw :: Spells(s, hw) && Spells(t, hw)
  {
    var a, b := ParseMAC(s).value, ParseMAC(t).value;
    ParseMACExact(s, a);
    ParseMACExact(t, b);
    if String(a) == String(b) {
      StringInjective(a, b);
    }
    if exists hw :: Spells(s, hw) && Spells(t, hw) {
      var hw :| Spells(s, hw) && Spells(t, hw);
      SpelledUniquely(s, a, hw);
      SpelledUniquely(t, b, hw);
    }
  }

  /** A text spells at most one address. */
  lemma SpelledUniquely(s: string, a: MAC, b: MAC)
    requires IsMACLength(|a|) && Spells(s, a) && Spells(s, b)
    ensures a == b
  {
    ParseMACExact(s, a);
    if SpellsQuads(s, b) {
      QuadsComplete(s, b);
      assert SpellsByte(s[5 * 0 + 2], s[5 * 0 + 3], b[2 * 0 + 1]);
    } else {
      var sep := if SpellsPairs(s, b, ':') then ':' else '-';
      PairsComplete(s, sep, b);
      assert s[3 * 0 + 2] == sep;
    }
  }

  // ----- text marshalling through a variable

  /** Lengths an address can have after `UnmarshalText`. */
  predicate IsTextLoaded(a: MAC) { |a| == 0 || IsMACLength(|a|) }

  /** A variable of type `HardwareAddr`, as a pointer receiver sees it. */
  class HardwareAddrVar {
    var value: MAC

    constructor (a: MAC)
      ensures value == a
    {
      value := a;
    }

    /** The printed form; it parses back to the value at the three lengths the parser knows, and no other. */
    method MarshalText() returns (text: string)
      ensures text == String(value)
      ensures ParseMAC(text) == Some(value) <==> |value| == 6 || |value| == 8 || |value| == 20
    {
      text := String(value);
      TextRoundTrip(value);
    }

    /** Empty text clears the variable; a bad text leaves it alone. */
    method UnmarshalText(text: string) returns (ok: bool)
      modifies this
      ensures ok <==> text == "" || exists hw :: IsMACLength(|hw|) && Spells(text, hw)
      ensures ok && text == "" ==> value == []
      ensures ok && text != "" ==> (|value| == 6 || |value| == 8 || |value| == 20) && Spells(text, value)
      ensures !ok ==> value == old(value)
      ensures ok ==> IsTextLoaded(value)
    {
      if text == "" {
        value := [];
        return true;
      }
      var v := ParseMAC(text);
      forall hw ensures v == Some(hw) <==> IsMACLength(|hw|) && Spells(text, hw) {
        ParseMACExact(text, hw);
      }
      if v.None? {
        return false;
      }
      assert v == Some(v.value);
      value := v.value;
      return true;
    }
  }
}
