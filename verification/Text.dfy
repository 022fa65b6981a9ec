/**
 The string functions of Go's `strings` package that netbootd relies on.
 A Go string is the sequence of its bytes; each byte is one `char` here.
 */
module Text {

  /** `strings.TrimPrefix` */
  function TrimPrefix(s: string, prefix: string): (r: string)
    ensures prefix <= s ==> s == prefix + r
    ensures !(prefix <= s) ==> r == s
  {
    if prefix <= s then s[|prefix|..] else s
  }

  /** `strings.TrimLeft(s, "/")` */
  function TrimSlashes(s: string): (r: string)
    ensures r == "" || r[0] != '/'
    ensures |r| <= |s|
  {
    if s != "" && s[0] == '/' then TrimSlashes(s[1..]) else s
  }

  /** How many slashes `TrimSlashes` removes. */
  function LeadingSlashes(s: string): (n: nat)
    ensures |s| == n + |TrimSlashes(s)|
  {
    if s != "" && s[0] == '/' then 1 + LeadingSlashes(s[1..]) else 0
  }

  /** A text is its leading slashes and the rest: none, one, or at least two. */
  lemma SlashForm(s: string)
    ensures LeadingSlashes(s) == 0 ==> s == TrimSlashes(s)
    ensures LeadingSlashes(s) == 1 ==> s == "/" + TrimSlashes(s)
    ensures LeadingSlashes(s) >= 2 ==> |s| >= 2 && s[0] == '/' && s[1] == '/'
  {
    if LeadingSlashes(s) > 0 {
      assert s == "/" + s[1..];
      if LeadingSlashes(s) > 1 {
        assert s[1..][0] == s[1];
      }
    }
  }

  lemma {:induction false} TrimmedIsInjective(a: string, b: string)
    requires TrimSlashes(a) == TrimSlashes(b)
    requires LeadingSlashes(a) == LeadingSlashes(b)
    ensures a == b
  {
    if LeadingSlashes(a) > 0 {
      TrimmedIsInjective(a[1..], b[1..]);
      assert a == [a[0]] + a[1..] && b == [b[0]] + b[1..];
    }
  }

  /** `strings.ToLower` on ASCII letters. */
  function Lower(s: string): (r: string)
    ensures |r| == |s|
  {
    seq(|s|, i requires 0 <= i < |s| => if 'A' <= s[i] <= 'Z' then (s[i] as int + 32) as char else s[i])
  }

  /** The maximal pieces of `s` between separators; always at least one. */
  function Split(s: string, sep: char): (r: seq<string>)
    ensures |r| >= 1
    ensures forall i :: 0 <= i < |r| ==> sep !in r[i]
  {
    if s == "" then [""]
    else if s[0] == sep then [""] + Split(s[1..], sep)
    else
      var r := Split(s[1..], sep);
      [[s[0]] + r[0]] + r[1..]
  }

  function Join(parts: seq<string>, sep: char): (r: string) {
    if |parts| == 0 then ""
    else if |parts| == 1 then parts[0]
    else parts[0] + [sep] + Join(parts[1..], sep)
  }

  lemma {:induction false} SplitConcat(a: string, b: string, sep: char)
    ensures Split(a + [sep] + b, sep) == Split(a, sep) + Split(b, sep)
  {
    var s := a + [sep] + b;
    if a == "" {
      assert s[1..] == b;
    } else {
      assert s[1..] == a[1..] + [sep] + b;
      SplitConcat(a[1..], b, sep);
    }
  }

  lemma {:induction false} SplitWithoutSeparator(s: string, sep: char)
    requires sep !in s
    ensures Split(s, sep) == [s]
  {
    if s != "" {
      SplitWithoutSeparator(s[1..], sep);
      assert s == [s[0]] + s[1..];
    }
  }

  lemma {:induction false} SplitJoin(parts: seq<string>, sep: char)
    requires |parts| >= 1
    requires forall i :: 0 <= i < |parts| ==> sep !in parts[i]
    ensures Split(Join(parts, sep), sep) == parts
  {
    SplitWithoutSeparator(parts[0], sep);
    if |parts| > 1 {
      SplitJoin(parts[1..], sep);
      SplitConcat(parts[0], Join(parts[1..], sep), sep);
    }
  }

  lemma {:induction false} JoinConcat(a: seq<string>, b: seq<string>, sep: char)
    requires |a| >= 1 && |b| >= 1
    ensures Join(a + b, sep) == Join(a, sep) + [sep] + Join(b, sep)
  {
    assert (a + b)[1..] == a[1..] + b;
    if |a| > 1 {
      JoinConcat(a[1..], b, sep);
    }
  }

  lemma {:induction false} JoinSplit(s: string, sep: char)
    ensures Join(Split(s, sep), sep) == s
  {
    if s != "" {
      var r := Split(s[1..], sep);
      JoinSplit(s[1..], sep);
      assert s == [s[0]] + s[1..];
      if s[0] == sep {
        assert ([""] + r)[1..] == r;
      } else {
        assert ([[s[0]] + r[0]] + r[1..])[1..] == r[1..];
      }
    }
  }

  /** `strings.IndexByte`, with the length for absent. */
  function IndexOf(s: string, c: char): (i: nat)
    ensures i <= |s| && c !in s[..i]
    ensures i < |s| ==> s[i] == c
  {
    if s == "" || s[0] == c then 0 else
      var i := 1 + IndexOf(s[1..], c);
      assert s[..i] == [s[0]] + s[1..][..i - 1];
      i
  }

  lemma IndexOfSeparator(a: string, b: string, c: char)
    requires c !in a
    ensures IndexOf(a + [c] + b, c) == |a|
  {
    var s := a + [c] + b;
    var i := IndexOf(s, c);
    assert s[|a|] == c;
    forall k | 0 <= k < i ensures s[k] != c {
      assert s[..i][k] == s[k];
    }
    forall k | 0 <= k < |a| ensures s[k] != c {
      assert s[k] == a[k];
    }
  }

  lemma IndexOfAppend(a: string, b: string, c: char)
    ensures IndexOf(a + b, c) == if IndexOf(a, c) < |a| then IndexOf(a, c) else |a| + IndexOf(b, c)
  {
    var s := a + b;
    var i, j := IndexOf(s, c), IndexOf(a, c);
    forall k | 0 <= k < i ensures s[k] != c {
      assert s[..i][k] == s[k];
    }
    forall k | 0 <= k < j ensures a[k] != c {
      assert a[..j][k] == a[k];
    }
    forall k | 0 <= k < IndexOf(b, c) ensures b[k] != c {
      assert b[..IndexOf(b, c)][k] == b[k];
    }
    var e := if j < |a| then j else |a| + IndexOf(b, c);
    forall k | 0 <= k < e ensures s[k] != c {
      if k >= |a| { assert s[k] == b[k - |a|]; } else { assert s[k] == a[k]; }
    }
    if e < |s| {
      assert s[e] == c;
    }
  }
}
