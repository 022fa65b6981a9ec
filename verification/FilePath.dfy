/**
 Go's `path/filepath` on Unix: `IsAbs`, `Clean` and `Join`, from the published rules of
 `Clean`. The elements of a path are folded, left to right, over a stack.
 */
module FilePath {
  import opened Text

  predicate IsAbs(p: string) { p != "" && p[0] == '/' }

  predicate IsOrdinary(seg: string) { seg != "" && seg != "." && seg != ".." }

  /** One element: empty and "." vanish, ".." undoes an ordinary element or is kept or dropped. */
  function Push(rooted: bool, stack: seq<string>, seg: string): (r: seq<string>) {
    if seg == "" || seg == "." then stack
    else if seg != ".." then stack + [seg]
    else if |stack| > 0 && stack[|stack| - 1] != ".." then stack[..|stack| - 1]
    else if rooted then stack
    else stack + [".."]
  }

  function Fold(rooted: bool, stack: seq<string>, segs: seq<string>): (r: seq<string>)
    decreases |segs|
  {
    if |segs| == 0 then stack else Fold(rooted, Push(rooted, stack, segs[0]), segs[1..])
  }

  /** The elements of the cleaned path. */
  function Elements(p: string): (r: seq<string>) {
    Fold(IsAbs(p), [], Split(p, '/'))
  }

  function Render(rooted: bool, stack: seq<string>): (p: string) {
    if rooted then "/" + Join(stack, '/')
    else if |stack| == 0 then "."
    else Join(stack, '/')
  }

  function Clean(p: string): (r: string) {
    if p == "" then "." else Render(IsAbs(p), Elements(p))
  }

  /** `filepath.Join` of two elements. */
  function JoinPath(a: string, b: string): (r: string) {
    if a != "" then Clean(a + "/" + b)
    else if b != "" then Clean(b)
    else ""
  }

  // ----- stacks reachable by folding

  /** No empty, "." or slashed elements; ".." only at the front of an unrooted path. */
  predicate IsNormal(rooted: bool, stack: seq<string>) {
    && (forall i :: 0 <= i < |stack| ==> stack[i] != "" && stack[i] != "." && '/' !in stack[i])
    && (rooted ==> forall i :: 0 <= i < |stack| ==> stack[i] != "..")
    && (forall i, j :: 0 <= i < j < |stack| && stack[j] == ".." ==> stack[i] == "..")
  }

  lemma PushKeepsNormal(rooted: bool, stack: seq<string>, seg: string)
    requires IsNormal(rooted, stack) && '/' !in seg
    ensures IsNormal(rooted, Push(rooted, stack, seg))
  {
    if !rooted && (|stack| > 0 ==> stack[|stack| - 1] == "..") {
      ClimbsThroughout(stack);
    }
  }

  /** Unless its last element is a name, a normal stack has only ".." elements. */
  lemma ClimbsThroughout(stack: seq<string>)
    requires IsNormal(false, stack) && (|stack| > 0 ==> stack[|stack| - 1] == "..")
    ensures forall i :: 0 <= i < |stack| ==> stack[i] == ".."
  {
  }

  lemma {:induction false} FoldIsNormal(rooted: bool, stack: seq<string>, segs: seq<string>)
    requires IsNormal(rooted, stack)
    requires forall i :: 0 <= i < |segs| ==> '/' !in segs[i]
    ensures IsNormal(rooted, Fold(rooted, stack, segs))
    decreases |segs|
  {
    if |segs| > 0 {
      var next := Push(rooted, stack, segs[0]);
      PushKeepsNormal(rooted, stack, segs[0]);
      FoldIsNormal(rooted, next, segs[1..]);
    }
  }

  lemma {:induction false} FoldConcat(rooted: bool, stack: seq<string>, a: seq<string>, b: seq<string>)
    ensures Fold(rooted, stack, a + b) == Fold(rooted, Fold(rooted, stack, a), b)
    decreases |a|
  {
    if |a| == 0 {
      assert a + b == b;
    } else {
      assert (a + b)[1..] == a[1..] + b;
      FoldConcat(rooted, Push(rooted, stack, a[0]), a[1..], b);
    }
  }

  /** Folding a normal stack rebuilds it. */
  lemma {:induction false} FoldRebuilds(rooted: bool, done: seq<string>, rest: seq<string>)
    requires IsNormal(rooted, done + rest)
    ensures Fold(rooted, done, rest) == done + rest
    decreases |rest|
  {
    if |rest| == 0 {
      assert done + rest == done;
    } else {
      var all := done + rest;
      assert all[|done|] == rest[0];
      assert done + [rest[0]] + rest[1..] == all;
      assert |done| > 0 ==> all[|done| - 1] == done[|done| - 1];
      FoldRebuilds(rooted, done + [rest[0]], rest[1..]);
    }
  }

  // ----- cleaning

  lemma ElementsNormal(p: string)
    ensures IsNormal(IsAbs(p), Elements(p))
  {
    FoldIsNormal(IsAbs(p), [], Split(p, '/'));
  }

  lemma ElementsOfJoined(rooted: bool, stack: seq<string>)
    requires IsNormal(rooted, stack) && |stack| > 0
    ensures var j := Join(stack, '/');
            j != "" && j[0] == stack[0][0] && Fold(rooted, [], Split(j, '/')) == stack
  {
    SplitJoin(stack, '/');
    assert [] + stack == stack;
    FoldRebuilds(rooted, [], stack);
  }

  lemma ElementsBelowRoot(q: string)
    ensures Elements("/" + q) == Fold(true, [], Split(q, '/'))
  {
    assert ("/" + q)[1..] == q;
    assert Split("/" + q, '/')[1..] == Split(q, '/');
  }

  /** Rendering a normal stack loses nothing. */
  lemma ElementsOfRender(rooted: bool, stack: seq<string>)
    requires IsNormal(rooted, stack)
    ensures IsAbs(Render(rooted, stack)) == rooted
    ensures Elements(Render(rooted, stack)) == stack
  {
    if |stack| > 0 {
      ElementsOfJoined(rooted, stack);
    }
    if rooted {
      ElementsBelowRoot(Join(stack, '/'));
    } else if |stack| == 0 {
      SplitWithoutSeparator(".", '/');
    }
  }

  lemma CleanKeepsElements(p: string)
    ensures IsAbs(Clean(p)) == IsAbs(p)
    ensures Elements(Clean(p)) == Elements(p)
  {
    ElementsNormal(p);
    ElementsOfRender(IsAbs(p), Elements(p));
    if p == "" {
      SplitWithoutSeparator(".", '/');
    }
  }

  lemma CleanIdempotent(p: string)
    ensures Clean(Clean(p)) == Clean(p)
  {
    CleanKeepsElements(p);
  }

  /** Cleaning a joined path folds the second part over the elements of the first. */
  lemma CleanOfJoined(a: string, b: string)
    requires a != ""
    ensures Clean(a + "/" + b) == Render(IsAbs(a), Fold(IsAbs(a), Elements(a), Split(b, '/')))
    ensures IsAbs(Clean(a + "/" + b)) == IsAbs(a)
    ensures Elements(Clean(a + "/" + b)) == Fold(IsAbs(a), Elements(a), Split(b, '/'))
  {
    SplitConcat(a, b, '/');
    FoldConcat(IsAbs(a), [], Split(a, '/'), Split(b, '/'));
    CleanKeepsElements(a + "/" + b);
  }

  /** So the first part may be cleaned beforehand. */
  lemma CleanFirstPart(a: string, b: string)
    requires a != ""
    ensures Clean(a + "/" + b) == Clean(Clean(a) + "/" + b)
  {
    CleanKeepsElements(a);
    CleanNonEmpty(a);
    CleanOfJoined(a, b);
    CleanOfJoined(Clean(a), b);
  }

  /** The published rules, at the end of a path: a trailing slash, ".", and a named element with and without "..". */
  lemma CleanRules(p: string, x: string)
    requires p != "" && IsOrdinary(x) && '/' !in x
    ensures Clean(p + "/" + "") == Clean(p)
    ensures Clean(p + "/" + ".") == Clean(p)
    ensures Elements(Clean(p + "/" + x)) == Elements(p) + [x]
    ensures Clean(p + "/" + (x + "/" + "..")) == Clean(p)
  {
    CleanOfJoined(p, "");
    CleanOfJoined(p, ".");
    CleanOfJoined(p, x);
    CleanOfJoined(p, x + "/" + "..");
    SplitConcat(x, "..", '/');
    SplitWithoutSeparator(".", '/');
    SplitWithoutSeparator("..", '/');
    SplitWithoutSeparator(x, '/');
    FoldOne(IsAbs(p), Elements(p), "");
    FoldOne(IsAbs(p), Elements(p), ".");
    FoldOne(IsAbs(p), Elements(p), x);
    FoldConcat(IsAbs(p), Elements(p), [x], [".."]);
    FoldOne(IsAbs(p), Elements(p) + [x], "..");
    assert (Elements(p) + [x])[..|Elements(p)|] == Elements(p);
  }

  /**
   The published rules for ".." at the end of any path: it takes a last name away, vanishes at the
   root, and is kept where a relative path has nothing but ".." elements, if any.
   */
  lemma CleanRulesForParent(p: string)
    requires p != ""
    ensures var e, up := Elements(p), Clean(p + "/" + "..");
            && IsAbs(up) == IsAbs(p)
            && (e != [] && e[|e| - 1] != ".." ==> Elements(up) == e[..|e| - 1])
            && (IsAbs(p) && e == [] ==> up == "/")
            && (!IsAbs(p) && e == [] ==> up == "..")
            && (e != [] && e[|e| - 1] == ".." ==>
                  !IsAbs(p) && (forall i :: 0 <= i < |e| ==> e[i] == "..") && up == Clean(p) + "/" + "..")
  {
    var e := Elements(p);
    CleanOfJoined(p, "..");
    SplitWithoutSeparator("..", '/');
    FoldOne(IsAbs(p), e, "..");
    ElementsNormal(p);
    if e != [] && e[|e| - 1] == ".." {
      ClimbsThroughout(e);
      JoinConcat(e, [".."], '/');
    }
  }

  lemma FoldOne(rooted: bool, stack: seq<string>, seg: string)
    ensures Fold(rooted, stack, [seg]) == Push(rooted, stack, seg)
  {
    assert Fold(rooted, stack, [seg]) == Fold(rooted, Push(rooted, stack, seg), []);
  }

  // ----- cleaning a rooted path never lengthens it

  function Weight(segs: seq<string>): (n: nat) {
    if |segs| == 0 then 0 else |segs[0]| + 1 + Weight(segs[1..])
  }

  lemma {:induction false} WeightConcat(a: seq<string>, b: seq<string>)
    ensures Weight(a + b) == Weight(a) + Weight(b)
  {
    if |a| == 0 {
      assert a + b == b;
    } else {
      assert (a + b)[1..] == a[1..] + b;
      WeightConcat(a[1..], b);
    }
  }

  lemma {:induction false} WeightOfSplit(s: string)
    ensures Weight(Split(s, '/')) == |s| + 1
  {
    if s != "" {
      WeightOfSplit(s[1..]);
      var r := Split(s[1..], '/');
      if s[0] == '/' {
        assert ([""] + r)[1..] == r;
      } else {
        assert ([[s[0]] + r[0]] + r[1..])[1..] == r[1..];
      }
    }
  }

  lemma {:induction false} WeightOfJoin(segs: seq<string>)
    requires |segs| >= 1
    ensures |Join(segs, '/')| + 1 == Weight(segs)
  {
    if |segs| > 1 {
      WeightOfJoin(segs[1..]);
    }
  }

  lemma {:induction false} FoldWeight(stack: seq<string>, segs: seq<string>)
    ensures Weight(Fold(true, stack, segs)) <= Weight(stack) + Weight(segs)
    decreases |segs|
  {
    if |segs| > 0 {
      var next := Push(true, stack, segs[0]);
      FoldWeight(next, segs[1..]);
      WeightConcat(stack, [segs[0]]);
      if |stack| > 0 {
        var n := |stack| - 1;
        WeightConcat(stack[..n], stack[n..]);
        assert stack[..n] + stack[n..] == stack;
      }
    }
  }

  lemma CleanNoLonger(p: string)
    requires IsAbs(p)
    ensures |Clean(p)| <= |p|
  {
    var q := p[1..];
    assert p == "" + "/" + q;
    SplitConcat("", q, '/');
    assert Split(p, '/')[1..] == Split(q, '/');
    FoldWeight([], Split(q, '/'));
    WeightOfSplit(q);
    if |Elements(p)| > 0 {
      WeightOfJoin(Elements(p));
    }
  }

  // ----- paths that stay below their starting point

  /** At every point, starting `depth` elements down, ".." elements do not outnumber ordinary ones. */
  predicate StaysInside(segs: seq<string>, depth: nat)
    decreases |segs|
  {
    if |segs| == 0 then true
    else if segs[0] == "" || segs[0] == "." then StaysInside(segs[1..], depth)
    else if segs[0] == ".." then depth > 0 && StaysInside(segs[1..], depth - 1)
    else StaysInside(segs[1..], depth + 1)
  }

  /** What the elements resolve to on their own. */
  function Resolve(segs: seq<string>): (r: seq<string>) {
    Fold(true, [], segs)
  }

  /** Elements that stay inside never reach below the base they are folded over. */
  lemma {:induction false} FoldAboveBase(rooted: bool, base: seq<string>, above: seq<string>, segs: seq<string>)
    requires IsNormal(rooted, base + above) && IsNormal(true, above)
    requires forall i :: 0 <= i < |segs| ==> '/' !in segs[i]
    requires StaysInside(segs, |above|)
    ensures Fold(rooted, base + above, segs) == base + Fold(true, above, segs)
    ensures IsNormal(rooted, base + Fold(true, above, segs))
    decreases |segs|
  {
    if |segs| > 0 {
      PushKeepsNormal(rooted, base + above, segs[0]);
      PushKeepsNormal(true, above, segs[0]);
      PushAboveBase(rooted, base, above, segs[0]);
      FoldAboveBase(rooted, base, Push(true, above, segs[0]), segs[1..]);
    }
  }

  lemma PushAboveBase(rooted: bool, base: seq<string>, above: seq<string>, seg: string)
    requires IsNormal(true, above) && (seg == ".." ==> above != [])
    ensures Push(rooted, base + above, seg) == base + Push(true, above, seg)
  {
    var all := base + above;
    if |above| > 0 {
      assert above[|above| - 1] == all[|all| - 1];
      assert all[..|all| - 1] == base + above[..|above| - 1];
    }
    assert all + [seg] == base + (above + [seg]);
  }

  /** A rendered stack, unless it is the relative ".", is a string prefix of every extension of it. */
  lemma RenderPrefix(rooted: bool, base: seq<string>, above: seq<string>)
    requires rooted || base != []
    ensures Render(rooted, base) <= Render(rooted, base + above)
  {
    if |base| == 0 {
      assert base + above == above;
    } else if |above| == 0 {
      assert base + above == base;
    } else {
      JoinConcat(base, above, '/');
    }
  }

  // ----- string prefixes, element by element

  /** The pieces of a path as written, after its first slash if it is absolute. */
  function Pieces(p: string): (r: seq<string>)
    ensures |r| >= 1 && Elements(p) == Fold(IsAbs(p), [], r)
  {
    Split(if IsAbs(p) then p[1..] else p, '/')
  }

  /** The pieces lead to the elements: all but the last are their first ones, and the last begins the next one. */
  predicate Leads(pieces: seq<string>, e: seq<string>)
    requires |pieces| >= 1
  {
    && |e| >= 1
    && if |pieces| == 1 then pieces[0] <= e[0] else pieces[0] == e[0] && Leads(pieces[1..], e[1..])
  }

  lemma {:induction false} LeadsIff(pieces: seq<string>, e: seq<string>)
    requires |pieces| >= 1
    ensures var n := |pieces| - 1; Leads(pieces, e) <==> pieces[..n] <= e && n < |e| && pieces[n] <= e[n]
  {
    if |pieces| > 1 && |e| >= 1 {
      var n := |pieces| - 1;
      LeadsIff(pieces[1..], e[1..]);
      assert pieces[..n] == [pieces[0]] + pieces[1..][..n - 1];
      assert e == [e[0]] + e[1..];
    }
  }

  /** Being a prefix of a joined text, character by character, is leading to its parts. */
  lemma {:induction false} PrefixOfJoinIff(q: string, e: seq<string>)
    requires |e| >= 1 && forall i :: 0 <= i < |e| ==> '/' !in e[i]
    ensures q <= Join(e, '/') <==> Leads(Split(q, '/'), e)
    decreases |q|
  {
    if q != "" {
      if q[0] == '/' && e[0] == "" && |e| > 1 {
        PrefixOfJoinIff(q[1..], e[1..]);
        SlashStep(q, e);
      } else if q[0] != '/' && e[0] != "" && e[0][0] == q[0] {
        PrefixOfJoinIff(q[1..], [e[0][1..]] + e[1..]);
        CharStep(q, e);
      } else {
        NoStep(q, e);
      }
    }
  }

  lemma SlashStep(q: string, e: seq<string>)
    requires q != "" && q[0] == '/' && |e| > 1 && e[0] == ""
    ensures q <= Join(e, '/') <==> q[1..] <= Join(e[1..], '/')
    ensures Leads(Split(q, '/'), e) <==> Leads(Split(q[1..], '/'), e[1..])
  {
    assert Join(e, '/') == ['/'] + Join(e[1..], '/');
    assert q == ['/'] + q[1..];
  }

  lemma CharStep(q: string, e: seq<string>)
    requires q != "" && q[0] != '/' && |e| >= 1 && e[0] != "" && e[0][0] == q[0]
    ensures var e' := [e[0][1..]] + e[1..];
            && (q <= Join(e, '/') <==> q[1..] <= Join(e', '/'))
            && (Leads(Split(q, '/'), e) <==> Leads(Split(q[1..], '/'), e'))
  {
    JoinTail(e);
    assert q == [q[0]] + q[1..];
    LeadsTail(q[0], Split(q[1..], '/'), e);
  }

  lemma NoStep(q: string, e: seq<string>)
    requires q != "" && |e| >= 1 && '/' !in e[0]
    requires !(q[0] == '/' && e[0] == "" && |e| > 1) && !(q[0] != '/' && e[0] != "" && e[0][0] == q[0])
    ensures !(q <= Join(e, '/')) && !Leads(Split(q, '/'), e)
  {
    assert e[0] != "" ==> e[0][0] in e[0];
  }

  lemma JoinTail(e: seq<string>)
    requires |e| >= 1 && e[0] != ""
    ensures Join(e, '/') == [e[0][0]] + Join([e[0][1..]] + e[1..], '/')
  {
    var tail := [e[0][1..]] + e[1..];
    assert e[0] == [e[0][0]] + tail[0];
    if |e| > 1 {
      assert tail[1..] == e[1..];
      Reassociate([e[0][0]], tail[0], ['/'] + Join(e[1..], '/'));
      Reassociate(e[0], ['/'], Join(e[1..], '/'));
      Reassociate(tail[0], ['/'], Join(e[1..], '/'));
    }
  }

  lemma Reassociate(a: string, b: string, c: string)
    ensures a + b + c == a + (b + c)
  {
  }

  lemma LeadsTail(c: char, r: seq<string>, e: seq<string>)
    requires |r| >= 1 && |e| >= 1 && e[0] != "" && e[0][0] == c
    ensures Leads([[c] + r[0]] + r[1..], e) <==> Leads(r, [e[0][1..]] + e[1..])
  {
    assert [c] + e[0][1..] == e[0];
  }

  /** A path, as written, is a string prefix of a clean one exactly when it leads to its elements, or both are the root, or both ".". */
  lemma PrefixOfCleanIff(p: string, e: seq<string>)
    requires p != "" && IsNormal(IsAbs(p), e)
    ensures p <= Render(IsAbs(p), e) <==> if e == [] then p == Render(IsAbs(p), []) else Leads(Pieces(p), e)
  {
    if |e| > 0 {
      if IsAbs(p) {
        PrefixBelowRoot(p, Join(e, '/'));
        PrefixOfJoinIff(p[1..], e);
      } else {
        PrefixOfJoinIff(p, e);
      }
    }
  }

  lemma PrefixBelowRoot(p: string, j: string)
    requires IsAbs(p)
    ensures p <= "/" + j <==> p[1..] <= j
  {
    assert p == "/" + p[1..];
    assert ("/" + j)[1..] == j;
  }

  /** A clean path with elements is written as those. */
  lemma CleanPieces(p: string)
    requires p != "" && Clean(p) == p && Elements(p) != []
    ensures Pieces(p) == Elements(p)
  {
    ElementsNormal(p);
    if IsAbs(p) {
      assert p[1..] == Join(Elements(p), '/');
    }
    SplitJoin(Elements(p), '/');
  }

  lemma CleanNonEmpty(p: string)
    ensures Clean(p) != ""
  {
    ElementsNormal(p);
    if !IsAbs(p) && |Elements(p)| > 0 {
      assert Elements(p)[0] != "";
    }
  }

  lemma WrittenAsElements(p: string)
    requires IsAbs(p) && Pieces(p) == Elements(p)
    ensures Clean(p) == p
  {
    JoinSplit(p[1..], '/');
    assert p == "/" + p[1..];
  }

  lemma FoldLeading(s: seq<string>, e: seq<string>)
    requires IsNormal(true, e) && |s| >= 1 && Leads(s, e)
    ensures |s| <= |e| && s == e[..|s| - 1] + [s[|s| - 1]]
    ensures Fold(true, [], s) == Push(true, e[..|s| - 1], s[|s| - 1])
  {
    var n := |s| - 1;
    LeadsIff(s, e);
    assert s == s[..n] + [s[n]] && s[..n] == e[..n];
    NothingBefore(e);
    NothingBefore(e[..n]);
    FoldPieces([], s, e);
  }

  lemma NothingBefore(e: seq<string>)
    ensures [] + e == e
  {
  }

  /** Where the pieces lead: a path that ends in a name is then clean, and of any other the elements are among those led to. */
  lemma LeadsInside(p: string, e: seq<string>)
    requires IsAbs(p) && IsNormal(true, e) && Leads(Pieces(p), e)
    ensures var last := Pieces(p)[|Pieces(p)| - 1];
            if IsOrdinary(last) then Clean(p) == p else Elements(p) <= e
  {
    var s := Pieces(p);
    FoldLeading(s, e);
    if IsOrdinary(s[|s| - 1]) {
      WrittenAsElements(p);
    }
  }

  lemma {:induction false} FoldPieces(done: seq<string>, s: seq<string>, e: seq<string>)
    requires IsNormal(true, done + e) && |s| >= 1 && |s| <= |e| && Leads(s, e)
    ensures Fold(true, done, s) == Push(true, done + e[..|s| - 1], s[|s| - 1])
    decreases |s|
  {
    if |s| == 1 {
      FoldOne(true, done, s[0]);
      assert done + e[..0] == done && s == [s[0]];
    } else {
      var all := done + e;
      assert all[|done|] == e[0];
      assert done + [e[0]] + e[1..] == all;
      assert done + [e[0]] + e[1..][..|s| - 2] == done + e[..|s| - 1];
      FoldPieces(done + [e[0]], s[1..], e[1..]);
    }
  }

  // ----- dropping the front of a text changes where it leads

  /** The characters of all elements. */
  function Chars(segs: seq<string>): (n: nat) {
    if |segs| == 0 then 0 else |segs[0]| + Chars(segs[1..])
  }

  function NonSlashes(s: string): (n: nat) {
    if s == "" then 0 else (if s[0] == '/' then 0 else 1) + NonSlashes(s[1..])
  }

  lemma {:induction false} CharsConcat(a: seq<string>, b: seq<string>)
    ensures Chars(a + b) == Chars(a) + Chars(b)
  {
    if |a| == 0 {
      assert a + b == b;
    } else {
      assert (a + b)[1..] == a[1..] + b;
      CharsConcat(a[1..], b);
    }
  }

  lemma {:induction false} CharsOfSplit(s: string)
    ensures Chars(Split(s, '/')) == NonSlashes(s)
  {
    if s != "" {
      CharsOfSplit(s[1..]);
      var r := Split(s[1..], '/');
      if s[0] == '/' {
        assert ([""] + r)[1..] == r;
      } else {
        assert ([[s[0]] + r[0]] + r[1..])[1..] == r[1..];
      }
    }
  }

  lemma {:induction false} NonSlashesConcat(a: string, b: string)
    ensures NonSlashes(a + b) == NonSlashes(a) + NonSlashes(b)
  {
    if a == "" {
      assert a + b == b;
    } else {
      assert (a + b)[1..] == a[1..] + b;
      NonSlashesConcat(a[1..], b);
    }
  }

  lemma PushChars(rooted: bool, stack: seq<string>, seg: string)
    ensures Chars(Push(rooted, stack, seg)) <= Chars(stack) + |seg|
    ensures seg != "." && seg != ".." ==> Chars(Push(rooted, stack, seg)) == Chars(stack) + |seg|
  {
    CharsConcat(stack, [seg]);
    assert [seg][1..] == [];
    if |stack| > 0 {
      var n := |stack| - 1;
      CharsConcat(stack[..n], stack[n..]);
      assert stack[..n] + stack[n..] == stack;
    }
  }

  predicate HasNoDots(segs: seq<string>) {
    forall i :: 0 <= i < |segs| ==> segs[i] != "." && segs[i] != ".."
  }

  /** Folding keeps at most the characters, and all of them where there is no "." and no "..". */
  lemma {:induction false} FoldChars(rooted: bool, stack: seq<string>, segs: seq<string>)
    ensures Chars(Fold(rooted, stack, segs)) <= Chars(stack) + Chars(segs)
    ensures HasNoDots(segs) ==> Chars(Fold(rooted, stack, segs)) == Chars(stack) + Chars(segs)
    decreases |segs|
  {
    if |segs| > 0 {
      PushChars(rooted, stack, segs[0]);
      FoldChars(rooted, Push(rooted, stack, segs[0]), segs[1..]);
    }
  }

  /** A text without dot elements, and the same text without a front that is not all slashes, lead to different places. */
  lemma DroppedFrontDiffers(rooted: bool, stack: seq<string>, front: string, rest: string)
    requires HasNoDots(Split(front + rest, '/')) && front != "" && front[0] != '/'
    ensures Fold(rooted, stack, Split(front + rest, '/')) != Fold(rooted, stack, Split(rest, '/'))
  {
    FoldChars(rooted, stack, Split(front + rest, '/'));
    FoldChars(rooted, stack, Split(rest, '/'));
    CharsOfSplit(front + rest);
    CharsOfSplit(rest);
    NonSlashesConcat(front, rest);
  }

  /** A leading slash leads nowhere else. */
  lemma FoldIgnoresSlash(rooted: bool, stack: seq<string>, s: string)
    ensures Fold(rooted, stack, Split("/" + s, '/')) == Fold(rooted, stack, Split(s, '/'))
  {
    assert ("/" + s)[1..] == s;
    assert Split("/" + s, '/')[1..] == Split(s, '/');
  }
}
