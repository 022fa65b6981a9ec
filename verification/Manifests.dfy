/** Per-host manifests and the choice of a mount for a request path (manifest/schema.go). */
module Manifests {
  import opened Wrappers
  import opened Net
  import opened Text
  import IPWithNet
  import HardwareAddr

  datatype Mount = Mount(
    path: string,
    pathIsPrefix: bool,
    proxy: string,
    appendSuffix: bool,
    content: string,
    localDir: string)

  datatype Manifest = Manifest(
    id: string,
    ipv4: IPWithNet.IPWithNet,
    hostname: string,
    leaseDuration: int,
    macs: seq<HardwareAddr.MAC>,
    dns: seq<IP>,
    router: seq<IP>,
    ntp: seq<IP>,
    ipxe: bool,
    bootFilename: string,
    mounts: seq<Mount>,
    suspended: bool)

  // ----- which mounts match a path; leading slashes never count

  predicate IsExactMatch(mt: Mount, path: string) {
    !mt.pathIsPrefix && TrimSlashes(mt.path) == TrimSlashes(path)
  }

  predicate IsPrefixMatch(mt: Mount, path: string) {
    mt.pathIsPrefix && TrimSlashes(mt.path) <= TrimSlashes(path)
  }

  predicate Matches(mt: Mount, path: string) {
    IsExactMatch(mt, path) || IsPrefixMatch(mt, path)
  }

  /**
   The declarative answer. The first exact match wins wherever it stands; without one, the
   earliest prefix match whose Path, as written, is longest; None when nothing matches.
   */
  predicate IsBest(mounts: seq<Mount>, path: string, r: Option<nat>) {
    match r
    case None => forall j :: 0 <= j < |mounts| ==> !Matches(mounts[j], path)
    case Some(i) =>
      && i < |mounts|
      && (|| (IsExactMatch(mounts[i], path) && forall j :: 0 <= j < i ==> !IsExactMatch(mounts[j], path))
          || (&& IsPrefixMatch(mounts[i], path)
              && (forall j :: 0 <= j < |mounts| ==> !IsExactMatch(mounts[j], path))
              && (forall j :: 0 <= j < |mounts| && IsPrefixMatch(mounts[j], path) ==>
                    |mounts[j].path| <= |mounts[i].path|)
              && (forall j :: 0 <= j < i && IsPrefixMatch(mounts[j], path) ==>
                    |mounts[j].path| < |mounts[i].path|)))
  }

  lemma BestMatches(mounts: seq<Mount>, path: string, r: Option<nat>)
    requires IsBest(mounts, path, r)
    ensures r.Some? <==> exists j :: 0 <= j < |mounts| && Matches(mounts[j], path)
  {
    if r.Some? {
      assert Matches(mounts[r.value], path);
    }
  }

  /** The declarative answer is unique. */
  lemma BestIsUnique(mounts: seq<Mount>, path: string, r: Option<nat>, q: Option<nat>)
    requires IsBest(mounts, path, r) && IsBest(mounts, path, q)
    ensures r == q
  {
    BestMatches(mounts, path, r);
    BestMatches(mounts, path, q);
    if r.Some? && q.Some? {
      var i, j := r.value, q.value;
      assert IsExactMatch(mounts[i], path) <==> IsExactMatch(mounts[j], path);
      assert !(i < j) && !(j < i);
    }
  }

  function FirstExact(mounts: seq<Mount>, path: string): (i: nat)
    ensures i <= |mounts|
    ensures forall j :: 0 <= j < i ==> !IsExactMatch(mounts[j], path)
    ensures i < |mounts| ==> IsExactMatch(mounts[i], path)
  {
    if |mounts| == 0 || IsExactMatch(mounts[0], path) then 0 else 1 + FirstExact(mounts[1..], path)
  }

  /** The earliest of the longest prefix matches. */
  function LongestPrefix(mounts: seq<Mount>, path: string): (r: Option<nat>)
    ensures r.None? ==> forall j :: 0 <= j < |mounts| ==> !IsPrefixMatch(mounts[j], path)
    ensures r.Some? ==> r.value < |mounts| && IsPrefixMatch(mounts[r.value], path)
    ensures r.Some? ==> forall j :: 0 <= j < |mounts| && IsPrefixMatch(mounts[j], path) ==>
                          |mounts[j].path| <= |mounts[r.value].path|
    ensures r.Some? ==> forall j :: 0 <= j < r.value && IsPrefixMatch(mounts[j], path) ==>
                          |mounts[j].path| < |mounts[r.value].path|
  {
    if |mounts| == 0 then None
    else
      var n := |mounts| - 1;
      var r := LongestPrefix(mounts[..n], path);
      if IsPrefixMatch(mounts[n], path) && (r.None? || |mounts[n].path| > |mounts[r.value].path|)
      then Some(n) else r
  }

  /** The index of the mount that serves `path`. */
  function BestMount(mounts: seq<Mount>, path: string): (r: Option<nat>)
    ensures IsBest(mounts, path, r)
  {
    var i := FirstExact(mounts, path);
    if i < |mounts| then Some(i) else LongestPrefix(mounts, path)
  }

  /** The mount of `mounts` that serves `path`, if any. */
  function Chosen(mounts: seq<Mount>, path: string): (r: Option<Mount>)
    ensures r.None? <==> forall j :: 0 <= j < |mounts| ==> !Matches(mounts[j], path)
    ensures r.Some? ==> r.value in mounts && Matches(r.value, path)
  {
    match BestMount(mounts, path)
    case None => None
    case Some(i) => assert Matches(mounts[i], path); Some(mounts[i])
  }

  function MountFor(m: Manifest, path: string): (r: Option<Mount>)
    ensures r.None? <==> forall j :: 0 <= j < |m.mounts| ==> !Matches(m.mounts[j], path)
    ensures r.Some? ==> r.value in m.mounts && Matches(r.value, path)
  {
    Chosen(m.mounts, path)
  }

  /** `Manifest.GetMount`: one pass that remembers the best prefix so far and leaves on an exact match. */
  method GetMount(m: Manifest, rawPath: string) returns (r: Option<Mount>)
    ensures r == MountFor(m, rawPath)
    ensures r.Some? <==> exists mt :: mt in m.mounts && AsksFor(rawPath, mt)
    ensures r.Some? ==> r.value in m.mounts && AsksFor(rawPath, r.value)
  {
    var path := TrimSlashes(rawPath);
    var bestMount: Option<Mount> := None;
    ghost var best: Option<nat> := None;
    var i := 0;
    while i < |m.mounts|
      invariant 0 <= i <= |m.mounts|
      invariant forall j :: 0 <= j < i ==> !IsExactMatch(m.mounts[j], rawPath)
      invariant best.None? <==> bestMount.None?
      invariant best.None? ==> forall j :: 0 <= j < i ==> !IsPrefixMatch(m.mounts[j], rawPath)
      invariant best.Some? ==>
                  && best.value < i
                  && m.mounts[best.value] == bestMount.value
                  && IsPrefixMatch(bestMount.value, rawPath)
                  && (forall j :: 0 <= j < i && IsPrefixMatch(m.mounts[j], rawPath) ==>
                        |m.mounts[j].path| <= |bestMount.value.path|)
                  && (forall j :: 0 <= j < best.value && IsPrefixMatch(m.mounts[j], rawPath) ==>
                        |m.mounts[j].path| < |bestMount.value.path|)
    {
      var mount := m.mounts[i];
      var mountPath := TrimSlashes(mount.path);
      if !mount.pathIsPrefix && mountPath == path {
        BestIsUnique(m.mounts, rawPath, Some(i), BestMount(m.mounts, rawPath));
        ChosenIsAskedFor(m.mounts, rawPath);
        return Some(mount);
      } else if mount.pathIsPrefix && (mountPath == "" || mountPath <= path) &&
                (bestMount.None? || |mount.path| > |bestMount.value.path|) {
        bestMount := Some(mount);
        best := Some(i);
      }
      i := i + 1;
    }
    BestIsUnique(m.mounts, rawPath, best, BestMount(m.mounts, rawPath));
    ChosenIsAskedFor(m.mounts, rawPath);
    r := bestMount;
  }

  // ----- order of the mounts

  /** A candidate no other beats: an exact match; where there is none, a prefix match whose Path, as written, is longest. */
  predicate IsTop(mounts: seq<Mount>, path: string, mt: Mount) {
    && mt in mounts
    && if exists x :: x in mounts && IsExactMatch(x, path) then IsExactMatch(mt, path)
       else IsPrefixMatch(mt, path) && forall x :: x in mounts && IsPrefixMatch(x, path) ==> |x.path| <= |mt.path|
  }

  lemma ChosenIsTop(mounts: seq<Mount>, path: string)
    requires Chosen(mounts, path).Some?
    ensures IsTop(mounts, path, Chosen(mounts, path).value)
  {
    var i := BestMount(mounts, path).value;
    if x :| x in mounts && IsExactMatch(x, path) {
      var j :| 0 <= j < |mounts| && mounts[j] == x;
      assert IsExactMatch(mounts[j], path);
    } else {
      assert mounts[i] in mounts;
    }
  }

  lemma TopMatches(mounts: seq<Mount>, path: string, mt: Mount)
    requires IsTop(mounts, path, mt)
    ensures Chosen(mounts, path).Some?
  {
    var j :| 0 <= j < |mounts| && mounts[j] == mt;
    assert Matches(mounts[j], path);
  }

  lemma FirstTopIsChosen(mounts: seq<Mount>, path: string)
    requires |mounts| > 0 && IsTop(mounts, path, mounts[0])
    ensures Chosen(mounts, path) == Some(mounts[0])
  {
    forall j | 0 <= j < |mounts| ensures mounts[j] in mounts {}
    assert IsBest(mounts, path, Some(0));
    BestIsUnique(mounts, path, Some(0), BestMount(mounts, path));
  }

  lemma SameMounts(a: seq<Mount>, b: seq<Mount>)
    requires multiset(a) == multiset(b)
    ensures forall mt :: mt in a <==> mt in b
  {
    forall mt ensures mt in a <==> mt in b {
      assert mt in a <==> mt in multiset(a);
      assert mt in b <==> mt in multiset(b);
    }
  }

  lemma MoveToFront(a: seq<Mount>, i: nat) returns (b: seq<Mount>)
    requires i < |a|
    ensures multiset(b) == multiset(a) && |b| > 0 && b[0] == a[i]
  {
    b := [a[i]] + a[..i] + a[i + 1..];
    assert a == a[..i] + [a[i]] + a[i + 1..];
  }

  /** The top candidates are exactly the mounts that some order of the list gets chosen. */
  lemma TopIsChosenBySomeOrder(a: seq<Mount>, path: string, mt: Mount)
    ensures IsTop(a, path, mt) <==> exists b :: multiset(b) == multiset(a) && Chosen(b, path) == Some(mt)
  {
    if IsTop(a, path, mt) {
      var i :| 0 <= i < |a| && a[i] == mt;
      var b := MoveToFront(a, i);
      SameMounts(a, b);
      FirstTopIsChosen(b, path);
    }
    if b :| multiset(b) == multiset(a) && Chosen(b, path) == Some(mt) {
      SameMounts(a, b);
      ChosenIsTop(b, path);
    }
  }

  function PathOf(mt: Option<Mount>): (p: Option<string>) {
    if mt.Some? then Some(mt.value.path) else None
  }

  /** No order of the list changes the Path chosen exactly when all top candidates have the same Path. */
  lemma PathIgnoresOrderIff(a: seq<Mount>, path: string)
    ensures (forall b :: multiset(b) == multiset(a) ==> PathOf(Chosen(b, path)) == PathOf(Chosen(a, path))) <==>
            (forall x, y :: IsTop(a, path, x) && IsTop(a, path, y) ==> x.path == y.path)
  {
    if forall x, y :: IsTop(a, path, x) && IsTop(a, path, y) ==> x.path == y.path {
      forall b | multiset(b) == multiset(a) ensures PathOf(Chosen(b, path)) == PathOf(Chosen(a, path)) {
        SameMounts(a, b);
        BothTop(a, b, path);
      }
    } else {
      var x, y :| IsTop(a, path, x) && IsTop(a, path, y) && x.path != y.path;
      var b, c := TwoOrders(a, path, x, y);
      assert PathOf(Chosen(b, path)) != PathOf(Chosen(c, path));
    }
  }

  /** And none changes the mount chosen exactly when there is at most one top candidate. */
  lemma MountIgnoresOrderIff(a: seq<Mount>, path: string)
    ensures (forall b :: multiset(b) == multiset(a) ==> Chosen(b, path) == Chosen(a, path)) <==>
            (forall x, y :: IsTop(a, path, x) && IsTop(a, path, y) ==> x == y)
  {
    if forall x, y :: IsTop(a, path, x) && IsTop(a, path, y) ==> x == y {
      forall b | multiset(b) == multiset(a) ensures Chosen(b, path) == Chosen(a, path) {
        SameMounts(a, b);
        BothTop(a, b, path);
      }
    } else {
      var x, y :| IsTop(a, path, x) && IsTop(a, path, y) && x != y;
      var b, c := TwoOrders(a, path, x, y);
      assert Chosen(b, path) != Chosen(c, path);
    }
  }

  lemma TwoOrders(a: seq<Mount>, path: string, x: Mount, y: Mount) returns (b: seq<Mount>, c: seq<Mount>)
    requires IsTop(a, path, x) && IsTop(a, path, y)
    ensures multiset(b) == multiset(a) && Chosen(b, path) == Some(x)
    ensures multiset(c) == multiset(a) && Chosen(c, path) == Some(y)
  {
    TopIsChosenBySomeOrder(a, path, x);
    TopIsChosenBySomeOrder(a, path, y);
    b :| multiset(b) == multiset(a) && Chosen(b, path) == Some(x);
    c :| multiset(c) == multiset(a) && Chosen(c, path) == Some(y);
  }

  /** Lists of the same mounts choose among the same top candidates. */
  lemma BothTop(a: seq<Mount>, b: seq<Mount>, path: string)
    requires forall mt :: mt in a <==> mt in b
    ensures Chosen(a, path).None? <==> Chosen(b, path).None?
    ensures Chosen(a, path).Some? ==> IsTop(a, path, Chosen(a, path).value) && IsTop(a, path, Chosen(b, path).value)
  {
    if Chosen(a, path).Some? {
      ChosenIsTop(a, path);
      TopMatches(b, path, Chosen(a, path).value);
    }
    if Chosen(b, path).Some? {
      ChosenIsTop(b, path);
      TopMatches(a, path, Chosen(b, path).value);
    }
  }

  /** All mount paths are written with the same number of leading slashes. */
  predicate UniformSlashes(mounts: seq<Mount>) {
    forall i, j :: 0 <= i < |mounts| && 0 <= j < |mounts| ==>
      LeadingSlashes(mounts[i].path) == LeadingSlashes(mounts[j].path)
  }

  lemma ChosenIsLongestTrimmed(mounts: seq<Mount>, path: string)
    requires UniformSlashes(mounts)
    ensures var r := BestMount(mounts, path);
            r.Some? && mounts[r.value].pathIsPrefix ==>
              forall j :: 0 <= j < |mounts| && IsPrefixMatch(mounts[j], path) ==>
                |TrimSlashes(mounts[j].path)| <= |TrimSlashes(mounts[r.value].path)|
  {
  }

  /** With uniform leading slashes all top candidates have the same Path and kind. */
  lemma UniformTopsAgree(mounts: seq<Mount>, path: string, x: Mount, y: Mount)
    requires UniformSlashes(mounts) && IsTop(mounts, path, x) && IsTop(mounts, path, y)
    ensures x.path == y.path && x.pathIsPrefix == y.pathIsPrefix
  {
    var i :| 0 <= i < |mounts| && mounts[i] == x;
    var j :| 0 <= j < |mounts| && mounts[j] == y;
    assert LeadingSlashes(mounts[i].path) == LeadingSlashes(mounts[j].path);
    if !IsExactMatch(x, path) {
      var t := TrimSlashes(path);
      assert TrimSlashes(x.path) == t[..|TrimSlashes(x.path)|] == TrimSlashes(y.path);
    }
    TrimmedIsInjective(x.path, y.path);
  }

  /**
   With uniform leading slashes, the Path and kind chosen, and whether anything is chosen,
   depend only on which mounts there are, not on their order or repetition.
   */
  lemma ChoiceIgnoresOrder(a: seq<Mount>, b: seq<Mount>, path: string)
    requires UniformSlashes(a)
    requires forall mt :: mt in a <==> mt in b
    ensures var r, q := Chosen(a, path), Chosen(b, path);
            && (r.None? <==> q.None?)
            && (r.Some? ==> r.value.path == q.value.path && r.value.pathIsPrefix == q.value.pathIsPrefix)
  {
    BothTop(a, b, path);
    if Chosen(a, path).Some? {
      UniformTopsAgree(a, path, Chosen(a, path).value, Chosen(b, path).value);
    }
  }

  lemma ChoiceIgnoresPermutation(a: seq<Mount>, b: seq<Mount>, path: string)
    requires UniformSlashes(a)
    requires multiset(a) == multiset(b)
    ensures var r, q := Chosen(a, path), Chosen(b, path);
            && (r.None? <==> q.None?)
            && (r.Some? ==> r.value.path == q.value.path && r.value.pathIsPrefix == q.value.pathIsPrefix)
  {
    SameMounts(a, b);
    ChoiceIgnoresOrder(a, b, path);
  }

  /** With mixed leading slashes raw lengths can tie although one prefix is longer: then there are two top Paths. */
  lemma MixedSlashesDependOnOrder()
    ensures var x := Mount("//a", true, "", false, "", "");
            var y := Mount("/ab", true, "", false, "", "");
            && IsTop([x, y], "/abc", x) && IsTop([x, y], "/abc", y)
            && Chosen([x, y], "/abc") == Some(x)
            && Chosen([y, x], "/abc") == Some(y)
            && TrimSlashes(x.path) < TrimSlashes(y.path)
  {
    var x := Mount("//a", true, "", false, "", "");
    var y := Mount("/ab", true, "", false, "", "");
    assert TrimSlashes("//a") == TrimSlashes("/a") == TrimSlashes("a") == "a";
    assert TrimSlashes("/ab") == TrimSlashes("ab") == "ab";
    assert TrimSlashes("/abc") == TrimSlashes("abc") == "abc";
    assert IsPrefixMatch(x, "/abc") && IsPrefixMatch(y, "/abc");
    assert [x, y][0] == x && [y, x][0] == y;
    FirstTopIsChosen([x, y], "/abc");
    FirstTopIsChosen([y, x], "/abc");
  }

  // ----- the choice in full, over texts as they are written

  predicate IsSlashes(s: string) { forall i :: 0 <= i < |s| ==> s[i] == '/' }

  /** `s` is written as slashes, or none, and then `t`, which does not begin with one. */
  predicate IsWritten(s: string, front: string, t: string) {
    s == front + t && IsSlashes(front) && (t == "" || t[0] != '/')
  }

  lemma {:induction false} TrimWritten(s: string, front: string, t: string)
    requires IsWritten(s, front, t)
    ensures TrimSlashes(s) == t
  {
    if front != "" {
      assert s[0] == front[0] && s[1..] == front[1..] + t;
      TrimWritten(s[1..], front[1..], t);
    }
  }

  lemma {:induction false} EveryTextIsWritten(s: string) returns (front: string)
    ensures IsWritten(s, front, TrimSlashes(s))
  {
    if s != "" && s[0] == '/' {
      var rest := EveryTextIsWritten(s[1..]);
      front := "/" + rest;
      assert s == "/" + s[1..];
    } else {
      front := "";
    }
  }

  /** The path's text after slashes is the mount's, followed by anything for a prefix mount. */
  predicate Spells(mt: Mount, path: string, a: string, b: string, t: string, rest: string) {
    && IsWritten(mt.path, a, t)
    && path == b + (t + rest) && IsSlashes(b)
    && (!mt.pathIsPrefix ==> rest == "")
  }

  ghost predicate AsksFor(path: string, mt: Mount) {
    exists a, b, t, rest :: Spells(mt, path, a, b, t, rest)
  }

  lemma {:induction false} TrimMore(b: string, s: string)
    requires IsSlashes(b)
    ensures TrimSlashes(b + s) == TrimSlashes(s)
  {
    if b == "" {
      assert b + s == s;
    } else {
      assert (b + s)[1..] == b[1..] + s;
      TrimMore(b[1..], s);
    }
  }

  lemma SpelledMatches(mt: Mount, path: string, a: string, b: string, t: string, rest: string)
    requires Spells(mt, path, a, b, t, rest)
    ensures Matches(mt, path)
  {
    TrimWritten(mt.path, a, t);
    TrimMore(b, t + rest);
    if t != "" {
      assert (t + rest)[0] == t[0];
      assert TrimSlashes(path) == t + rest;
    }
    assert t + "" == t;
  }

  lemma WrittenSpells(mt: Mount, path: string, a: string, b: string, t: string, p: string)
    requires IsWritten(mt.path, a, t) && IsWritten(path, b, p) && t <= p && (!mt.pathIsPrefix ==> t == p)
    ensures Spells(mt, path, a, b, t, p[|t|..])
  {
    assert p == t + p[|t|..];
  }

  lemma MatchSpells(mt: Mount, path: string)
    requires Matches(mt, path)
    ensures AsksFor(path, mt)
  {
    var t, p := TrimSlashes(mt.path), TrimSlashes(path);
    var a := EveryTextIsWritten(mt.path);
    var b := EveryTextIsWritten(path);
    WrittenSpells(mt, path, a, b, t, p);
  }

  /** A path matches a mount exactly when it asks for it. */
  lemma MatchesIff(mt: Mount, path: string)
    ensures Matches(mt, path) <==> AsksFor(path, mt)
  {
    if Matches(mt, path) {
      MatchSpells(mt, path);
    }
    if a, b, t, rest :| Spells(mt, path, a, b, t, rest) {
      SpelledMatches(mt, path, a, b, t, rest);
    }
  }

  /** Something is chosen exactly when some mount of the list is asked for, and then one that is. */
  lemma ChosenIsAskedFor(mounts: seq<Mount>, path: string)
    ensures Chosen(mounts, path).Some? <==> exists mt :: mt in mounts && AsksFor(path, mt)
    ensures Chosen(mounts, path).Some? ==> Chosen(mounts, path).value in mounts && AsksFor(path, Chosen(mounts, path).value)
  {
    if Chosen(mounts, path).Some? {
      MatchesIff(Chosen(mounts, path).value, path);
    }
    if mt :| mt in mounts && AsksFor(path, mt) {
      MatchesIff(mt, path);
      var j :| 0 <= j < |mounts| && mounts[j] == mt;
      assert Matches(mounts[j], path);
    }
  }

  /** A prefix mount with a Path of slashes, or with none, serves every path. */
  lemma EmptyPrefixServesAll(mounts: seq<Mount>, mt: Mount, path: string)
    requires mt in mounts && mt.pathIsPrefix && IsSlashes(mt.path)
    ensures Chosen(mounts, path).Some?
  {
    assert mt.path + "" == mt.path && "" + ("" + path) == path;
    assert Spells(mt, path, mt.path, "", "", path);
    ChosenIsAskedFor(mounts, path);
  }

  /**
   Which of several: the first that is no prefix mount and has the path's text; where there is none,
   of the prefix mounts whose text the path's begins with, the earliest with the longest Path as written.
   */
  lemma ChoiceInFull(mounts: seq<Mount>, path: string, i: nat)
    requires BestMount(mounts, path) == Some(i)
    ensures i < |mounts| && Chosen(mounts, path) == Some(mounts[i])
    ensures !mounts[i].pathIsPrefix ==>
              && TrimSlashes(mounts[i].path) == TrimSlashes(path)
              && forall j :: 0 <= j < i ==> mounts[j].pathIsPrefix || TrimSlashes(mounts[j].path) != TrimSlashes(path)
    ensures mounts[i].pathIsPrefix ==>
              && TrimSlashes(mounts[i].path) <= TrimSlashes(path)
              && (forall j :: 0 <= j < |mounts| ==> mounts[j].pathIsPrefix || TrimSlashes(mounts[j].path) != TrimSlashes(path))
              && (forall j :: 0 <= j < |mounts| && mounts[j].pathIsPrefix && TrimSlashes(mounts[j].path) <= TrimSlashes(path) ==>
                    |mounts[j].path| < |mounts[i].path| || (i <= j && |mounts[j].path| == |mounts[i].path|))
  {
    assert IsBest(mounts, path, Some(i));
    forall j | 0 <= j < |mounts|
      ensures IsExactMatch(mounts[j], path) <==> !mounts[j].pathIsPrefix && TrimSlashes(mounts[j].path) == TrimSlashes(path)
      ensures IsPrefixMatch(mounts[j], path) <==> mounts[j].pathIsPrefix && TrimSlashes(mounts[j].path) <= TrimSlashes(path)
    {
    }
  }
}
