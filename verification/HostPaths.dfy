/** Host files behind localDir mounts (manifest/schema.go) and load-time validation (manifest/io.go). */
module HostPaths {
  import opened Wrappers
  import opened Text
  import opened FilePath
  import opened Manifests

  /** `Mount.hostPathPrefix` */
  function Prefix(mt: Mount, root: string): (r: string) {
    if IsAbs(mt.localDir) then mt.localDir else JoinPath(root, mt.localDir)
  }

  /** What is appended to the prefix: the rest of the request, or the mount's own Path. */
  function Suffix(mt: Mount, request: string): (r: string) {
    if mt.appendSuffix then TrimPrefix(request, mt.path) else mt.path
  }

  /** `Mount.HostPath` */
  function HostPath(mt: Mount, root: string, request: string): (r: string) {
    JoinPath(Prefix(mt, root), Suffix(mt, request))
  }

  /** `Mount.ValidateHostPath` */
  predicate ValidateHostPath(mt: Mount, root: string, hostPath: string) {
    Prefix(mt, root) <= hostPath
  }

  /** The request asks for something at or below the mount's directory, at every step of its path. */
  predicate AsksInside(mt: Mount, request: string) {
    StaysInside(Split(Suffix(mt, request), '/'), 0)
  }

  // ----- where host paths lead

  /** There is a directory to speak of, as for every localDir mount. */
  predicate HasDirectory(mt: Mount, root: string) { mt.localDir != "" || root != "" }

  /** A directory that is not absolute was joined, so it is written clean. */
  lemma PrefixShape(mt: Mount, root: string)
    requires HasDirectory(mt, root)
    ensures Prefix(mt, root) != ""
    ensures !IsAbs(Prefix(mt, root)) ==> Clean(Prefix(mt, root)) == Prefix(mt, root)
  {
    var p := if root != "" then root + "/" + mt.localDir else mt.localDir;
    CleanNonEmpty(p);
    CleanIdempotent(p);
  }

  lemma HostPathIsClean(mt: Mount, root: string, request: string)
    requires HasDirectory(mt, root)
    ensures var dir := Prefix(mt, root);
            var e := Fold(IsAbs(dir), Elements(dir), Split(Suffix(mt, request), '/'));
            && IsNormal(IsAbs(dir), e)
            && HostPath(mt, root, request) == Render(IsAbs(dir), e)
            && Elements(HostPath(mt, root, request)) == e
  {
    var dir := Prefix(mt, root);
    PrefixShape(mt, root);
    CleanOfJoined(dir, Suffix(mt, request));
    ElementsNormal(dir);
    FoldIsNormal(IsAbs(dir), Elements(dir), Split(Suffix(mt, request), '/'));
  }

  /** The host path is the directory's own elements followed by the resolved suffix. */
  lemma HostPathElements(mt: Mount, root: string, request: string)
    requires HasDirectory(mt, root) && AsksInside(mt, request)
    ensures var dir, path := Prefix(mt, root), HostPath(mt, root, request);
            var e := Elements(dir) + Resolve(Split(Suffix(mt, request), '/'));
            && path == Render(IsAbs(dir), e) && Elements(path) == e
            && (dir != "." ==> Clean(dir) <= path)
  {
    var dir, segs := Prefix(mt, root), Split(Suffix(mt, request), '/');
    PrefixShape(mt, root);
    HostPathIsClean(mt, root, request);
    ElementsNormal(dir);
    assert Elements(dir) + [] == Elements(dir);
    FoldAboveBase(IsAbs(dir), Elements(dir), [], segs);
    if dir != "." {
      RenderPrefix(IsAbs(dir), Elements(dir), Resolve(segs));
    }
  }

  /** For a clean absolute localDir, every request that stays inside resolves below it and is accepted. */
  lemma CleanLocalDirServes(mt: Mount, root: string, request: string)
    requires IsAbs(mt.localDir) && Clean(mt.localDir) == mt.localDir
    requires AsksInside(mt, request)
    ensures HostPath(mt, root, request) ==
            Render(true, Elements(mt.localDir) + Resolve(Split(Suffix(mt, request), '/')))
    ensures ValidateHostPath(mt, root, HostPath(mt, root, request))
  {
    HostPathElements(mt, root, request);
  }

  /**
   A relative localDir is always joined into a clean directory below the root, so it serves too,
   unless that directory is ".".
   */
  lemma RelativeLocalDirServes(mt: Mount, root: string, request: string)
    requires !IsAbs(mt.localDir) && root != ""
    requires AsksInside(mt, request)
    ensures Elements(Prefix(mt, root)) == Fold(IsAbs(root), Elements(root), Split(mt.localDir, '/'))
    ensures HostPath(mt, root, request) ==
            Render(IsAbs(root), Elements(Prefix(mt, root)) + Resolve(Split(Suffix(mt, request), '/')))
    ensures Prefix(mt, root) != "." ==> ValidateHostPath(mt, root, HostPath(mt, root, request))
  {
    CleanOfJoined(root, mt.localDir);
    CleanIdempotent(root + "/" + mt.localDir);
    HostPathElements(mt, root, request);
  }

  // ----- what the guard accepts, for every request

  /** The path is the directory or below it; both are absolute or both relative. */
  predicate IsInside(dir: string, path: string) {
    var d, e := Elements(dir), Elements(path);
    d <= e && (|d| < |e| ==> e[|d|] != "..")
  }

  /** The path follows the directory and then climbs; only a relative path can. */
  predicate ClimbsOut(dir: string, path: string) {
    var d, e := Elements(dir), Elements(path);
    d <= e && |d| < |e| && e[|d|] == ".."
  }

  /** The path follows the directory up to its last name, where it has a longer name that begins with that name. */
  predicate IsBeside(dir: string, path: string) {
    var d, e, n := Elements(dir), Elements(path), |Elements(dir)| - 1;
    n >= 0 && d[..n] <= e && n < |e| && d[n] < e[n]
  }

  /** The guard compares characters; what it accepts, in elements, for any directory as written. */
  lemma AcceptedIff(mt: Mount, root: string, request: string)
    requires HasDirectory(mt, root)
    ensures var dir, e := Prefix(mt, root), Elements(HostPath(mt, root, request));
            ValidateHostPath(mt, root, HostPath(mt, root, request)) <==>
            if e == [] then dir == "/" || dir == "." else Leads(Pieces(dir), e)
  {
    PrefixShape(mt, root);
    HostPathIsClean(mt, root, request);
    PrefixOfCleanIff(Prefix(mt, root), Elements(HostPath(mt, root, request)));
  }

  /** For a directory written clean, but for ".", the guard accepts what is inside, what is beside it, and what climbs out. */
  lemma CleanAcceptedIff(mt: Mount, root: string, request: string)
    requires HasDirectory(mt, root) && Clean(Prefix(mt, root)) == Prefix(mt, root) && Prefix(mt, root) != "."
    ensures var dir, path := Prefix(mt, root), HostPath(mt, root, request);
            ValidateHostPath(mt, root, path) <==> IsInside(dir, path) || IsBeside(dir, path) || ClimbsOut(dir, path)
    ensures IsAbs(Prefix(mt, root)) ==> !ClimbsOut(Prefix(mt, root), HostPath(mt, root, request))
  {
    var dir, e := Prefix(mt, root), Elements(HostPath(mt, root, request));
    PrefixShape(mt, root);
    HostPathIsClean(mt, root, request);
    AcceptedIff(mt, root, request);
    if dir == "/" {
      RootElements();
    } else {
      CleanPieces(dir);
      LeadsInOrOut(dir, HostPath(mt, root, request));
    }
  }

  lemma LeadsInOrOut(dir: string, path: string)
    requires Elements(dir) != []
    ensures Leads(Elements(dir), Elements(path)) <==> IsInside(dir, path) || IsBeside(dir, path) || ClimbsOut(dir, path)
  {
    LeadsIff(Elements(dir), Elements(path));
    InsideOrBeside(Elements(dir), Elements(path));
  }

  lemma InsideOrBeside(d: seq<string>, e: seq<string>)
    requires d != []
    ensures var n := |d| - 1;
            d[..n] <= e && n < |e| && d[n] <= e[n] <==> d <= e || (d[..n] <= e && n < |e| && d[n] < e[n])
  {
    var n := |d| - 1;
    assert d == d[..n] + [d[n]];
    if n < |e| && d[..n] <= e && d[n] == e[n] {
      assert e[..n + 1] == e[..n] + [e[n]];
    }
  }

  lemma RootElements()
    ensures Elements("/") == [] && Pieces("/") == [""]
    ensures Elements(".") == [] && Pieces(".") == ["."]
  {
    assert Fold(true, [], [""]) == Fold(true, [], []);
    SplitWithoutSeparator(".", '/');
  }

  /** For ".", it accepts "." itself, what climbs out, and what is below a name that begins with a dot. */
  lemma DotAcceptedIff(mt: Mount, root: string, request: string)
    requires HasDirectory(mt, root) && Prefix(mt, root) == "."
    ensures var path := HostPath(mt, root, request);
            ValidateHostPath(mt, root, path) <==> Elements(path) == [] || "." <= Elements(path)[0]
    ensures ClimbsOut(".", HostPath(mt, root, request)) ==> ValidateHostPath(mt, root, HostPath(mt, root, request))
  {
    AcceptedIff(mt, root, request);
    RootElements();
  }

  /** An appending mount of a clean directory that ends in a name has an accepted request beside it. */
  lemma BesideIsAccepted(mt: Mount, root: string) returns (request: string)
    requires mt.appendSuffix && HasDirectory(mt, root) && Clean(Prefix(mt, root)) == Prefix(mt, root)
    requires var d := Elements(Prefix(mt, root)); d != [] && d[|d| - 1] != ".."
    ensures ValidateHostPath(mt, root, HostPath(mt, root, request))
    ensures IsBeside(Prefix(mt, root), HostPath(mt, root, request))
    ensures !IsInside(Prefix(mt, root), HostPath(mt, root, request))
  {
    var dir, d, n := Prefix(mt, root), Elements(Prefix(mt, root)), |Elements(Prefix(mt, root))| - 1;
    PrefixShape(mt, root);
    ElementsNormal(dir);
    RootElements();
    var longer := d[n] + "x";
    request := mt.path + ("../" + longer);
    SiblingSplit(longer);
    FoldSibling(IsAbs(dir), d, longer);
    HostPathIsClean(mt, root, request);
    SiblingIsBeside(d, d[..n] + [longer]);
    CleanAcceptedIff(mt, root, request);
  }

  lemma SiblingIsBeside(d: seq<string>, e: seq<string>)
    requires d != [] && e == d[..|d| - 1] + [d[|d| - 1] + "x"]
    ensures d[..|d| - 1] <= e && |e| == |d| && d[|d| - 1] < e[|d| - 1] && !(d <= e)
  {
  }

  lemma SiblingSplit(name: string)
    requires '/' !in name
    ensures Split("../" + name, '/') == ["..", name]
  {
    assert ".." + "/" + name == "../" + name;
    SplitConcat("..", name, '/');
    SplitWithoutSeparator("..", '/');
    SplitWithoutSeparator(name, '/');
  }

  lemma FoldSibling(rooted: bool, d: seq<string>, name: string)
    requires d != [] && d[|d| - 1] != ".." && IsOrdinary(name)
    ensures Fold(rooted, d, ["..", name]) == d[..|d| - 1] + [name]
  {
    assert [".."] + [name] == ["..", name];
    FoldConcat(rooted, d, [".."], [name]);
    FoldOne(rooted, d, "..");
    FoldOne(rooted, d[..|d| - 1], name);
  }

  /** Of a clean relative directory without a last name, the request for its parent is accepted. */
  lemma ParentIsAccepted(mt: Mount, root: string) returns (request: string)
    requires mt.appendSuffix && HasDirectory(mt, root) && !IsAbs(Prefix(mt, root))
    requires var d := Elements(Prefix(mt, root)); d == [] || d[|d| - 1] == ".."
    ensures ValidateHostPath(mt, root, HostPath(mt, root, request))
    ensures ClimbsOut(Prefix(mt, root), HostPath(mt, root, request))
  {
    var dir, d := Prefix(mt, root), Elements(Prefix(mt, root));
    PrefixShape(mt, root);
    request := mt.path + "..";
    SplitWithoutSeparator("..", '/');
    FoldOne(false, d, "..");
    HostPathIsClean(mt, root, request);
    if dir == "." {
      DotAcceptedIff(mt, root, request);
    } else {
      CleanAcceptedIff(mt, root, request);
    }
  }

  /** The directory itself is asked for; its host path is the clean form of the directory. */
  lemma DirectoryItself(mt: Mount, root: string)
    requires mt.appendSuffix && HasDirectory(mt, root)
    ensures AsksInside(mt, mt.path) && HostPath(mt, root, mt.path) == Clean(Prefix(mt, root))
    ensures IsInside(Prefix(mt, root), HostPath(mt, root, mt.path))
    ensures ValidateHostPath(mt, root, HostPath(mt, root, mt.path)) <==> Clean(Prefix(mt, root)) == Prefix(mt, root)
  {
    var p := Prefix(mt, root);
    PrefixShape(mt, root);
    assert Suffix(mt, mt.path) == "";
    CleanOfJoined(p, "");
    FoldOne(IsAbs(p), Elements(p), "");
    CleanKeepsElements(p);
    if IsAbs(p) {
      CleanNoLonger(p);
    }
  }

  /** Below ".", names that do not begin with a dot are rejected. */
  lemma DotRejects(mt: Mount, root: string)
    requires mt.appendSuffix && HasDirectory(mt, root) && Prefix(mt, root) == "."
    ensures AsksInside(mt, mt.path + "x") && !ValidateHostPath(mt, root, HostPath(mt, root, mt.path + "x"))
  {
    SplitWithoutSeparator("x", '/');
    FoldOne(false, [], "x");
    RootElements();
    HostPathIsClean(mt, root, mt.path + "x");
    DotAcceptedIff(mt, root, mt.path + "x");
  }

  /**
   A suffix-appending mount has all its inside requests accepted exactly when its directory is
   written in clean form and is not ".".
   */
  lemma InsideAcceptedIffClean(mt: Mount, root: string)
    requires mt.appendSuffix && HasDirectory(mt, root)
    ensures (forall request :: AsksInside(mt, request) ==>
               ValidateHostPath(mt, root, HostPath(mt, root, request)))
            <==> Clean(Prefix(mt, root)) == Prefix(mt, root) && Prefix(mt, root) != "."
  {
    DirectoryItself(mt, root);
    if Prefix(mt, root) == "." {
      DotRejects(mt, root);
    } else if Clean(Prefix(mt, root)) == Prefix(mt, root) {
      forall request | AsksInside(mt, request)
        ensures ValidateHostPath(mt, root, HostPath(mt, root, request))
      {
        HostPathElements(mt, root, request);
      }
    }
  }

  /** All accepted requests of such a mount are inside exactly when the directory is "/" or not written clean. */
  lemma AcceptedInsideIff(mt: Mount, root: string)
    requires mt.appendSuffix && HasDirectory(mt, root)
    ensures (forall request :: ValidateHostPath(mt, root, HostPath(mt, root, request)) ==>
               IsInside(Prefix(mt, root), HostPath(mt, root, request)))
            <==> Prefix(mt, root) == "/" || Clean(Prefix(mt, root)) != Prefix(mt, root)
  {
    var dir := Prefix(mt, root);
    PrefixShape(mt, root);
    if dir == "/" || Clean(dir) != dir {
      forall request | ValidateHostPath(mt, root, HostPath(mt, root, request))
        ensures IsInside(dir, HostPath(mt, root, request))
      {
        AcceptedIsInside(mt, root, request);
      }
    } else {
      var d := Elements(dir);
      ElementsNormal(dir);
      if d == [] || d[|d| - 1] == ".." {
        var request := ParentIsAccepted(mt, root);
      } else {
        var request := BesideIsAccepted(mt, root);
      }
    }
  }

  lemma AcceptedIsInside(mt: Mount, root: string, request: string)
    requires HasDirectory(mt, root) && (Prefix(mt, root) == "/" || Clean(Prefix(mt, root)) != Prefix(mt, root))
    requires ValidateHostPath(mt, root, HostPath(mt, root, request))
    ensures IsInside(Prefix(mt, root), HostPath(mt, root, request))
  {
    var dir := Prefix(mt, root);
    PrefixShape(mt, root);
    HostPathIsClean(mt, root, request);
    if dir == "/" {
      RootElements();
    } else {
      AcceptedIff(mt, root, request);
      LeadsInside(dir, Elements(HostPath(mt, root, request)));
    }
  }

  /** So the guard accepts exactly what is inside only for the root directory. */
  lemma GuardIsExactIffRoot(mt: Mount, root: string)
    requires mt.appendSuffix && HasDirectory(mt, root)
    ensures (forall request :: ValidateHostPath(mt, root, HostPath(mt, root, request)) <==>
               IsInside(Prefix(mt, root), HostPath(mt, root, request)))
            <==> Prefix(mt, root) == "/"
  {
    AcceptedInsideIff(mt, root);
    DirectoryItself(mt, root);
    if Prefix(mt, root) == "/" {
      forall request ensures ValidateHostPath(mt, root, HostPath(mt, root, request)) {
        RootElements();
        AcceptedIff(mt, root, request);
      }
    }
  }

  // ----- inside requests one by one, and mounts that do not append

  /** Which inside requests are accepted, for any directory and either kind of mount. */
  lemma InsideAcceptedIff(mt: Mount, root: string, request: string)
    requires HasDirectory(mt, root) && AsksInside(mt, request)
    ensures var dir := Prefix(mt, root);
            var e := Elements(dir) + Resolve(Split(Suffix(mt, request), '/'));
            ValidateHostPath(mt, root, HostPath(mt, root, request)) <==>
            if e == [] then dir == "/" || dir == "." else Leads(Pieces(dir), e)
  {
    AcceptedIff(mt, root, request);
    HostPathElements(mt, root, request);
  }

  /** In a relative directory all are, but in "." only what is empty or begins with a dot. */
  lemma RelativeInsideAcceptedIff(mt: Mount, root: string, request: string)
    requires HasDirectory(mt, root) && !IsAbs(Prefix(mt, root)) && AsksInside(mt, request)
    ensures var suffix := Resolve(Split(Suffix(mt, request), '/'));
            ValidateHostPath(mt, root, HostPath(mt, root, request)) <==>
            Prefix(mt, root) != "." || suffix == [] || "." <= suffix[0]
  {
    PrefixShape(mt, root);
    HostPathElements(mt, root, request);
    if Prefix(mt, root) == "." {
      RootElements();
      DotAcceptedIff(mt, root, request);
      assert [] + Resolve(Split(Suffix(mt, request), '/')) == Resolve(Split(Suffix(mt, request), '/'));
    }
  }

  /** A clean directory written with one slash more has exactly the inside requests accepted that are not for itself. */
  lemma TrailingSlashAcceptedIff(mt: Mount, root: string, dir: string, request: string)
    requires Prefix(mt, root) == dir + "/" && IsAbs(dir) && Clean(dir) == dir && dir != "/"
    requires AsksInside(mt, request)
    ensures ValidateHostPath(mt, root, HostPath(mt, root, request)) <==>
            Resolve(Split(Suffix(mt, request), '/')) != []
  {
    var p, d, r := dir + "/", Elements(dir), Resolve(Split(Suffix(mt, request), '/'));
    CleanPieces(dir);
    assert p[1..] == dir[1..] + "/" + "";
    SplitConcat(dir[1..], "", '/');
    assert Pieces(p) == d + [""];
    FoldConcat(true, [], Pieces(dir), [""]);
    FoldOne(true, d, "");
    InsideAcceptedIff(mt, root, request);
    LeadsIff(d + [""], d + r);
    assert (d + [""])[..|d|] == d;
  }

  /** A mount that does not append has one host path: all its requests are accepted, or none is. */
  lemma FixedAcceptedIff(mt: Mount, root: string)
    requires !mt.appendSuffix && HasDirectory(mt, root)
    ensures var dir := Prefix(mt, root);
            var e := Fold(IsAbs(dir), Elements(dir), Split(mt.path, '/'));
            var accepted := if e == [] then dir == "/" || dir == "." else Leads(Pieces(dir), e);
            && (forall request :: HostPath(mt, root, request) == JoinPath(dir, mt.path))
            && (forall request :: ValidateHostPath(mt, root, HostPath(mt, root, request)) <==> accepted)
  {
    forall request
      ensures var dir := Prefix(mt, root);
              var e := Fold(IsAbs(dir), Elements(dir), Split(mt.path, '/'));
              ValidateHostPath(mt, root, HostPath(mt, root, request)) <==>
              if e == [] then dir == "/" || dir == "." else Leads(Pieces(dir), e)
    {
      HostPathIsClean(mt, root, request);
      AcceptedIff(mt, root, request);
    }
  }

  // ----- the same file under a name and under a slash and the name

  /** A name as TFTP clients send it, without a leading slash. */
  predicate IsName(name: string) { name == "" || name[0] != '/' }

  /** No element of the name is "." or "..". */
  predicate IsDotFree(name: string) { HasNoDots(Split(name, '/')) }

  /** Which of a name and its path still have the mount's Path in front, once it is trimmed as appending trims it. */
  lemma TrimmedOfName(mt: Mount, name: string)
    requires IsName(name) && Matches(mt, name)
    ensures var t, k := TrimSlashes(mt.path), LeadingSlashes(mt.path);
            && t <= name
            && TrimPrefix(name, mt.path) == (if k == 0 then name[|t|..] else name)
            && TrimPrefix("/" + name, mt.path) == (if k == 1 then name[|t|..] else "/" + name)
  {
    var t, k := TrimSlashes(mt.path), LeadingSlashes(mt.path);
    SlashForm(mt.path);
    assert TrimSlashes(name) == name;
    assert ("/" + name)[1..] == name;
    if k == 1 {
      assert mt.path <= "/" + name;
      assert ("/" + name)[|mt.path|..] == name[|t|..];
    }
  }

  /** From the mount's directory, the name leads where it does without the mount's Path in front. */
  predicate LeadsAlike(mt: Mount, root: string, name: string) {
    var dir := Prefix(mt, root);
    Fold(IsAbs(dir), Elements(dir), Split(name, '/')) ==
    Fold(IsAbs(dir), Elements(dir), Split(TrimPrefix(name, TrimSlashes(mt.path)), '/'))
  }

  /** When a name and its path lead to the same file. */
  lemma SameFileIff(mt: Mount, root: string, name: string)
    requires HasDirectory(mt, root) && IsName(name) && Matches(mt, name)
    ensures HostPath(mt, root, name) == HostPath(mt, root, "/" + name) <==>
            !mt.appendSuffix || LeadingSlashes(mt.path) >= 2 || LeadsAlike(mt, root, name)
  {
    var dir, t := Prefix(mt, root), TrimSlashes(mt.path);
    TrimmedOfName(mt, name);
    assert TrimPrefix(name, t) == name[|t|..];
    HostPathIsClean(mt, root, name);
    HostPathIsClean(mt, root, "/" + name);
    FoldIgnoresSlash(IsAbs(dir), Elements(dir), name);
  }

  /** Without dot elements, the front can be left out only if it is nothing but slashes. */
  lemma DotFreeLeadsAlikeIff(mt: Mount, root: string, name: string)
    requires IsName(name) && Matches(mt, name) && IsDotFree(name)
    ensures LeadsAlike(mt, root, name) <==> TrimSlashes(mt.path) == ""
  {
    var dir, t := Prefix(mt, root), TrimSlashes(mt.path);
    TrimmedOfName(mt, name);
    var rest := TrimPrefix(name, t);
    assert name == t + rest;
    if t != "" {
      DroppedFrontDiffers(IsAbs(dir), Elements(dir), t, rest);
    }
  }

  predicate IsFileName(s: string) { IsOrdinary(s) && '/' !in s }

  lemma FoldNames(stack: seq<string>, a: string, b: string)
    requires IsFileName(a) && IsFileName(b)
    ensures Fold(true, stack, Split(a, '/')) == stack + [a]
    ensures Fold(true, stack, Split(a + "/" + b, '/')) == stack + [a, b]
  {
    SplitWithoutSeparator(a, '/');
    SplitWithoutSeparator(b, '/');
    SplitConcat(a, b, '/');
    FoldOne(true, stack, a);
    FoldConcat(true, stack, [a], [b]);
    FoldOne(true, stack + [a], b);
    assert stack + [a] + [b] == stack + [a, b];
  }

  lemma HostPathBelow(mt: Mount, request: string, dir: string, names: seq<string>)
    requires mt.localDir == "/" + dir && IsFileName(dir)
    requires Fold(true, [dir], Split(Suffix(mt, request), '/')) == [dir] + names
    ensures HostPath(mt, "", request) == Render(true, [dir] + names)
  {
    ElementsBelowRoot(dir);
    FoldNames([], dir, dir);
    assert [] + [dir] == [dir];
    HostPathIsClean(mt, "", request);
  }

  /** The mount that netbootd's README.md documents, /subdir with /tftpboot behind it, leads subdir/file.x and /subdir/file.x to two files. */
  lemma DocumentedMountDiffers(front: string, dir: string, file: string)
    requires IsFileName(front) && IsFileName(dir) && IsFileName(file)
    ensures var mt := Mount("/" + front, true, "", true, "", "/" + dir);
            && HostPath(mt, "", "/" + (front + "/" + file)) == Render(true, [dir] + [file])
            && HostPath(mt, "", front + "/" + file) == Render(true, [dir] + [front, file])
  {
    var mt, name := Mount("/" + front, true, "", true, "", "/" + dir), front + "/" + file;
    assert "/" + name == ("/" + front) + ("/" + file);
    FoldIgnoresSlash(true, [dir], file);
    FoldNames([dir], file, file);
    HostPathBelow(mt, "/" + name, dir, [file]);
    assert name[0] == front[0] && mt.path[0] == '/' && front[0] in front;
    FoldNames([dir], front, file);
    HostPathBelow(mt, name, dir, [front, file]);
  }

  // ----- absolute host paths

  /** A localDir mount yields an absolute host path exactly when localDir or root is absolute. */
  lemma HostPathAbsoluteIff(mt: Mount, root: string, request: string)
    requires mt.localDir != ""
    ensures IsAbs(HostPath(mt, root, request)) <==> IsAbs(mt.localDir) || IsAbs(root)
  {
    if !IsAbs(mt.localDir) {
      if root != "" {
        CleanOfJoined(root, mt.localDir);
      } else {
        CleanKeepsElements(mt.localDir);
      }
      PrefixShape(mt, root);
    }
    CleanOfJoined(Prefix(mt, root), Suffix(mt, request));
  }

  // ----- validation at load time

  /** What `Manifest.Validate` demands. */
  predicate IsValidFor(m: Manifest, root: string) {
    forall mt :: mt in m.mounts && mt.localDir != "" ==> IsAbs(mt.localDir) || root != ""
  }

  lemma ValidInFull(m: Manifest, root: string)
    ensures IsValidFor(m, root) <==> forall i :: 0 <= i < |m.mounts| ==>
              m.mounts[i].localDir == "" || m.mounts[i].localDir[0] == '/' || root != ""
  {
    forall i | 0 <= i < |m.mounts| ensures m.mounts[i] in m.mounts {}
  }

  /** `Manifest.Validate` */
  method Validate(m: Manifest, root: string) returns (ok: bool)
    ensures ok <==> IsValidFor(m, root)
    ensures ok <==> forall i :: 0 <= i < |m.mounts| ==>
              m.mounts[i].localDir == "" || m.mounts[i].localDir[0] == '/' || root != ""
  {
    ValidInFull(m, root);
    for i := 0 to |m.mounts|
      invariant forall j :: 0 <= j < i && m.mounts[j].localDir != "" ==> IsAbs(m.mounts[j].localDir) || root != ""
    {
      if m.mounts[i].localDir != "" {
        if !IsAbs(m.mounts[i].localDir) && root == "" {
          assert m.mounts[i] in m.mounts;
          return false;
        }
      }
    }
    return true;
  }

  /** `ManifestFromJson` and `ManifestFromYaml`, given what the decoder produced. */
  function Load(decoded: Result<Manifest>, root: string): (r: Result<Manifest>)
    ensures r.Ok? <==> decoded.Ok? && IsValidFor(decoded.value, root)
    ensures r.Ok? ==> r == decoded
  {
    match decoded
    case Err(e) => Err(e)
    case Ok(m) => if IsValidFor(m, root) then Ok(m) else Err("localDir needs to be absolute path when rootPath is not set")
  }

  ghost predicate AllHostPathsAbsolute(m: Manifest, root: string) {
    forall mt, request :: mt in m.mounts && mt.localDir != "" ==> IsAbs(HostPath(mt, root, request))
  }

  /** A manifest's host paths are all absolute exactly when the root is, or every localDir is. */
  lemma AllAbsoluteIff(m: Manifest, root: string)
    ensures AllHostPathsAbsolute(m, root) <==>
            IsAbs(root) || forall mt :: mt in m.mounts && mt.localDir != "" ==> IsAbs(mt.localDir)
  {
    forall mt, request | mt in m.mounts && mt.localDir != ""
      ensures IsAbs(HostPath(mt, root, request)) <==> IsAbs(mt.localDir) || IsAbs(root)
    {
      HostPathAbsoluteIff(mt, root, request);
    }
    if AllHostPathsAbsolute(m, root) && !IsAbs(root) {
      forall mt | mt in m.mounts && mt.localDir != "" ensures IsAbs(mt.localDir) {
        assert IsAbs(HostPath(mt, root, ""));
      }
    }
  }

  /** A manifest that loads under an empty or absolute root has only absolute host paths. */
  lemma LoadedIsAbsolute(decoded: Result<Manifest>, root: string)
    requires root == "" || IsAbs(root)
    requires Load(decoded, root).Ok?
    ensures AllHostPathsAbsolute(decoded.value, root)
  {
    AllAbsoluteIff(decoded.value, root);
  }
}
