/**
 What TFTP (tftpd/handler.go) and HTTP (httpd/handler.go) serve for a path: the choice of
 source, up to reading it.
 */
module FrontEnds {
  import opened Wrappers
  import opened Net
  import opened Text
  import opened Manifests
  import opened FilePath
  import opened HostPaths
  import opened Proxy
  import opened Static
  import StoreModel
  import ManifestStore

  datatype Source =
    | Bundled(name: string)
    | Template(content: string)
    | Upstream(url: URL)
    | HostFile(path: string)
    | BadProxy
    | Rejected
    | EmptyMount
    | NoMount
    | NoManifest

  function UpstreamSource(u: Option<URL>): (r: Source) {
    if u.Some? then Upstream(u.value) else BadProxy
  }

  function LocalSource(mt: Mount, root: string, request: string): (r: Source) {
    var path := HostPath(mt, root, request);
    if ValidateHostPath(mt, root, path) then HostFile(path) else Rejected
  }

  /** TFTP tries the bundle by the name as given, then proxy, content, localDir. */
  function TftpSource(m: Manifest, root: string, filename: string): (r: Source) {
    if m.ipxe && filename in BUNDLE then Bundled(filename)
    else match MountFor(m, filename)
      case None => NoMount
      case Some(mt) =>
        if mt.proxy != "" then UpstreamSource(ConcatUpstream(mt, filename))
        else if mt.content != "" then Template(mt.content)
        else if mt.localDir != "" then LocalSource(mt, root, filename)
        else EmptyMount
  }

  /** HTTP tries the bundle without leading slashes, then content, proxy, localDir. */
  function HttpSource(m: Manifest, root: string, path: string): (r: Source) {
    if m.ipxe && TrimSlashes(path) in BUNDLE then Bundled(TrimSlashes(path))
    else match MountFor(m, path)
      case None => NoMount
      case Some(mt) =>
        if mt.content != "" then Template(mt.content)
        else if mt.proxy != "" then UpstreamSource(DirectedUpstream(mt, path))
        else if mt.localDir != "" then LocalSource(mt, root, path)
        else EmptyMount
  }

  // ----- the same in full, over the fields of manifest and mount

  /**
   The file is the directory joined with the mount's Path, or with what the request has behind it if
   the mount appends, provided the result begins with the directory as written; else nothing is served.
   */
  predicate IsLocalFile(mt: Mount, root: string, request: string, r: Source) {
    var dir := if mt.localDir != "" && mt.localDir[0] == '/' then mt.localDir else JoinPath(root, mt.localDir);
    var path := JoinPath(dir, if !mt.appendSuffix then mt.path
                              else if mt.path <= request then request[|mt.path|..] else request);
    r == if dir <= path then HostFile(path) else Rejected
  }

  predicate IsLoader(name: string) { name == "ipxe.efi" || name == "undionly.kpxe" || name == "ipxe_arm64.efi" }

  /** What TFTP serves for a name: a loader, or what the mount gives: proxy before content before localDir. */
  ghost predicate IsServedByTftp(m: Manifest, root: string, name: string, r: Source) {
    if m.ipxe && IsLoader(name) then r == Bundled(name)
    else match MountFor(m, name)
      case None => r == NoMount
      case Some(mt) =>
        if mt.proxy != "" then exists u :: IsReachedAsText(mt, name, u) && r == if u.Some? then Upstream(u.value) else BadProxy
        else if mt.content != "" then r == Template(mt.content)
        else if mt.localDir != "" then IsLocalFile(mt, root, name, r)
        else r == EmptyMount
  }

  /** What HTTP serves for a path: a loader after slashes, or what the mount gives: content before proxy before localDir. */
  ghost predicate IsServedByHttp(m: Manifest, root: string, path: string, r: Source) {
    if m.ipxe && (exists front, name :: IsWritten(path, front, name) && IsLoader(name)) then
      exists front, name :: IsWritten(path, front, name) && IsLoader(name) && r == Bundled(name)
    else match MountFor(m, path)
      case None => r == NoMount
      case Some(mt) =>
        if mt.content != "" then r == Template(mt.content)
        else if mt.proxy != "" then exists u :: IsReachedByPath(mt, path, u) && r == if u.Some? then Upstream(u.value) else BadProxy
        else if mt.localDir != "" then IsLocalFile(mt, root, path, r)
        else r == EmptyMount
  }

  lemma TftpInFull(m: Manifest, root: string, name: string)
    ensures IsServedByTftp(m, root, name, TftpSource(m, root, name))
  {
    if MountFor(m, name).Some? {
      UpstreamsInFull(MountFor(m, name).value, name);
    }
  }

  lemma LoaderAfterSlashesIff(path: string)
    ensures TrimSlashes(path) in BUNDLE <==> exists front, name :: IsWritten(path, front, name) && IsLoader(name)
  {
    var front := EveryTextIsWritten(path);
    if front, name :| IsWritten(path, front, name) && IsLoader(name) {
      TrimWritten(path, front, name);
    }
  }

  lemma HttpInFull(m: Manifest, root: string, path: string)
    ensures IsServedByHttp(m, root, path, HttpSource(m, root, path))
  {
    LoaderAfterSlashesIff(path);
    if m.ipxe && TrimSlashes(path) in BUNDLE {
      var front := EveryTextIsWritten(path);
      assert IsLoader(TrimSlashes(path));
    } else if MountFor(m, path).Some? {
      UpstreamsInFull(MountFor(m, path).value, path);
    }
  }

  // ----- the handlers

  method TftpReadHandler(s: ManifestStore.Store, root: string, raddr: IP, filename: string) returns (r: Source)
    requires s.Valid()
    ensures r == match StoreModel.FindByIP(s.model, raddr)
                 case None => NoManifest
                 case Some(a) => TftpSource(s.model.heap[a], root, filename)
    ensures match StoreModel.FindByIP(s.model, raddr)
            case None => r == NoManifest
            case Some(a) => IsServedByTftp(s.model.heap[a], root, filename, r)
  {
    var e := s.FindManifestByIP(raddr);
    if e == null {
      return NoManifest;
    }
    var manifest := e.value;
    TftpInFull(manifest, root, filename);
    if manifest.ipxe {
      if filename in BUNDLE {
        return Bundled(filename);
      }
    }
    var found := GetMount(manifest, filename);
    if found.None? {
      return NoMount;
    }
    var mount := found.value;
    if mount.proxy != "" {
      var url := mount.proxy;
      if mount.appendSuffix {
        url := url + TrimPrefix(filename, mount.path);
      }
      assert url == mount.proxy + RequestSuffix(mount, filename);
      var req := ParseURL(url);
      if req.None? {
        return BadProxy;
      }
      return Upstream(req.value.(host := RemoveEmptyPort(req.value.host)));
    } else if mount.content != "" {
      return Template(mount.content);
    } else if mount.localDir != "" {
      var path := HostPath(mount, root, filename);
      if !ValidateHostPath(mount, root, path) {
        return Rejected;
      }
      return HostFile(path);
    } else {
      return EmptyMount;
    }
  }

  /** `ServeHTTP` once the manifest is known. */
  method ServeManifest(manifest: Manifest, root: string, request: Request) returns (r: Source)
    modifies request
    ensures r == HttpSource(manifest, root, old(request.path))
  {
    if manifest.ipxe {
      var name := TrimSlashes(request.path);
      if name in BUNDLE {
        return Bundled(name);
      }
    }
    var found := GetMount(manifest, request.path);
    if found.None? {
      return NoMount;
    }
    var mount := found.value;
    if mount.content != "" {
      return Template(mount.content);
    } else if mount.proxy != "" {
      var target := ParseURL(mount.proxy);
      if target.None? {
        return BadProxy;
      }
      request.Direct(mount, target.value);
      return Upstream(URL(request.scheme, "", request.host, request.path));
    } else if mount.localDir != "" {
      var path := HostPath(mount, root, request.path);
      if !ValidateHostPath(mount, root, path) {
        return Rejected;
      }
      return HostFile(path);
    } else {
      return EmptyMount;
    }
  }

  method ServeHTTP(s: ManifestStore.Store, root: string, raddr: IP, request: Request) returns (r: Source)
    requires s.Valid()
    modifies request
    ensures r == match StoreModel.FindByIP(s.model, raddr)
                 case None => NoManifest
                 case Some(a) => HttpSource(s.model.heap[a], root, old(request.path))
    ensures match StoreModel.FindByIP(s.model, raddr)
            case None => r == NoManifest
            case Some(a) => IsServedByHttp(s.model.heap[a], root, old(request.path), r)
  {
    var e := s.FindManifestByIP(raddr);
    if e == null {
      return NoManifest;
    }
    HttpInFull(e.value, root, request.path);
    r := ServeManifest(e.value, root, request);
  }

  // ----- the two front ends expose the same mounts

  /** The exact condition, read off the manifest and the path before asking either front end. */
  predicate ServedAlike(m: Manifest, path: string)
    requires MountFor(m, path).Some? && MountFor(m, path).value.proxy != "" ==>
               IsPlainProxy(MountFor(m, path).value.proxy)
  {
    && !(m.ipxe && TrimSlashes(path) in BUNDLE)
    && (match MountFor(m, path)
        case None => true
        case Some(mt) => mt.proxy != "" ==> mt.content == "" && JoinsAtPath(mt, path))
  }

  /**
   For a slash-leading path, both front ends choose the same source exactly when it is not a
   bundled name under iPXE and its mount, if a proxy, has no content and joins at a path.
   */
  lemma SameSourceIff(m: Manifest, root: string, path: string)
    requires path != "" && path[0] == '/'
    requires MountFor(m, path).Some? && MountFor(m, path).value.proxy != "" ==>
               IsPlainProxy(MountFor(m, path).value.proxy) && IsPlain(path)
    ensures TftpSource(m, root, path) == HttpSource(m, root, path) <==> ServedAlike(m, path)
  {
    assert path !in BUNDLE by {
      assert forall n :: n in BUNDLE ==> n[0] != '/';
    }
    var found := MountFor(m, path);
    if found.Some? && found.value.proxy != "" {
      UpstreamsEqualIff(found.value, path);
    }
  }

  // ----- a TFTP name without a leading slash, and the HTTP path it makes

  lemma SameMatches(mt: Mount, name: string)
    ensures IsExactMatch(mt, "/" + name) == IsExactMatch(mt, name)
    ensures IsPrefixMatch(mt, "/" + name) == IsPrefixMatch(mt, name)
  {
    assert ("/" + name)[1..] == name;
  }

  /** A name and its path choose the same mount. */
  lemma SameMountFor(m: Manifest, name: string)
    ensures MountFor(m, "/" + name) == MountFor(m, name)
  {
    forall mt
      ensures IsExactMatch(mt, "/" + name) == IsExactMatch(mt, name)
      ensures IsPrefixMatch(mt, "/" + name) == IsPrefixMatch(mt, name)
    {
      SameMatches(mt, name);
    }
    assert IsBest(m.mounts, name, BestMount(m.mounts, "/" + name));
    BestIsUnique(m.mounts, name, BestMount(m.mounts, "/" + name), BestMount(m.mounts, name));
  }

  /**
   A proxy is reached alike when it appends nothing or its Path is "/", and then joins at a path;
   else only where the name begins with the very colon that the text way drops.
   */
  predicate ProxiedAlike(mt: Mount, name: string)
    requires ParseURL(mt.proxy).Some?
  {
    if !mt.appendSuffix || mt.path == "/" then JoinsAtPath(mt, name)
    else mt.path == "/:" && ParseURL(mt.proxy).value.path == "" && (|name| <= 1 || name[1] == '/')
  }

  lemma SuffixesOfNameIff(mt: Mount, name: string)
    requires IsName(name) && Matches(mt, name) && mt.appendSuffix
    ensures var x, y := RequestSuffix(mt, name), RequestSuffix(mt, "/" + name);
            && (x == y <==> mt.path == "/")
            && (x == ":" + y <==> mt.path == "/:")
            && (mt.path == "/:" ==> y == name[1..])
  {
    var t, k := TrimSlashes(mt.path), LeadingSlashes(mt.path);
    TrimmedOfName(mt, name);
    SmallPathsIff(mt.path);
    if k == 1 {
      FrontsOfName(t, name[|t|..], name);
    } else {
      assert |RequestSuffix(mt, name)| < |RequestSuffix(mt, "/" + name)|;
    }
  }

  lemma SmallPathsIff(path: string)
    ensures path == "/" <==> LeadingSlashes(path) == 1 && TrimSlashes(path) == ""
    ensures path == "/:" <==> LeadingSlashes(path) == 1 && TrimSlashes(path) == ":"
  {
    SlashForm(path);
    assert ("/:")[1..] == ":" && ("/")[1..] == "" && (":")[0] != '/';
    assert TrimSlashes(":") == ":" && LeadingSlashes(":") == 0;
  }

  lemma FrontsOfName(t: string, rest: string, name: string)
    requires name == t + rest
    ensures name == rest <==> t == ""
    ensures name == ":" + rest <==> t == ":"
    ensures t == ":" ==> rest == name[1..]
  {
    ColonFrontIff(t, rest);
    assert |name| == |t| + |rest|;
  }

  lemma ProxiedAlikeIff(mt: Mount, name: string)
    requires IsName(name) && Matches(mt, name) && IsPlainProxy(mt.proxy)
    ensures ConcatUpstream(mt, name) == DirectedUpstream(mt, "/" + name) <==> ProxiedAlike(mt, name)
  {
    UpstreamsAcrossIff(mt, name, "/" + name);
    if mt.appendSuffix {
      SuffixesOfNameIff(mt, name);
    }
  }

  lemma ColonFrontIff(t: string, rest: string)
    ensures t + rest == ":" + rest <==> t == ":"
  {
    assert |t + rest| == |t| + |rest|;
    if t + rest == ":" + rest {
      assert (t + rest)[..|t|] == t && (":" + rest)[..1] == ":";
    }
  }

  /** The local files are the same, or both are rejected. */
  predicate LocalAlike(mt: Mount, root: string, name: string) {
    || !mt.appendSuffix || LeadingSlashes(mt.path) >= 2 || LeadsAlike(mt, root, name)
    || (&& !ValidateHostPath(mt, root, HostPath(mt, root, name))
        && !ValidateHostPath(mt, root, HostPath(mt, root, "/" + name)))
  }

  lemma LocalAlikeIff(mt: Mount, root: string, name: string)
    requires IsName(name) && Matches(mt, name) && mt.localDir != ""
    ensures LocalSource(mt, root, name) == LocalSource(mt, root, "/" + name) <==> LocalAlike(mt, root, name)
  {
    SameFileIff(mt, root, name);
  }

  /** When TFTP, asked for a name, and HTTP, asked for the name after a slash, choose the same source. */
  predicate NamedAlike(m: Manifest, root: string, name: string)
    requires MountFor(m, name).Some? && MountFor(m, name).value.proxy != "" ==>
               IsPlainProxy(MountFor(m, name).value.proxy)
  {
    || (m.ipxe && name in BUNDLE)
    || match MountFor(m, name)
       case None => true
       case Some(mt) =>
         if mt.proxy != "" then mt.content == "" && ProxiedAlike(mt, name)
         else mt.content != "" || mt.localDir == "" || LocalAlike(mt, root, name)
  }

  /** The exact condition. */
  lemma SameSourceByNameIff(m: Manifest, root: string, name: string)
    requires IsName(name)
    requires MountFor(m, name).Some? && MountFor(m, name).value.proxy != "" ==>
               IsPlainProxy(MountFor(m, name).value.proxy) && IsPlain(name)
    ensures TftpSource(m, root, name) == HttpSource(m, root, "/" + name) <==> NamedAlike(m, root, name)
  {
    SameMountFor(m, name);
    assert TrimSlashes("/" + name) == name by {
      assert ("/" + name)[1..] == name;
    }
    if MountFor(m, name).Some? {
      var mt := MountFor(m, name).value;
      if mt.proxy != "" {
        ProxiedAlikeIff(mt, name);
      } else if mt.localDir != "" {
        LocalAlikeIff(mt, root, name);
      }
    }
  }

  /**
   For a localDir mount that appends and a name without dot elements, it comes down to the Path:
   with none or one leading slash and anything after it, the sources differ unless both are rejected.
   */
  lemma SameLocalSourceIff(m: Manifest, root: string, name: string)
    requires IsName(name) && IsDotFree(name) && !(m.ipxe && name in BUNDLE)
    requires MountFor(m, name).Some?
    requires var mt := MountFor(m, name).value;
             mt.proxy == "" && mt.content == "" && mt.localDir != "" && mt.appendSuffix
    ensures var mt := MountFor(m, name).value;
            TftpSource(m, root, name) == HttpSource(m, root, "/" + name) <==>
            || LeadingSlashes(mt.path) >= 2 || TrimSlashes(mt.path) == ""
            || (TftpSource(m, root, name) == Rejected && HttpSource(m, root, "/" + name) == Rejected)
  {
    SameSourceByNameIff(m, root, name);
    DotFreeLeadsAlikeIff(MountFor(m, name).value, root, name);
    SameMountFor(m, name);
    assert ("/" + name)[1..] == name;
  }

  /** A bundled loader is served by TFTP under its name and by HTTP under its name after slashes. */
  lemma BundleServedByBoth(m: Manifest, root: string, name: string)
    requires m.ipxe && name in BUNDLE
    ensures TftpSource(m, root, name) == Bundled(name)
    ensures HttpSource(m, root, "/" + name) == HttpSource(m, root, name) == Bundled(name)
  {
    assert name[0] != '/';
    assert ("/" + name)[1..] == name;
  }
}
