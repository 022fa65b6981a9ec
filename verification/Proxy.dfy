/**
 Upstream URLs of proxy mounts: Go's `net/url` on addresses made of plain characters, and the
 request rewriting of `Mount.ProxyDirector` (manifest/schema.go).
 */
module Proxy {
  import opened Wrappers
  import opened Text
  import opened Manifests

  datatype URL = URL(scheme: string, rootless: string, host: string, path: string)

  /** Characters that mean themselves in a host and in a path, and are never escaped. */
  predicate IsPlainChar(c: char) {
    'a' <= c <= 'z' || 'A' <= c <= 'Z' || '0' <= c <= '9' ||
    c == '-' || c == '.' || c == '_' || c == '~' || c == '/' || c == ':'
  }

  predicate IsPlain(s: string) {
    forall i :: 0 <= i < |s| ==> IsPlainChar(s[i])
  }

  predicate IsLetter(c: char) { 'a' <= c <= 'z' || 'A' <= c <= 'Z' }

  predicate IsSchemeChar(c: char) {
    IsLetter(c) || '0' <= c <= '9' || c == '+' || c == '-' || c == '.'
  }

  function SchemeLength(s: string): (n: nat)
    ensures n <= |s| && forall i :: 0 <= i < n ==> IsSchemeChar(s[i])
    ensures n < |s| ==> !IsSchemeChar(s[n])
  {
    if s == "" || !IsSchemeChar(s[0]) then 0 else 1 + SchemeLength(s[1..])
  }

  /** The lower-cased scheme, or none, and what comes after it; an error for a colon in front. */
  function SplitScheme(s: string): (r: Result<(string, string)>) {
    var n := SchemeLength(s);
    if n == |s| || s[n] != ':' then Ok(("", s))
    else if n == 0 then Err("missing protocol scheme")
    else if IsLetter(s[0]) then Ok((Lower(s[..n]), s[n + 1..]))
    else Ok(("", s))
  }

  /** What follows the last colon. */
  function Port(host: string): (r: Option<string>) {
    if host == "" then None
    else match Port(host[1..])
      case Some(p) => Some(p)
      case None => if host[0] == ':' then Some(host[1..]) else None
  }

  predicate HasValidPort(host: string) {
    match Port(host)
    case None => true
    case Some(p) => forall i :: 0 <= i < |p| ==> '0' <= p[i] <= '9'
  }

  /** The text after "//": a host up to the first slash, and a path. */
  function ParseAuthority(scheme: string, text: string): (u: Option<URL>) {
    var i := IndexOf(text, '/');
    if HasValidPort(text[..i]) then Some(URL(scheme, "", text[..i], text[i..])) else None
  }

  /** `url.Parse` of a plain address; what follows a scheme without a slash is kept apart as `rootless`. */
  function ParseURL(s: string): (u: Option<URL>) {
    match SplitScheme(s)
    case Err(_) => None
    case Ok((scheme, rest)) =>
      if !("/" <= rest) then
        if scheme != "" then Some(URL(scheme, rest, "", ""))
        else if ':' in rest[..IndexOf(rest, '/')] then None
        else Some(URL("", "", "", rest))
      else if "//" <= rest && (scheme != "" || !("///" <= rest)) then ParseAuthority(scheme, rest[2..])
      else Some(URL(scheme, "", "", rest))
  }

  /** The address is written with a scheme and "//". */
  predicate HasAuthority(s: string) {
    match SplitScheme(s)
    case Err(_) => false
    case Ok((scheme, rest)) => scheme != "" && "//" <= rest
  }

  /** What follows the "//" of an address. */
  function AfterSlashes(s: string): (r: string)
    requires HasAuthority(s)
  {
    SplitScheme(s).value.1[2..]
  }

  lemma ParsesAuthority(s: string)
    requires HasAuthority(s)
    ensures ParseURL(s) == ParseAuthority(SplitScheme(s).value.0, AfterSlashes(s))
    ensures SplitScheme(s).value.0 == Lower(s[..SchemeLength(s)])
    ensures s == s[..SchemeLength(s)] + ("://" + AfterSlashes(s))
  {
    var n := SchemeLength(s);
    assert s == s[..n] + s[n..];
    assert s[n..] == "://" + AfterSlashes(s);
  }

  /** Parsing such an address only takes it apart, up to the letter case of the scheme. */
  lemma ParsedParts(s: string, u: URL)
    requires HasAuthority(s) && ParseURL(s) == Some(u)
    ensures |u.scheme| <= |s| && Lower(s[..|u.scheme|]) == u.scheme && u.rootless == ""
    ensures s == s[..|u.scheme|] + ("://" + (u.host + u.path))
    ensures '/' !in u.host && HasValidPort(u.host) && (u.path == "" || u.path[0] == '/')
  {
    ParsesAuthority(s);
    AuthorityParts(SplitScheme(s).value.0, AfterSlashes(s), u);
  }

  lemma AuthorityParts(scheme: string, text: string, u: URL)
    requires ParseAuthority(scheme, text) == Some(u)
    ensures u.scheme == scheme && u.rootless == "" && text == u.host + u.path
    ensures '/' !in u.host && HasValidPort(u.host) && (u.path == "" || u.path[0] == '/')
  {
    var i := IndexOf(text, '/');
    assert text == text[..i] + text[i..];
  }

  /** And every scheme, host and path written so parse back. */
  lemma PartsParse(u: URL)
    requires u.scheme != "" && IsLetter(u.scheme[0]) && Lower(u.scheme) == u.scheme && u.rootless == ""
    requires forall i :: 0 <= i < |u.scheme| ==> IsSchemeChar(u.scheme[i])
    requires '/' !in u.host && HasValidPort(u.host) && (u.path == "" || u.path[0] == '/')
    ensures ParseURL(u.scheme + ("://" + (u.host + u.path))) == Some(u)
  {
    var text := u.host + u.path;
    SchemeParses(u.scheme, text);
    ParsesAuthority(u.scheme + ("://" + text));
    IndexOfAppend(u.host, u.path, '/');
    assert text[..|u.host|] == u.host && text[|u.host|..] == u.path;
  }

  lemma SchemeParses(scheme: string, text: string)
    requires scheme != "" && IsLetter(scheme[0]) && forall i :: 0 <= i < |scheme| ==> IsSchemeChar(scheme[i])
    ensures var s := scheme + ("://" + text);
            HasAuthority(s) && SplitScheme(s).value.0 == Lower(scheme) && AfterSlashes(s) == text
  {
    var s := scheme + ("://" + text);
    SchemeEnds(s, |scheme|);
    assert s[..|scheme|] == scheme && s[|scheme| + 1..] == "//" + text;
  }

  lemma {:induction false} SchemeEnds(s: string, n: nat)
    requires n < |s| && s[n] == ':' && forall i :: 0 <= i < n ==> IsSchemeChar(s[i])
    ensures SchemeLength(s) == n
  {
    if n > 0 {
      SchemeEnds(s[1..], n - 1);
    }
  }

  /** A port is what stands behind the last colon, and may hold digits only. */
  lemma PortInFull(h: string, p: string)
    requires ':' !in p
    ensures Port(h + (":" + p)) == Some(p)
    ensures HasValidPort(h + (":" + p)) <==> forall i :: 0 <= i < |p| ==> '0' <= p[i] <= '9'
    ensures HasValidPort(p)
  {
    PortAfterColon(h, p);
    NoPort(p);
  }

  lemma {:induction false} NoPort(h: string)
    requires ':' !in h
    ensures Port(h) == None
  {
    if h != "" {
      NoPort(h[1..]);
    }
  }

  lemma {:induction false} PortAfterColon(h: string, p: string)
    requires ':' !in p
    ensures Port(h + (":" + p)) == Some(p)
  {
    if h == "" {
      NoPort(p);
      assert (":" + p)[1..] == p && "" + (":" + p) == ":" + p;
    } else {
      assert (h + (":" + p))[1..] == h[1..] + (":" + p);
      PortAfterColon(h[1..], p);
    }
  }

  /** Addresses that are not written with a scheme and "//": a path alone, or what follows a scheme kept apart. */
  lemma OtherAddresses(s: string)
    requires s != ""
    ensures s[0] == ':' ==> ParseURL(s) == None
    ensures s[0] == '/' && (|s| == 1 || s[1] != '/') ==> ParseURL(s) == Some(URL("", "", "", s))
    ensures "///" <= s ==> ParseURL(s) == Some(URL("", "", "", s))
    ensures s[0] != '/' && ':' !in s ==> ParseURL(s) == Some(URL("", "", "", s))
  {
    assert SchemeLength(s) < |s| ==> s[SchemeLength(s)] in s;
    var first := s[..IndexOf(s, '/')];
    if ':' in first {
      var i :| 0 <= i < |first| && first[i] == ':';
      assert s[i] == ':';
    }
  }

  /** `http.NewRequest` drops a port that is only a colon. */
  function RemoveEmptyPort(host: string): (r: string) {
    if Port(host) == Some("") then host[..|host| - 1] else host
  }

  /** A plain proxy address with a scheme and "//" that parses. */
  predicate IsPlainProxy(proxy: string) {
    IsPlain(proxy) && HasAuthority(proxy) && ParseURL(proxy).Some?
  }

  // ----- the two ways to reach an upstream

  function RequestSuffix(mt: Mount, request: string): (r: string) {
    if mt.appendSuffix then TrimPrefix(request, mt.path) else ""
  }

  /** TFTP: append to the address as text, then parse. */
  function ConcatUpstream(mt: Mount, request: string): (u: Option<URL>) {
    match ParseURL(mt.proxy + RequestSuffix(mt, request))
    case None => None
    case Some(u) => Some(u.(host := RemoveEmptyPort(u.host)))
  }

  /** HTTP: parse the address, then append to its path. */
  function DirectedUpstream(mt: Mount, request: string): (u: Option<URL>) {
    match ParseURL(mt.proxy)
    case None => None
    case Some(u) => Some(u.(rootless := "", path := u.path + RequestSuffix(mt, request)))
  }

  /** The suffix is attached at a path, not at the host, and the host has no colon to lose. */
  predicate JoinsAtPath(mt: Mount, request: string)
    requires ParseURL(mt.proxy).Some?
  {
    var u, suffix := ParseURL(mt.proxy).value, RequestSuffix(mt, request);
    && (u.path != "" || suffix == "" || suffix[0] == '/')
    && Port(u.host) != Some("")
  }

  lemma SchemeOfConcat(a: string, b: string)
    requires HasAuthority(a)
    ensures HasAuthority(a + b) && AfterSlashes(a + b) == AfterSlashes(a) + b
    ensures ParseURL(a + b) == ParseAuthority(SplitScheme(a).value.0, AfterSlashes(a) + b)
  {
    var n := SchemeLength(a);
    SchemeEnds(a + b, n);
    assert (a + b)[..n] == a[..n] && (a + b)[n + 1..] == a[n + 1..] + b;
  }

  lemma HostEndsAtPath(rest: string, suffix: string)
    requires IndexOf(rest, '/') < |rest| || suffix == "" || suffix[0] == '/'
    ensures IndexOf(rest + suffix, '/') == IndexOf(rest, '/')
    ensures (rest + suffix)[..IndexOf(rest, '/')] == rest[..IndexOf(rest, '/')]
    ensures (rest + suffix)[IndexOf(rest, '/')..] == rest[IndexOf(rest, '/')..] + suffix
  {
    IndexOfAppend(rest, suffix, '/');
  }

  lemma {:induction false} EmptyPortEnds(host: string)
    requires Port(host) == Some("")
    ensures host != "" && host == RemoveEmptyPort(host) + ":"
  {
    if Port(host[1..]).Some? {
      EmptyPortEnds(host[1..]);
    }
  }

  lemma ConcatAtPath(mt: Mount, request: string)
    requires IsPlainProxy(mt.proxy)
    requires var suffix := RequestSuffix(mt, request);
             ParseURL(mt.proxy).value.path != "" || suffix == "" || suffix[0] == '/'
    ensures var u := ParseURL(mt.proxy).value;
            ConcatUpstream(mt, request) ==
            Some(URL(u.scheme, "", RemoveEmptyPort(u.host), u.path + RequestSuffix(mt, request)))
  {
    var suffix := RequestSuffix(mt, request);
    ParsesAuthority(mt.proxy);
    SchemeOfConcat(mt.proxy, suffix);
    HostEndsAtPath(AfterSlashes(mt.proxy), suffix);
  }

  lemma ConcatAtHost(mt: Mount, request: string)
    requires IsPlainProxy(mt.proxy) && ParseURL(mt.proxy).value.path == ""
    requires var suffix := RequestSuffix(mt, request); suffix != "" && suffix[0] != '/'
    ensures var u, suffix := ParseURL(mt.proxy).value, RequestSuffix(mt, request);
            var j := IndexOf(suffix, '/');
            ConcatUpstream(mt, request) ==
            if HasValidPort(u.host + suffix[..j])
            then Some(URL(u.scheme, "", RemoveEmptyPort(u.host + suffix[..j]), suffix[j..])) else None
  {
    var suffix, rest := RequestSuffix(mt, request), AfterSlashes(mt.proxy);
    ParsesAuthority(mt.proxy);
    SchemeOfConcat(mt.proxy, suffix);
    IndexOfAppend(rest, suffix, '/');
    var j := IndexOf(suffix, '/');
    assert rest == ParseURL(mt.proxy).value.host;
    CutBehind(rest, suffix, j);
  }

  lemma CutBehind(a: string, b: string, j: nat)
    requires j <= |b|
    ensures (a + b)[..|a| + j] == a + b[..j] && (a + b)[|a| + j..] == b[j..]
  {
  }

  lemma {:induction false} ColonPort(host: string)
    ensures Port(host + ":") == Some("")
  {
    if host == "" {
      assert (":")[1..] == "";
    } else {
      assert (host + ":")[1..] == host[1..] + ":";
      ColonPort(host[1..]);
    }
  }

  /** Dropping an empty port gives a shorter host back exactly when a bare colon was added. */
  lemma AddedColonIff(host: string, added: string)
    requires added != ""
    ensures RemoveEmptyPort(host + added) == host <==> added == ":"
    ensures added == ":" ==> HasValidPort(host + added)
  {
    ColonPort(host);
    assert (host + ":")[..|host|] == host;
    if Port(host + added) == Some("") {
      EmptyPortEnds(host + added);
      SameAddition(host, added, ":");
    }
  }

  lemma SameAddition(host: string, a: string, b: string)
    ensures host + a == host + b <==> a == b
  {
    assert (host + a)[|host|..] == a && (host + b)[|host|..] == b;
  }

  /** The text way for one request and the path way for another give the same address, exactly. */
  lemma UpstreamsAcrossIff(mt: Mount, a: string, b: string)
    requires IsPlainProxy(mt.proxy)
    ensures var u, x, y := ParseURL(mt.proxy).value, RequestSuffix(mt, a), RequestSuffix(mt, b);
            ConcatUpstream(mt, a) == DirectedUpstream(mt, b) <==>
            || (x == y && JoinsAtPath(mt, a))
            || (u.path == "" && x == ":" + y && (y == "" || y[0] == '/'))
  {
    var u, x, y := ParseURL(mt.proxy).value, RequestSuffix(mt, a), RequestSuffix(mt, b);
    if u.path != "" || x == "" || x[0] == '/' {
      ConcatAtPath(mt, a);
      SamePathIff(u, x, y);
    } else {
      AcrossAtHost(mt, a, b);
    }
    ParsesAuthority(mt.proxy);
  }

  lemma AcrossAtHost(mt: Mount, a: string, b: string)
    requires IsPlainProxy(mt.proxy) && ParseURL(mt.proxy).value.path == ""
    requires var x := RequestSuffix(mt, a); x != "" && x[0] != '/'
    ensures var x, y := RequestSuffix(mt, a), RequestSuffix(mt, b);
            ConcatUpstream(mt, a) == DirectedUpstream(mt, b) <==> x == ":" + y && (y == "" || y[0] == '/')
  {
    var u, x, y := ParseURL(mt.proxy).value, RequestSuffix(mt, a), RequestSuffix(mt, b);
    var j := IndexOf(x, '/');
    assert u.path + y == y;
    assert j > 0 && x[..j] != "";
    ConcatAtHost(mt, a);
    AddedColonIff(u.host, x[..j]);
    ColonBeforeIff(x, y);
  }

  lemma SamePathIff(u: URL, x: string, y: string)
    ensures RemoveEmptyPort(u.host) == u.host && u.path + x == u.path + y <==> x == y && Port(u.host) != Some("")
  {
    assert (u.path + x)[|u.path|..] == x && (u.path + y)[|u.path|..] == y;
    if Port(u.host) == Some("") {
      EmptyPortEnds(u.host);
    }
  }

  lemma ColonBeforeIff(x: string, y: string)
    requires x != "" && x[0] != '/'
    ensures var j := IndexOf(x, '/');
            x[..j] == ":" && x[j..] == y <==> x == ":" + y && (y == "" || y[0] == '/')
  {
    var j := IndexOf(x, '/');
    assert x == x[..j] + x[j..];
    if x == ":" + y && (y == "" || y[0] == '/') {
      assert x[1..] == y;
      IndexOfAppend(":", y, '/');
    }
  }

  /** Both ways give the same address exactly when the suffix joins at the path and the port is not empty. */
  lemma UpstreamsEqualIff(mt: Mount, request: string)
    requires IsPlainProxy(mt.proxy)
    ensures ConcatUpstream(mt, request) == DirectedUpstream(mt, request) <==> JoinsAtPath(mt, request)
  {
    UpstreamsAcrossIff(mt, request, request);
  }

  /** Where the path is empty and the suffix has no leading slash, the host swallows the suffix up to its first slash. */
  lemma JoinedAtHost(mt: Mount, request: string)
    requires IsPlainProxy(mt.proxy) && ParseURL(mt.proxy).value.path == ""
    requires var suffix := RequestSuffix(mt, request); suffix != "" && suffix[0] != '/'
    ensures ConcatUpstream(mt, request).Some? ==>
              |ConcatUpstream(mt, request).value.path| < |DirectedUpstream(mt, request).value.path|
  {
    ConcatAtHost(mt, request);
  }

  /** Where they join at a path but the port is empty, only the text way drops the colon. */
  lemma ColonIsLost(mt: Mount, request: string)
    requires IsPlainProxy(mt.proxy) && Port(ParseURL(mt.proxy).value.host) == Some("")
    requires var suffix := RequestSuffix(mt, request);
             ParseURL(mt.proxy).value.path != "" || suffix == "" || suffix[0] == '/'
    ensures ConcatUpstream(mt, request).Some?
    ensures ConcatUpstream(mt, request).value.host + ":" == DirectedUpstream(mt, request).value.host
  {
    ConcatAtPath(mt, request);
    EmptyPortEnds(ParseURL(mt.proxy).value.host);
  }

  // ----- both ways in full

  lemma EndsInColonIff(host: string)
    ensures Port(host) == Some("") <==> host != "" && host[|host| - 1] == ':'
  {
    if Port(host) == Some("") {
      EmptyPortEnds(host);
    }
    if host != "" && host[|host| - 1] == ':' {
      assert host == host[..|host| - 1] + ":";
      ColonPort(host[..|host| - 1]);
    }
  }

  /** `host` without the colon of an empty port. */
  predicate IsWithoutColon(host: string, given: string) {
    if given != "" && given[|given| - 1] == ':' then host + ":" == given else host == given
  }

  lemma RemovesColon(given: string)
    ensures IsWithoutColon(RemoveEmptyPort(given), given)
  {
    EndsInColonIff(given);
  }

  /** What is left of a request behind the mount's Path, or all of it where that does not stand in front; nothing if the mount does not append. */
  predicate IsAppended(mt: Mount, request: string, x: string) {
    if !mt.appendSuffix then x == ""
    else if mt.path <= request then mt.path + x == request
    else x == request
  }

  /** The address as text followed by that, taken apart. */
  ghost predicate IsReachedAsText(mt: Mount, request: string, u: Option<URL>) {
    exists x :: IsAppended(mt, request, x) &&
      match (ParseURL(mt.proxy + x), u)
      case (None, None) => true
      case (Some(given), Some(v)) => v == given.(host := v.host) && IsWithoutColon(v.host, given.host)
      case _ => false
  }

  /** The address taken apart, with its path followed by that. */
  predicate IsReachedByPath(mt: Mount, request: string, u: Option<URL>) {
    match (ParseURL(mt.proxy), u)
    case (None, None) => true
    case (Some(given), Some(v)) =>
      && v.scheme == given.scheme && v.host == given.host && v.rootless == ""
      && given.path <= v.path && IsAppended(mt, request, v.path[|given.path|..])
    case _ => false
  }

  lemma UpstreamsInFull(mt: Mount, request: string)
    ensures IsReachedAsText(mt, request, ConcatUpstream(mt, request))
    ensures IsReachedByPath(mt, request, DirectedUpstream(mt, request))
  {
    var x := RequestSuffix(mt, request);
    assert IsAppended(mt, request, x);
    match ParseURL(mt.proxy + x) {
      case None =>
      case Some(given) => RemovesColon(given.host);
    }
    match ParseURL(mt.proxy) {
      case None =>
      case Some(given) => assert (given.path + x)[|given.path|..] == x;
    }
  }

  /** A mount that does not append sends every request to its own address. */
  lemma FixedUpstreams(mt: Mount, request: string, u: URL)
    requires !mt.appendSuffix && ParseURL(mt.proxy) == Some(u)
    ensures DirectedUpstream(mt, request) == Some(URL(u.scheme, "", u.host, u.path))
    ensures var v := ConcatUpstream(mt, request);
            v.Some? && v.value == u.(host := v.value.host) && IsWithoutColon(v.value.host, u.host)
  {
    assert mt.proxy + "" == mt.proxy && u.path + "" == u.path;
    RemovesColon(u.host);
  }

  /** An incoming HTTP request, as the director sees and rewrites it. */
  class Request {
    var scheme: string
    var host: string
    var path: string
    var rawPath: string

    constructor (path: string, rawPath: string)
      ensures this.path == path && this.rawPath == rawPath
    {
      scheme, host := "", "";
      this.path, this.rawPath := path, rawPath;
    }

    /** The closure made by `ProxyDirector`, for a plain target, whose own raw path is empty. */
    method Direct(mt: Mount, target: URL)
      requires ParseURL(mt.proxy) == Some(target)
      modifies this
      ensures Some(URL(scheme, "", host, path)) == DirectedUpstream(mt, old(path))
      ensures scheme == target.scheme && host == target.host
      ensures !mt.appendSuffix ==> path == target.path
      ensures mt.appendSuffix && mt.path <= old(path) ==> path == target.path + old(path)[|mt.path|..]
      ensures mt.appendSuffix && !(mt.path <= old(path)) ==> path == target.path + old(path)
      ensures rawPath == if mt.appendSuffix then TrimPrefix(old(rawPath), mt.path) else ""
    {
      scheme := target.scheme;
      host := target.host;
      if mt.appendSuffix {
        path := target.path + TrimPrefix(path, mt.path);
        rawPath := TrimPrefix(rawPath, mt.path);
      } else {
        assert target.path + RequestSuffix(mt, path) == target.path;
        path := target.path;
        rawPath := "";
      }
    }
  }
}
