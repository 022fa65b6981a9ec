/** The state-changing handlers of the management API (api/server.go), after authorization. */
module Api {
  import opened Wrappers
  import opened Net
  import opened Manifests
  import opened StoreModel
  import opened ManifestStore
  import HostPaths

  /** The body decodes, has a name and an address, and every localDir is absolute unless a root is set. */
  predicate IsAcceptable(decoded: Result<Manifest>, root: string) {
    && decoded.Ok?
    && decoded.value.id != "" && decoded.value.ipv4.ip.Some?
    && forall mt :: mt in decoded.value.mounts ==> mt.localDir == "" || mt.localDir[0] == '/' || root != ""
  }

  /** PUT /api/manifests/{id}: the body names its own ID; the one in the URL is not consulted. */
  method PutHandler(s: ManifestStore.Store, decoded: Result<Manifest>, root: string) returns (status: nat)
    requires s.Valid()
    modifies s
    ensures s.Valid()
    ensures status == 201 <==> IsAcceptable(decoded, root)
    ensures status == 201 ==> IsFound(s.model, decoded.value)
    ensures status == 201 ==> s.model == Put(old(s.model), decoded.value) && s.model != old(s.model)
    ensures status != 201 ==> status == 400 && s.model == old(s.model)
  {
    var m := HostPaths.Load(decoded, root);
    if m.Err? {
      return 400;
    }
    var err := s.PutManifest(m.value);
    return if err.Some? then 400 else 201;
  }

  /** DELETE /api/manifests/{id} */
  method DeleteHandler(s: ManifestStore.Store, id: string) returns (status: nat)
    requires s.Valid()
    modifies s
    ensures s.Valid() && status == 204
    ensures s.model == Forget(old(s.model), id)
    ensures Find(s.model, id) == None
    ensures forall k :: k in s.model.index ==> Lookup(s.model, k) == Lookup(old(s.model), k)
    ensures forall other :: other != id ==> Find(s.model, other) == Find(old(s.model), other)
  {
    s.ForgetManifest(id);
    return 204;
  }

  /** suspend-boot and unsuspend-boot with nothing in between: one write through the shared object. */
  method SuspendHandler(s: ManifestStore.Store, ip: IP, on: bool) returns (status: nat)
    requires s.Valid()
    modifies s, s.objs
    ensures s.Valid() && s.objs == old(s.objs)
    ensures s.model == SetSuspended(old(s.model), ip, on)
    ensures status == if FindByIP(old(s.model), ip).Some? then 200 else 404
    ensures status == 404 ==> s.model == old(s.model)
    ensures status == 200 ==>
              var a := FindByIP(old(s.model), ip).value;
              s.model.heap == old(s.model.heap)[a := old(s.model.heap)[a].(suspended := on)]
  {
    var e := s.FindManifestByIP(ip);
    if e == null {
      return 404;
    }
    s.WriteSuspended(e, FindByIP(s.model, ip).value, on);
    return 200;
  }
}
