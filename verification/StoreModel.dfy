/**
 The manifest store (store/store.go) as a value: an explicit heap of manifest objects and the
 maps that point into it. The IP map and the MAC map share one index over tagged keys; the
 class in ManifestStore.dfy keeps them as two maps of object references and refines this model.
 */
module StoreModel {
  import opened Wrappers
  import opened Net
  import opened Manifests
  import HardwareAddr

  datatype Key = ByIP(ip: IP) | ByMAC(text: string)

  function IPKey(m: Manifest): (k: IP) {
    match m.ipv4.ip
    case None => Net.Key([])
    case Some(ip) => Net.Key(ip)
  }

  function Texts(macs: seq<HardwareAddr.MAC>): (r: set<string>) {
    set a | a in macs :: HardwareAddr.String(a)
  }

  function MACKeys(m: Manifest): (r: set<string>) {
    Texts(m.macs)
  }

  /** All index keys of a manifest: its one IP key and its MAC keys. */
  function Keys(m: Manifest): (r: set<Key>) {
    {ByIP(IPKey(m))} + set t | t in MACKeys(m) :: ByMAC(t)
  }

  /** Addresses are positions in the heap; a put allocates, nothing is ever freed. */
  datatype Store = Store(heap: seq<Manifest>, manifests: map<string, nat>, index: map<Key, nat>)

  const EMPTY := Store([], map[], map[])

  // ----- operations

  /** What `PutManifest` accepts: an address and a name. */
  predicate Accepts(m: Manifest) { m.ipv4.ip.Some? && m.id != "" }

  /** The index with all of `keys` leading to `a`. */
  function File(index: map<Key, nat>, keys: set<Key>, a: nat): (r: map<Key, nat>) {
    index + map k | k in keys :: a
  }

  function Put(s: Store, m: Manifest): (r: Store) {
    if !Accepts(m) then s
    else
      var a := |s.heap|;
      Store(s.heap + [m], s.manifests[m.id := a], File(s.index, Keys(m), a))
  }

  /** The second half of `ForgetManifest`: remove everything the captured manifest names. */
  function Delete(s: Store, m: Manifest): (r: Store) {
    Store(s.heap, s.manifests - {m.id}, s.index - Keys(m))
  }

  /** `ForgetManifest` run without interruption. */
  function Forget(s: Store, id: string): (r: Store)
    requires InHeap(s)
  {
    if id in s.manifests then Delete(s, s.heap[s.manifests[id]]) else s
  }

  function Find(s: Store, id: string): (r: Option<nat>) {
    if id in s.manifests then Some(s.manifests[id]) else None
  }

  function Lookup(s: Store, k: Key): (r: Option<nat>) {
    if k in s.index then Some(s.index[k]) else None
  }

  function FindByIP(s: Store, ip: IP): (r: Option<nat>) { Lookup(s, ByIP(Net.Key(ip))) }

  function FindByMAC(s: Store, mac: HardwareAddr.MAC): (r: Option<nat>) {
    Lookup(s, ByMAC(HardwareAddr.String(mac)))
  }

  /** A write to the field `Suspended` of one object. */
  function WriteFlag(s: Store, a: nat, on: bool): (r: Store) {
    if a < |s.heap| then s.(heap := s.heap[a := s.heap[a].(suspended := on)]) else s
  }

  /** The suspend-boot and unsuspend-boot handlers run without interruption: the write goes to the object the IP map gives. */
  function SetSuspended(s: Store, ip: IP, on: bool): (r: Store) {
    match FindByIP(s, ip)
    case None => s
    case Some(a) => WriteFlag(s, a, on)
  }

  // ----- invariants

  predicate InHeap(s: Store) {
    && (forall id :: id in s.manifests ==> s.manifests[id] < |s.heap|)
    && (forall k :: k in s.index ==> s.index[k] < |s.heap|)
  }

  /** Each entry holds a manifest that carries the key it is filed under. */
  predicate Filed(s: Store) {
    && InHeap(s)
    && (forall a :: 0 <= a < |s.heap| ==> Accepts(s.heap[a]))
    && (forall id :: id in s.manifests ==> s.heap[s.manifests[id]].id == id)
    && (forall k :: k in s.index ==> k in Keys(s.heap[s.index[k]]))
  }

  /** The indexes agree with the ID map: they hold exactly the keys of the live manifests. */
  predicate Agrees(s: Store) {
    && Filed(s)
    && (forall id, k :: id in s.manifests && k in Keys(s.heap[s.manifests[id]]) ==>
          Lookup(s, k) == Some(s.manifests[id]))
    && (forall k :: k in s.index ==> Find(s, s.heap[s.index[k]].id) == Some(s.index[k]))
  }

  // ----- keys

  lemma KeysOrdered(m: Manifest, n: Manifest)
    ensures Keys(m) <= Keys(n) <==> IPKey(m) == IPKey(n) && MACKeys(m) <= MACKeys(n)
    ensures Keys(m) == Keys(n) <==> IPKey(m) == IPKey(n) && MACKeys(m) == MACKeys(n)
    ensures Keys(m) !! Keys(n) <==> IPKey(m) != IPKey(n) && MACKeys(m) !! MACKeys(n)
  {
    assert ByIP(IPKey(m)) in Keys(m) && ByIP(IPKey(n)) in Keys(n);
    forall t ensures t in MACKeys(m) <==> ByMAC(t) in Keys(m) {}
    forall t ensures t in MACKeys(n) <==> ByMAC(t) in Keys(n) {}
  }

  // ----- what every operation keeps, with no discipline on puts

  lemma PutKeepsFiled(s: Store, m: Manifest)
    requires Filed(s)
    ensures Filed(Put(s, m))
  {
  }

  /** The manifest is found under its name, its address and each of its MACs, as one object. */
  predicate IsFound(s: Store, m: Manifest) {
    match (m.ipv4.ip, Find(s, m.id))
    case (Some(ip), Some(a)) =>
      && a < |s.heap| && s.heap[a] == m
      && FindByIP(s, ip) == Some(a)
      && forall mac :: mac in m.macs ==> FindByMAC(s, mac) == Some(a)
    case _ => false
  }

  /** A manifest with an address and a name, whatever else it holds, is found right after its put. */
  lemma PutIsFound(s: Store, m: Manifest)
    requires InHeap(s) && m.ipv4.ip.Some? && m.id != ""
    ensures InHeap(Put(s, m)) && IsFound(Put(s, m), m)
  {
    var r := Put(s, m);
    assert ByIP(IPKey(m)) in Keys(m);
    forall mac | mac in m.macs ensures FindByMAC(r, mac) == Some(|s.heap|) {
      assert HardwareAddr.String(mac) in MACKeys(m);
      assert ByMAC(HardwareAddr.String(mac)) in Keys(m);
    }
  }

  lemma DeleteKeepsFiled(s: Store, m: Manifest)
    requires Filed(s)
    ensures Filed(Delete(s, m))
    ensures Find(Delete(s, m), m.id) == None
    ensures forall k :: k in Keys(m) ==> Lookup(Delete(s, m), k) == None
  {
  }

  lemma SuspendingKeepsKeys(m: Manifest, on: bool)
    ensures Keys(m.(suspended := on)) == Keys(m)
  {
  }

  /** The same heap but for values that keep acceptance, names and keys, under the same maps. */
  predicate SameShape(s: Store, r: Store) {
    && r.manifests == s.manifests && r.index == s.index && |r.heap| == |s.heap|
    && forall a :: 0 <= a < |s.heap| ==>
         Accepts(r.heap[a]) && r.heap[a].id == s.heap[a].id && Keys(r.heap[a]) == Keys(s.heap[a])
  }

  lemma SameShapeFiled(s: Store, r: Store)
    requires Filed(s) && SameShape(s, r)
    ensures Filed(r)
  {
  }

  lemma SameShapeAgrees(s: Store, r: Store)
    requires Agrees(s) && SameShape(s, r)
    ensures Agrees(r)
  {
    SameShapeFiled(s, r);
    forall id, k | id in r.manifests && k in Keys(r.heap[r.manifests[id]])
      ensures Lookup(r, k) == Some(r.manifests[id])
    {
      assert k in Keys(s.heap[s.manifests[id]]);
      assert Lookup(s, k) == Some(s.manifests[id]);
    }
    forall k | k in r.index ensures Find(r, r.heap[r.index[k]].id) == Some(r.index[k]) {
      assert Find(s, s.heap[s.index[k]].id) == Some(s.index[k]);
    }
  }

  lemma WriteFlagKeepsFiled(s: Store, a: nat, on: bool)
    requires Filed(s)
    ensures Filed(WriteFlag(s, a, on))
    ensures Agrees(s) ==> Agrees(WriteFlag(s, a, on))
  {
    if a < |s.heap| {
      SuspendingKeepsKeys(s.heap[a], on);
      SameShapeFiled(s, WriteFlag(s, a, on));
      if Agrees(s) {
        SameShapeAgrees(s, WriteFlag(s, a, on));
      }
    }
  }

  lemma SetSuspendedKeepsFiled(s: Store, ip: IP, on: bool)
    requires Filed(s)
    ensures Filed(SetSuspended(s, ip, on))
    ensures Agrees(s) ==> Agrees(SetSuspended(s, ip, on))
  {
    if FindByIP(s, ip).Some? {
      WriteFlagKeepsFiled(s, FindByIP(s, ip).value, on);
    }
  }

  /** Writing to an object looked up earlier is suspending by IP now exactly when the IP still leads there, or neither changes a flag. */
  lemma LateWriteIsSuspendIff(s: Store, a: nat, ip: IP, on: bool)
    requires InHeap(s) && a < |s.heap|
    ensures WriteFlag(s, a, on) == SetSuspended(s, ip, on) <==>
            || FindByIP(s, ip) == Some(a)
            || (s.heap[a].suspended == on &&
                (FindByIP(s, ip).Some? ==> s.heap[FindByIP(s, ip).value].suspended == on))
  {
    var w := WriteFlag(s, a, on);
    var now := FindByIP(s, ip);
    WriteChangesFlag(s, a, on);
    if now.Some? && now.value != a {
      WriteChangesFlag(s, now.value, on);
      var t := SetSuspended(s, ip, on);
      assert w.heap[a].suspended == on && t.heap[a] == s.heap[a];
      assert t.heap[now.value].suspended == on && w.heap[now.value] == s.heap[now.value];
    }
  }

  lemma WriteChangesFlag(s: Store, a: nat, on: bool)
    requires a < |s.heap|
    ensures WriteFlag(s, a, on) == s <==> s.heap[a].suspended == on
  {
    var m := s.heap[a];
    if m.suspended == on {
      assert m.(suspended := on) == m;
      assert s.heap[a := m] == s.heap;
    } else {
      assert WriteFlag(s, a, on).heap[a].suspended == on;
    }
  }

  /** Some name or key leads to the object. */
  ghost predicate IsReached(s: Store, a: nat) {
    (exists id :: Find(s, id) == Some(a)) || (exists k :: Lookup(s, k) == Some(a))
  }

  /** In an agreeing store, its own IP leads to every object that anything leads to; a write to any other object is unseen. */
  lemma ReachedIsFoundByIP(s: Store, a: nat, ip: IP)
    requires Agrees(s) && a < |s.heap| && IPKey(s.heap[a]) == Net.Key(ip)
    ensures IsReached(s, a) <==> FindByIP(s, ip) == Some(a)
  {
    var own := ByIP(Net.Key(ip));
    assert own in Keys(s.heap[a]);
    if exists k :: Lookup(s, k) == Some(a) {
      var k :| Lookup(s, k) == Some(a);
      assert Find(s, s.heap[a].id) == Some(a);
    }
    if exists id :: Find(s, id) == Some(a) {
      var id :| Find(s, id) == Some(a);
      assert Lookup(s, own) == Some(a);
    }
  }

  // ----- agreement

  /** The exact condition under which an accepted put keeps the indexes in agreement. */
  predicate PutIsSafe(s: Store, m: Manifest)
    requires InHeap(s)
  {
    && (m.id in s.manifests ==>
          var prev := s.heap[s.manifests[m.id]];
          IPKey(prev) == IPKey(m) && MACKeys(prev) <= MACKeys(m))
    && (forall id :: id in s.manifests && id != m.id ==>
          var other := s.heap[s.manifests[id]];
          IPKey(other) != IPKey(m) && MACKeys(other) !! MACKeys(m))
  }

  lemma SafePutFilesAllKeys(s: Store, m: Manifest, id: string, k: Key)
    requires Agrees(s) && Accepts(m) && PutIsSafe(s, m)
    requires id in Put(s, m).manifests && k in Keys(Put(s, m).heap[Put(s, m).manifests[id]])
    ensures Lookup(Put(s, m), k) == Some(Put(s, m).manifests[id])
  {
    if id != m.id {
      KeysOrdered(s.heap[s.manifests[id]], m);
      assert Lookup(s, k) == Some(s.manifests[id]) && k !in Keys(m);
    }
  }

  lemma SafePutFilesOnlyLive(s: Store, m: Manifest, k: Key)
    requires Agrees(s) && Accepts(m) && PutIsSafe(s, m)
    requires k in Put(s, m).index
    ensures Find(Put(s, m), Put(s, m).heap[Put(s, m).index[k]].id) == Some(Put(s, m).index[k])
  {
    if k !in Keys(m) {
      var a := s.index[k];
      assert Find(s, s.heap[a].id) == Some(a) && k in Keys(s.heap[a]);
      KeysOrdered(s.heap[a], m);
      assert s.heap[a].id != m.id;
    }
  }

  lemma SafePutKeepsAgreement(s: Store, m: Manifest)
    requires Agrees(s) && Accepts(m) && PutIsSafe(s, m)
    ensures Agrees(Put(s, m))
  {
    var r := Put(s, m);
    PutKeepsFiled(s, m);
    forall id, k | id in r.manifests && k in Keys(r.heap[r.manifests[id]])
      ensures Lookup(r, k) == Some(r.manifests[id])
    {
      SafePutFilesAllKeys(s, m, id, k);
    }
    forall k | k in r.index ensures Find(r, r.heap[r.index[k]].id) == Some(r.index[k]) {
      SafePutFilesOnlyLive(s, m, k);
    }
  }

  /** A key of the replaced manifest that the new one lacks is left behind in the index. */
  lemma DroppedKeyBreaksAgreement(s: Store, m: Manifest, k: Key)
    requires Agrees(s) && Accepts(m) && m.id in s.manifests
    requires k in Keys(s.heap[s.manifests[m.id]]) && k !in Keys(m)
    ensures !Agrees(Put(s, m))
  {
    assert Lookup(s, k) == Some(s.manifests[m.id]);
    var r := Put(s, m);
    assert r.heap[r.index[k]].id == m.id && r.index[k] != |s.heap|;
  }

  /** A key shared with another live manifest is taken away from it. */
  lemma SharedKeyBreaksAgreement(s: Store, m: Manifest, id: string, k: Key)
    requires Agrees(s) && Accepts(m) && id in s.manifests && id != m.id
    requires k in Keys(s.heap[s.manifests[id]]) && k in Keys(m)
    ensures !Agrees(Put(s, m))
  {
    var r := Put(s, m);
    assert k in Keys(r.heap[r.manifests[id]]);
    assert Lookup(r, k) == Some(|s.heap|);
  }

  lemma UnsafePutBreaksAgreement(s: Store, m: Manifest)
    requires Agrees(s) && Accepts(m) && !PutIsSafe(s, m)
    ensures !Agrees(Put(s, m))
  {
    if m.id in s.manifests {
      KeysOrdered(s.heap[s.manifests[m.id]], m);
    }
    if m.id in s.manifests && !(Keys(s.heap[s.manifests[m.id]]) <= Keys(m)) {
      var k :| k in Keys(s.heap[s.manifests[m.id]]) && k !in Keys(m);
      DroppedKeyBreaksAgreement(s, m, k);
    } else {
      var id :| id in s.manifests && id != m.id &&
        !(var other := s.heap[s.manifests[id]]; IPKey(other) != IPKey(m) && MACKeys(other) !! MACKeys(m));
      KeysOrdered(s.heap[s.manifests[id]], m);
      var k :| k in Keys(s.heap[s.manifests[id]]) && k in Keys(m);
      SharedKeyBreaksAgreement(s, m, id, k);
    }
  }

  /** From agreement, an accepted put keeps agreement exactly when it is safe. */
  lemma PutKeepsAgreementIff(s: Store, m: Manifest)
    requires Agrees(s) && Accepts(m)
    ensures Agrees(Put(s, m)) <==> PutIsSafe(s, m)
  {
    if PutIsSafe(s, m) {
      SafePutKeepsAgreement(s, m);
    } else {
      UnsafePutBreaksAgreement(s, m);
    }
  }

  /** An uninterrupted forget always keeps agreement, and unfiles exactly the forgotten manifest. */
  lemma ForgetKeepsAgreement(s: Store, id: string)
    requires Agrees(s)
    ensures Agrees(Forget(s, id))
    ensures Find(Forget(s, id), id) == None
    ensures forall k :: k in s.index ==>
              Lookup(Forget(s, id), k) == if s.heap[s.index[k]].id == id then None else Lookup(s, k)
  {
    if id in s.manifests {
      var m := s.heap[s.manifests[id]];
      DeleteKeepsFiled(s, m);
      var r := Forget(s, id);
      forall k | k in s.index ensures k in Keys(m) <==> s.heap[s.index[k]].id == id {
        if k in Keys(m) {
          assert Lookup(s, k) == Some(s.manifests[id]);
        }
      }
      forall i, k | i in r.manifests && k in Keys(r.heap[r.manifests[i]])
        ensures Lookup(r, k) == Some(r.manifests[i])
      {
        assert Lookup(s, k) == Some(s.manifests[i]);
      }
    }
  }

  /** The exact condition under which deleting a captured manifest equals forgetting its ID now. */
  predicate DeleteIsCurrent(s: Store, m: Manifest)
    requires InHeap(s)
  {
    if m.id in s.manifests then
      var now := s.heap[s.manifests[m.id]];
      && IPKey(now) == IPKey(m)
      && MACKeys(now) <= MACKeys(m)
      && (forall t :: t in MACKeys(m) && ByMAC(t) in s.index ==> t in MACKeys(now))
    else
      && ByIP(IPKey(m)) !in s.index
      && (forall t :: t in MACKeys(m) ==> ByMAC(t) !in s.index)
  }

  lemma SameRemoval(index: map<Key, nat>, a: set<Key>, b: set<Key>)
    ensures index - a == index - b <==> forall k :: k in index ==> (k in a <==> k in b)
  {
    if index - a == index - b {
      forall k | k in index ensures k in a <==> k in b {
        assert k in index - a <==> k in index - b;
      }
    }
  }

  /** `DeleteIsCurrent`, said of keys instead of addresses. */
  lemma CurrentKeys(s: Store, m: Manifest)
    requires Agrees(s)
    ensures DeleteIsCurrent(s, m) <==>
            var current := if m.id in s.manifests then Keys(s.heap[s.manifests[m.id]]) else {};
            forall k :: k in s.index ==> (k in Keys(m) <==> k in current)
  {
    assert ByIP(IPKey(m)) in Keys(m);
    forall t ensures t in MACKeys(m) <==> ByMAC(t) in Keys(m) {}
    if m.id in s.manifests {
      var now := s.heap[s.manifests[m.id]];
      assert ByIP(IPKey(now)) in Keys(now);
      forall t ensures t in MACKeys(now) <==> ByMAC(t) in Keys(now) {}
      forall k | k in Keys(now) ensures k in s.index {
        assert Lookup(s, k) == Some(s.manifests[m.id]);
      }
    }
  }

  lemma DeleteIsForgetIff(s: Store, m: Manifest)
    requires Agrees(s)
    ensures Delete(s, m) == Forget(s, m.id) <==> DeleteIsCurrent(s, m)
  {
    CurrentKeys(s, m);
    var current := if m.id in s.manifests then Keys(s.heap[s.manifests[m.id]]) else {};
    SameRemoval(s.index, Keys(m), current);
    ForgetRemoves(s, m.id, current);
  }

  lemma ForgetRemoves(s: Store, id: string, current: set<Key>)
    requires Filed(s) && current == if id in s.manifests then Keys(s.heap[s.manifests[id]]) else {}
    ensures Forget(s, id) == Store(s.heap, s.manifests - {id}, s.index - current)
  {
    if id !in s.manifests {
      assert s.index - {} == s.index;
      assert s.manifests - {id} == s.manifests;
    }
  }

  /** And that is the exact condition under which the second half of a forget keeps agreement. */
  lemma DeleteKeepsAgreementIff(s: Store, m: Manifest)
    requires Agrees(s)
    ensures Agrees(Delete(s, m)) <==> DeleteIsCurrent(s, m)
  {
    if DeleteIsCurrent(s, m) {
      DeleteIsForgetIff(s, m);
      ForgetKeepsAgreement(s, m.id);
    } else {
      CurrentKeys(s, m);
      var current := if m.id in s.manifests then Keys(s.heap[s.manifests[m.id]]) else {};
      var k :| k in s.index && !(k in Keys(m) <==> k in current);
      StrayKeyBreaksAgreement(s, m, current, k);
    }
  }

  lemma StrayKeyBreaksAgreement(s: Store, m: Manifest, current: set<Key>, k: Key)
    requires Agrees(s)
    requires current == if m.id in s.manifests then Keys(s.heap[s.manifests[m.id]]) else {}
    requires k in s.index && !(k in Keys(m) <==> k in current)
    ensures !Agrees(Delete(s, m))
  {
    var r := Delete(s, m);
    var b := s.index[k];
    assert Find(s, s.heap[b].id) == Some(b) && k in Keys(s.heap[b]);
    if k in Keys(m) {
      assert s.heap[b].id in r.manifests && Lookup(r, k) == None;
    } else {
      assert Lookup(s, k) == Some(s.manifests[m.id]);
      assert Lookup(r, k) == Some(b) && Find(r, m.id) == None;
    }
  }

  // ----- what one call undoes

  lemma RemoveAdded(index: map<Key, nat>, keys: set<Key>, a: nat)
    ensures File(index, keys, a) - keys == index - keys
  {
  }

  lemma ForgetAfterPut(s: Store, m: Manifest)
    requires Filed(s) && Accepts(m)
    ensures InHeap(Put(s, m))
    ensures Forget(Put(s, m), m.id).manifests == s.manifests - {m.id}
    ensures Forget(Put(s, m), m.id).index == s.index - Keys(m)
  {
    PutKeepsFiled(s, m);
    RemoveAdded(s.index, Keys(m), |s.heap|);
  }

  /** Forgetting a manifest just put under a new name restores both maps exactly when none of its keys was in use. */
  lemma ForgetUndoesPutIff(s: Store, m: Manifest)
    requires Filed(s) && Accepts(m) && m.id !in s.manifests
    ensures InHeap(Put(s, m))
    ensures Forget(Put(s, m), m.id).manifests == s.manifests
    ensures Forget(Put(s, m), m.id).index == s.index <==> forall k :: k in Keys(m) ==> Lookup(s, k) == None
  {
    ForgetAfterPut(s, m);
    SameRemoval(s.index, Keys(m), {});
    assert s.index - {} == s.index;
  }

  /** Resuming undoes suspending. */
  lemma ResumeUndoesSuspend(s: Store, ip: IP)
    requires Filed(s) && FindByIP(s, ip).Some? && !s.heap[FindByIP(s, ip).value].suspended
    ensures SetSuspended(SetSuspended(s, ip, true), ip, false) == s
  {
    var a := FindByIP(s, ip).value;
    var m := s.heap[a];
    assert m.(suspended := true).(suspended := false) == m;
    assert s.heap[a := m.(suspended := true)][a := m] == s.heap;
  }
}
