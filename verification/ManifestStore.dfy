/**
 The store as the source has it (store/store.go): three maps updated in place that share
 manifest objects. Each method is proved to do to the maps what StoreModel says.
 */
module ManifestStore {
  import opened Wrappers
  import opened Net
  import opened Manifests
  import opened StoreModel
  import opened StoreLog
  import HardwareAddr
  import HostPaths

  /** A manifest on the heap, as `*manifest.Manifest` points to it. */
  class Entry {
    var value: Manifest

    constructor (m: Manifest)
      ensures value == m
    {
      value := m;
    }
  }

  const NO_ADDRESS := "no IPv4 address provided"
  const NO_ID := "ID cannot be null"

  // ----- the maps mirror the model

  /** Distinct objects holding the model's heap. */
  ghost predicate HeapMirror(objs: seq<Entry>, heap: seq<Manifest>)
    reads objs
  {
    && |objs| == |heap|
    && (forall i :: 0 <= i < |objs| ==> objs[i].value == heap[i])
    && (forall i, j :: 0 <= i < j < |objs| ==> objs[i] != objs[j])
  }

  lemma HeapMirrorExtended(objs: seq<Entry>, heap: seq<Manifest>, e: Entry)
    requires HeapMirror(objs, heap) && e !in objs
    ensures HeapMirror(objs + [e], heap + [e.value])
  {
  }

  lemma HeapMirrorRewritten(objs: seq<Entry>, heap: seq<Manifest>, a: nat)
    requires |objs| == |heap| && a < |objs|
    requires forall i :: 0 <= i < |objs| && i != a ==> objs[i].value == heap[i]
    requires forall i, j :: 0 <= i < j < |objs| ==> objs[i] != objs[j]
    ensures HeapMirror(objs, heap[a := objs[a].value])
  {
  }

  ghost predicate NamesMirror(manifests: map<string, Entry>, objs: seq<Entry>, names: map<string, nat>) {
    && manifests.Keys == names.Keys
    && (forall id :: id in names ==> names[id] < |objs| && manifests[id] == objs[names[id]])
  }

  ghost predicate IndexMirror(ip: map<IP, Entry>, mac: map<string, Entry>, objs: seq<Entry>, index: map<Key, nat>) {
    && (forall k :: k in ip <==> ByIP(k) in index)
    && (forall t :: t in mac <==> ByMAC(t) in index)
    && (forall k :: k in index ==>
          && index[k] < |objs|
          && objs[index[k]] == match k case ByIP(a) => ip[a] case ByMAC(t) => mac[t])
  }

  /** The three maps, whose objects are `objs`, hold what the model `s` holds. */
  ghost predicate Mirrors(manifests: map<string, Entry>, ip: map<IP, Entry>, mac: map<string, Entry>,
                          objs: seq<Entry>, s: StoreModel.Store)
    reads objs
  {
    && Filed(s)
    && HeapMirror(objs, s.heap)
    && NamesMirror(manifests, objs, s.manifests)
    && IndexMirror(ip, mac, objs, s.index)
  }

  lemma TextsStep(macs: seq<HardwareAddr.MAC>, i: nat)
    requires i < |macs|
    ensures Texts(macs[..i + 1]) == Texts(macs[..i]) + {HardwareAddr.String(macs[i])}
  {
    assert macs[..i + 1] == macs[..i] + [macs[i]];
  }

  /** `keys` is one IP key and a set of MAC texts. */
  ghost predicate KeysAre(keys: set<Key>, ipKey: IP, texts: set<string>) {
    && (forall k :: ByIP(k) in keys <==> k == ipKey)
    && (forall t :: ByMAC(t) in keys <==> t in texts)
  }

  lemma KeysAreTexts(m: Manifest)
    ensures KeysAre(Keys(m), IPKey(m), Texts(m.macs))
  {
  }

  /** Filing `e`, the next object, under `keys`. */
  lemma FilingMirrors(ip: map<IP, Entry>, mac: map<string, Entry>, objs: seq<Entry>, index: map<Key, nat>,
                      keys: set<Key>, ipKey: IP, texts: set<string>, e: Entry, mac': map<string, Entry>)
    requires IndexMirror(ip, mac, objs, index) && KeysAre(keys, ipKey, texts)
    requires mac'.Keys == mac.Keys + texts
    requires forall t :: t in mac' ==> mac'[t] == if t in texts then e else mac[t]
    ensures IndexMirror(ip[ipKey := e], mac', objs + [e], File(index, keys, |objs|))
  {
    var index' := File(index, keys, |objs|);
    forall k | k in index'
      ensures index'[k] < |objs| + 1
      ensures (objs + [e])[index'[k]] == match k case ByIP(a) => ip[ipKey := e][a] case ByMAC(t) => mac'[t]
    {
      match k
      case ByIP(a) => assert k in keys <==> a == ipKey;
      case ByMAC(t) => assert k in keys <==> t in texts;
    }
  }

  /** The maps after a put: `e` is filed under every key of `m`. */
  lemma PutMirrors(ip: map<IP, Entry>, mac: map<string, Entry>, objs: seq<Entry>, index: map<Key, nat>,
                   m: Manifest, e: Entry, mac': map<string, Entry>)
    requires IndexMirror(ip, mac, objs, index)
    requires mac'.Keys == mac.Keys + Texts(m.macs)
    requires forall t :: t in mac' ==> mac'[t] == if t in Texts(m.macs) then e else mac[t]
    ensures IndexMirror(ip[IPKey(m) := e], mac', objs + [e], File(index, Keys(m), |objs|))
  {
    KeysAreTexts(m);
    FilingMirrors(ip, mac, objs, index, Keys(m), IPKey(m), Texts(m.macs), e, mac');
  }

  lemma PutNamesMirror(manifests: map<string, Entry>, objs: seq<Entry>, names: map<string, nat>, id: string, e: Entry)
    requires NamesMirror(manifests, objs, names)
    ensures NamesMirror(manifests[id := e], objs + [e], names[id := |objs|])
  {
  }

  /** The maps after a delete: nothing is filed under any key of `m`. */
  lemma DeleteMirrors(ip: map<IP, Entry>, mac: map<string, Entry>, objs: seq<Entry>, index: map<Key, nat>, m: Manifest)
    requires IndexMirror(ip, mac, objs, index)
    ensures IndexMirror(ip - {IPKey(m)}, mac - Texts(m.macs), objs, index - Keys(m))
  {
    KeysAreTexts(m);
    var index' := index - Keys(m);
    forall k | k in index'
      ensures index'[k] < |objs|
      ensures objs[index'[k]] == match k case ByIP(a) => (ip - {IPKey(m)})[a] case ByMAC(t) => (mac - Texts(m.macs))[t]
    {
    }
  }

  /** The store after a put, once `e` holding `m` is filed under the name and every key of `m`. */
  lemma PutMirrored(manifests: map<string, Entry>, ip: map<IP, Entry>, mac: map<string, Entry>,
                    objs: seq<Entry>, s: StoreModel.Store, m: Manifest, e: Entry)
    requires Filed(s) && HeapMirror(objs, s.heap)
    requires Accepts(m) && e !in objs && e.value == m
    requires NamesMirror(manifests, objs + [e], s.manifests[m.id := |objs|])
    requires IndexMirror(ip, mac, objs + [e], File(s.index, Keys(m), |objs|))
    ensures Mirrors(manifests, ip, mac, objs + [e], Put(s, m))
  {
    HeapMirrorExtended(objs, s.heap, e);
    PutKeepsFiled(s, m);
  }

  /** The store after a write to one object's suspension. */
  lemma WriteMirrored(manifests: map<string, Entry>, ip: map<IP, Entry>, mac: map<string, Entry>,
                      objs: seq<Entry>, s: StoreModel.Store, a: nat, on: bool)
    requires Filed(s) && |objs| == |s.heap| && a < |objs|
    requires NamesMirror(manifests, objs, s.manifests) && IndexMirror(ip, mac, objs, s.index)
    requires objs[a].value == s.heap[a].(suspended := on)
    requires forall i :: 0 <= i < |objs| && i != a ==> objs[i].value == s.heap[i]
    requires forall i, j :: 0 <= i < j < |objs| ==> objs[i] != objs[j]
    ensures Mirrors(manifests, ip, mac, objs, WriteFlag(s, a, on))
  {
    HeapMirrorRewritten(objs, s.heap, a);
    WriteFlagKeepsFiled(s, a, on);
  }

  class Store {
    var manifests: map<string, Entry>
    var ip: map<IP, Entry>
    var mac: map<string, Entry>
    ghost var model: StoreModel.Store
    ghost var objs: seq<Entry>

    ghost predicate Valid()
      reads this, objs
    {
      Mirrors(manifests, ip, mac, objs, model)
    }

    /** `NewStore` */
    constructor ()
      ensures Valid()
      ensures model == EMPTY
    {
      manifests, ip, mac := map[], map[], map[];
      model, objs := EMPTY, [];
    }

    /** The loop over `m.MAC` in `PutManifest`. */
    method FileMACs(m: Manifest, e: Entry)
      modifies this`mac
      ensures mac.Keys == old(mac).Keys + Texts(m.macs)
      ensures forall t :: t in mac ==> mac[t] == if t in Texts(m.macs) then e else old(mac)[t]
    {
      for i := 0 to |m.macs|
        invariant mac.Keys == old(mac).Keys + Texts(m.macs[..i])
        invariant forall t :: t in mac ==> mac[t] == if t in Texts(m.macs[..i]) then e else old(mac)[t]
      {
        TextsStep(m.macs, i);
        mac := mac[HardwareAddr.String(m.macs[i]) := e];
      }
      assert m.macs[..|m.macs|] == m.macs;
    }

    /** The maps are the given ones but for `e`, which stands under the name, the address and every MAC of `m`. */
    ghost predicate FiledAs(manifests0: map<string, Entry>, ip0: map<IP, Entry>, mac0: map<string, Entry>, m: Manifest, e: Entry)
      requires m.ipv4.ip.Some?
      reads this
    {
      && manifests == manifests0[m.id := e]
      && ip == ip0[Net.Key(m.ipv4.ip.value) := e]
      && mac.Keys == mac0.Keys + Texts(m.macs)
      && forall t :: t in mac ==> mac[t] == if t in Texts(m.macs) then e else mac0[t]
    }

    /** File `e` under every key of `m`. */
    method FileEntry(m: Manifest, e: Entry)
      requires Accepts(m) && |objs| == |model.heap|
      requires NamesMirror(manifests, objs, model.manifests) && IndexMirror(ip, mac, objs, model.index)
      modifies this`manifests, this`ip, this`mac
      ensures NamesMirror(manifests, objs + [e], model.manifests[m.id := |objs|])
      ensures IndexMirror(ip, mac, objs + [e], File(model.index, Keys(m), |objs|))
      ensures FiledAs(old(manifests), old(ip), old(mac), m, e)
    {
      ghost var ip0, mac0 := ip, mac;
      PutNamesMirror(manifests, objs, model.manifests, m.id, e);
      manifests := manifests[m.id := e];
      ip := ip[Net.Key(m.ipv4.ip.value) := e];
      FileMACs(m, e);
      PutMirrors(ip0, mac0, objs, model.index, m, e, mac);
    }

    /** Bring the model up to date with a put already filed. */
    ghost method RecordPut(m: Manifest, e: Entry)
      requires Filed(model) && HeapMirror(objs, model.heap)
      requires Accepts(m) && e !in objs && e.value == m
      requires NamesMirror(manifests, objs + [e], model.manifests[m.id := |objs|])
      requires IndexMirror(ip, mac, objs + [e], File(model.index, Keys(m), |objs|))
      modifies this`model, this`objs
      ensures Valid() && IsFound(model, m)
      ensures model == Put(old(model), m) && objs == old(objs) + [e]
    {
      ghost var objs0, model0 := objs, model;
      model := Put(model0, m);
      objs := objs0 + [e];
      assert HeapMirror(objs0, model0.heap);
      PutMirrored(manifests, ip, mac, objs0, model0, m, e);
      PutIsFound(model0, m);
    }

    method PutManifest(m: Manifest) returns (err: Option<string>)
      requires Valid()
      modifies this
      ensures Valid()
      ensures model == Put(old(model), m)
      ensures err == if m.ipv4.ip.None? then Some(NO_ADDRESS) else if m.id == "" then Some(NO_ID) else None
      ensures err == None ==> IsFound(model, m)
      ensures err == None ==> m.id in manifests && manifests[m.id].value == m && fresh(manifests[m.id])
      ensures err == None ==> FiledAs(old(manifests), old(ip), old(mac), m, manifests[m.id])
      ensures err != None ==> unchanged(this)
      ensures objs == old(objs) || (exists e :: fresh(e) && objs == old(objs) + [e])
    {
      if m.ipv4.ip.None? {
        return Some(NO_ADDRESS);
      }
      if m.id == "" {
        return Some(NO_ID);
      }
      var e := new Entry(m);
      FileEntry(m, e);
      RecordPut(m, e);
      return None;
    }

    /** The half of `ForgetManifest` under the read lock. */
    method ForgetRead(id: string) returns (e: Entry?)
      requires Valid()
      ensures e == null <==> Find(model, id) == None
      ensures e != null ==> e == objs[Find(model, id).value]
    {
      if id !in manifests {
        return null;
      }
      return manifests[id];
    }

    /** The loop over `m.MAC` in `ForgetManifest`. */
    method UnfileMACs(m: Manifest)
      modifies this`mac
      ensures mac == old(mac) - Texts(m.macs)
    {
      for i := 0 to |m.macs|
        invariant mac == old(mac) - Texts(m.macs[..i])
      {
        TextsStep(m.macs, i);
        mac := mac - {HardwareAddr.String(m.macs[i])};
      }
      assert m.macs[..|m.macs|] == m.macs;
    }

    /** The half of `ForgetManifest` under the write lock, whatever happened since the object was read. */
    method ForgetDelete(e: Entry)
      requires Valid() && e in objs
      modifies this
      ensures Valid() && objs == old(objs)
      ensures model == Delete(old(model), e.value)
      ensures manifests == old(manifests) - {e.value.id}
      ensures e.value.ipv4.ip.Some? && ip == old(ip) - {Net.Key(e.value.ipv4.ip.value)}
      ensures mac == old(mac) - Texts(e.value.macs)
    {
      var m := e.value;
      ghost var ip0, mac0, model0 := ip, mac, model;
      assert IndexMirror(ip0, mac0, objs, model0.index) && NamesMirror(manifests, objs, model0.manifests);
      manifests := manifests - {m.id};
      ip := ip - {IPKey(m)};
      UnfileMACs(m);
      DeleteMirrors(ip0, mac0, objs, model0.index, m);
      DeleteKeepsFiled(model0, m);
      model := Delete(model0, m);
    }

    /** Both halves, with nothing in between. */
    method ForgetManifest(id: string)
      requires Valid()
      modifies this
      ensures Valid() && objs == old(objs)
      ensures model == Forget(old(model), id)
    {
      var e := ForgetRead(id);
      if e == null {
        return;
      }
      ForgetDelete(e);
    }

    /** The write to `Suspended` through an object looked up at any time before; `a` is its place in the model. */
    method WriteSuspended(e: Entry, ghost a: nat, on: bool)
      requires Valid() && a < |objs| && e == objs[a]
      modifies this`model, e
      ensures Valid()
      ensures model == WriteFlag(old(model), a, on)
    {
      ghost var before := model;
      e.value := e.value.(suspended := on);
      WriteMirrored(manifests, ip, mac, objs, before, a, on);
      model := WriteFlag(before, a, on);
    }

    method FindManifest(id: string) returns (e: Entry?)
      requires Valid()
      ensures e == null <==> Find(model, id) == None
      ensures e != null ==> e == objs[Find(model, id).value]
    {
      e := if id in manifests then manifests[id] else null;
    }

    method FindManifestByIP(addr: IP) returns (e: Entry?)
      requires Valid()
      ensures e == null <==> FindByIP(model, addr) == None
      ensures e != null ==> e == objs[FindByIP(model, addr).value] && e.value == model.heap[FindByIP(model, addr).value]
    {
      var k := Net.Key(addr);
      e := if k in ip then ip[k] else null;
    }

    method FindManifestByMAC(hw: HardwareAddr.MAC) returns (e: Entry?)
      requires Valid()
      ensures e == null <==> FindByMAC(model, hw) == None
      ensures e != null ==> e == objs[FindByMAC(model, hw).value] && e.value == model.heap[FindByMAC(model, hw).value]
    {
      var k := HardwareAddr.String(hw);
      e := if k in mac then mac[k] else null;
    }

    /** One round of the loop in `LoadFromDirectory`. */
    method LoadItem(item: DirItem, root: string)
      requires Valid()
      modifies this
      ensures Valid()
      ensures model == Run(old(model), ItemOps(item, root))
    {
      RunItem(model, item, root);
      if !item.regular || (!HasSuffix(item.name, ".yml") && !HasSuffix(item.name, ".yaml")) {
        return;
      }
      if item.contents.Err? {
        return;
      }
      var m := HostPaths.Load(item.contents.value, root);
      if m.Err? {
        return;
      }
      var failed := PutManifest(m.value);
    }

    /**
     `LoadFromDirectory` over what the file system and the decoder produced: the entries listed, and
     the error of listing them. A file that fails is skipped; only the listing's error is returned.
     */
    method LoadFromDirectory(items: seq<DirItem>, listing: Option<string>, root: string) returns (err: Option<string>)
      requires Valid()
      modifies this
      ensures Valid()
      ensures err == listing
      ensures model == Run(old(model), LoadOps(items, root))
      ensures forall i, m :: IsLastLoaded(items, root, i, m) ==> Shows(model, m)
    {
      ghost var start := model;
      for i := 0 to |items|
        invariant Valid()
        invariant model == Run(start, LoadOps(items[..i], root))
      {
        LoadItem(items[i], root);
        LoadOpsStep(start, items, i, root);
      }
      assert items[..|items|] == items;
      forall i: nat, m | IsLastLoaded(items, root, i, m) ensures Shows(model, m) {
        LastLoadedShows(start, items, root, i, m);
      }
      return listing;
    }
  }

  // ----- loading a directory

  /** A directory entry: reading it may fail, and decoding what was read may fail. */
  datatype DirItem = DirItem(regular: bool, name: string, contents: Result<Result<Manifest>>)

  predicate HasSuffix(s: string, suffix: string) {
    |suffix| <= |s| && s[|s| - |suffix|..] == suffix
  }

  /** A regular .yml or .yaml file that can be read, decodes, and validates under `root`. */
  predicate Loads(item: DirItem, root: string) {
    && item.regular
    && (HasSuffix(item.name, ".yml") || HasSuffix(item.name, ".yaml"))
    && item.contents.Ok? && item.contents.value.Ok?
    && HostPaths.IsValidFor(item.contents.value.value, root)
  }

  function ItemOps(item: DirItem, root: string): (ops: seq<Op>) {
    if Loads(item, root) then [OpPut(item.contents.value.value)] else []
  }

  /** The puts a directory amounts to, in directory order. */
  function LoadOps(items: seq<DirItem>, root: string): (ops: seq<Op>)
    ensures forall op :: op in ops ==> op.OpPut? && HostPaths.IsValidFor(op.m, root)
  {
    if |items| == 0 then []
    else LoadOps(items[..|items| - 1], root) + ItemOps(items[|items| - 1], root)
  }

  lemma RunItem(s: StoreModel.Store, item: DirItem, root: string)
    requires Filed(s)
    ensures Run(s, ItemOps(item, root)) == if Loads(item, root) then Put(s, item.contents.value.value) else s
  {
    var ops := ItemOps(item, root);
    if |ops| == 1 {
      assert ops[..0] == [];
    }
  }

  lemma LoadOpsStep(s: StoreModel.Store, items: seq<DirItem>, i: nat, root: string)
    requires Filed(s) && i < |items|
    ensures Run(s, LoadOps(items[..i + 1], root)) == Run(Run(s, LoadOps(items[..i], root)), ItemOps(items[i], root))
  {
    assert items[..i + 1][..i] == items[..i];
    RunConcat(s, LoadOps(items[..i], root), ItemOps(items[i], root));
  }

  // ----- a directory in full

  /** A regular file named *.yml or *.yaml that reads and decodes as `m`, whose localDirs are absolute unless a root is set. */
  ghost predicate IsLoadable(item: DirItem, root: string, m: Manifest) {
    && item.regular
    && (exists stem :: item.name == stem + ".yml" || item.name == stem + ".yaml")
    && item.contents == Ok(Ok(m))
    && forall i :: 0 <= i < |m.mounts| ==> m.mounts[i].localDir == "" || m.mounts[i].localDir[0] == '/' || root != ""
  }

  lemma SuffixIff(name: string, suffix: string)
    ensures HasSuffix(name, suffix) <==> exists stem :: name == stem + suffix
  {
    if HasSuffix(name, suffix) {
      assert name == name[..|name| - |suffix|] + suffix;
    }
  }

  lemma LoadableIff(item: DirItem, root: string, m: Manifest)
    ensures IsLoadable(item, root, m) <==> Loads(item, root) && item.contents.value.value == m
  {
    SuffixIff(item.name, ".yml");
    SuffixIff(item.name, ".yaml");
    HostPaths.ValidInFull(m, root);
  }

  /** `m` comes from the i-th item, and no loadable item behind it that the store would accept has its name. */
  ghost predicate IsLastLoaded(items: seq<DirItem>, root: string, i: nat, m: Manifest) {
    && i < |items| && IsLoadable(items[i], root, m)
    && m.ipv4.ip.Some? && m.id != ""
    && forall j, n :: i < j < |items| && IsLoadable(items[j], root, n) && n.ipv4.ip.Some? ==> n.id != m.id
  }

  ghost predicate Shows(s: StoreModel.Store, m: Manifest) {
    Find(s, m.id).Some? && Find(s, m.id).value < |s.heap| && s.heap[Find(s, m.id).value] == m
  }

  lemma ShowsAfterItem(s: StoreModel.Store, item: DirItem, root: string, m: Manifest)
    requires Filed(s)
    requires IsLoadable(item, root, m) && m.ipv4.ip.Some? && m.id != ""
    ensures Shows(Run(s, ItemOps(item, root)), m)
  {
    LoadableIff(item, root, m);
    RunItem(s, item, root);
  }

  lemma StillShowsAfterItem(s: StoreModel.Store, item: DirItem, root: string, m: Manifest)
    requires Filed(s) && Shows(s, m)
    requires forall n :: IsLoadable(item, root, n) && n.ipv4.ip.Some? ==> n.id != m.id
    ensures Shows(Run(s, ItemOps(item, root)), m)
  {
    RunItem(s, item, root);
    if Loads(item, root) {
      LoadableIff(item, root, item.contents.value.value);
    }
  }

  /** Loading a directory leaves, under each name, the manifest of the last file that has it. */
  lemma {:induction false} LastLoadedShows(s: StoreModel.Store, items: seq<DirItem>, root: string, i: nat, m: Manifest)
    requires Filed(s) && IsLastLoaded(items, root, i, m)
    ensures Shows(Run(s, LoadOps(items, root)), m)
    decreases |items|
  {
    var n := |items| - 1;
    var front := items[..n];
    assert items[..n + 1] == items;
    LoadOpsStep(s, items, n, root);
    if i == n {
      ShowsAfterItem(Run(s, LoadOps(front, root)), items[n], root, m);
    } else {
      LastLoadedShows(s, front, root, i, m);
      StillShowsAfterItem(Run(s, LoadOps(front, root)), items[n], root, m);
    }
  }

  lemma OtherNameAfterItem(s: StoreModel.Store, item: DirItem, root: string, id: string)
    requires Filed(s)
    requires forall n :: IsLoadable(item, root, n) && n.ipv4.ip.Some? ==> n.id != id
    ensures Find(Run(s, ItemOps(item, root)), id) == Find(s, id)
  {
    RunItem(s, item, root);
    if Loads(item, root) {
      LoadableIff(item, root, item.contents.value.value);
    }
  }

  /** And every other name as it was. */
  lemma {:induction false} OthersAreKept(s: StoreModel.Store, items: seq<DirItem>, root: string, id: string)
    requires Filed(s)
    requires forall j, n :: 0 <= j < |items| && IsLoadable(items[j], root, n) && n.ipv4.ip.Some? ==> n.id != id
    ensures Find(Run(s, LoadOps(items, root)), id) == Find(s, id)
    decreases |items|
  {
    if |items| > 0 {
      var n := |items| - 1;
      assert items[..n + 1] == items;
      LoadOpsStep(s, items, n, root);
      OthersAreKept(s, items[..n], root, id);
      OtherNameAfterItem(Run(s, LoadOps(items[..n], root)), items[n], root, id);
    }
  }
}
