/**
 The store under any number of concurrent clients (store/store.go, api/server.go). A put is one
 step. A forget reads the object under the read lock and deletes under the write lock; a
 suspension looks the object up under the read lock and writes its field later, under no lock.
 Between the two steps of one client's call, every other client may take any steps.
 */
module StoreSteps {
  import opened Wrappers
  import opened Net
  import opened Manifests
  import opened StoreModel
  import opened StoreLog

  type Client = nat

  /** A call between its two steps: the object it holds, and for a suspension what it was asked. */
  datatype Call = Forgetting(a: nat) | Writing(a: nat, ip: IP, on: bool)

  datatype Sys = Sys(store: Store, pending: map<Client, Call>)

  datatype Step =
    | PutStep(m: Manifest)
    | ReadStep(c: Client, id: string)
    | DeleteStep(c: Client)
    | LookupStep(c: Client, ip: IP, on: bool)
    | WriteStep(c: Client)

  const INIT := Sys(EMPTY, map[])

  /** A filed store, and calls that hold objects of it; a suspension holds one with the address it was asked for. */
  predicate Sound(s: Sys) {
    && Filed(s.store)
    && forall c :: c in s.pending ==> HoldsObject(s.store.heap, s.pending[c])
  }

  predicate HoldsObject(heap: seq<Manifest>, call: Call) {
    call.a < |heap| && (call.Writing? ==> IPKey(heap[call.a]) == Net.Key(call.ip))
  }

  predicate Enabled(s: Sys, st: Step) {
    match st
    case PutStep(_) => true
    case ReadStep(c, _) => c !in s.pending
    case DeleteStep(c) => c in s.pending && s.pending[c].Forgetting?
    case LookupStep(c, _, _) => c !in s.pending
    case WriteStep(c) => c in s.pending && s.pending[c].Writing?
  }

  function Next(s: Sys, st: Step): (r: Sys)
    requires Sound(s) && Enabled(s, st)
    ensures Sound(r)
  {
    match st
    case PutStep(m) => PutKeepsFiled(s.store, m); Sys(Put(s.store, m), s.pending)
    case ReadStep(c, id) =>
      (match Find(s.store, id)
       case None => s
       case Some(a) => Sys(s.store, s.pending[c := Forgetting(a)]))
    case DeleteStep(c) =>
      var m := s.store.heap[s.pending[c].a];
      DeleteKeepsFiled(s.store, m);
      Sys(Delete(s.store, m), s.pending - {c})
    case LookupStep(c, ip, on) =>
      (match FindByIP(s.store, ip)
       case None => s
       case Some(a) => Sys(s.store, s.pending[c := Writing(a, ip, on)]))
    case WriteStep(c) =>
      var w := s.pending[c];
      WriteFlagKeepsFiled(s.store, w.a, w.on);
      Sys(WriteFlag(s.store, w.a, w.on), s.pending - {c})
  }

  predicate IsRun(s: Sys, steps: seq<Step>)
    requires Sound(s)
    decreases |steps|
  {
    |steps| == 0 || (Enabled(s, steps[0]) && IsRun(Next(s, steps[0]), steps[1..]))
  }

  /** The state a run ends in. Every state of every run is filed, whatever is put. */
  function After(s: Sys, steps: seq<Step>): (r: Sys)
    requires Sound(s) && IsRun(s, steps)
    ensures Sound(r)
    decreases |steps|
  {
    if |steps| == 0 then s else After(Next(s, steps[0]), steps[1..])
  }

  // ----- every run: a delete step removes the name that was read

  lemma PendingObjectStep(s: Sys, st: Step, c: Client)
    requires Sound(s) && Enabled(s, st) && c in s.pending && st != DeleteStep(c) && st != WriteStep(c)
    ensures c in Next(s, st).pending && Next(s, st).pending[c] == s.pending[c]
    ensures Next(s, st).store.heap[s.pending[c].a].id == s.store.heap[s.pending[c].a].id
  {
    NamesStep(s, st, s.pending[c].a);
  }

  lemma NamesStep(s: Sys, st: Step, a: nat)
    requires Sound(s) && Enabled(s, st) && a < |s.store.heap|
    ensures a < |Next(s, st).store.heap| && Next(s, st).store.heap[a].id == s.store.heap[a].id
  {
  }

  lemma {:induction false} DeleteRemovesName(s: Sys, c: Client, id: string, steps: seq<Step>)
    requires Sound(s) && c in s.pending && s.pending[c].Forgetting? && s.store.heap[s.pending[c].a].id == id
    requires IsRun(s, steps) && DeleteStep(c) !in steps
    ensures Enabled(After(s, steps), DeleteStep(c))
    ensures Find(Next(After(s, steps), DeleteStep(c)).store, id) == None
    decreases |steps|
  {
    if |steps| > 0 {
      PendingObjectStep(s, steps[0], c);
      DeleteRemovesName(Next(s, steps[0]), c, id, steps[1..]);
    } else {
      DeleteKeepsFiled(s.store, s.store.heap[s.pending[c].a]);
    }
  }

  /** Whatever other clients do in between, right after a forget's delete step its ID is gone. */
  lemma ForgetRemovesName(s: Sys, c: Client, id: string, steps: seq<Step>)
    requires Sound(s) && c !in s.pending && id in s.store.manifests
    requires IsRun(Next(s, ReadStep(c, id)), steps) && DeleteStep(c) !in steps
    ensures var mid := After(Next(s, ReadStep(c, id)), steps);
            Enabled(mid, DeleteStep(c)) && Find(Next(mid, DeleteStep(c)).store, id) == None
  {
    DeleteRemovesName(Next(s, ReadStep(c, id)), c, id, steps);
  }

  // ----- every run: a write step sets the flag of the object that was looked up

  lemma {:induction false} WriteSetsFlag(s: Sys, c: Client, steps: seq<Step>)
    requires Sound(s) && c in s.pending && s.pending[c].Writing?
    requires IsRun(s, steps) && WriteStep(c) !in steps
    ensures var mid, w := After(s, steps), s.pending[c];
            && Enabled(mid, WriteStep(c)) && mid.pending[c] == w && w.a < |mid.store.heap|
            && Next(mid, WriteStep(c)).store.heap[w.a].suspended == w.on
    decreases |steps|
  {
    if |steps| > 0 {
      PendingObjectStep(s, steps[0], c);
      WriteSetsFlag(Next(s, steps[0]), c, steps[1..]);
    }
  }

  /**
   Whatever other clients do in between, and wherever the address leads by then, right after its write
   the object a suspension or unsuspension looked up has the flag it was asked for, over any other's.
   */
  lemma SuspensionSetsFlag(s: Sys, c: Client, ip: IP, on: bool, s1: Sys, steps: seq<Step>)
    requires Sound(s) && c !in s.pending && FindByIP(s.store, ip).Some? && s1 == Next(s, LookupStep(c, ip, on))
    requires IsRun(s1, steps) && WriteStep(c) !in steps
    ensures var mid, a := After(s1, steps), FindByIP(s.store, ip).value;
            && Enabled(mid, WriteStep(c)) && a < |mid.store.heap|
            && Next(mid, WriteStep(c)).store.heap[a].suspended == on
  {
    WriteSetsFlag(s1, c, steps);
  }

  // ----- disciplined runs: one fixed key set per ID, disjoint from every other ID's

  predicate Compatible(m: Manifest, n: Manifest) {
    if m.id == n.id then IPKey(m) == IPKey(n) && MACKeys(m) == MACKeys(n)
    else IPKey(m) != IPKey(n) && MACKeys(m) !! MACKeys(n)
  }

  lemma CompatibleKeys(m: Manifest, n: Manifest)
    ensures Compatible(m, n) <==> if m.id == n.id then Keys(m) == Keys(n) else Keys(m) !! Keys(n)
  {
    KeysOrdered(m, n);
  }

  /** The manifest a step allocates, if any. */
  function Allocates(st: Step): (r: seq<Manifest>) {
    if st.PutStep? && Accepts(st.m) then [st.m] else []
  }

  /** The manifests a run puts, in order. */
  function PutsOf(steps: seq<Step>): (r: seq<Manifest>) {
    if |steps| == 0 then []
    else Allocates(steps[0]) + PutsOf(steps[1..])
  }

  predicate AllCompatible(pool: seq<Manifest>) {
    forall i, j :: 0 <= i < |pool| && 0 <= j < |pool| ==> Compatible(pool[i], pool[j])
  }

  /** The objects already there and those still to be put follow the discipline. */
  predicate Disciplined(s: Sys, steps: seq<Step>) {
    AllCompatible(s.store.heap + PutsOf(steps))
  }

  lemma CompatiblePutIsSafe(s: Store, m: Manifest)
    requires Agrees(s) && forall a :: 0 <= a < |s.heap| ==> Compatible(s.heap[a], m)
    ensures PutIsSafe(s, m)
  {
  }

  /** In an agreeing store of compatible objects, deleting any of them is forgetting its ID. */
  lemma CompatibleDeleteIsForget(s: Store, a: nat)
    requires Agrees(s) && AllCompatible(s.heap) && a < |s.heap|
    ensures Delete(s, s.heap[a]) == Forget(s, s.heap[a].id)
  {
    var m := s.heap[a];
    if m.id in s.manifests {
      assert Compatible(m, s.heap[s.manifests[m.id]]);
    } else {
      forall k | k in s.index ensures k !in Keys(m) {
        var b := s.index[k];
        assert Find(s, s.heap[b].id) == Some(b);
        assert Compatible(m, s.heap[b]);
        CompatibleKeys(m, s.heap[b]);
      }
      CurrentKeys(s, m);
    }
    DeleteIsForgetIff(s, m);
  }

  lemma SuspendingKeepsCompatible(pool: seq<Manifest>, a: nat, on: bool)
    requires AllCompatible(pool) && a < |pool|
    ensures AllCompatible(pool[a := pool[a].(suspended := on)])
  {
    var m := pool[a].(suspended := on);
    assert IPKey(m) == IPKey(pool[a]) && MACKeys(m) == MACKeys(pool[a]);
    var q := pool[a := m];
    forall i, j | 0 <= i < |q| && 0 <= j < |q| ensures Compatible(q[i], q[j]) {
      assert Compatible(pool[i], pool[j]);
    }
  }

  lemma WrittenPool(s: Store, a: nat, on: bool, rest: seq<Manifest>)
    requires a < |s.heap|
    ensures WriteFlag(s, a, on).heap + rest == (s.heap + rest)[a := s.heap[a].(suspended := on)]
  {
  }

  lemma HeapAfterStep(s: Sys, st: Step)
    requires Sound(s) && Enabled(s, st)
    ensures Next(s, st).store.heap ==
            if st.WriteStep? then WriteFlag(s.store, s.pending[st.c].a, s.pending[st.c].on).heap
            else s.store.heap + Allocates(st)
  {
  }

  lemma CompatiblePrefix(heap: seq<Manifest>, rest: seq<Manifest>)
    requires AllCompatible(heap + rest)
    ensures AllCompatible(heap)
  {
    var pool := heap + rest;
    forall i, j | 0 <= i < |heap| && 0 <= j < |heap| ensures Compatible(heap[i], heap[j]) {
      assert pool[i] == heap[i] && pool[j] == heap[j];
      assert Compatible(pool[i], pool[j]);
    }
  }

  /** A step moves a manifest from the puts to come into the heap, or changes one suspension. */
  lemma StepKeepsDiscipline(s: Sys, steps: seq<Step>)
    requires Sound(s) && |steps| > 0 && Enabled(s, steps[0]) && Disciplined(s, steps)
    ensures Disciplined(Next(s, steps[0]), steps[1..])
  {
    var st, heap, rest := steps[0], s.store.heap, PutsOf(steps[1..]);
    HeapAfterStep(s, st);
    if !st.WriteStep? {
      assert heap + Allocates(st) + rest == heap + (Allocates(st) + rest);
    } else {
      var w := s.pending[st.c];
      assert PutsOf(steps) == rest;
      WrittenPool(s.store, w.a, w.on, rest);
      SuspendingKeepsCompatible(heap + rest, w.a, w.on);
    }
  }

  /**
   The sequential operations a step stands for. A forget takes effect where it deletes, or where it
   finds nothing; a suspension where it writes, or where it finds nothing. A write whose address
   leads elsewhere by then is a bare write to the object looked up.
   */
  function Effect(s: Sys, st: Step): (ops: seq<Op>)
    requires Sound(s) && Enabled(s, st)
  {
    match st
    case PutStep(m) => [OpPut(m)]
    case ReadStep(c, id) => if id in s.store.manifests then [] else [OpForget(id)]
    case DeleteStep(c) => [OpForget(s.store.heap[s.pending[c].a].id)]
    case LookupStep(c, ip, on) => if FindByIP(s.store, ip).Some? then [] else [OpSuspend(ip, on)]
    case WriteStep(c) =>
      var w := s.pending[c];
      if FindByIP(s.store, w.ip) == Some(w.a) then [OpSuspend(w.ip, w.on)] else [OpWrite(w.a, w.on)]
  }

  /** In an agreeing store a bare write is to an object that no name and no key leads to: nobody sees it. */
  lemma BareWriteIsUnseen(s: Sys, c: Client)
    requires Sound(s) && Enabled(s, WriteStep(c)) && Agrees(s.store)
    ensures Effect(s, WriteStep(c)) == [OpWrite(s.pending[c].a, s.pending[c].on)] <==> !IsReached(s.store, s.pending[c].a)
  {
    ReachedIsFoundByIP(s.store, s.pending[c].a, s.pending[c].ip);
  }

  function Linearize(s: Sys, steps: seq<Step>): (ops: seq<Op>)
    requires Sound(s) && IsRun(s, steps)
    decreases |steps|
  {
    if |steps| == 0 then [] else Effect(s, steps[0]) + Linearize(Next(s, steps[0]), steps[1..])
  }

  /** Each step, seen as its sequential operations, from an agreeing store of compatible objects. */
  lemma DisciplinedPut(s: Store, m: Manifest, rest: seq<Manifest>)
    requires Agrees(s) && Accepts(m) && AllCompatible(s.heap + ([m] + rest))
    ensures Agrees(Put(s, m))
  {
    var pool := s.heap + ([m] + rest);
    forall a | 0 <= a < |s.heap| ensures Compatible(s.heap[a], m) {
      assert pool[a] == s.heap[a] && pool[|s.heap|] == m;
      assert Compatible(pool[a], pool[|s.heap|]);
    }
    CompatiblePutIsSafe(s, m);
    SafePutKeepsAgreement(s, m);
  }

  lemma DisciplinedDelete(s: Store, a: nat)
    requires Agrees(s) && AllCompatible(s.heap) && a < |s.heap|
    ensures Agrees(Delete(s, s.heap[a]))
    ensures Delete(s, s.heap[a]) == Apply(s, OpForget(s.heap[a].id))
  {
    CompatibleDeleteIsForget(s, a);
    ForgetKeepsAgreement(s, s.heap[a].id);
  }

  lemma DisciplinedWrite(s: Store, w: Call)
    requires Agrees(s) && w.Writing?
    ensures Agrees(WriteFlag(s, w.a, w.on))
    ensures WriteFlag(s, w.a, w.on) ==
            Apply(s, if FindByIP(s, w.ip) == Some(w.a) then OpSuspend(w.ip, w.on) else OpWrite(w.a, w.on))
  {
    WriteFlagKeepsFiled(s, w.a, w.on);
    if FindByIP(s, w.ip) == Some(w.a) {
      assert SetSuspended(s, w.ip, w.on) == WriteFlag(s, w.a, w.on);
    }
  }

  lemma DisciplinedStep(s: Sys, steps: seq<Step>)
    requires Sound(s) && |steps| > 0 && Enabled(s, steps[0])
    requires Agrees(s.store) && Disciplined(s, steps)
    ensures Agrees(Next(s, steps[0]).store)
    ensures Next(s, steps[0]).store == Run(s.store, Effect(s, steps[0]))
  {
    CompatiblePrefix(s.store.heap, PutsOf(steps));
    RunOne(s.store, Effect(s, steps[0]));
    match steps[0]
    case PutStep(m) =>
      if Accepts(m) {
        DisciplinedPut(s.store, m, PutsOf(steps[1..]));
      }
    case DeleteStep(c) => DisciplinedDelete(s.store, s.pending[c].a);
    case WriteStep(c) => DisciplinedWrite(s.store, s.pending[c]);
    case _ =>
  }

  lemma RunOne(s: Store, ops: seq<Op>)
    requires Filed(s) && |ops| <= 1
    ensures Run(s, ops) == if |ops| == 0 then s else Apply(s, ops[0])
  {
    if |ops| == 1 {
      assert ops[..0] == [];
    }
  }

  /**
   Every interleaving of a disciplined run leaves all three maps in agreement and ends in the
   store that the sequential operations, in the order of their effects, would have produced.
   */
  lemma {:induction false} DisciplinedRun(s: Sys, steps: seq<Step>)
    requires Sound(s) && IsRun(s, steps)
    requires Agrees(s.store) && Disciplined(s, steps)
    ensures Agrees(After(s, steps).store)
    ensures After(s, steps).store == Run(s.store, Linearize(s, steps))
    decreases |steps|
  {
    if |steps| > 0 {
      var r := Next(s, steps[0]);
      StepKeepsDiscipline(s, steps);
      DisciplinedStep(s, steps);
      DisciplinedRun(r, steps[1..]);
      RunConcat(s.store, Effect(s, steps[0]), Linearize(r, steps[1..]));
    }
  }

  /** The same from the empty store, in terms of the manifests put alone. */
  lemma DisciplinedFromStart(steps: seq<Step>)
    requires IsRun(INIT, steps) && AllCompatible(PutsOf(steps))
    ensures Agrees(After(INIT, steps).store)
    ensures After(INIT, steps).store == Run(EMPTY, Linearize(INIT, steps))
  {
    assert INIT.store.heap + PutsOf(steps) == PutsOf(steps);
    DisciplinedRun(INIT, steps);
  }

  // ----- what a store shows

  /** The manifest a name shows. */
  function ShownByName(s: Store, id: string): (m: Option<Manifest>)
    requires InHeap(s)
  {
    if id in s.manifests then Some(s.heap[s.manifests[id]]) else None
  }

  /** The manifest a key shows. */
  function ShownByKey(s: Store, k: Key): (m: Option<Manifest>)
    requires InHeap(s)
  {
    if k in s.index then Some(s.heap[s.index[k]]) else None
  }

  /** Both stores show the same manifest under every name and every key. */
  ghost predicate ShowSame(s: Store, t: Store)
    requires InHeap(s) && InHeap(t)
  {
    && (forall id :: ShownByName(s, id) == ShownByName(t, id))
    && (forall k :: ShownByKey(s, k) == ShownByKey(t, k))
  }

  /** The same maps, and the same objects but for the suspension of those that nothing leads to. */
  ghost predicate Alike(s: Store, t: Store)
    requires InHeap(s) && InHeap(t)
  {
    && s.manifests == t.manifests && s.index == t.index && |s.heap| == |t.heap|
    && (forall a :: 0 <= a < |s.heap| ==> SameButSuspended(s.heap[a], t.heap[a]))
    && ShowSame(s, t)
  }

  lemma ShownAfterPut(s: Store, m: Manifest)
    requires InHeap(s) && Accepts(m)
    ensures InHeap(Put(s, m))
    ensures forall id :: ShownByName(Put(s, m), id) == if id == m.id then Some(m) else ShownByName(s, id)
    ensures forall k :: ShownByKey(Put(s, m), k) == if k in Keys(m) then Some(m) else ShownByKey(s, k)
  {
    assert InHeap(Put(s, m));
    forall k ensures ShownByKey(Put(s, m), k) == if k in Keys(m) then Some(m) else ShownByKey(s, k) {
      KeyAfterPut(s, m, k);
    }
  }

  lemma KeyAfterPut(s: Store, m: Manifest, k: Key)
    requires InHeap(s) && Accepts(m) && InHeap(Put(s, m))
    ensures ShownByKey(Put(s, m), k) == if k in Keys(m) then Some(m) else ShownByKey(s, k)
  {
  }

  lemma ShownAfterDelete(s: Store, m: Manifest)
    requires InHeap(s)
    ensures InHeap(Delete(s, m))
    ensures forall id :: ShownByName(Delete(s, m), id) == if id == m.id then None else ShownByName(s, id)
    ensures forall k :: ShownByKey(Delete(s, m), k) == if k in Keys(m) then None else ShownByKey(s, k)
  {
  }

  function Flagged(m: Option<Manifest>, hit: bool, on: bool): (r: Option<Manifest>) {
    if m.Some? && hit then Some(m.value.(suspended := on)) else m
  }

  lemma ShownAfterWrite(s: Store, a: nat, on: bool)
    requires InHeap(s)
    ensures InHeap(WriteFlag(s, a, on))
    ensures forall id :: ShownByName(WriteFlag(s, a, on), id) == Flagged(ShownByName(s, id), Find(s, id) == Some(a), on)
    ensures forall k :: ShownByKey(WriteFlag(s, a, on), k) == Flagged(ShownByKey(s, k), Lookup(s, k) == Some(a), on)
  {
  }

  lemma AlikeAfterPut(s: Store, t: Store, m: Manifest)
    requires InHeap(s) && InHeap(t) && Alike(s, t) && Accepts(m)
    ensures InHeap(Put(s, m)) && InHeap(Put(t, m)) && Alike(Put(s, m), Put(t, m))
  {
    ShownAfterPut(s, m);
    ShownAfterPut(t, m);
  }

  lemma AlikeAfterDelete(s: Store, t: Store, m: Manifest)
    requires InHeap(s) && InHeap(t) && Alike(s, t)
    ensures InHeap(Delete(s, m)) && InHeap(Delete(t, m)) && Alike(Delete(s, m), Delete(t, m))
  {
    ShownAfterDelete(s, m);
    ShownAfterDelete(t, m);
  }

  lemma AlikeAfterWrite(s: Store, t: Store, a: nat, on: bool)
    requires InHeap(s) && InHeap(t) && Alike(s, t)
    ensures InHeap(WriteFlag(s, a, on)) && InHeap(WriteFlag(t, a, on)) && Alike(WriteFlag(s, a, on), WriteFlag(t, a, on))
  {
    ShownAfterWrite(s, a, on);
    ShownAfterWrite(t, a, on);
    WrittenAlike(s.heap, t.heap, a, on);
  }

  lemma WrittenAlike(g: seq<Manifest>, h: seq<Manifest>, a: nat, on: bool)
    requires |g| == |h| && forall b :: 0 <= b < |g| ==> SameButSuspended(g[b], h[b])
    ensures a < |g| ==> var g', h' := g[a := g[a].(suspended := on)], h[a := h[a].(suspended := on)];
                        forall b :: 0 <= b < |g'| ==> SameButSuspended(g'[b], h'[b])
  {
  }

  /** Calls cannot tell alike stores apart. */
  lemma AlikeAfterCall(s: Store, t: Store, op: Op)
    requires Filed(s) && Filed(t) && Alike(s, t)
    ensures Alike(Apply(s, op), Apply(t, op))
  {
    match op
    case OpPut(m) =>
      if Accepts(m) {
        AlikeAfterPut(s, t, m);
      }
    case OpForget(id) =>
      assert ShownByName(s, id) == ShownByName(t, id);
      if id in s.manifests {
        AlikeAfterDelete(s, t, s.heap[s.manifests[id]]);
      }
    case OpSuspend(ip, on) =>
      if FindByIP(s, ip).Some? {
        AlikeAfterWrite(s, t, FindByIP(s, ip).value, on);
      }
    case OpWrite(a, on) => AlikeAfterWrite(s, t, a, on);
  }

  /** Nor does a write to an object nothing leads to. */
  lemma UnseenWriteKeepsAlike(s: Store, t: Store, a: nat, on: bool)
    requires InHeap(s) && InHeap(t) && Alike(s, t) && !IsReached(s, a)
    ensures InHeap(WriteFlag(s, a, on)) && Alike(WriteFlag(s, a, on), t)
  {
    ShownAfterWrite(s, a, on);
    forall id ensures ShownByName(WriteFlag(s, a, on), id) == ShownByName(t, id) {
      assert Find(s, id) != Some(a) && ShownByName(s, id) == ShownByName(t, id);
    }
    forall k ensures ShownByKey(WriteFlag(s, a, on), k) == ShownByKey(t, k) {
      assert Lookup(s, k) != Some(a) && ShownByKey(s, k) == ShownByKey(t, k);
    }
  }

  // ----- disciplined runs show what the calls alone would

  /** The calls of a history, without its bare writes. */
  function Calls(ops: seq<Op>): (r: seq<Op>)
    ensures forall op :: op in r ==> op in ops && !op.OpWrite?
  {
    if |ops| == 0 then [] else (if ops[0].OpWrite? then [] else [ops[0]]) + Calls(ops[1..])
  }

  lemma CallsOfEffect(e: seq<Op>, rest: seq<Op>)
    requires |e| <= 1
    ensures Calls(e) == if |e| == 1 && !e[0].OpWrite? then e else []
    ensures Calls(e + rest) == Calls(e) + Calls(rest)
  {
    if |e| == 0 {
      assert e + rest == rest;
    } else {
      assert e[1..] == [] && [e[0]] == e;
      assert (e + rest)[1..] == rest;
    }
  }

  lemma DisciplinedCallStep(s: Sys, t: Store, steps: seq<Step>)
    requires Sound(s) && |steps| > 0 && Enabled(s, steps[0])
    requires Agrees(s.store) && Disciplined(s, steps) && Filed(t) && Alike(s.store, t)
    ensures Alike(Next(s, steps[0]).store, Run(t, Calls(Effect(s, steps[0]))))
  {
    var st := steps[0];
    var e := Effect(s, st);
    DisciplinedStep(s, steps);
    CallsOfEffect(e, []);
    RunOne(s.store, e);
    RunOne(t, Calls(e));
    if |e| == 1 {
      if e[0].OpWrite? {
        BareWriteIsUnseen(s, st.c);
        UnseenWriteKeepsAlike(s.store, t, e[0].a, e[0].on);
      } else {
        AlikeAfterCall(s.store, t, e[0]);
      }
    }
  }

  lemma RunOfCalls(t: Store, e: seq<Op>, rest: seq<Op>)
    requires Filed(t) && |e| <= 1
    ensures Run(t, Calls(e + rest)) == Run(Run(t, Calls(e)), Calls(rest))
  {
    CallsOfEffect(e, rest);
    RunConcat(t, Calls(e), Calls(rest));
  }

  lemma {:induction false} AlikeRun(s: Sys, t: Store, steps: seq<Step>)
    requires Sound(s) && IsRun(s, steps)
    requires Agrees(s.store) && Disciplined(s, steps) && Filed(t) && Alike(s.store, t)
    ensures Alike(After(s, steps).store, Run(t, Calls(Linearize(s, steps))))
    decreases |steps|
  {
    if |steps| > 0 {
      var r, e := Next(s, steps[0]), Effect(s, steps[0]);
      StepKeepsDiscipline(s, steps);
      DisciplinedStep(s, steps);
      DisciplinedCallStep(s, t, steps);
      AlikeRun(r, Run(t, Calls(e)), steps[1..]);
      RunOfCalls(t, e, Linearize(r, steps[1..]));
    }
  }

  /** Every interleaving of a disciplined run shows, under every name and key, what the calls alone, in the order of their effects, would. */
  lemma DisciplinedRunShowsCalls(s: Sys, steps: seq<Step>)
    requires Sound(s) && IsRun(s, steps)
    requires Agrees(s.store) && Disciplined(s, steps)
    ensures ShowSame(After(s, steps).store, Run(s.store, Calls(Linearize(s, steps))))
  {
    AlikeRun(s, s.store, steps);
  }

  // ----- the discipline is exact

  lemma PutsAreSteps(steps: seq<Step>)
    ensures forall m :: m in PutsOf(steps) ==> PutStep(m) in steps && Accepts(m)
  {
  }

  lemma OnePut(m: Manifest)
    requires Accepts(m)
    ensures Agrees(Put(EMPTY, m))
    ensures Put(EMPTY, m).manifests == map[m.id := 0] && Put(EMPTY, m).heap == [m]
  {
    SafePutKeepsAgreement(EMPTY, m);
  }

  lemma TwoPutsAgreeIff(m: Manifest, n: Manifest)
    requires Accepts(m) && Accepts(n)
    ensures Agrees(Put(Put(EMPTY, m), n)) <==>
            if m.id == n.id then IPKey(m) == IPKey(n) && MACKeys(m) <= MACKeys(n)
            else IPKey(m) != IPKey(n) && MACKeys(m) !! MACKeys(n)
  {
    var s := Put(EMPTY, m);
    OnePut(m);
    PutKeepsAgreementIff(s, n);
    assert m.id in s.manifests && s.heap[s.manifests[m.id]] == m;
  }

  /** Putting two incompatible manifests, in one order or the other, breaks agreement. */
  lemma IncompatiblePairBreaks(m: Manifest, n: Manifest)
    requires Accepts(m) && Accepts(n) && !Compatible(m, n)
    ensures !Agrees(Put(Put(EMPTY, m), n)) || !Agrees(Put(Put(EMPTY, n), m))
  {
    TwoPutsAgreeIff(m, n);
    TwoPutsAgreeIff(n, m);
  }

  lemma TwoPuts(m: Manifest, n: Manifest) returns (steps: seq<Step>)
    ensures IsRun(INIT, steps) && After(INIT, steps).store == Put(Put(EMPTY, m), n)
    ensures forall st :: st in steps ==> st == PutStep(m) || st == PutStep(n)
  {
    steps := [PutStep(m), PutStep(n)];
    var s1 := Next(INIT, PutStep(m));
    UnrollTwo(INIT, steps, s1, Next(s1, PutStep(n)));
  }

  predicate PutsFrom(steps: seq<Step>, pool: iset<Manifest>) {
    forall st :: st in steps && st.PutStep? ==> st.m in pool
  }

  /**
   Whatever manifests may be put: every run that puts only those, under any interleaving, ends with
   the indexes in agreement, exactly when all the acceptable ones are pairwise compatible.
   */
  lemma AgreementIffCompatible(pool: iset<Manifest>)
    ensures (forall steps :: IsRun(INIT, steps) && PutsFrom(steps, pool) ==> Agrees(After(INIT, steps).store)) <==>
            (forall m, n :: m in pool && n in pool && Accepts(m) && Accepts(n) ==> Compatible(m, n))
  {
    if forall m, n :: m in pool && n in pool && Accepts(m) && Accepts(n) ==> Compatible(m, n) {
      forall steps | IsRun(INIT, steps) && PutsFrom(steps, pool) ensures Agrees(After(INIT, steps).store) {
        PoolIsDisciplined(steps, pool);
        DisciplinedFromStart(steps);
      }
    } else {
      var m, n :| m in pool && n in pool && Accepts(m) && Accepts(n) && !Compatible(m, n);
      var steps := BreakingRun(m, n);
      assert PutsFrom(steps, pool);
    }
  }

  lemma PoolIsDisciplined(steps: seq<Step>, pool: iset<Manifest>)
    requires PutsFrom(steps, pool)
    requires forall m, n :: m in pool && n in pool && Accepts(m) && Accepts(n) ==> Compatible(m, n)
    ensures AllCompatible(PutsOf(steps))
  {
    PutsAreSteps(steps);
    var pool' := PutsOf(steps);
    forall i, j | 0 <= i < |pool'| && 0 <= j < |pool'| ensures Compatible(pool'[i], pool'[j]) {
      assert pool'[i] in pool' && pool'[j] in pool';
    }
  }

  lemma BreakingRun(m: Manifest, n: Manifest) returns (steps: seq<Step>)
    requires Accepts(m) && Accepts(n) && !Compatible(m, n)
    ensures IsRun(INIT, steps) && !Agrees(After(INIT, steps).store)
    ensures forall st :: st in steps ==> st == PutStep(m) || st == PutStep(n)
  {
    IncompatiblePairBreaks(m, n);
    if Agrees(Put(Put(EMPTY, m), n)) {
      steps := TwoPuts(n, m);
    } else {
      steps := TwoPuts(m, n);
    }
  }

  // ----- a put between the halves of a forget

  /** One client's forget of `n.id`, with a put of `n` between its steps. */
  function Race(c: Client, n: Manifest): (steps: seq<Step>) {
    [ReadStep(c, n.id), PutStep(n), DeleteStep(c)]
  }

  /** The store after the race, if `old` was read. */
  function Raced(s: Store, was: Manifest, n: Manifest): (r: Store) {
    Delete(Put(s, n), was)
  }

  lemma Unroll(s: Sys, steps: seq<Step>)
    requires Sound(s) && |steps| > 0 && Enabled(s, steps[0]) && IsRun(Next(s, steps[0]), steps[1..])
    ensures IsRun(s, steps) && After(s, steps) == After(Next(s, steps[0]), steps[1..])
  {
  }

  lemma UnrollTwo(s: Sys, steps: seq<Step>, s1: Sys, s2: Sys)
    requires |steps| == 2 && Sound(s)
    requires Enabled(s, steps[0]) && s1 == Next(s, steps[0])
    requires Enabled(s1, steps[1]) && s2 == Next(s1, steps[1])
    ensures IsRun(s, steps) && After(s, steps) == s2
  {
    Unroll(s1, steps[1..]);
    Unroll(s, steps);
  }

  lemma RaceEnds(s: Sys, c: Client, n: Manifest)
    requires Sound(s) && c !in s.pending && Accepts(n) && n.id in s.store.manifests
    ensures IsRun(s, Race(c, n))
    ensures After(s, Race(c, n)).store == Raced(s.store, s.store.heap[s.store.manifests[n.id]], n)
  {
    var steps := Race(c, n);
    var s1 := Next(s, steps[0]);
    var s2 := Next(s1, steps[1]);
    RaceMiddle(s, c, n, s1, s2);
    UnrollTwo(s1, steps[1..], s2, Next(s2, steps[2]));
    Unroll(s, steps);
  }

  lemma RaceRead(s: Sys, c: Client, id: string, s1: Sys)
    requires Sound(s) && c !in s.pending && id in s.store.manifests && s1 == Next(s, ReadStep(c, id))
    ensures s1 == Sys(s.store, s.pending[c := Forgetting(s.store.manifests[id])])
  {
  }

  lemma RaceMiddle(s: Sys, c: Client, n: Manifest, s1: Sys, s2: Sys)
    requires Sound(s) && c !in s.pending && Accepts(n) && n.id in s.store.manifests
    requires s1 == Next(s, ReadStep(c, n.id))
    requires s2 == Next(s1, PutStep(n))
    ensures Enabled(s2, DeleteStep(c)) && s2.store == Put(s.store, n)
    ensures s2.store.heap[s2.pending[c].a] == s.store.heap[s.store.manifests[n.id]]
  {
    RaceRead(s, c, n.id, s1);
    assert s2 == Sys(Put(s.store, n), s1.pending);
  }

  /** What the race and the put followed by the forget leave under a key. */
  lemma ShownAfterRace(s: Store, was: Manifest, n: Manifest, k: Key)
    requires Filed(s) && Accepts(n) && was.id == n.id
    ensures InHeap(Put(s, n)) && InHeap(Raced(s, was, n))
    ensures ShownByKey(Raced(s, was, n), k) ==
            if k in Keys(was) then None else if k in Keys(n) then Some(n) else ShownByKey(s, k)
    ensures ShownByKey(Forget(Put(s, n), n.id), k) == if k in Keys(n) then None else ShownByKey(s, k)
  {
    ShownAfterPut(s, n);
    ShownAfterDelete(Put(s, n), was);
    ShownAfterDelete(Put(s, n), n);
    assert Forget(Put(s, n), n.id) == Delete(Put(s, n), n);
  }

  lemma NamesAfterRace(s: Store, was: Manifest, n: Manifest)
    requires Filed(s) && Accepts(n) && was.id == n.id && n.id in s.manifests
    ensures Filed(Put(s, n)) && InHeap(Raced(s, was, n)) && InHeap(Put(Forget(s, n.id), n))
    ensures forall id :: ShownByName(Raced(s, was, n), id) == ShownByName(Forget(Put(s, n), n.id), id)
    ensures ShownByName(Raced(s, was, n), n.id) == None
    ensures ShownByName(Put(Forget(s, n.id), n), n.id) == Some(n)
  {
    PutKeepsFiled(s, n);
    DeleteKeepsFiled(s, s.heap[s.manifests[n.id]]);
    PutKeepsFiled(Forget(s, n.id), n);
  }

  /** The race shows what the put followed by the forget shows exactly when every key of `n` was read, and every other key read is filed nowhere. */
  lemma RaceIsPutThenForgetIff(s: Store, was: Manifest, n: Manifest)
    requires Filed(s) && Accepts(n) && was.id == n.id && n.id in s.manifests
    ensures Filed(Put(s, n)) && InHeap(Raced(s, was, n))
    ensures ShowSame(Raced(s, was, n), Forget(Put(s, n), n.id)) <==>
            Keys(n) <= Keys(was) && forall k :: k in Keys(was) && k !in Keys(n) ==> k !in s.index
  {
    NamesAfterRace(s, was, n);
    var r, q := Raced(s, was, n), Forget(Put(s, n), n.id);
    forall k ensures ShownByKey(r, k) == ShownByKey(q, k) <==> RacesAlike(s, was, n, k) {
      ShownAfterRace(s, was, n, k);
    }
    if forall k :: RacesAlike(s, was, n, k) {
      assert ShowSame(r, q);
    } else {
      var k :| !RacesAlike(s, was, n, k);
      assert ShownByKey(r, k) != ShownByKey(q, k);
    }
    RacesAlikeIff(s, was, n);
  }

  predicate RacesAlike(s: Store, was: Manifest, n: Manifest, k: Key) {
    if k in Keys(n) then k in Keys(was) else k in Keys(was) ==> k !in s.index
  }

  lemma RacesAlikeIff(s: Store, was: Manifest, n: Manifest)
    ensures (forall k :: RacesAlike(s, was, n, k)) <==>
            Keys(n) <= Keys(was) && forall k :: k in Keys(was) && k !in Keys(n) ==> k !in s.index
  {
    if forall k :: RacesAlike(s, was, n, k) {
      forall k | k in Keys(n) ensures k in Keys(was) {
        assert RacesAlike(s, was, n, k);
      }
      forall k | k in Keys(was) && k !in Keys(n) ensures k !in s.index {
        assert RacesAlike(s, was, n, k);
      }
    }
  }

  /** After the put the name shows; after the race it does not. */
  lemma RaceIsNotForgetThenPut(s: Store, was: Manifest, n: Manifest)
    requires Filed(s) && Accepts(n) && was.id == n.id && n.id in s.manifests
    ensures InHeap(Raced(s, was, n)) && InHeap(Put(Forget(s, n.id), n))
    ensures !ShowSame(Raced(s, was, n), Put(Forget(s, n.id), n))
  {
    NamesAfterRace(s, was, n);
  }

  lemma LiveKeysAreFiled(s: Store, id: string)
    requires Agrees(s) && id in s.manifests
    ensures forall k :: k in Keys(s.heap[s.manifests[id]]) ==> k in s.index
  {
    forall k | k in Keys(s.heap[s.manifests[id]]) ensures k in s.index {
      assert Lookup(s, k) == Some(s.manifests[id]);
    }
  }

  lemma SameKeysIff(index: map<Key, nat>, was: set<Key>, now: set<Key>)
    requires forall k :: k in was ==> k in index
    ensures now <= was && (forall k :: k in was && k !in now ==> k !in index) <==> now == was
  {
  }

  /** From an agreeing store, one of the two orders of the calls shows what the race shows exactly when the put changes no key. */
  lemma RaceIsSerialIff(s: Sys, c: Client, n: Manifest)
    requires Sound(s) && Agrees(s.store) && c !in s.pending && Accepts(n) && n.id in s.store.manifests
    ensures IsRun(s, Race(c, n)) && InHeap(Put(s.store, n))
    ensures var r, was := After(s, Race(c, n)).store, s.store.heap[s.store.manifests[n.id]];
            ShowSame(r, Forget(Put(s.store, n), n.id)) || ShowSame(r, Put(Forget(s.store, n.id), n)) <==>
            Keys(n) == Keys(was)
  {
    var was := s.store.heap[s.store.manifests[n.id]];
    RaceEnds(s, c, n);
    RaceIsPutThenForgetIff(s.store, was, n);
    RaceIsNotForgetThenPut(s.store, was, n);
    LiveKeysAreFiled(s.store, n.id);
    SameKeysIff(s.store.index, Keys(was), Keys(n));
  }

  /**
   From any store that holds the ID: a key that the put adds is left filed for a manifest no ID
   names, and neither order of the two calls ends in a store that shows the same manifests.
   */
  lemma UndisciplinedRace(s: Sys, c: Client, n: Manifest, k: Key)
    requires Sound(s) && c !in s.pending && Accepts(n) && n.id in s.store.manifests
    requires k in Keys(n) && k !in Keys(s.store.heap[s.store.manifests[n.id]])
    ensures IsRun(s, Race(c, n)) && InHeap(Put(s.store, n))
    ensures var r := After(s, Race(c, n)).store;
            && !Agrees(r)
            && ShownByName(r, n.id) == None && ShownByKey(r, k) == Some(n)
            && !ShowSame(r, Forget(Put(s.store, n), n.id))
            && !ShowSame(r, Put(Forget(s.store, n.id), n))
  {
    var was := s.store.heap[s.store.manifests[n.id]];
    RaceEnds(s, c, n);
    NamesAfterRace(s.store, was, n);
    RaceIsPutThenForgetIff(s.store, was, n);
    RaceIsNotForgetThenPut(s.store, was, n);
    ShownAfterRace(s.store, was, n, k);
    StrayKey(Raced(s.store, was, n), n.id, k);
  }

  /** A key that leads to a manifest whose name leads nowhere. */
  lemma StrayKey(r: Store, id: string, k: Key)
    requires InHeap(r) && id !in r.manifests && k in r.index && r.heap[r.index[k]].id == id
    ensures !Agrees(r)
  {
    assert Find(r, r.heap[r.index[k]].id) == None;
  }

  // ----- every forget takes effect exactly once

  function Reads(steps: seq<Step>, id: string): (n: nat) {
    if |steps| == 0 then 0
    else (if steps[0].ReadStep? && steps[0].id == id then 1 else 0) + Reads(steps[1..], id)
  }

  function Forgets(ops: seq<Op>, id: string): (n: nat) {
    if |ops| == 0 then 0
    else (if ops[0] == OpForget(id) then 1 else 0) + Forgets(ops[1..], id)
  }

  function Waiting(s: Sys, id: string): (r: set<Client>)
    requires Sound(s)
  {
    set c | c in s.pending && s.pending[c].Forgetting? && s.store.heap[s.pending[c].a].id == id
  }

  /** How one step changes the clients waiting to delete `id`. */
  lemma WaitingSetStep(s: Sys, st: Step, id: string)
    requires Sound(s) && Enabled(s, st)
    ensures Waiting(Next(s, st), id) ==
            if st.ReadStep? && st.id == id && id in s.store.manifests then Waiting(s, id) + {st.c}
            else if st.DeleteStep? then Waiting(s, id) - {st.c}
            else Waiting(s, id)
  {
    var r := Next(s, st);
    forall c | c in s.pending
      ensures s.pending[c].a < |r.store.heap|
      ensures r.store.heap[s.pending[c].a].id == s.store.heap[s.pending[c].a].id
    {
      NamesStep(s, st, s.pending[c].a);
    }
  }

  lemma WaitingStep(s: Sys, st: Step, id: string)
    requires Sound(s) && Enabled(s, st)
    ensures |Waiting(s, id)| + (if st.ReadStep? && st.id == id then 1 else 0)
            == Forgets(Effect(s, st), id) + |Waiting(Next(s, st), id)|
  {
    WaitingSetStep(s, st, id);
    var e := Effect(s, st);
    assert |e| == 1 ==> Forgets(e, id) == if e[0] == OpForget(id) then 1 else 0;
  }

  lemma ForgetsOfEffect(s: Sys, st: Step, rest: seq<Op>, id: string)
    requires Sound(s) && Enabled(s, st)
    ensures Forgets(Effect(s, st) + rest, id) == Forgets(Effect(s, st), id) + Forgets(rest, id)
  {
    var e := Effect(s, st);
    if |e| == 0 {
      assert e + rest == rest;
    } else {
      assert (e + rest)[1..] == rest && e[1..] == [];
    }
  }

  /** Forget calls begun, plus those under way before, are the forgets effected plus those still under way. */
  lemma {:induction false} ForgetsConserved(s: Sys, steps: seq<Step>, id: string)
    requires Sound(s) && IsRun(s, steps)
    ensures Reads(steps, id) + |Waiting(s, id)| ==
            Forgets(Linearize(s, steps), id) + |Waiting(After(s, steps), id)|
    decreases |steps|
  {
    if |steps| > 0 {
      WaitingStep(s, steps[0], id);
      var r := Next(s, steps[0]);
      ForgetsConserved(r, steps[1..], id);
      ForgetsOfEffect(s, steps[0], Linearize(r, steps[1..]), id);
    }
  }
}
