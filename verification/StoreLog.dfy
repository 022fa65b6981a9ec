/** Sequential histories of the store, and the lookups read off the history itself. */
module StoreLog {
  import opened Wrappers
  import opened Net
  import opened Manifests
  import opened StoreModel

  /** The store's calls, and a bare write to one object's suspension. */
  datatype Op = OpPut(m: Manifest) | OpForget(id: string) | OpSuspend(ip: IP, on: bool) | OpWrite(a: nat, on: bool)

  function Apply(s: Store, op: Op): (r: Store)
    requires Filed(s)
    ensures Filed(r)
  {
    match op
    case OpPut(m) => PutKeepsFiled(s, m); Put(s, m)
    case OpForget(id) =>
      (if id in s.manifests then DeleteKeepsFiled(s, s.heap[s.manifests[id]]); Forget(s, id) else s)
    case OpSuspend(ip, on) => SetSuspendedKeepsFiled(s, ip, on); SetSuspended(s, ip, on)
    case OpWrite(a, on) => WriteFlagKeepsFiled(s, a, on); WriteFlag(s, a, on)
  }

  function Run(s: Store, ops: seq<Op>): (r: Store)
    requires Filed(s)
    ensures Filed(r)
  {
    if |ops| == 0 then s else Apply(Run(s, ops[..|ops| - 1]), ops[|ops| - 1])
  }

  lemma {:induction false} RunConcat(s: Store, a: seq<Op>, b: seq<Op>)
    requires Filed(s)
    ensures Run(s, a + b) == Run(Run(s, a), b)
  {
    if |b| == 0 {
      assert a + b == a;
    } else {
      var n := |b| - 1;
      assert (a + b)[..|a + b| - 1] == a + b[..n];
      RunConcat(s, a, b[..n]);
    }
  }

  // ----- reading the history

  predicate IsPut(op: Op) { op.OpPut? && Accepts(op.m) }

  /** How many objects a history allocates. */
  function Puts(ops: seq<Op>): (n: nat) {
    if |ops| == 0 then 0
    else Puts(ops[..|ops| - 1]) + (if IsPut(ops[|ops| - 1]) then 1 else 0)
  }

  /** The position of the put that `id` currently names: its last accepted put, unless forgotten since. */
  function LivePut(ops: seq<Op>, id: string): (r: Option<nat>)
    ensures r.Some? ==> r.value < |ops| && IsPut(ops[r.value]) && ops[r.value].m.id == id
  {
    if |ops| == 0 then None
    else
      var n := |ops| - 1;
      if IsPut(ops[n]) && ops[n].m.id == id then Some(n)
      else if ops[n] == OpForget(id) then None
      else LivePut(ops[..n], id)
  }

  /** Whether `op`, coming after `past`, writes or clears key `k`. */
  predicate Touches(past: seq<Op>, op: Op, k: Key) {
    match op
    case OpPut(m) => Accepts(m) && k in Keys(m)
    case OpForget(id) => LivePut(past, id).Some? && k in Keys(past[LivePut(past, id).value].m)
    case _ => false
  }

  /** The position of the last operation that touched `k`. */
  function LastTouch(ops: seq<Op>, k: Key): (r: Option<nat>)
    ensures r.Some? ==> r.value < |ops| && Touches(ops[..r.value], ops[r.value], k)
    ensures forall i :: 0 <= i < |ops| && (r.Some? ==> r.value < i) ==> !Touches(ops[..i], ops[i], k)
  {
    if |ops| == 0 then None
    else
      var n := |ops| - 1;
      var pre := ops[..n];
      var r := LastTouch(pre, k);
      assert forall i :: 0 <= i < n ==> pre[..i] == ops[..i];
      if Touches(pre, ops[n], k) then Some(n) else r
  }

  predicate SameButSuspended(a: Manifest, b: Manifest) {
    a.(suspended := b.suspended) == b
  }

  lemma SameKeys(a: Manifest, b: Manifest)
    requires SameButSuspended(a, b)
    ensures Keys(a) == Keys(b) && a.id == b.id
  {
    SuspendingKeepsKeys(a, b.suspended);
  }

  lemma SameTransitive(a: Manifest, b: Manifest, c: Manifest)
    requires SameButSuspended(a, b) && SameButSuspended(b, c)
    ensures SameButSuspended(a, c)
  {
  }

  // ----- the store is its history

  lemma HeapStep(s: Store, op: Op)
    requires Filed(s)
    ensures |Apply(s, op).heap| == |s.heap| + if IsPut(op) then 1 else 0
    ensures IsPut(op) ==> Apply(s, op).heap[|s.heap|] == op.m
  {
  }

  lemma WrittenObject(s: Store, a: nat, on: bool, b: nat)
    requires b < |s.heap|
    ensures b < |WriteFlag(s, a, on).heap| && SameButSuspended(WriteFlag(s, a, on).heap[b], s.heap[b])
  {
  }

  lemma ObjectStep(s: Store, op: Op, a: nat)
    requires Filed(s) && a < |s.heap|
    ensures a < |Apply(s, op).heap| && SameButSuspended(Apply(s, op).heap[a], s.heap[a])
  {
    match op
    case OpSuspend(ip, on) =>
      if FindByIP(s, ip).Some? {
        WrittenObject(s, FindByIP(s, ip).value, on, a);
      }
    case OpWrite(b, on) => WrittenObject(s, b, on, a);
    case _ =>
  }

  lemma {:induction false} HeapSize(ops: seq<Op>)
    ensures |Run(EMPTY, ops).heap| == Puts(ops)
  {
    if |ops| > 0 {
      var pre := ops[..|ops| - 1];
      HeapSize(pre);
      HeapStep(Run(EMPTY, pre), ops[|ops| - 1]);
    }
  }

  /** The i-th operation, when it is an accepted put, allocated the object at `Puts(ops[..i])`. */
  lemma {:induction false} HeapIsLog(ops: seq<Op>, i: nat)
    requires i < |ops| && IsPut(ops[i])
    ensures Puts(ops[..i]) < |Run(EMPTY, ops).heap|
    ensures SameButSuspended(Run(EMPTY, ops).heap[Puts(ops[..i])], ops[i].m)
    decreases |ops|
  {
    var n := |ops| - 1;
    var pre, op := ops[..n], ops[n];
    var s := Run(EMPTY, pre);
    HeapSize(pre);
    assert Run(EMPTY, ops) == Apply(s, op);
    if i == n {
      HeapStep(s, op);
    } else {
      assert pre[..i] == ops[..i];
      HeapIsLog(pre, i);
      var at := Puts(ops[..i]);
      ObjectStep(s, op, at);
      SameTransitive(Apply(s, op).heap[at], s.heap[at], ops[i].m);
    }
  }

  lemma FindStep(s: Store, op: Op, id: string)
    requires Filed(s)
    ensures Find(Apply(s, op), id) ==
            if IsPut(op) && op.m.id == id then Some(|s.heap|)
            else if op == OpForget(id) then None
            else Find(s, id)
  {
  }

  /** The ID map holds, for each name, the last accepted put of it that was not forgotten since. */
  lemma {:induction false} FindIsLivePut(ops: seq<Op>, id: string)
    ensures Find(Run(EMPTY, ops), id) == Allocated(ops, LivePut(ops, id))
  {
    if |ops| > 0 {
      var n := |ops| - 1;
      var pre, op := ops[..n], ops[n];
      FindIsLivePut(pre, id);
      AllocatedInPrefix(ops, LivePut(pre, id));
      HeapSize(pre);
      FindStep(Run(EMPTY, pre), op, id);
    }
  }

  /** The address of the object allocated at a log position, if that position is a put. */
  function Allocated(ops: seq<Op>, at: Option<nat>): (r: Option<nat>)
    requires at.Some? ==> at.value < |ops|
  {
    if at.Some? && ops[at.value].OpPut? then Some(Puts(ops[..at.value])) else None
  }

  lemma AllocatedInPrefix(ops: seq<Op>, at: Option<nat>)
    requires |ops| > 0 && (at.Some? ==> at.value < |ops| - 1)
    ensures Allocated(ops[..|ops| - 1], at) == Allocated(ops, at)
  {
    if at.Some? {
      assert ops[..|ops| - 1][..at.value] == ops[..at.value];
    }
  }

  /**
   A lookup by IP or MAC gives the object allocated by the last operation that touched the key
   if that was a put, and nothing if it was a forget or there was none.
   */
  lemma {:induction false} LookupIsLastTouch(ops: seq<Op>, k: Key)
    ensures Lookup(Run(EMPTY, ops), k) == Allocated(ops, LastTouch(ops, k))
  {
    if |ops| > 0 {
      var n := |ops| - 1;
      var pre, op := ops[..n], ops[n];
      LookupIsLastTouch(pre, k);
      AllocatedInPrefix(ops, LastTouch(pre, k));
      LookupStep(pre, op, k);
      LastTouchStep(ops, k);
    }
  }

  lemma LastTouchStep(ops: seq<Op>, k: Key)
    requires |ops| > 0
    ensures var n := |ops| - 1;
            LastTouch(ops, k) == if Touches(ops[..n], ops[n], k) then Some(n) else LastTouch(ops[..n], k)
  {
  }

  lemma LookupStep(pre: seq<Op>, op: Op, k: Key)
    ensures Lookup(Apply(Run(EMPTY, pre), op), k) ==
            if !Touches(pre, op, k) then Lookup(Run(EMPTY, pre), k)
            else if op.OpPut? then Some(Puts(pre)) else None
  {
    var s := Run(EMPTY, pre);
    match op
    case OpPut(m) =>
      HeapSize(pre);
    case OpForget(id) =>
      FindIsLivePut(pre, id);
      if LivePut(pre, id).Some? {
        var j := LivePut(pre, id).value;
        HeapIsLog(pre, j);
        SameKeys(s.heap[s.manifests[id]], pre[j].m);
      }
    case _ =>
  }

  // ----- the suspension of an object, read off the history

  /** Whether `op`, coming after `past`, sets the suspension of the object at `at`: its put does, and every write that hits it. */
  predicate SetsFlag(past: seq<Op>, op: Op, at: nat) {
    match op
    case OpPut(m) => Accepts(m) && Puts(past) == at
    case OpForget(_) => false
    case OpSuspend(ip, _) => Allocated(past, LastTouch(past, ByIP(Net.Key(ip)))) == Some(at)
    case OpWrite(a, _) => a == at && at < Puts(past)
  }

  /** What it sets it to. */
  function FlagOf(op: Op): (on: bool)
    requires !op.OpForget?
  {
    match op
    case OpPut(m) => m.suspended
    case OpSuspend(_, on) => on
    case OpWrite(_, on) => on
  }

  /** The position of the last operation that set the suspension of the object at `at`. */
  function LastFlag(ops: seq<Op>, at: nat): (r: Option<nat>)
    ensures r.Some? ==> r.value < |ops| && SetsFlag(ops[..r.value], ops[r.value], at)
    ensures forall i :: 0 <= i < |ops| && (r.Some? ==> r.value < i) ==> !SetsFlag(ops[..i], ops[i], at)
  {
    if |ops| == 0 then None
    else
      var n := |ops| - 1;
      var pre := ops[..n];
      var r := LastFlag(pre, at);
      assert forall i :: 0 <= i < n ==> pre[..i] == ops[..i];
      if SetsFlag(pre, ops[n], at) then Some(n) else r
  }

  /** Whether `op`, run on `s`, sets the suspension of the object at `at`. */
  predicate Hits(s: Store, op: Op, at: nat) {
    match op
    case OpPut(m) => Accepts(m) && |s.heap| == at
    case OpForget(_) => false
    case OpSuspend(ip, _) => FindByIP(s, ip) == Some(at)
    case OpWrite(a, _) => a == at && at < |s.heap|
  }

  lemma HitStep(s: Store, op: Op, at: nat)
    requires Filed(s) && at < |Apply(s, op).heap|
    ensures at < |s.heap| || Hits(s, op, at)
    ensures Apply(s, op).heap[at].suspended == if Hits(s, op, at) then FlagOf(op) else s.heap[at].suspended
  {
  }

  lemma FlagStep(pre: seq<Op>, op: Op, at: nat)
    requires at < |Apply(Run(EMPTY, pre), op).heap|
    ensures at < |Run(EMPTY, pre).heap| || SetsFlag(pre, op, at)
    ensures Apply(Run(EMPTY, pre), op).heap[at].suspended ==
            if SetsFlag(pre, op, at) then FlagOf(op) else Run(EMPTY, pre).heap[at].suspended
  {
    HitStep(Run(EMPTY, pre), op, at);
    HeapSize(pre);
    if op.OpSuspend? {
      LookupIsLastTouch(pre, ByIP(Net.Key(op.ip)));
    }
    assert SetsFlag(pre, op, at) <==> Hits(Run(EMPTY, pre), op, at);
  }

  lemma LastFlagStep(ops: seq<Op>, at: nat)
    requires |ops| > 0
    ensures var n := |ops| - 1;
            LastFlag(ops, at) == if SetsFlag(ops[..n], ops[n], at) then Some(n) else LastFlag(ops[..n], at)
  {
  }

  /** Every object has the suspension that the last operation to set it gave it. */
  lemma {:induction false} FlagIsLastSet(ops: seq<Op>, at: nat)
    requires at < |Run(EMPTY, ops).heap|
    ensures LastFlag(ops, at).Some?
    ensures Run(EMPTY, ops).heap[at].suspended == FlagOf(ops[LastFlag(ops, at).value])
  {
    var n := |ops| - 1;
    FlagStep(ops[..n], ops[n], at);
    LastFlagStep(ops, at);
    if !SetsFlag(ops[..n], ops[n], at) {
      FlagIsLastSet(ops[..n], at);
    }
  }

  /** The manifest found is the one that was put, with the suspension last set. */
  lemma FoundIsWhatWasPut(ops: seq<Op>, k: Key)
    requires Lookup(Run(EMPTY, ops), k).Some?
    ensures var i, a := LastTouch(ops, k), Lookup(Run(EMPTY, ops), k).value;
            var f := LastFlag(ops, a);
            && i.Some? && IsPut(ops[i.value]) && f.Some? && i.value <= f.value
            && Run(EMPTY, ops).heap[a] == ops[i.value].m.(suspended := FlagOf(ops[f.value]))
  {
    var i, a := LastTouch(ops, k), Lookup(Run(EMPTY, ops), k).value;
    LookupIsLastTouch(ops, k);
    HeapIsLog(ops, i.value);
    FlagIsLastSet(ops, a);
    assert SetsFlag(ops[..i.value], ops[i.value], a);
  }
}
