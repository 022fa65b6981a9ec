/** Network boots as sequences of DHCP exchanges (dhcpd/handler.go, README.md). */
module BootRun {
  import opened Wrappers
  import opened Manifests
  import opened Dhcp
  import opened Static
  import StoreModel

  /** One exchange: the host and store that answered, and the request. */
  datatype Exchange = Exchange(host: Host, store: StoreModel.Store, req: Packet)

  /** The exchange is answered from manifest `m`, and the client asked for a boot file. */
  predicate AnsweredFrom(x: Exchange, m: Manifest) {
    && StoreModel.InHeap(x.store)
    && Handle(x.host, x.store, x.req).Some?
    && x.store.heap[StoreModel.FindByMAC(x.store, x.req.chaddr).value] == m
    && BOOT_FILE in x.req.requested
  }

  /** The boot file the client receives, if any. */
  function Received(x: Exchange): (r: Option<OptionValue>)
    requires StoreModel.InHeap(x.store)
  {
    match Handle(x.host, x.store, x.req)
    case None => None
    case Some(sent) => Get(sent.reply.options, BOOT_FILE)
  }

  lemma ReceivesBootFile(x: Exchange, m: Manifest)
    requires AnsweredFrom(x, m) && !m.suspended
    ensures Received(x) == Some(Text(BootFile(x.req, m)))
  {
    OffersBootFile(x.host, x.store, x.req);
  }

  predicate GotBundled(x: Exchange)
    requires StoreModel.InHeap(x.store)
  {
    Received(x).Some? && Received(x).value.Text? && Received(x).value.s in BUNDLE
  }

  /** After a bundled loader the client is iPXE when it asks again. */
  predicate Continues(x: Exchange, y: Exchange) {
    StoreModel.InHeap(x.store) && GotBundled(x) && y.req.userClass == IPXE
  }

  /** A boot: every exchange is answered from `m`, and there is a next one only after a bundled loader. */
  predicate IsBoot(m: Manifest, run: seq<Exchange>) {
    && |run| >= 1
    && (forall i :: 0 <= i < |run| ==> AnsweredFrom(run[i], m))
    && (forall i, j :: 0 <= i < |run| && 0 <= j < |run| && j == i + 1 ==> Continues(run[i], run[j]))
  }

  /** How many more loaders the client can still be given. */
  function Remaining(x: Exchange): (n: nat) {
    if x.req.userClass == IPXE then 0 else 1
  }

  /** The next exchange of a boot always has less left to load. */
  lemma BootMakesProgress(m: Manifest, run: seq<Exchange>, i: nat)
    requires m.ipxe && !m.suspended && m.bootFilename !in BUNDLE
    requires IsBoot(m, run) && i + 1 < |run|
    ensures Remaining(run[i + 1]) < Remaining(run[i])
  {
    var j := i + 1;
    assert AnsweredFrom(run[i], m);
    assert Continues(run[i], run[j]);
    ReceivesBootFile(run[i], m);
  }

  /** A boot loads a bundled loader at most once, and what it gets otherwise is BootFilename. */
  lemma BootEnds(m: Manifest, run: seq<Exchange>)
    requires m.ipxe && !m.suspended && m.bootFilename !in BUNDLE
    requires IsBoot(m, run)
    ensures |run| <= 2
    ensures |run| == 2 ==> Continues(run[0], run[1]) && Received(run[1]) == Some(Text(m.bootFilename))
    ensures !GotBundled(run[|run| - 1]) ==> Received(run[|run| - 1]) == Some(Text(m.bootFilename))
  {
    if |run| >= 3 {
      BootMakesProgress(m, run, 0);
      BootMakesProgress(m, run, 1);
      assert false;
    }
    var last := run[|run| - 1];
    ReceivesBootFile(last, m);
    BootFileIsBundledOrOwn(last.req, m);
  }

  lemma BootFileIsBundledOrOwn(req: Packet, m: Manifest)
    ensures BootFile(req, m) == m.bootFilename || BootFile(req, m) in BUNDLE
    ensures m.ipxe && req.userClass != IPXE ==> BootFile(req, m) in BUNDLE
  {
  }

  /**
   For an iPXE manifest, no boot ever exceeds two exchanges exactly when BootFilename is not itself
   a bundled name: otherwise the client that iPXE has become is given a loader again, without end.
   */
  lemma BootsEndIff(m: Manifest, x: Exchange)
    requires m.ipxe && !m.suspended
    requires AnsweredFrom(x, m) && x.req.userClass == IPXE
    ensures (forall run :: IsBoot(m, run) ==> |run| <= 2) <==> m.bootFilename !in BUNDLE
  {
    if m.bootFilename !in BUNDLE {
      forall run | IsBoot(m, run) ensures |run| <= 2 {
        BootEnds(m, run);
      }
    } else {
      BootLoops(m, x, 3);
    }
  }

  lemma BootLoops(m: Manifest, x: Exchange, n: nat)
    requires m.ipxe && !m.suspended && m.bootFilename in BUNDLE && n >= 1
    requires AnsweredFrom(x, m) && x.req.userClass == IPXE
    ensures IsBoot(m, seq(n, _ => x)) && |seq(n, _ => x)| == n
  {
    var run := seq(n, _ => x);
    ReceivesBootFile(x, m);
    assert Continues(x, x);
    assert forall i :: 0 <= i < n ==> run[i] == x;
  }
}
