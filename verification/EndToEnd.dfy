/** How the store, DHCP, TFTP, HTTP, ARP and the API work together. */
module EndToEnd {
  import opened Wrappers
  import opened Net
  import opened Manifests
  import opened StoreModel
  import opened StoreLog
  import opened StoreSteps
  import opened Dhcp
  import opened FrontEnds
  import opened Static
  import Arp
  import FilePath
  import HardwareAddr
  import HostPaths

  // ----- the address handed out leads back to the manifest

  /** A source address as a server may see it: the offered IPv4 address in either form. */
  predicate IsOffered(raddr: IP, yiaddr: IP) {
    IsIPv4(yiaddr) && IsValid(raddr) && Equal(raddr, To4(yiaddr))
  }

  /** In an agreeing store, the client found by MAC is found again by the address it was offered. */
  lemma OfferLeadsBack(h: Host, s: Store, req: Packet, reply: Reply, raddr: IP)
    requires Agrees(s) && Answer(h, s, req) == Some(reply)
    requires IsOffered(raddr, reply.yiaddr)
    ensures FindByIP(s, raddr) == FindByMAC(s, req.chaddr)
  {
    var a := FindByMAC(s, req.chaddr).value;
    var m := s.heap[a];
    assert Find(s, m.id) == Some(a);
    assert ByIP(IPKey(m)) in Keys(m);
    assert Lookup(s, ByIP(IPKey(m))) == Some(a);
    var ip := m.ipv4.ip.value;
    WireFormKeepsKey(ip);
    KeysMatchAddresses(raddr, To4(ip));
  }

  /**
   A client that is not yet iPXE, of an unsuspended iPXE manifest, is offered a bundled loader, and
   TFTP and HTTP serve that loader to the address it was given.
   */
  lemma LoaderIsServed(h: Host, s: Store, req: Packet, reply: Reply, raddr: IP, root: string)
    requires Agrees(s) && Answer(h, s, req) == Some(reply)
    requires IsOffered(raddr, reply.yiaddr)
    requires var m := s.heap[FindByMAC(s, req.chaddr).value]; m.ipxe && !m.suspended
    requires BOOT_FILE in req.requested && req.userClass != IPXE
    ensures FindByIP(s, raddr).Some?
    ensures var m := s.heap[FindByIP(s, raddr).value];
            var name := BootFile(req, m);
            && Get(reply.options, BOOT_FILE) == Some(Text(name))
            && name in BUNDLE
            && TftpSource(m, root, name) == Bundled(name)
            && HttpSource(m, root, "/" + name) == Bundled(name)
  {
    OfferLeadsBack(h, s, req, reply, raddr);
    OffersBootFile(h, s, req);
    LoaderIsBundled(req, s.heap[FindByMAC(s, req.chaddr).value], root);
  }

  lemma LoaderIsBundled(req: Packet, m: Manifest, root: string)
    requires m.ipxe && req.userClass != IPXE
    ensures BootFile(req, m) in BUNDLE
    ensures TftpSource(m, root, BootFile(req, m)) == Bundled(BootFile(req, m))
    ensures HttpSource(m, root, "/" + BootFile(req, m)) == Bundled(BootFile(req, m))
  {
    BundleServedByBoth(m, root, BootFile(req, m));
  }

  /** The same in every state of every disciplined run, under any interleaving. */
  lemma DisciplinedOfferLeadsBack(steps: seq<Step>, s: Store, h: Host, req: Packet, reply: Reply, raddr: IP)
    requires IsRun(INIT, steps) && AllCompatible(PutsOf(steps)) && s == After(INIT, steps).store
    requires Answer(h, s, req) == Some(reply) && IsOffered(raddr, reply.yiaddr)
    ensures FindByIP(s, raddr) == FindByMAC(s, req.chaddr)
  {
    DisciplinedFromStart(steps);
    OfferLeadsBack(h, s, req, reply, raddr);
  }

  // ----- suspending by address

  /** In an agreeing store the manifest found by IP is found by each of its MACs, before and after suspension. */
  lemma FoundByEachMAC(s: Store, ip: IP, mac: HardwareAddr.MAC)
    requires Agrees(s) && FindByIP(s, ip).Some? && mac in s.heap[FindByIP(s, ip).value].macs
    ensures FindByMAC(s, mac) == FindByIP(s, ip)
    ensures FindByMAC(SetSuspended(s, ip, true), mac) == FindByIP(s, ip)
  {
    var a := FindByIP(s, ip).value;
    var m := s.heap[a];
    assert Find(s, m.id) == Some(a);
    MACKeyIsOwn(m, mac);
    assert Lookup(s, ByMAC(HardwareAddr.String(mac))) == Some(a);
  }

  /**
   In an agreeing store, suspending by IP reaches every MAC of the manifest: its replies lose
   options 66 and 67 and nothing else, and every other client's replies stay as they were.
   */
  lemma SuspendReachesAllMACs(h: Host, s: Store, ip: IP, req: Packet)
    requires Agrees(s) && FindByIP(s, ip).Some?
    ensures var s', a := SetSuspended(s, ip, true), FindByIP(s, ip).value;
            && (forall mac :: mac in s.heap[a].macs ==> FindByMAC(s', mac) == Some(a))
            && Agrees(s')
            && Answer(h, s', req) ==
               if FindByMAC(s, req.chaddr) == Some(a) then WithoutBoot(Answer(h, s, req)) else Answer(h, s, req)
  {
    SetSuspendedKeepsFiled(s, ip, true);
    var a := FindByIP(s, ip).value;
    forall mac | mac in s.heap[a].macs ensures FindByMAC(SetSuspended(s, ip, true), mac) == Some(a) {
      FoundByEachMAC(s, ip, mac);
    }
    SuspendedAnswer(h, s, ip, req);
  }

  lemma SuspendedAnswer(h: Host, s: Store, ip: IP, req: Packet)
    requires Filed(s) && FindByIP(s, ip).Some?
    ensures InHeap(SetSuspended(s, ip, true))
    ensures Answer(h, SetSuspended(s, ip, true), req) ==
            if FindByMAC(s, req.chaddr) == FindByIP(s, ip) then WithoutBoot(Answer(h, s, req)) else Answer(h, s, req)
  {
    SetSuspendedKeepsFiled(s, ip, true);
    SuspendedAnswerFor(h, req, s.heap[FindByIP(s, ip).value]);
  }

  /** The step writes "not suspended" to object `a`, whenever it was looked up and wherever its address leads by now. */
  predicate Resumes(s: Sys, st: Step, a: nat)
    requires Sound(s) && Enabled(s, st)
  {
    st.WriteStep? && s.pending[st.c].a == a && !s.pending[st.c].on
  }

  predicate NeverResumed(s: Sys, steps: seq<Step>, a: nat)
    requires Sound(s) && IsRun(s, steps)
    decreases |steps|
  {
    |steps| == 0 || (!Resumes(s, steps[0], a) && NeverResumed(Next(s, steps[0]), steps[1..], a))
  }

  lemma StaysSuspendedStep(s: Sys, st: Step, a: nat)
    requires Sound(s) && Enabled(s, st) && a < |s.store.heap| && s.store.heap[a].suspended
    requires !Resumes(s, st, a)
    ensures a < |Next(s, st).store.heap| && Next(s, st).store.heap[a].suspended
  {
  }

  lemma KeyStep(s: Sys, st: Step, k: Key)
    requires Sound(s) && Enabled(s, st)
    requires st.PutStep? && Accepts(st.m) ==> k !in Keys(st.m)
    ensures Lookup(Next(s, st).store, k) == Lookup(s.store, k) || Lookup(Next(s, st).store, k) == None
  {
  }

  /** A suspended object stays so until resumed, and a key stays with it until put again or cleared. */
  lemma {:induction false} StaysSuspended(s: Sys, steps: seq<Step>, a: nat, k: Key)
    requires Sound(s) && IsRun(s, steps)
    requires a < |s.store.heap| && s.store.heap[a].suspended && (Lookup(s.store, k) == None || Lookup(s.store, k) == Some(a))
    requires NeverResumed(s, steps, a)
    requires forall st :: st in steps && st.PutStep? && Accepts(st.m) ==> k !in Keys(st.m)
    ensures a < |After(s, steps).store.heap| && After(s, steps).store.heap[a].suspended
    ensures Lookup(After(s, steps).store, k) == None || Lookup(After(s, steps).store, k) == Some(a)
    decreases |steps|
  {
    if |steps| > 0 {
      StaysSuspendedStep(s, steps[0], a);
      KeyStep(s, steps[0], k);
      StaysSuspended(Next(s, steps[0]), steps[1..], a, k);
    }
  }

  /** No network boot from a suspended manifest. */
  lemma SuspendedReply(h: Host, s: Store, req: Packet, a: nat)
    requires InHeap(s) && a < |s.heap| && s.heap[a].suspended
    requires FindByMAC(s, req.chaddr) == None || FindByMAC(s, req.chaddr) == Some(a)
    ensures var r := Answer(h, s, req);
            r.Some? ==> TFTP_SERVER !in r.value.options && BOOT_FILE !in r.value.options
  {
    if Answer(h, s, req).Some? {
      var local := IPv4ForInterface(h, AnswerIndex(h)).value;
      var t := ReplyType(req.messageType).value;
      assert OptionFor(TFTP_SERVER, t, local, req, s.heap[a]) == None;
      assert OptionFor(BOOT_FILE, t, local, req, s.heap[a]) == None;
    }
  }

  lemma PutsAvoidKey(steps: seq<Step>, mac: HardwareAddr.MAC)
    requires forall st :: st in steps && st.PutStep? && Accepts(st.m) ==> mac !in st.m.macs
    ensures forall st :: st in steps && st.PutStep? && Accepts(st.m) ==> ByMAC(HardwareAddr.String(mac)) !in Keys(st.m)
  {
    forall st | st in steps && st.PutStep? && Accepts(st.m) ensures ByMAC(HardwareAddr.String(mac)) !in Keys(st.m) {
      MACKeyIsOwn(st.m, mac);
    }
  }

  /**
   Once a suspension has written, with its IP still leading to the object it looked up, replies to
   a MAC of that manifest carry neither option 66 nor 67, whatever any clients do concurrently, as
   long as no unsuspension writes to the object and the MAC is not put again.
   */
  lemma SuspendedUntilResumedOrReplaced(s: Sys, s1: Sys, c: Client, steps: seq<Step>, h: Host, req: Packet)
    requires Sound(s) && Agrees(s.store) && Enabled(s, WriteStep(c)) && s1 == Next(s, WriteStep(c))
    requires var w := s.pending[c];
             w.on && FindByIP(s.store, w.ip) == Some(w.a) && req.chaddr in s.store.heap[w.a].macs
    requires IsRun(s1, steps) && NeverResumed(s1, steps, s.pending[c].a)
    requires forall st :: st in steps && st.PutStep? && Accepts(st.m) ==> req.chaddr !in st.m.macs
    ensures var r := Answer(h, After(s1, steps).store, req);
            r.Some? ==> TFTP_SERVER !in r.value.options && BOOT_FILE !in r.value.options
  {
    var w := s.pending[c];
    var k := ByMAC(HardwareAddr.String(req.chaddr));
    FoundByEachMAC(s.store, w.ip, req.chaddr);
    PutsAvoidKey(steps, req.chaddr);
    StaysSuspended(s1, steps, w.a, k);
    SuspendedReply(h, After(s1, steps).store, req, w.a);
  }

  /** Since printing is injective, a manifest has the key of a MAC only if it lists that MAC. */
  lemma MACKeyIsOwn(m: Manifest, mac: HardwareAddr.MAC)
    ensures ByMAC(HardwareAddr.String(mac)) in Keys(m) <==> mac in m.macs
  {
    if HardwareAddr.String(mac) in MACKeys(m) {
      var a :| a in m.macs && HardwareAddr.String(a) == HardwareAddr.String(mac);
      HardwareAddr.StringInjective(a, mac);
    }
  }

  // ----- where the objects of a run come from

  lemma OriginStep(s: Sys, st: Step, a: nat)
    requires Sound(s) && Enabled(s, st) && a < |Next(s, st).store.heap|
    ensures if a < |s.store.heap| then SameButSuspended(Next(s, st).store.heap[a], s.store.heap[a])
            else st.PutStep? && Next(s, st).store.heap[a] == st.m
  {
  }

  /** Every object of a run is, but for its suspension, an earlier object or a manifest that was put. */
  lemma {:induction false} Origin(s: Sys, steps: seq<Step>, a: nat) returns (m: Manifest)
    requires Sound(s) && IsRun(s, steps) && a < |After(s, steps).store.heap|
    ensures SameButSuspended(After(s, steps).store.heap[a], m)
    ensures m in s.store.heap || PutStep(m) in steps
    decreases |steps|
  {
    if |steps| == 0 {
      m := s.store.heap[a];
    } else {
      var r := Next(s, steps[0]);
      m := Origin(r, steps[1..], a);
      if m in r.store.heap {
        var b :| 0 <= b < |r.store.heap| && r.store.heap[b] == m;
        OriginStep(s, steps[0], b);
        if b < |s.store.heap| {
          SameTransitive(After(s, steps).store.heap[a], m, s.store.heap[b]);
          m := s.store.heap[b];
        }
      }
    }
  }

  /** From the empty store, every object is one that was put. */
  lemma OriginFromStart(steps: seq<Step>, s: Store, a: nat) returns (m: Manifest)
    requires IsRun(INIT, steps) && s == After(INIT, steps).store && a < |s.heap|
    ensures PutStep(m) in steps && SameButSuspended(s.heap[a], m)
  {
    m := Origin(INIT, steps, a);
  }

  // ----- absolute host paths

  /** Every put of the run passed the loaders, as all puts of the directory loader and of the API do. */
  predicate PutsAreLoaded(steps: seq<Step>, root: string) {
    forall st :: st in steps && st.PutStep? ==> HostPaths.Load(Ok(st.m), root).Ok?
  }

  /** With an empty or absolute root, every host path any request can lead to, in any state of any such run, is absolute. */
  lemma HostPathsAreAbsolute(steps: seq<Step>, root: string, a: nat, mt: Mount, request: string)
    requires root == "" || FilePath.IsAbs(root)
    requires IsRun(INIT, steps) && PutsAreLoaded(steps, root)
    requires a < |After(INIT, steps).store.heap|
    requires mt in After(INIT, steps).store.heap[a].mounts && mt.localDir != ""
    ensures FilePath.IsAbs(HostPaths.HostPath(mt, root, request))
  {
    var m := OriginFromStart(steps, After(INIT, steps).store, a);
    HostPaths.LoadedIsAbsolute(Ok(m), root);
    assert mt in m.mounts;
  }

  // ----- the ARP field

  predicate PutsHaveTextMACs(steps: seq<Step>) {
    forall st, mac :: st in steps && st.PutStep? && mac in st.m.macs ==> HardwareAddr.IsTextLoaded(mac)
  }

  /** What a MAC lookup matched is a MAC some put listed. */
  lemma LookupMatchesPutMAC(steps: seq<Step>, s: Store, mac: HardwareAddr.MAC) returns (m: Manifest)
    requires IsRun(INIT, steps) && s == After(INIT, steps).store
    requires FindByMAC(s, mac).Some?
    ensures PutStep(m) in steps && HardwareAddr.String(mac) in MACKeys(m)
  {
    var a := FindByMAC(s, mac).value;
    m := OriginFromStart(steps, s, a);
    FiledUnderOrigin(s, HardwareAddr.String(mac), a, m);
  }

  lemma FiledUnderOrigin(s: Store, t: string, a: nat, m: Manifest)
    requires Filed(s) && Lookup(s, ByMAC(t)) == Some(a) && SameButSuspended(s.heap[a], m)
    ensures t in MACKeys(m)
  {
    SameKeys(s.heap[a], m);
    assert ByMAC(t) in Keys(m);
  }

  /**
   In every state of every run whose MACs came from text, a client the server answers has an
   address of at most eight bytes, so the ARP loop stays inside its field.
   */
  lemma AnsweredClientFitsArp(steps: seq<Step>, s: Store, h: Host, req: Packet)
    requires IsRun(INIT, steps) && PutsHaveTextMACs(steps) && s == After(INIT, steps).store
    requires |req.chaddr| <= Arp.CHADDR_MAX && Answer(h, s, req).Some?
    ensures |req.chaddr| <= 8 && |req.chaddr| <= Arp.FIELD
  {
    var m := LookupMatchesPutMAC(steps, s, req.chaddr);
    var stored :| stored in m.macs && HardwareAddr.String(stored) == HardwareAddr.String(req.chaddr);
    assert PutStep(m) in steps;
    Arp.MatchedAddressFits(stored, req.chaddr);
  }
}
