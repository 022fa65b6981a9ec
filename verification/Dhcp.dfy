/**
 The DHCP reply (dhcpd/handler.go): whether to answer, with what, where to, and through which
 interface. Packet parsing and printing, and what the library copies from request to reply,
 are outside the model.
 */
module Dhcp {
  import opened Wrappers
  import opened Net
  import opened Manifests
  import opened Static
  import HardwareAddr
  import IPText
  import IPWithNet
  import StoreModel
  import ManifestStore

  type IP4 = ip: IP | |ip| == 4 witness [0, 0, 0, 0]

  datatype MessageType = Discover | Offer | Request | Decline | Ack | Nak | Release | Inform | Other

  const BOOTREQUEST: nat := 1

  /**
   The parts of a request the handler reads, and `serverId`, its option 54, which it does not.
   Header addresses are four octets.
   */
  datatype Packet = Packet(
    opcode: nat,
    messageType: MessageType,
    chaddr: HardwareAddr.MAC,
    siaddr: IP4,
    giaddr: IP4,
    ciaddr: IP4,
    serverId: Option<IP4>,
    broadcast: bool,
    requested: set<nat>,
    userClass: seq<string>,
    clientArch: seq<nat>,
    classIdentifier: string)

  datatype OptionValue =
    | Kind(t: MessageType)
    | Address(ip: IP)
    | Mask(m: seq<byte>)
    | Duration(d: int)
    | Text(s: string)
    | Addresses(ips: seq<IP>)
    | Number(n: int)

  datatype Reply = Reply(messageType: MessageType, siaddr: IP, yiaddr: IP, options: map<nat, OptionValue>)

  datatype Peer = Peer(ip: IP, port: nat)

  /** What is written to the socket; `outgoing` is the interface named in the control message. */
  datatype Sent = Sent(reply: Reply, peer: Peer, outgoing: Option<int>)

  // Option codes of RFC 2132, and iPXE's own
  const SUBNET_MASK: nat := 1
  const ROUTER: nat := 3
  const DNS: nat := 6
  const HOST_NAME: nat := 12
  const BOOT_FILE_SIZE: nat := 13
  const NTP: nat := 42
  const LEASE_TIME: nat := 51
  const MESSAGE_TYPE: nat := 53
  const SERVER_ID: nat := 54
  const TFTP_SERVER: nat := 66
  const BOOT_FILE: nat := 67
  const NO_PXEDHCP: nat := 176

  const SERVER_PORT: nat := 67
  const CLIENT_PORT: nat := 68

  // ----- the host

  /** An interface address; `isNet` when the operating system gave it as an address with a mask. */
  datatype InterfaceAddr = InterfaceAddr(isNet: bool, ip: IP)

  /** `addrs` is None when the operating system fails to list the addresses. */
  datatype Interface = Interface(name: string, addrs: Option<seq<InterfaceAddr>>)

  /**
   The interface the server is bound to (index 0, no name when unbound), the interface index that
   came with the packet, the host's interfaces, and how the socket and the ARP request fare.
   */
  datatype Host = Host(
    boundIndex: int,
    boundName: string,
    arrival: Option<int>,
    interfaces: map<int, Interface>,
    socketOk: bool,
    arpOk: bool)

  function InterfaceByIndex(h: Host, i: int): (r: Option<Interface>) {
    if i > 0 && i in h.interfaces then Some(h.interfaces[i]) else None
  }

  predicate IsLoopback(ip: IP) {
    var v4 := To4(ip);
    if v4 != [] then v4[0] == 127
    else |ip| == 16 && ip[15] == 1 && forall i :: 0 <= i < 15 ==> ip[i] == 0
  }

  predicate IsUsable(a: InterfaceAddr) { a.isNet && !IsLoopback(a.ip) && IsIPv4(a.ip) }

  /** The first usable IPv4 address. */
  function FirstIPv4(addrs: seq<InterfaceAddr>): (r: Option<IP4>)
    ensures r.None? <==> forall i :: 0 <= i < |addrs| ==> !IsUsable(addrs[i])
  {
    if |addrs| == 0 then None
    else if IsUsable(addrs[0]) then Some(To4(addrs[0].ip))
    else FirstIPv4(addrs[1..])
  }

  function IPv4ForInterface(h: Host, i: int): (r: Option<IP4>) {
    match InterfaceByIndex(h, i)
    case None => None
    case Some(netif) => if netif.addrs.Some? then FirstIPv4(netif.addrs.value) else None
  }

  method GetIPv4ForInterface(h: Host, i: int) returns (r: Option<IP4>)
    ensures r == IPv4ForInterface(h, i)
  {
    var netif := InterfaceByIndex(h, i);
    if netif.None? {
      return None;
    }
    if netif.value.addrs.None? {
      return None;
    }
    var addrs := netif.value.addrs.value;
    for j := 0 to |addrs|
      invariant FirstIPv4(addrs) == FirstIPv4(addrs[j..])
    {
      if addrs[j].isNet && !IsLoopback(addrs[j].ip) {
        if To4(addrs[j].ip) != [] {
          return Some(To4(addrs[j].ip));
        }
      }
    }
    return None;
  }

  /** The interface whose address the server answers with. */
  function AnswerIndex(h: Host): (i: int) {
    if h.boundIndex == 0 && h.arrival.Some? then h.arrival.value else h.boundIndex
  }

  // ----- the contents of a reply, option by option

  const IPXE: seq<string> := ["iPXE"]

  predicate Contains(s: string, sub: string) {
    sub <= s || (s != "" && Contains(s[1..], sub))
  }

  /** The client names a first architecture other than 0, the BIOS of RFC 4578. */
  predicate IsUEFI(req: Packet) { |req.clientArch| > 0 && req.clientArch[0] > 0 }

  function BootFile(req: Packet, m: Manifest): (name: string) {
    if req.userClass == IPXE || !m.ipxe then m.bootFilename
    else if IsUEFI(req) then
      if Contains(req.classIdentifier, "PXEClient:Arch:00011") then "ipxe_arm64.efi" else "ipxe.efi"
    else "undionly.kpxe"
  }

  function ReplyType(t: MessageType): (r: Option<MessageType>) {
    match t
    case Discover => Some(Offer)
    case Request => Some(Ack)
    case _ => None
  }

  function When(c: bool, v: OptionValue): (r: Option<OptionValue>) {
    if c then Some(v) else None
  }

  /** The value of each option in the reply for manifest `m` from a server at `local`; None where it is not sent. */
  function OptionFor(code: nat, t: MessageType, local: IP4, req: Packet, m: Manifest): (r: Option<OptionValue>) {
    if code == MESSAGE_TYPE then Some(Kind(t))
    else if code == SERVER_ID then Some(Address(local))
    else if code == SUBNET_MASK then Some(Mask(m.ipv4.mask))
    else if code == LEASE_TIME then When(m.leaseDuration != 0, Duration(m.leaseDuration))
    else if code == NO_PXEDHCP then When(req.userClass == IPXE, Number(1))
    else if code !in req.requested then None
    else if code == HOST_NAME then Some(Text(m.hostname))
    else if code == DNS then Some(Addresses(m.dns))
    else if code == ROUTER then Some(Addresses(m.router))
    else if code == NTP then Some(Addresses(m.ntp))
    else if code == TFTP_SERVER then When(!m.suspended, Text(IPText.IPv4String(local)))
    else if code == BOOT_FILE then When(!m.suspended, Text(BootFile(req, m)))
    else None
  }

  const CODES: set<nat> := {SUBNET_MASK, ROUTER, DNS, HOST_NAME, NTP, LEASE_TIME, MESSAGE_TYPE, SERVER_ID,
                            TFTP_SERVER, BOOT_FILE, NO_PXEDHCP}

  function AllOptions(t: MessageType, local: IP4, req: Packet, m: Manifest): (r: map<nat, OptionValue>)
    ensures forall c :: c in r <==> OptionFor(c, t, local, req, m).Some?
    ensures forall c :: c in r ==> OptionFor(c, t, local, req, m) == Some(r[c])
  {
    map c | c in CODES && OptionFor(c, t, local, req, m).Some? :: OptionFor(c, t, local, req, m).value
  }

  /** The manifest's address, when there is one. */
  function YourIP(m: Manifest): (ip: IP) {
    if m.ipv4.ip.Some? then m.ipv4.ip.value else []
  }

  /** The request's siaddr is empty or this server's. */
  predicate IsForUs(req: Packet, local: IP4) { req.siaddr == IPV4_ZERO || req.siaddr == local }

  /** Whether and what the server answers to a client with manifest `m`. */
  function AnswerFor(h: Host, req: Packet, m: Manifest): (r: Option<Reply>) {
    match (ReplyType(req.messageType), IPv4ForInterface(h, AnswerIndex(h)))
    case (Some(t), Some(local)) =>
      if req.opcode == BOOTREQUEST && IsForUs(req, local)
      then Some(Reply(t, local, YourIP(m), AllOptions(t, local, req, m)))
      else None
    case _ => None
  }

  /** Whether and what the server answers. */
  function Answer(h: Host, s: StoreModel.Store, req: Packet): (r: Option<Reply>)
    requires StoreModel.InHeap(s)
  {
    match StoreModel.FindByMAC(s, req.chaddr)
    case None => None
    case Some(a) => AnswerFor(h, req, s.heap[a])
  }

  // ----- where a reply goes

  /** The device for the ARP request: the bound one, else the one the packet came in on. */
  function Device(h: Host): (name: string) {
    if h.boundName != "" then h.boundName
    else if h.arrival.Some? && h.arrival.value != 0 && InterfaceByIndex(h, h.arrival.value).Some?
    then InterfaceByIndex(h, h.arrival.value).value.name
    else ""
  }

  predicate CanUnicast(h: Host) { Device(h) != "" && h.socketOk && h.arpOk }

  /** The destination of section 4.1 of RFC 2131; where the client cannot be reached by unicast, broadcast. */
  function RFC2131Destination(t: MessageType, giaddr: IP4, ciaddr: IP4, broadcast: bool, yiaddr: IP, unicast: bool): (p: Peer) {
    if giaddr != IPV4_ZERO then Peer(giaddr, SERVER_PORT)
    else if t == Nak then Peer(IPV4_BCAST, CLIENT_PORT)
    else if ciaddr != IPV4_ZERO then Peer(ciaddr, CLIENT_PORT)
    else if !broadcast && unicast then Peer(yiaddr, CLIENT_PORT)
    else Peer(IPV4_BCAST, CLIENT_PORT)
  }

  predicate NeedsInterface(ip: IP) { Equal(ip, IPV4_BCAST) || IsLinkLocalUnicast(ip) }

  /** The whole handler as a function: what is sent, if anything. */
  function Handle(h: Host, s: StoreModel.Store, req: Packet): (r: Option<Sent>)
    requires StoreModel.InHeap(s)
  {
    match Answer(h, s, req)
    case None => None
    case Some(reply) =>
      var peer := RFC2131Destination(reply.messageType, req.giaddr, req.ciaddr, req.broadcast, reply.yiaddr, CanUnicast(h));
      Some(Sent(reply, peer, if NeedsInterface(peer.ip) then Some(AnswerIndex(h)) else None))
  }

  // ----- the handler

  method StringSlicesEqual(a: seq<string>, b: seq<string>) returns (r: bool)
    ensures r <==> a == b
  {
    if |a| != |b| {
      return false;
    }
    for i := 0 to |a|
      invariant a[..i] == b[..i]
    {
      if a[i] != b[i] {
        return false;
      }
    }
    assert a == a[..|a|] && b == b[..|b|];
    return true;
  }

  function Get(options: map<nat, OptionValue>, c: nat): (v: Option<OptionValue>) {
    if c in options then Some(options[c]) else None
  }

  /** `options` is the reply's option table restricted to `codes`. */
  ghost predicate Holds(options: map<nat, OptionValue>, codes: set<nat>, t: MessageType, local: IP4, req: Packet, m: Manifest) {
    forall c {:trigger Get(options, c)} ::
      Get(options, c) == if c in codes then OptionFor(c, t, local, req, m) else None
  }

  lemma HoldsStep(options: map<nat, OptionValue>, options': map<nat, OptionValue>, codes: set<nat>, c: nat,
                  t: MessageType, local: IP4, req: Packet, m: Manifest)
    requires Holds(options, codes, t, local, req, m) && c !in codes
    requires options' == match OptionFor(c, t, local, req, m) case None => options case Some(v) => options[c := v]
    ensures Holds(options', codes + {c}, t, local, req, m)
  {
    forall d
      ensures Get(options', d) == if d in codes + {c} then OptionFor(d, t, local, req, m) else None
    {
      assert Get(options, d) == if d in codes then OptionFor(d, t, local, req, m) else None;
    }
  }

  const FIXED_CODES: set<nat> := {MESSAGE_TYPE, SERVER_ID, SUBNET_MASK, LEASE_TIME}
  const NETWORK_CODES: set<nat> := FIXED_CODES + {HOST_NAME, DNS, ROUTER, NTP}

  /** The handler's options up to the lease time, set one after another. */
  method FixedOptions(t: MessageType, local: IP4, req: Packet, m: Manifest) returns (options: map<nat, OptionValue>)
    requires req.opcode == BOOTREQUEST
    ensures Holds(options, FIXED_CODES, t, local, req, m)
  {
    options := map[MESSAGE_TYPE := Kind(t)];
    HoldsStep(map[], options, {}, MESSAGE_TYPE, t, local, req, m);
    ghost var codes, was := {} + {MESSAGE_TYPE}, options;
    options := options[SERVER_ID := Address(local)];
    HoldsStep(was, options, codes, SERVER_ID, t, local, req, m);
    codes, was := codes + {SERVER_ID}, options;
    options := options[SUBNET_MASK := Mask(m.ipv4.mask)];
    HoldsStep(was, options, codes, SUBNET_MASK, t, local, req, m);
    codes, was := codes + {SUBNET_MASK}, options;
    if req.opcode == BOOTREQUEST && m.leaseDuration != 0 {
      options := options[LEASE_TIME := Duration(m.leaseDuration)];
    }
    HoldsStep(was, options, codes, LEASE_TIME, t, local, req, m);
    assert codes + {LEASE_TIME} == FIXED_CODES;
  }

  /** Host name, name servers, routers and time servers, each if requested. */
  method NetworkOptions(start: map<nat, OptionValue>, t: MessageType, local: IP4, req: Packet, m: Manifest)
    returns (options: map<nat, OptionValue>)
    requires Holds(start, FIXED_CODES, t, local, req, m)
    ensures Holds(options, NETWORK_CODES, t, local, req, m)
  {
    options := start;
    ghost var codes := FIXED_CODES;
    if HOST_NAME in req.requested {
      options := options[HOST_NAME := Text(m.hostname)];
    }
    HoldsStep(start, options, codes, HOST_NAME, t, local, req, m);
    ghost var was := options;
    codes := codes + {HOST_NAME};
    if DNS in req.requested {
      options := options[DNS := Addresses(m.dns)];
    }
    HoldsStep(was, options, codes, DNS, t, local, req, m);
    codes, was := codes + {DNS}, options;
    if ROUTER in req.requested {
      options := options[ROUTER := Addresses(m.router)];
    }
    HoldsStep(was, options, codes, ROUTER, t, local, req, m);
    codes, was := codes + {ROUTER}, options;
    if NTP in req.requested {
      options := options[NTP := Addresses(m.ntp)];
    }
    HoldsStep(was, options, codes, NTP, t, local, req, m);
    assert codes + {NTP} == NETWORK_CODES;
  }

  /** The script for iPXE itself or without iPXE, else a bundled loader by client architecture. */
  method BootFileName(isIpxe: bool, req: Packet, m: Manifest) returns (name: string)
    requires isIpxe <==> req.userClass == IPXE
    ensures name == BootFile(req, m)
    ensures isIpxe || !m.ipxe ==> name == m.bootFilename
    ensures !isIpxe && m.ipxe ==> name in BUNDLE && (name == "undionly.kpxe" <==> !IsUEFI(req))
  {
    if isIpxe || !m.ipxe {
      name := m.bootFilename;
    } else if |req.clientArch| > 0 && req.clientArch[0] > 0 {
      if Contains(req.classIdentifier, "PXEClient:Arch:00011") {
        name := "ipxe_arm64.efi";
      } else {
        name := "ipxe.efi";
      }
    } else {
      name := "undionly.kpxe";
    }
  }

  /** The rest of the handler's options: network boot, and the iPXE flag. */
  method BootOptions(start: map<nat, OptionValue>, t: MessageType, local: IP4, req: Packet, m: Manifest)
    returns (options: map<nat, OptionValue>)
    requires Holds(start, NETWORK_CODES, t, local, req, m)
    ensures Holds(options, CODES, t, local, req, m)
  {
    options := start;
    ghost var codes := NETWORK_CODES;
    if TFTP_SERVER in req.requested && !m.suspended {
      options := options[TFTP_SERVER := Text(IPText.IPv4String(local))];
    }
    HoldsStep(start, options, codes, TFTP_SERVER, t, local, req, m);
    ghost var was := options;
    codes := codes + {TFTP_SERVER};
    var isIpxe := StringSlicesEqual(req.userClass, ["iPXE"]);
    var bootFileSize := 0;
    if BOOT_FILE in req.requested && !m.suspended {
      var name := BootFileName(isIpxe, req, m);
      options := options[BOOT_FILE := Text(name)];
    }
    HoldsStep(was, options, codes, BOOT_FILE, t, local, req, m);
    if BOOT_FILE_SIZE in req.requested && bootFileSize > 0 {
      options := options[BOOT_FILE_SIZE := Number(bootFileSize)];
    }
    was := options;
    codes := codes + {BOOT_FILE};
    if isIpxe {
      options := options[NO_PXEDHCP := Number(1)];
    }
    HoldsStep(was, options, codes, NO_PXEDHCP, t, local, req, m);
    assert codes + {NO_PXEDHCP} == CODES;
  }

  lemma HoldsAll(options: map<nat, OptionValue>, t: MessageType, local: IP4, req: Packet, m: Manifest)
    requires Holds(options, CODES, t, local, req, m)
    ensures options == AllOptions(t, local, req, m)
  {
    var all := AllOptions(t, local, req, m);
    forall c ensures Get(options, c) == Get(all, c) {
      if c !in CODES {
        OnlyKnownCodes(c, t, local, req, m);
      }
    }
    forall c ensures c in options <==> c in all {
      assert Get(options, c) == Get(all, c);
    }
    forall c | c in options ensures options[c] == all[c] {
      assert Get(options, c) == Get(all, c);
    }
  }

  lemma OnlyKnownCodes(c: nat, t: MessageType, local: IP4, req: Packet, m: Manifest)
    requires c !in CODES
    ensures OptionFor(c, t, local, req, m) == None
  {
  }

  /** The handler's choice of destination and outgoing interface for a reply it has built. */
  method Route(h: Host, req: Packet, resp: Reply) returns (peer: Peer, outgoing: Option<int>)
    requires resp.messageType != Nak && IPv4ForInterface(h, AnswerIndex(h)).Some?
    ensures peer == RFC2131Destination(resp.messageType, req.giaddr, req.ciaddr, req.broadcast, resp.yiaddr, CanUnicast(h))
    ensures outgoing == if NeedsInterface(peer.ip) then Some(AnswerIndex(h)) else None
    ensures GoesTo(h, req, resp.yiaddr, peer) && LeavesBy(h, peer, outgoing)
  {
    RouteInFull(h, req, resp.messageType, resp.yiaddr);
    if !IsUnspecified(req.giaddr) {
      peer := Peer(req.giaddr, SERVER_PORT);
    } else if resp.messageType == Nak {
      assert false;
      peer := Peer(IPV4_BCAST, CLIENT_PORT);
    } else if !IsUnspecified(req.ciaddr) {
      peer := Peer(req.ciaddr, CLIENT_PORT);
    } else if req.broadcast {
      peer := Peer(IPV4_BCAST, CLIENT_PORT);
    } else {
      var device := h.boundName;
      if device == "" && h.arrival.Some? && h.arrival.value != 0 {
        var netif := InterfaceByIndex(h, h.arrival.value);
        if netif.Some? {
          device := netif.value.name;
        }
      }
      var failed := !h.socketOk;
      if device != "" && !failed {
        failed := !h.arpOk;
      }
      if device != "" && !failed {
        peer := Peer(resp.yiaddr, CLIENT_PORT);
      } else {
        peer := Peer(IPV4_BCAST, CLIENT_PORT);
      }
    }

    NeedsInterfaceIff(peer.ip);
    outgoing := None;
    if Equal(peer.ip, IPV4_BCAST) || IsLinkLocalUnicast(peer.ip) {
      if h.boundIndex != 0 {
        outgoing := Some(h.boundIndex);
      } else if h.arrival.Some? && h.arrival.value != 0 {
        outgoing := Some(h.arrival.value);
      } else {
        assert false;
      }
    }
  }

  /** All options of the reply. */
  method BuildOptions(t: MessageType, local: IP4, req: Packet, m: Manifest) returns (options: map<nat, OptionValue>)
    requires req.opcode == BOOTREQUEST
    ensures options == AllOptions(t, local, req, m)
    ensures t == (if req.messageType == Discover then Offer else Ack) ==> HoldsByCode(options, local, req, m)
  {
    options := FixedOptions(t, local, req, m);
    options := NetworkOptions(options, t, local, req, m);
    options := BootOptions(options, t, local, req, m);
    HoldsAll(options, t, local, req, m);
    if t == if req.messageType == Discover then Offer else Ack {
      OptionsByCode(t, local, req, m);
    }
  }

  /** The reply for a known manifest, unless the request names another server in siaddr. */
  method ReplyFrom(t: MessageType, localIp: IP4, req: Packet, manifest: Manifest) returns (resp: Option<Reply>)
    requires req.opcode == BOOTREQUEST
    ensures resp == if IsForUs(req, localIp)
                    then Some(Reply(t, localIp, YourIP(manifest), AllOptions(t, localIp, req, manifest))) else None
  {
    if !Equal(req.siaddr, IPV4_ZERO) && !Equal(req.siaddr, localIp) {
      return None;
    }
    var options := BuildOptions(t, localIp, req, manifest);
    return Some(Reply(t, localIp, YourIP(manifest), options));
  }

  /** `HandleMsg4` up to the label `response`. */
  method Prepare(h: Host, store: ManifestStore.Store, req: Packet) returns (resp: Option<Reply>)
    requires store.Valid()
    ensures resp == Answer(h, store.model, req)
  {
    if req.opcode != BOOTREQUEST {
      return None;
    }
    var t;
    match req.messageType {
      case Discover => t := Offer;
      case Request => t := Ack;
      case Release => return None;
      case _ => return None;
    }

    var ifIndex := h.boundIndex;
    if ifIndex == 0 && h.arrival.Some? {
      ifIndex := h.arrival.value;
    }
    var found := GetIPv4ForInterface(h, ifIndex);
    if found.None? {
      return None;
    }
    var localIp := found.value;

    var e := store.FindManifestByMAC(req.chaddr);
    if e == null {
      return None;
    }
    var manifest := e.value;
    resp := ReplyFrom(t, localIp, req, manifest);
  }

  /** `HandleMsg4`; `packet` is None when the datagram does not parse. */
  method HandleMsg4(h: Host, store: ManifestStore.Store, packet: Option<Packet>) returns (out: Option<Sent>)
    requires store.Valid()
    ensures out == if packet.Some? then Handle(h, store.model, packet.value) else None
    ensures out.Some? <==> packet.Some? && IsAnswerable(h, store.model, packet.value)
    ensures out.Some? ==>
              var m := store.model.heap[StoreModel.FindByMAC(store.model, packet.value.chaddr).value];
              IsProperAnswer(h, m, packet.value, out.value)
  {
    if packet.None? {
      return None;
    }
    AnswersInFull(h, store.model, packet.value);
    if Handle(h, store.model, packet.value).Some? {
      AnswersAreProper(h, store.model, packet.value);
    }
    var resp := Prepare(h, store, packet.value);
    if resp.None? {
      return None;
    }
    var peer, outgoing := Route(h, packet.value, resp.value);
    return Some(Sent(resp.value, peer, outgoing));
  }

  // ----- when and where

  /** The server answers exactly a discover or request for a known hardware address, on a usable interface, not meant for another server. */
  lemma AnswersIff(h: Host, s: StoreModel.Store, req: Packet)
    requires StoreModel.InHeap(s)
    ensures Handle(h, s, req).Some? <==>
            && req.opcode == BOOTREQUEST
            && (req.messageType == Discover || req.messageType == Request)
            && IPv4ForInterface(h, AnswerIndex(h)).Some?
            && StoreModel.FindByMAC(s, req.chaddr).Some?
            && IsForUs(req, IPv4ForInterface(h, AnswerIndex(h)).value)
  {
  }

  // ----- option 54 of the request

  /** The request names, in option 54, a server other than this one. */
  predicate NamesOtherServer(h: Host, req: Packet) {
    req.serverId.Some? && IPv4ForInterface(h, AnswerIndex(h)) != req.serverId
  }

  lemma OnlyPutIsFound(m: Manifest, mac: HardwareAddr.MAC)
    requires StoreModel.Accepts(m) && mac in m.macs
    ensures var s := StoreModel.Put(StoreModel.EMPTY, m);
            StoreModel.Filed(s) && StoreModel.FindByMAC(s, mac) == Some(0)
  {
    StoreModel.PutKeepsFiled(StoreModel.EMPTY, m);
    assert StoreModel.ByMAC(HardwareAddr.String(mac)) in StoreModel.Keys(m);
  }

  lemma OnlyAddressAnswers(h: Host, ip: IP4)
    requires h.boundIndex == 1 && h.interfaces == map[1 := Interface("eth0", Some([InterfaceAddr(true, ip)]))]
    ensures IPv4ForInterface(h, AnswerIndex(h)) == if ip[0] != 127 then Some(ip) else None
  {
    assert [InterfaceAddr(true, ip)][1..] == [];
  }

  /** A request that names another server in option 54, with siaddr empty as RFC 2131 has it, is acknowledged. */
  lemma OtherServersRequestIsAnswered() returns (h: Host, s: StoreModel.Store, req: Packet)
    ensures StoreModel.Filed(s) && NamesOtherServer(h, req)
    ensures req.messageType == Request && req.siaddr == IPV4_ZERO && req.serverId == Some([10, 0, 0, 2])
    ensures Handle(h, s, req).Some?
  {
    var local: IP4 := [10, 0, 0, 1];
    var other: IP4 := [10, 0, 0, 2];
    assert local[3] != other[3];
    var net := IPWithNet.IPWithNet(Some([10, 0, 0, 9]), [10, 0, 0, 0], [255, 255, 255, 0]);
    var mac: HardwareAddr.MAC := [2, 0, 0, 0, 0, 1];
    var m := Manifest("machine", net, "", 0, [mac], [], [], [], false, "", [], false);
    h := Host(1, "eth0", None, map[1 := Interface("eth0", Some([InterfaceAddr(true, local)]))], true, true);
    s := StoreModel.Put(StoreModel.EMPTY, m);
    req := Packet(BOOTREQUEST, Request, mac, IPV4_ZERO, IPV4_ZERO, IPV4_ZERO, Some(other), true, {}, [], [], "");
    OnlyPutIsFound(m, mac);
    OnlyAddressAnswers(h, local);
    AnswersIff(h, s, req);
  }

  /**
   However the request is completed with the name of another server, it goes unanswered, exactly
   when its opcode, type, interface, MAC or siaddr rules an answer out already.
   */
  lemma SilentForOthersIff(h: Host, s: StoreModel.Store, req: Packet)
    requires StoreModel.InHeap(s)
    ensures (forall other: IP4 :: NamesOtherServer(h, req.(serverId := Some(other))) ==>
               Handle(h, s, req.(serverId := Some(other))) == None)
            <==>
            || req.opcode != BOOTREQUEST
            || !(req.messageType == Discover || req.messageType == Request)
            || IPv4ForInterface(h, AnswerIndex(h)).None?
            || StoreModel.FindByMAC(s, req.chaddr).None?
            || !IsForUs(req, IPv4ForInterface(h, AnswerIndex(h)).value)
  {
    AnswersIff(h, s, req);
    if Handle(h, s, req).Some? {
      var local := IPv4ForInterface(h, AnswerIndex(h)).value;
      var other: IP4 := if local == IPV4_ZERO then IPV4_BCAST else IPV4_ZERO;
      var renamed := req.(serverId := Some(other));
      assert NamesOtherServer(h, renamed);
      AnswersIff(h, s, renamed);
    } else {
      forall other: IP4 | NamesOtherServer(h, req.(serverId := Some(other)))
        ensures Handle(h, s, req.(serverId := Some(other))) == None
      {
        AnswersIff(h, s, req.(serverId := Some(other)));
      }
    }
  }

  // ----- the route of a reply

  /**
   Every reply is an offer or an acknowledgement, goes where RFC 2131 says, and, when it is
   broadcast or link-local, leaves through the existing interface whose address it carries as siaddr
   and server identifier.
   */
  lemma RepliesAreRouted(h: Host, s: StoreModel.Store, req: Packet)
    requires StoreModel.InHeap(s) && Handle(h, s, req).Some?
    ensures var sent := Handle(h, s, req).value;
            var reply := sent.reply;
            && (reply.messageType == Offer || reply.messageType == Ack)
            && sent.peer == RFC2131Destination(reply.messageType, req.giaddr, req.ciaddr, req.broadcast, reply.yiaddr, CanUnicast(h))
            && SERVER_ID in reply.options && reply.options[SERVER_ID] == Address(reply.siaddr)
            && (NeedsInterface(sent.peer.ip) <==> sent.outgoing.Some?)
            && (sent.outgoing.Some? ==>
                  && InterfaceByIndex(h, sent.outgoing.value).Some?
                  && IPv4ForInterface(h, sent.outgoing.value) == Some(reply.siaddr)
                  && (h.boundIndex != 0 ==> sent.outgoing.value == h.boundIndex)
                  && (h.boundIndex == 0 ==> h.arrival == sent.outgoing))
  {
    var local := IPv4ForInterface(h, AnswerIndex(h)).value;
    var m := s.heap[StoreModel.FindByMAC(s, req.chaddr).value];
    var t := ReplyType(req.messageType).value;
    assert OptionFor(SERVER_ID, t, local, req, m) == Some(Address(local));
  }

  /** A requested boot file is sent unless the manifest is suspended. */
  lemma OffersBootFile(h: Host, s: StoreModel.Store, req: Packet)
    requires StoreModel.InHeap(s) && Answer(h, s, req).Some?
    requires BOOT_FILE in req.requested
    ensures var m := s.heap[StoreModel.FindByMAC(s, req.chaddr).value];
            Get(Answer(h, s, req).value.options, BOOT_FILE) ==
            if m.suspended then None else Some(Text(BootFile(req, m)))
  {
    var m := s.heap[StoreModel.FindByMAC(s, req.chaddr).value];
    var local := IPv4ForInterface(h, AnswerIndex(h)).value;
    var t := ReplyType(req.messageType).value;
    assert OptionFor(BOOT_FILE, t, local, req, m) == When(!m.suspended, Text(BootFile(req, m)));
  }

  // ----- suspension

  /** A suspended manifest gets the same reply without the two network-boot options. */
  lemma SuspendedOptions(t: MessageType, local: IP4, req: Packet, m: Manifest)
    ensures AllOptions(t, local, req, m.(suspended := true)) ==
            AllOptions(t, local, req, m) - {TFTP_SERVER, BOOT_FILE}
  {
    var on := m.(suspended := true);
    forall c
      ensures OptionFor(c, t, local, req, on) ==
              if c == TFTP_SERVER || c == BOOT_FILE then None else OptionFor(c, t, local, req, m)
    {
    }
  }

  /** A reply stripped of the two network-boot options. */
  function WithoutBoot(r: Option<Reply>): (q: Option<Reply>) {
    match r
    case None => None
    case Some(reply) => Some(reply.(options := reply.options - {TFTP_SERVER, BOOT_FILE}))
  }

  lemma SuspendedAnswerFor(h: Host, req: Packet, m: Manifest)
    ensures AnswerFor(h, req, m.(suspended := true)) == WithoutBoot(AnswerFor(h, req, m))
  {
    if AnswerFor(h, req, m).Some? {
      SuspendedOptions(ReplyType(req.messageType).value, IPv4ForInterface(h, AnswerIndex(h)).value, req, m);
    }
  }

  // ----- a suspension written between the handler's two reads of it

  /** The manifest as option 67 sees it, or as everything before it does. */
  function SeenBy(code: nat, m: Manifest, early: bool, late: bool): (r: Manifest) {
    m.(suspended := if code == BOOT_FILE then late else early)
  }

  function TornOptions(t: MessageType, local: IP4, req: Packet, m: Manifest, early: bool, late: bool): (r: map<nat, OptionValue>)
    ensures forall c :: Get(r, c) == OptionFor(c, t, local, req, SeenBy(c, m, early, late))
  {
    map c | c in CODES && OptionFor(c, t, local, req, SeenBy(c, m, early, late)).Some? ::
      OptionFor(c, t, local, req, SeenBy(c, m, early, late)).value
  }

  /** The answer when the suspension reads as `early` for option 66 and as `late` for option 67. */
  function TornAnswer(h: Host, req: Packet, m: Manifest, early: bool, late: bool): (r: Option<Reply>) {
    match AnswerFor(h, req, m)
    case None => None
    case Some(reply) =>
      Some(reply.(options := TornOptions(reply.messageType, reply.siaddr, req, m, early, late)))
  }

  lemma SameOptions(a: map<nat, OptionValue>, b: map<nat, OptionValue>)
    requires forall c :: Get(a, c) == Get(b, c)
    ensures a == b
  {
    forall c ensures c in a <==> c in b {
      assert Get(a, c) == Get(b, c);
    }
    forall c | c in a ensures a[c] == b[c] {
      assert Get(a, c) == Get(b, c);
    }
  }

  /** Which of the two options are sent. */
  lemma TornHas(t: MessageType, local: IP4, req: Packet, m: Manifest, early: bool, late: bool)
    ensures var torn := TornOptions(t, local, req, m, early, late);
            && (TFTP_SERVER in torn <==> TFTP_SERVER in req.requested && !early)
            && (BOOT_FILE in torn <==> BOOT_FILE in req.requested && !late)
  {
    var torn := TornOptions(t, local, req, m, early, late);
    assert Get(torn, TFTP_SERVER) == OptionFor(TFTP_SERVER, t, local, req, m.(suspended := early));
    assert Get(torn, BOOT_FILE) == OptionFor(BOOT_FILE, t, local, req, m.(suspended := late));
  }

  lemma AgreeingReads(t: MessageType, local: IP4, req: Packet, m: Manifest, on: bool)
    ensures TornOptions(t, local, req, m, on, on) == AllOptions(t, local, req, m.(suspended := on))
  {
    var torn, all := TornOptions(t, local, req, m, on, on), AllOptions(t, local, req, m.(suspended := on));
    forall c ensures Get(torn, c) == Get(all, c) {
      if c !in CODES {
        OnlyKnownCodes(c, t, local, req, m.(suspended := on));
      }
    }
    SameOptions(torn, all);
  }

  /** A read for an option that is not requested does not matter. */
  lemma UnaskedReads(t: MessageType, local: IP4, req: Packet, m: Manifest, early: bool, late: bool, on: bool)
    requires (TFTP_SERVER in req.requested ==> early == on) && (BOOT_FILE in req.requested ==> late == on)
    ensures TornOptions(t, local, req, m, early, late) == TornOptions(t, local, req, m, on, on)
  {
    var a, b := TornOptions(t, local, req, m, early, late), TornOptions(t, local, req, m, on, on);
    forall c ensures Get(a, c) == Get(b, c) {
      UnaskedRead(c, t, local, req, m, early, late, on);
    }
    SameOptions(a, b);
  }

  lemma UnaskedRead(c: nat, t: MessageType, local: IP4, req: Packet, m: Manifest, early: bool, late: bool, on: bool)
    requires (TFTP_SERVER in req.requested ==> early == on) && (BOOT_FILE in req.requested ==> late == on)
    ensures OptionFor(c, t, local, req, SeenBy(c, m, early, late)) == OptionFor(c, t, local, req, SeenBy(c, m, on, on))
  {
  }

  lemma TornOptionsIff(t: MessageType, local: IP4, req: Packet, m: Manifest, early: bool, late: bool, on: bool)
    ensures TornOptions(t, local, req, m, early, late) == AllOptions(t, local, req, m.(suspended := on)) <==>
            (TFTP_SERVER in req.requested ==> early == on) && (BOOT_FILE in req.requested ==> late == on)
  {
    AgreeingReads(t, local, req, m, on);
    TornHas(t, local, req, m, early, late);
    TornHas(t, local, req, m, on, on);
    if (TFTP_SERVER in req.requested ==> early == on) && (BOOT_FILE in req.requested ==> late == on) {
      UnaskedReads(t, local, req, m, early, late, on);
    }
  }

  /**
   Such an answer is one the manifest gets, suspended or not, exactly when the reads agree, nothing
   is answered, or not both options are requested; else it has one of the two and lacks the other.
   */
  lemma TornAnswerIff(h: Host, req: Packet, m: Manifest, early: bool, late: bool)
    ensures (exists on :: TornAnswer(h, req, m, early, late) == AnswerFor(h, req, m.(suspended := on))) <==>
            early == late || AnswerFor(h, req, m) == None || TFTP_SERVER !in req.requested || BOOT_FILE !in req.requested
  {
    if AnswerFor(h, req, m).Some? {
      var reply := AnswerFor(h, req, m).value;
      forall on
        ensures TornAnswer(h, req, m, early, late) == AnswerFor(h, req, m.(suspended := on)) <==>
                (TFTP_SERVER in req.requested ==> early == on) && (BOOT_FILE in req.requested ==> late == on)
      {
        TornOptionsIff(reply.messageType, reply.siaddr, req, m, early, late, on);
      }
      var on := if TFTP_SERVER in req.requested then early else late;
      assert early == late || TFTP_SERVER !in req.requested || BOOT_FILE !in req.requested ==>
        TornAnswer(h, req, m, early, late) == AnswerFor(h, req, m.(suspended := on));
    } else {
      assert TornAnswer(h, req, m, early, late) == AnswerFor(h, req, m.(suspended := early));
    }
  }

  // ----- answers in full, over the fields of host, store, request and manifest

  /** The operating system gave `v4` with a mask, in either form, and it is no loopback address. */
  predicate IsAddressOf(a: InterfaceAddr, v4: IP4) {
    a.isNet && v4[0] != 127 && (a.ip == v4 || a.ip == [0, 0, 0, 0, 0, 0, 0, 0, 0, 0, 255, 255] + v4)
  }

  /** It is the address of the interface `a`, and no interface before it has one. */
  ghost predicate IsFirstAddress(addrs: seq<InterfaceAddr>, i: nat, v4: IP4) {
    i < |addrs| && IsAddressOf(addrs[i], v4) && forall j, w :: 0 <= j < i ==> !IsAddressOf(addrs[j], w)
  }

  lemma UsableAddressIff(a: InterfaceAddr, v4: IP4)
    ensures IsUsable(a) && To4(a.ip) == v4 <==> IsAddressOf(a, v4)
  {
    if |a.ip| == 16 {
      assert a.ip == a.ip[..12] + a.ip[12..];
      assert ([0, 0, 0, 0, 0, 0, 0, 0, 0, 0, 255, 255] + v4)[12..] == v4;
    }
  }

  lemma UnusableAddress(a: InterfaceAddr)
    requires !IsUsable(a)
    ensures forall w :: !IsAddressOf(a, w)
  {
    forall w ensures !IsAddressOf(a, w) {
      UsableAddressIff(a, w);
    }
  }

  lemma FirstAddressBehind(addrs: seq<InterfaceAddr>, i: nat, v4: IP4)
    requires |addrs| > 0 && forall w :: !IsAddressOf(addrs[0], w)
    ensures IsFirstAddress(addrs[1..], i, v4) <==> IsFirstAddress(addrs, i + 1, v4)
  {
    var rest := addrs[1..];
    assert forall j :: 0 <= j < |rest| ==> rest[j] == addrs[j + 1];
    if IsFirstAddress(rest, i, v4) {
      forall j, w | 0 <= j < i + 1 ensures !IsAddressOf(addrs[j], w) {
        if j > 0 {
          assert !IsAddressOf(rest[j - 1], w);
        }
      }
    }
    if IsFirstAddress(addrs, i + 1, v4) {
      forall j, w | 0 <= j < i ensures !IsAddressOf(rest[j], w) {
        assert !IsAddressOf(addrs[j + 1], w);
      }
    }
  }

  /** The first address of the interface that is usable, in the order the operating system lists them. */
  lemma {:induction false} FirstIPv4Iff(addrs: seq<InterfaceAddr>, v4: IP4)
    ensures FirstIPv4(addrs) == Some(v4) <==> HasFirstAddress(addrs, v4)
  {
    if |addrs| > 0 {
      UsableAddressIff(addrs[0], v4);
      if IsUsable(addrs[0]) {
        UsableAddressIff(addrs[0], To4(addrs[0].ip));
        if IsAddressOf(addrs[0], v4) {
          assert IsFirstAddress(addrs, 0, v4);
        }
      } else {
        UnusableAddress(addrs[0]);
        FirstIPv4Iff(addrs[1..], v4);
        if i: nat :| IsFirstAddress(addrs[1..], i, v4) {
          FirstAddressBehind(addrs, i, v4);
        }
        if i: nat :| IsFirstAddress(addrs, i, v4) {
          assert i > 0;
          FirstAddressBehind(addrs, i - 1, v4);
        }
      }
    }
  }

  ghost predicate HasFirstAddress(addrs: seq<InterfaceAddr>, v4: IP4) {
    exists i: nat :: IsFirstAddress(addrs, i, v4)
  }

  /** `v4` is the first address of the interface the server is bound to or, unbound, the packet came in on. */
  ghost predicate IsServerAddress(h: Host, v4: IP4) {
    var i := if h.boundIndex == 0 && h.arrival.Some? then h.arrival.value else h.boundIndex;
    && i > 0 && i in h.interfaces && h.interfaces[i].addrs.Some?
    && HasFirstAddress(h.interfaces[i].addrs.value, v4)
  }

  lemma ServerAddressIff(h: Host, v4: IP4)
    ensures IPv4ForInterface(h, AnswerIndex(h)) == Some(v4) <==> IsServerAddress(h, v4)
  {
    var i := AnswerIndex(h);
    if i > 0 && i in h.interfaces && h.interfaces[i].addrs.Some? {
      FirstIPv4Iff(h.interfaces[i].addrs.value, v4);
    }
  }

  /** When there is an answer at all. */
  ghost predicate IsAnswerable(h: Host, s: StoreModel.Store, req: Packet) {
    && req.opcode == 1
    && (req.messageType == Discover || req.messageType == Request)
    && StoreModel.FindByMAC(s, req.chaddr).Some?
    && exists local :: IsServerAddress(h, local) && (req.siaddr == [0, 0, 0, 0] || req.siaddr == local)
  }

  lemma AnswersInFull(h: Host, s: StoreModel.Store, req: Packet)
    requires StoreModel.InHeap(s)
    ensures Handle(h, s, req).Some? <==> IsAnswerable(h, s, req)
  {
    AnswersIff(h, s, req);
    forall local ensures IPv4ForInterface(h, AnswerIndex(h)) == Some(local) <==> IsServerAddress(h, local) {
      ServerAddressIff(h, local);
    }
    if Handle(h, s, req).Some? {
      assert IsServerAddress(h, IPv4ForInterface(h, AnswerIndex(h)).value);
    }
  }

  /** A discover is offered and a request acknowledged, from the server's address, with the address of the manifest. */
  lemma ReplyHeader(h: Host, s: StoreModel.Store, req: Packet)
    requires StoreModel.InHeap(s) && Answer(h, s, req).Some?
    ensures var reply, m := Answer(h, s, req).value, s.heap[StoreModel.FindByMAC(s, req.chaddr).value];
            && (req.messageType == Discover ==> reply.messageType == Offer)
            && (req.messageType == Request ==> reply.messageType == Ack)
            && (req.messageType == Discover || req.messageType == Request)
            && |reply.siaddr| == 4 && IsServerAddress(h, reply.siaddr)
            && (m.ipv4.ip.Some? ==> reply.yiaddr == m.ipv4.ip.value)
  {
    ServerAddressIff(h, Answer(h, s, req).value.siaddr);
  }

  /** `sub` stands somewhere in `s`. */
  lemma {:induction false} ContainsIff(s: string, sub: string)
    ensures Contains(s, sub) <==> exists i :: 0 <= i <= |s| && sub <= s[i..]
  {
    assert s[0..] == s;
    if !(sub <= s) && s != "" {
      ContainsIff(s[1..], sub);
      forall i | 0 <= i < |s| ensures s[1..][i..] == s[i + 1..] {}
      if i :| 0 < i <= |s| && sub <= s[i..] {
        assert sub <= s[1..][i - 1..];
      }
    }
  }

  /** Which file a client is told to boot. */
  lemma BootFileInFull(req: Packet, m: Manifest)
    ensures !m.ipxe || req.userClass == ["iPXE"] ==> BootFile(req, m) == m.bootFilename
    ensures m.ipxe && req.userClass != ["iPXE"] && (req.clientArch == [] || req.clientArch[0] == 0) ==>
              BootFile(req, m) == "undionly.kpxe"
    ensures m.ipxe && req.userClass != ["iPXE"] && req.clientArch != [] && req.clientArch[0] > 0 ==>
              BootFile(req, m) == if exists i :: 0 <= i <= |req.classIdentifier| && "PXEClient:Arch:00011" <= req.classIdentifier[i..]
                                  then "ipxe_arm64.efi" else "ipxe.efi"
  {
    ContainsIff(req.classIdentifier, "PXEClient:Arch:00011");
  }

  /** The options of a reply from a server at `local` for manifest `m`: what each holds, and when it is there. */
  predicate HoldsByCode(o: map<nat, OptionValue>, local: IP, req: Packet, m: Manifest) {
    && Get(o, 1) == Some(Mask(m.ipv4.mask))
    && Get(o, 3) == (if 3 in req.requested then Some(Addresses(m.router)) else None)
    && Get(o, 6) == (if 6 in req.requested then Some(Addresses(m.dns)) else None)
    && Get(o, 12) == (if 12 in req.requested then Some(Text(m.hostname)) else None)
    && Get(o, 42) == (if 42 in req.requested then Some(Addresses(m.ntp)) else None)
    && Get(o, 51) == (if m.leaseDuration != 0 then Some(Duration(m.leaseDuration)) else None)
    && Get(o, 53) == Some(Kind(if req.messageType == Discover then Offer else Ack))
    && Get(o, 54) == Some(Address(local))
    && IsIPv4(local)
    && Get(o, 66) == (if 66 in req.requested && !m.suspended then Some(Text(IPText.IPv4String(local))) else None)
    && Get(o, 67) == (if 67 in req.requested && !m.suspended then Some(Text(BootFile(req, m))) else None)
    && Get(o, 176) == (if req.userClass == ["iPXE"] then Some(Number(1)) else None)
    && forall c :: c in o ==> c in {1, 3, 6, 12, 42, 51, 53, 54, 66, 67, 176}
  }

  lemma OptionsByCode(t: MessageType, local: IP4, req: Packet, m: Manifest)
    requires t == if req.messageType == Discover then Offer else Ack
    ensures HoldsByCode(AllOptions(t, local, req, m), local, req, m)
  {
    var o := AllOptions(t, local, req, m);
    forall c ensures Get(o, c) == OptionFor(c, t, local, req, m) {}
    forall c | c in o ensures c in {1, 3, 6, 12, 42, 51, 53, 54, 66, 67, 176} {
      assert OptionFor(c, t, local, req, m).Some?;
    }
  }

  /** Every option of a reply, code by code: what it holds, and when it is there. */
  lemma ReplyOptions(h: Host, s: StoreModel.Store, req: Packet)
    requires StoreModel.InHeap(s) && Answer(h, s, req).Some?
    ensures var reply, m := Answer(h, s, req).value, s.heap[StoreModel.FindByMAC(s, req.chaddr).value];
            HoldsByCode(reply.options, reply.siaddr, req, m)
  {
    var reply, m := Answer(h, s, req).value, s.heap[StoreModel.FindByMAC(s, req.chaddr).value];
    OptionsByCode(reply.messageType, reply.siaddr, req, m);
  }

  /** Some device can be named: the bound one, or else the one the packet came in on. */
  predicate NamesDevice(h: Host) {
    || h.boundName != ""
    || (h.arrival.Some? && h.arrival.value > 0 && h.arrival.value in h.interfaces && h.interfaces[h.arrival.value].name != "")
  }

  /** Where a reply that offers `yiaddr` goes. */
  predicate GoesTo(h: Host, req: Packet, yiaddr: IP, peer: Peer) {
    peer ==
    if req.giaddr != [0, 0, 0, 0] then Peer(req.giaddr, 67)
    else if req.ciaddr != [0, 0, 0, 0] then Peer(req.ciaddr, 68)
    else if req.broadcast then Peer([255, 255, 255, 255], 68)
    else if NamesDevice(h) && h.socketOk && h.arpOk then Peer(yiaddr, 68)
    else Peer([255, 255, 255, 255], 68)
  }

  lemma RouteInFull(h: Host, req: Packet, t: MessageType, yiaddr: IP)
    requires t != Nak
    ensures GoesTo(h, req, yiaddr, RFC2131Destination(t, req.giaddr, req.ciaddr, req.broadcast, yiaddr, CanUnicast(h)))
  {
  }

  /** The broadcast address or a link-local one: 169.254.0.0/16 in either form, or fe80::/10. */
  predicate IsBroadcastOrLinkLocal(ip: IP) {
    || ip == [255, 255, 255, 255] || ip == [0, 0, 0, 0, 0, 0, 0, 0, 0, 0, 255, 255, 255, 255, 255, 255]
    || (|ip| == 4 && ip[0] == 169 && ip[1] == 254)
    || (|ip| == 16 && [0, 0, 0, 0, 0, 0, 0, 0, 0, 0, 255, 255, 169, 254] <= ip)
    || (|ip| == 16 && ip[0] == 254 && 128 <= ip[1] < 192)
  }

  lemma NeedsInterfaceIff(ip: IP)
    ensures NeedsInterface(ip) <==> IsBroadcastOrLinkLocal(ip)
  {
    if |ip| == 16 {
      assert ip == ip[..12] + ip[12..];
      var mapped: seq<byte> := [0, 0, 0, 0, 0, 0, 0, 0, 0, 0, 255, 255];
      assert mapped + [255, 255, 255, 255] == [0, 0, 0, 0, 0, 0, 0, 0, 0, 0, 255, 255, 255, 255, 255, 255];
      assert mapped + [169, 254] == [0, 0, 0, 0, 0, 0, 0, 0, 0, 0, 255, 255, 169, 254];
      assert ip[12..14] == [ip[12], ip[13]];
      assert ip[..14] == ip[..12] + [ip[12], ip[13]];
      assert ip[12..] == [ip[12], ip[13], ip[14], ip[15]];
    }
  }

  /** Through which interface it leaves: one is named exactly for broadcast and link-local destinations. */
  predicate LeavesBy(h: Host, peer: Peer, outgoing: Option<int>) {
    outgoing ==
    if !IsBroadcastOrLinkLocal(peer.ip) then None
    else if h.boundIndex == 0 && h.arrival.Some? then h.arrival else Some(h.boundIndex)
  }

  /** What is sent is a proper answer to the request from manifest `m`. */
  ghost predicate IsProperAnswer(h: Host, m: Manifest, req: Packet, sent: Sent) {
    && (req.messageType == Discover || req.messageType == Request)
    && sent.reply.messageType == (if req.messageType == Discover then Offer else Ack)
    && |sent.reply.siaddr| == 4 && IsServerAddress(h, sent.reply.siaddr)
    && (m.ipv4.ip.Some? ==> sent.reply.yiaddr == m.ipv4.ip.value)
    && HoldsByCode(sent.reply.options, sent.reply.siaddr, req, m)
    && GoesTo(h, req, sent.reply.yiaddr, sent.peer)
    && LeavesBy(h, sent.peer, sent.outgoing)
  }

  lemma AnswersAreProper(h: Host, s: StoreModel.Store, req: Packet)
    requires StoreModel.InHeap(s) && Handle(h, s, req).Some?
    ensures IsProperAnswer(h, s.heap[StoreModel.FindByMAC(s, req.chaddr).value], req, Handle(h, s, req).value)
  {
    var sent := Handle(h, s, req).value;
    ReplyHeader(h, s, req);
    ReplyOptions(h, s, req);
    RouteInFull(h, req, sent.reply.messageType, sent.reply.yiaddr);
    NeedsInterfaceIff(sent.peer.ip);
  }
}
