/**
 Filling the ARP request for the kernel (dhcpd/arp/). The 64-bit variant writes the hardware
 address in a loop that indexes a 14-byte field; the other variant copies it.
 */
module Arp {
  import opened Net
  import HardwareAddr

  /** The field `Data` of a raw socket address. */
  const FIELD: nat := 14

  type int8 = x: int | -128 <= x < 128

  /** Go's conversion `int8(b)`. */
  function ToInt8(b: byte): (r: int8) {
    if b < 128 then b else b - 256
  }

  /** The octet stored for a signed byte. */
  function Octet(x: int8): (b: byte) {
    if x >= 0 then x else x + 256
  }

  /** The field holding `hw` with zeros behind it. */
  function Padded(hw: HardwareAddr.MAC): (r: seq<byte>)
    requires |hw| <= FIELD
    ensures |r| == FIELD
  {
    hw + seq(FIELD - |hw|, _ => 0)
  }

  function Octets(data: seq<int8>): (r: seq<byte>)
    ensures |r| == |data|
  {
    seq(|data|, i requires 0 <= i < |data| => Octet(data[i]))
  }

  /**
   The loop of the 64-bit `InjectArpFd` on a fresh field. An index past the field panics; then
   `ok` is false.
   */
  method FillByLoop(hw: HardwareAddr.MAC) returns (data: array<int8>, ok: bool)
    ensures fresh(data) && data.Length == FIELD
    ensures ok <==> |hw| <= FIELD
    ensures ok ==> Octets(data[..]) == Padded(hw)
    ensures data.Length == 14 && (ok <==> |hw| <= 14)
    ensures ok ==> forall j :: 0 <= j < 14 ==>
              data[j] as int == if j >= |hw| then 0 else if hw[j] < 128 then hw[j] as int else hw[j] as int - 256
  {
    data := new int8[FIELD](_ => 0);
    var i := 0;
    while i < |hw|
      invariant 0 <= i <= |hw| && i <= FIELD
      invariant forall j :: 0 <= j < i ==> data[j] == ToInt8(hw[j])
      invariant forall j :: i <= j < FIELD ==> data[j] == 0
    {
      if i >= data.Length {
        return data, false;
      }
      data[i] := ToInt8(hw[i]);
      i := i + 1;
    }
    return data, true;
  }

  /** Go's `copy` of the address into the field of the other variant: it stops at the shorter end. */
  method FillByCopy(hw: HardwareAddr.MAC) returns (data: array<byte>)
    ensures fresh(data) && data.Length == FIELD
    ensures |hw| <= FIELD ==> data[..] == Padded(hw)
    ensures |hw| > FIELD ==> data[..] == hw[..FIELD]
    ensures data.Length == 14 && forall j :: 0 <= j < 14 ==> data[j] == if j < |hw| then hw[j] else 0
  {
    data := new byte[FIELD](_ => 0);
    var n := if |hw| < FIELD then |hw| else FIELD;
    forall i | 0 <= i < n {
      data[i] := hw[i];
    }
  }

  /** The longest client address a DHCP packet carries (section 2 of RFC 2131). */
  const CHADDR_MAX: nat := 16

  /**
   A client address that prints like a stored address is that address; if the stored one came
   from text and the client's from a packet, it fits the field.
   */
  lemma MatchedAddressFits(stored: HardwareAddr.MAC, client: HardwareAddr.MAC)
    requires HardwareAddr.IsTextLoaded(stored) && |client| <= CHADDR_MAX
    requires HardwareAddr.String(stored) == HardwareAddr.String(client)
    ensures client == stored && |client| <= 8 && |client| <= FIELD
  {
    HardwareAddr.StringInjective(stored, client);
  }
}
