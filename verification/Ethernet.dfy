/** Ethernet frames (packages/wire/src/ethernet.ts). */
module Ethernet {
  import opened Options
  import opened Bytes
  import opened Buffers
  import opened MacAddresses
  import Ipv4Packets
  import ArpMessages

  datatype Payload = Ipv4(packet: Ipv4Packets.Packet) | Arp(message: ArpMessages.Message)

  datatype Frame = Frame(destinationMac: string, sourceMac: string, payload: Payload)

  const HEADER_LENGTH: nat := 14

  function TypeOf(p: Payload): nat {
    if p.Ipv4? then 0x0800 else 0x0806
  }

  function SerializePayload(p: Payload): Option<Data> {
    match p
    case Ipv4(packet) => Ipv4Packets.Serialize(packet)
    case Arp(message) => ArpMessages.Serialize(message)
  }

  /** `serializeEthernetFrame` */
  function Serialize(f: Frame): Option<Data> {
    var payload :- SerializePayload(f.payload);
    var destination :- MacNumber(f.destinationMac);
    var source :- MacNumber(f.sourceMac);
    Some(destination + source + Be16(TypeOf(f.payload)) + payload)
  }

  /** `parseEthernetFrame` */
  function Parse(frame: Data): Option<Frame> {
    if |frame| < HEADER_LENGTH then None
    else
      var destinationMac :- MacText(frame[..6]);
      var sourceMac :- MacText(frame[6..12]);
      match Get16(frame, 12)
      case 0x0800 =>
        var packet :- Ipv4Packets.Parse(frame[14..]);
        Some(Frame(destinationMac, sourceMac, Ipv4(packet)))
      case 0x0806 =>
        var message :- ArpMessages.Parse(frame[14..]);
        Some(Frame(destinationMac, sourceMac, Arp(message)))
      case _ => None
  }

  predicate WellFormed(f: Frame) {
    && CanonicalMac(f.destinationMac) && CanonicalMac(f.sourceMac)
    && (if f.payload.Ipv4? then Ipv4Packets.WellFormed(f.payload.packet) else ArpMessages.WellFormed(f.payload.message))
  }

  lemma FrameParts(destination: Data, source: Data, t: nat, payload: Data)
    requires |destination| == 6 && |source| == 6 && t < 0x1_0000
    ensures var d := destination + source + Be16(t) + payload;
      d[..6] == destination && d[6..12] == source && Get16(d, 12) == t && d[14..] == payload
  {
    Be16Reads(t, destination + source, payload);
  }

  /** Bytes that stand for the parts of a frame are parsed as these parts. */
  lemma FrameParses(f: Frame, destination: Data, source: Data, payload: Data)
    requires |destination| == 6 && |source| == 6
    requires MacText(destination) == Some(f.destinationMac) && MacText(source) == Some(f.sourceMac)
    ensures Parse(destination + source + Be16(TypeOf(f.payload)) + payload) ==
      if f.payload.Arp? then
        if ArpMessages.Parse(payload).None? then None else Some(f.(payload := Arp(ArpMessages.Parse(payload).value)))
      else if Ipv4Packets.Parse(payload).None? then None
      else Some(f.(payload := Ipv4(Ipv4Packets.Parse(payload).value)))
  {
    FrameParts(destination, source, TypeOf(f.payload), payload);
  }

  /**
   All layers together: a frame with well-formed fields is read back from its bytes, with every checksum
   and length test passed, exactly unless its packet is too long or carries TCP options; then it is refused.
   */
  lemma FrameRoundTripIff(f: Frame)
    requires WellFormed(f)
    ensures Serialize(f).Some?
    ensures Parse(Serialize(f).value) ==
      if f.payload.Ipv4? && (!Ipv4Packets.Fits(f.payload.packet) || Ipv4Packets.HasOptions(f.payload.packet.payload))
      then None else Some(f)
  {
    var destination, source := MacNumber(f.destinationMac).value, MacNumber(f.sourceMac).value;
    if f.payload.Ipv4? {
      Ipv4Packets.RoundTripIff(f.payload.packet);
      FrameParses(f, destination, source, Ipv4Packets.Serialize(f.payload.packet).value);
    } else {
      ArpMessages.SerializedParses(f.payload.message);
      FrameParses(f, destination, source, ArpMessages.Serialize(f.payload.message).value);
    }
  }

  /** The buffer of `serializeEthernetFrame`. */
  method SerializeEthernetFrame(f: Frame) returns (r: Option<Data>)
    ensures r == Serialize(f)
  {
    var payload: Option<Data>;
    match f.payload {
      case Ipv4(packet) =>
        payload := Ipv4Packets.SerializeIPv4Packet(packet);
      case Arp(message) =>
        payload := ArpMessages.SerializeArpMessage(message);
    }
    var destination, source := MacNumber(f.destinationMac), MacNumber(f.sourceMac);
    if payload.None? || destination.None? || source.None? {
      return None;
    }
    var data := new Byte[HEADER_LENGTH + |payload.value|](_ => 0);
    ghost var done := destination.value;
    Append(data, [], 0, destination.value);
    assert [] + done == done;
    Append(data, done, 6, source.value);
    done := done + source.value;
    Append(data, done, 12, Be16(TypeOf(f.payload)));
    Append(data, done + Be16(TypeOf(f.payload)), 14, payload.value);
    assert data[..] == done + Be16(TypeOf(f.payload)) + payload.value;
    return Some(data[..]);
  }
}
