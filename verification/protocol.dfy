/** Packet layout, size checks, sequence checks and raw input of the logical-socket protocol. */
module Protocol {
  import opened Bytes

  type Packet = seq<Byte>

  const PACKET_HEADER_SIZE := 5
  const SEQUENCE_PACKET_SIZE := 12
  const SOCKET_HEADER_SIZE := 8
  const SEQUENCE_HANDSHAKE: Byte := 0x13

  /** The exceptions of the original. */
  datatype Fault =
    | LogicError
    | Timeout
    | BadSize
    | ShortSequencePacket
    | OutOfSequence
    | Unhandled(command: Byte)
    | TenBlankPackets
    | ShortFragment
    | BadPassword(remaining: nat, outOfTries: bool)
    | BadOpenedPacket

  /** Protocol::CheckSize; above 0xFFFF bytes the size field is not consulted. */
  predicate SizeOk(p: Packet, required: nat)
  {
    && (4 <= |p| <= 0xffff ==> Val16(p, 2) == |p|)
    && required <= |p|
  }

  /** The mutable state of SocketZero. */
  datatype ZeroState = ZeroState(
    sequenceId: nat,
    hideSequencePacket: bool,
    halfOpen: bool,
    challengeSeed: nat,
    remainingTries: nat,
    zeroSocketSequence: Byte)

  datatype Checked = Advanced(state: ZeroState) | Rejected(fault: Fault)

  /** SocketZero::CheckSequence: id 0 restarts, and only socket 0 forgives another id than the expected one. */
  function CheckSequence(st: ZeroState, socket: nat, p: Packet): Checked
  {
    if |p| < SEQUENCE_PACKET_SIZE then Rejected(ShortSequencePacket)
    else
      var id := Val32(p, 8);
      if id == 0 then Advanced(st.(sequenceId := 1))
      else if id != st.sequenceId && socket != 0 then Rejected(OutOfSequence)
      else Advanced(st.(sequenceId := Low32(st.sequenceId + 1)))
  }

  /** A packet that SequencePacket swallows. */
  predicate IsHidden(st: ZeroState, p: Packet)
  {
    st.hideSequencePacket && |p| >= PACKET_HEADER_SIZE && Val16(p, 0) == 0 && p[4] == SEQUENCE_HANDSHAKE
  }

  datatype Received =
    | Got(state: ZeroState, packet: Packet, rest: seq<Packet>)
    | Lost(state: ZeroState, fault: Fault, rest: seq<Packet>)

  /** SocketZero::RawReceive, the loop that reads past hidden sequence packets. */
  function RawReceive(st: ZeroState, incoming: seq<Packet>): (r: Received)
    ensures |r.rest| <= |incoming| && (r.Got? ==> |r.rest| < |incoming|)
    ensures r.state == st.(sequenceId := r.state.sequenceId)
    decreases |incoming|
  {
    if incoming == [] then Lost(st, Timeout, [])
    else if !IsHidden(st, incoming[0]) then Got(st, incoming[0], incoming[1..])
    else
      match CheckSequence(st, 0, incoming[0])
      case Rejected(fault) => Lost(st, fault, incoming[1..])
      case Advanced(st') => RawReceive(st', incoming[1..])
  }

  /** Counting a packet does not change what is hidden. */
  lemma CountingHidesTheSame(st: ZeroState, socket: nat, p: Packet, q: Packet)
    requires CheckSequence(st, socket, p).Advanced?
    ensures IsHidden(CheckSequence(st, socket, p).state, q) == IsHidden(st, q)
  {
    hide Val32;
  }

  /** What is read is the first packet that is not hidden; the packets before it are gone, the ones behind it stay. */
  lemma {:induction false} FirstShownPacket(st: ZeroState, incoming: seq<Packet>)
    ensures var r := RawReceive(st, incoming);
      var taken := |incoming| - |r.rest|;
      && r.rest == incoming[taken..]
      && (r.Got? ==>
            && taken > 0 && r.packet == incoming[taken - 1] && !IsHidden(st, r.packet)
            && forall i :: 0 <= i < taken - 1 ==> IsHidden(st, incoming[i]))
      && (r.Lost? ==> forall i :: 0 <= i < taken ==> IsHidden(st, incoming[i]))
    decreases |incoming|
  {
    hide IsHidden, CheckSequence;
    if incoming != [] && IsHidden(st, incoming[0]) && CheckSequence(st, 0, incoming[0]).Advanced? {
      var next, later := CheckSequence(st, 0, incoming[0]).state, incoming[1..];
      FirstShownPacket(next, later);
      forall i | 0 < i < |incoming|
        ensures incoming[i] == later[i - 1] && IsHidden(next, later[i - 1]) == IsHidden(st, incoming[i])
      {
        CountingHidesTheSame(st, 0, incoming[0], later[i - 1]);
      }
    }
  }

  /** The writes RawSend makes: a size packet goes first when the length is a multiple of 0x40. */
  function Writes(p: Packet): (w: seq<Packet>)
    ensures w != [] && w[|w| - 1] == p && |w| == if |p| % 0x40 == 0 then 2 else 1
    ensures |w| == 2 ==> |w[0]| == 3 && Val16(w[0], 0) == Low16(|p|) && w[0][2] == 0
  {
    HalvesOfLow16(|p|);
    if |p| % 0x40 == 0 then [Le16(|p|) + [0], p] else [p]
  }
}
