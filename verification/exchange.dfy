/** The request and response loop of Socket::Packet. */
module Exchange {
  import opened Bytes
  import opened Fragment
  import opened Protocol

  const BLANK_LIMIT := 10

  /** A socket: its number, and whether its packets come from its own routed queue. */
  datatype Port = Port(socket: nat, registered: bool)

  /** Socket::Receive; a routed queue is not filtered for sequence packets. */
  function Receive(st: ZeroState, port: Port, incoming: seq<Packet>): (r: Received)
    ensures r.Got? ==> |r.rest| < |incoming|
    ensures r.state == st.(sequenceId := r.state.sequenceId)
  {
    if port.registered then
      if incoming == [] then Lost(st, Timeout, []) else Got(st, incoming[0], incoming[1..])
    else RawReceive(st, incoming)
  }

  datatype Outcome =
    | Done(state: ZeroState, reply: Packet, rest: seq<Packet>)
    | Failed(state: ZeroState, fault: Fault, rest: seq<Packet>)

  /** What one packet does to the reading loop. */
  datatype Turn =
    | Finish(reply: Packet)
    | Continue(state: ZeroState, whole: Packet, blanks: nat)
    | Stop(fault: Fault)

  /** One turn of the loop: whole holds the fragments so far, blanks the blank packets in a row. */
  function Handle(st: ZeroState, socket: nat, whole: Packet, blanks: nat, p: Packet): (t: Turn)
    requires whole == [] || |whole| >= PACKET_HEADER_SIZE
    ensures t.Continue? ==> t.whole == [] || |t.whole| >= PACKET_HEADER_SIZE
  {
    if p == [] then
      if blanks + 1 == BLANK_LIMIT then Stop(TenBlankPackets) else Continue(st, whole, blanks + 1)
    else if !SizeOk(p, PACKET_HEADER_SIZE) then Stop(BadSize)
    else if p[4] == SEQUENCE_HANDSHAKE then
      match CheckSequence(st, socket, p)
      case Rejected(fault) => Stop(fault)
      case Advanced(st') => Continue(st', whole, 0)
    else if p[4] == DB_DATA && whole == [] then Finish(p)
    else if p[4] == DB_DONE then Finish(p)
    else if p[4] != DB_DATA && p[4] != DB_FRAGMENTED then Stop(Unhandled(p[4]))
    else if whole != [] && |p| < FRAG_HEADER_SIZE then Stop(ShortFragment)
    else if p[4] == DB_DATA then Finish(Append(whole, p))
    else Continue(st, Append(whole, p), 0)
  }

  function Await(st: ZeroState, port: Port, whole: Packet, blanks: nat, incoming: seq<Packet>): Outcome
    requires whole == [] || |whole| >= PACKET_HEADER_SIZE
    decreases |incoming|, 0
  {
    match Receive(st, port, incoming)
    case Lost(st', fault, rest) => Failed(st', fault, rest)
    case Got(st', p, rest) => Process(st', port, whole, blanks, p, rest)
  }

  /** The loop from a packet that has just been read. */
  function Process(st: ZeroState, port: Port, whole: Packet, blanks: nat, p: Packet, incoming: seq<Packet>): Outcome
    requires whole == [] || |whole| >= PACKET_HEADER_SIZE
    decreases |incoming|, 1
  {
    match Handle(st, port.socket, whole, blanks, p)
    case Finish(reply) => Done(st, reply, incoming)
    case Stop(fault) => Failed(st, fault, incoming)
    case Continue(st', whole', blanks') => Await(st', port, whole', blanks', incoming)
  }

  /** One turn of the loop, and the read that follows it. */
  lemma OneTurn(st: ZeroState, port: Port, whole: Packet, blanks: nat, p: Packet, incoming: seq<Packet>)
    requires whole == [] || |whole| >= PACKET_HEADER_SIZE
    ensures
      var t := Handle(st, port.socket, whole, blanks, p);
      var all := Process(st, port, whole, blanks, p, incoming);
      && (t.Finish? ==> all == Done(st, t.reply, incoming))
      && (t.Stop? ==> all == Failed(st, t.fault, incoming))
      && (t.Continue? ==>
            var r := Receive(t.state, port, incoming);
            && (r.Lost? ==> all == Failed(r.state, r.fault, r.rest))
            && (r.Got? ==> all == Process(r.state, port, t.whole, t.blanks, r.packet, r.rest)))
  {
    hide Handle, Receive;
  }

  /** What each kind of packet does to the reading loop, by its bytes: a wrong size or an unknown command ends it,
      a handshake is counted or ends it, and a fragment behind others needs its own header. */
  lemma EachKindOfPacket(st: ZeroState, port: Port, whole: Packet, blanks: nat, p: Packet, rest: seq<Packet>)
    requires whole == [] || |whole| >= PACKET_HEADER_SIZE
    requires p != [] && (port.registered || !IsHidden(st, p))
    ensures
      var o := Await(st, port, whole, blanks, [p] + rest);
      if |p| < 5 || (|p| <= 0xFFFF && Val16(p, 2) != |p|) then o == Failed(st, BadSize, rest)
      else if p[4] == 0x13 then
        if |p| < 12 then o == Failed(st, ShortSequencePacket, rest)
        else if Val32(p, 8) == 0 then o == Await(st.(sequenceId := 1), port, whole, 0, rest)
        else if port.socket == 0 || Val32(p, 8) == st.sequenceId then
          o == Await(st.(sequenceId := Low32(st.sequenceId + 1)), port, whole, 0, rest)
        else o == Failed(st, OutOfSequence, rest)
      else if p[4] == 0x41 then o == Done(st, p, rest)
      else if p[4] == 0x40 && whole == [] then o == Done(st, p, rest)
      else if p[4] != 0x40 && p[4] != 0x60 then o == Failed(st, Unhandled(p[4]), rest)
      else if whole != [] && |p| < 6 then o == Failed(st, ShortFragment, rest)
      else if p[4] == 0x40 then o == Done(st, Append(whole, p), rest)
      else o == Await(st, port, Append(whole, p), 0, rest)
  {
    hide Append, Val32;
    assert ([p] + rest)[0] == p && ([p] + rest)[1..] == rest;
  }

  /** A run of packets that carry no part of the reply, and the state after it. */
  datatype Settled = Settled(state: ZeroState, blanks: nat) | Upset

  /** Blank packets, fewer than ten in a row, and handshakes in sequence. */
  function Settle(st: ZeroState, port: Port, blanks: nat, noise: seq<Packet>): Settled
    decreases |noise|
  {
    if noise == [] then Settled(st, blanks)
    else
      var p, rest := noise[0], noise[1..];
      if p == [] then
        if blanks + 1 < BLANK_LIMIT then Settle(st, port, blanks + 1, rest) else Upset
      else if |p| < SEQUENCE_PACKET_SIZE || p[4] != SEQUENCE_HANDSHAKE then Upset
      else if !port.registered && IsHidden(st, p) then
        Settle(CheckSequence(st, 0, p).state, port, blanks, rest)
      else if SizeOk(p, SEQUENCE_PACKET_SIZE) && CheckSequence(st, port.socket, p).Advanced? then
        Settle(CheckSequence(st, port.socket, p).state, port, 0, rest)
      else Upset
  }

  /** The stream of a device that sends noises[i] before fragment i. */
  function Weave(noises: seq<seq<Packet>>, fragments: seq<Packet>): seq<Packet>
    requires |noises| == |fragments|
  {
    if noises == [] then [] else noises[0] + [fragments[0]] + Weave(noises[1..], fragments[1..])
  }

  /** The state after every noise run, if all of them settle. */
  function SettleAll(st: ZeroState, port: Port, noises: seq<seq<Packet>>): Settled
    decreases |noises|
  {
    if noises == [] then Settled(st, 0)
    else
      match Settle(st, port, 0, noises[0])
      case Upset => Upset
      case Settled(st', _) => SettleAll(st', port, noises[1..])
  }

  /** Noise that settles is read over without touching the reply. */
  lemma {:induction false} NoiseIsSkipped(st: ZeroState, port: Port, whole: Packet, blanks: nat,
                                          noise: seq<Packet>, rest: seq<Packet>)
    requires whole == [] || |whole| >= PACKET_HEADER_SIZE
    requires Settle(st, port, blanks, noise).Settled?
    ensures var s := Settle(st, port, blanks, noise);
      Await(st, port, whole, blanks, noise + rest) == Await(s.state, port, whole, s.blanks, rest)
    decreases |noise|
  {
    if noise == [] {
      assert noise + rest == rest;
    } else {
      var p, tail := noise[0], noise[1..];
      assert (noise + rest)[1..] == tail + rest;
      if p == [] {
        NoiseIsSkipped(st, port, whole, blanks + 1, tail, rest);
      } else if !port.registered && IsHidden(st, p) {
        NoiseIsSkipped(CheckSequence(st, 0, p).state, port, whole, blanks, tail, rest);
      } else {
        NoiseIsSkipped(CheckSequence(st, port.socket, p).state, port, whole, 0, tail, rest);
      }
    }
  }

  /** A fragment is joined, or ends the reply. */
  lemma FragmentIsJoined(st: ZeroState, port: Port, whole: Packet, f: Packet, later: seq<Packet>)
    requires whole == [] || |whole| >= PACKET_HEADER_SIZE
    requires FRAG_HEADER_SIZE <= |f| <= MAX_PACKET_SIZE && Val16(f, 2) == |f|
    requires f[4] == DB_DATA || f[4] == DB_FRAGMENTED
    ensures Await(st, port, whole, 0, [f] + later) ==
      if f[4] == DB_DATA then Done(st, Append(whole, f), later) else Await(st, port, Append(whole, f), 0, later)
  {
    hide CheckSequence, Stamp;
    assert ([f] + later)[0] == f && ([f] + later)[1..] == later;
    assert !IsHidden(st, f) && SizeOk(f, PACKET_HEADER_SIZE);
    if f[4] == DB_DATA && whole == [] {
      StampIsIdentity(f);
    }
  }

  lemma {:induction false} JoinsWhatArrives(st: ZeroState, port: Port, whole: Packet, noises: seq<seq<Packet>>,
                                            fragments: seq<Packet>, rest: seq<Packet>)
    requires whole == [] || |whole| >= PACKET_HEADER_SIZE
    requires WellCut(fragments) && |noises| == |fragments|
    requires SettleAll(st, port, noises).Settled?
    ensures Await(st, port, whole, 0, Weave(noises, fragments) + rest)
         == Done(SettleAll(st, port, noises).state, Join(whole, fragments), rest)
    decreases |fragments|
  {
    hide Await, Settle, Append;
    var f, later := fragments[0], Weave(noises[1..], fragments[1..]) + rest;
    var s := Settle(st, port, 0, noises[0]);
    assert Weave(noises, fragments) + rest == noises[0] + ([f] + later);
    NoiseIsSkipped(st, port, whole, 0, noises[0], [f] + later);
    NoiseDoesNotMatter(s.state, port, whole, s.blanks, f, later);
    FragmentIsJoined(s.state, port, whole, f, later);
    var joined := Append(whole, f);
    if |fragments| == 1 {
      assert fragments[1..] == [] && noises[1..] == [];
      assert later == rest;
      assert Join(joined, fragments[1..]) == joined;
    } else {
      assert WellCut(fragments[1..]);
      JoinsWhatArrives(s.state, port, joined, noises[1..], fragments[1..], rest);
    }
  }

  /** A packet with bytes in it starts the blank count again. */
  lemma NoiseDoesNotMatter(st: ZeroState, port: Port, whole: Packet, blanks: nat, f: Packet, later: seq<Packet>)
    requires whole == [] || |whole| >= PACKET_HEADER_SIZE
    requires f != [] && !IsHidden(st, f)
    ensures Await(st, port, whole, blanks, [f] + later) == Await(st, port, whole, 0, [f] + later)
  {
    assert ([f] + later)[0] == f && ([f] + later)[1..] == later;
  }

  /** A reply cut by the fragment rule comes back whole, whatever settled noise the device mixes in. */
  lemma ReplyComesBack(st: ZeroState, port: Port, reply: Packet, noises: seq<seq<Packet>>, rest: seq<Packet>)
    requires |reply| >= FRAG_HEADER_SIZE && |noises| == |Fragments(reply, 0)|
    requires SettleAll(st, port, noises).Settled?
    ensures Await(st, port, [], 0, Weave(noises, Fragments(reply, 0)) + rest)
         == Done(SettleAll(st, port, noises).state, Stamp(reply, DB_DATA), rest)
  {
    FragmentShape(reply, 0);
    JoinUndoesFragments(reply);
    JoinsWhatArrives(st, port, [], noises, Fragments(reply, 0), rest);
  }

  /** The reply is returned exactly if and only if it carried DB_DATA and its own size, modulo 2^16. */
  lemma ExactReplyComesBack(st: ZeroState, port: Port, reply: Packet, noises: seq<seq<Packet>>, rest: seq<Packet>)
    requires FRAG_HEADER_SIZE <= |reply|
    requires |noises| == |Fragments(reply, 0)| && SettleAll(st, port, noises).Settled?
    ensures Await(st, port, [], 0, Weave(noises, Fragments(reply, 0)) + rest)
         == Done(SettleAll(st, port, noises).state, reply, rest)
      <==> reply[4] == DB_DATA && Val16(reply, 2) == Low16(|reply|)
  {
    hide Await, Fragments, Weave, SettleAll;
    ReplyComesBack(st, port, reply, noises, rest);
    StampIsIdentity(reply);
  }

  /** An unfragmented DB_DATA packet of any size, or a DB_DONE at any time, is returned as it came. */
  lemma SinglePacketIsVerbatim(st: ZeroState, port: Port, whole: Packet, noise: seq<Packet>,
                               p: Packet, rest: seq<Packet>)
    requires whole == [] || |whole| >= PACKET_HEADER_SIZE
    requires SizeOk(p, PACKET_HEADER_SIZE) && (p[4] == DB_DONE || (p[4] == DB_DATA && whole == []))
    requires Settle(st, port, 0, noise).Settled?
    ensures Await(st, port, whole, 0, noise + [p] + rest)
         == Done(Settle(st, port, 0, noise).state, p, rest)
  {
    assert noise + [p] + rest == noise + ([p] + rest);
    NoiseIsSkipped(st, port, whole, 0, noise, [p] + rest);
    assert ([p] + rest)[1..] == rest;
  }

  function Blanks(n: nat): (b: seq<Packet>)
    ensures |b| == n
  {
    seq(n, _ => [])
  }

  lemma BlankTurn(st: ZeroState, port: Port, whole: Packet, blanks: nat, rest: seq<Packet>)
    requires whole == [] || |whole| >= PACKET_HEADER_SIZE
    ensures Await(st, port, whole, blanks, [[]] + rest) ==
      if blanks + 1 == BLANK_LIMIT then Failed(st, TenBlankPackets, rest) else Await(st, port, whole, blanks + 1, rest)
  {
    hide CheckSequence, Append;
    assert ([[]] + rest)[1..] == rest;
  }

  /** The bound on blank packets is exact: k more of them are survived just when the count stays below ten. */
  lemma {:induction false} BlanksAreCounted(st: ZeroState, port: Port, whole: Packet, blanks: nat, k: nat,
                                            rest: seq<Packet>)
    requires whole == [] || |whole| >= PACKET_HEADER_SIZE
    requires blanks < 10 && k > 0
    ensures Await(st, port, whole, blanks, Blanks(k) + rest) ==
      if blanks + k < 10 then Await(st, port, whole, blanks + k, rest)
      else Failed(st, TenBlankPackets, Blanks(k - (10 - blanks)) + rest)
    decreases k
  {
    hide Await;
    assert Blanks(k) + rest == [[]] + (Blanks(k - 1) + rest);
    BlankTurn(st, port, whole, blanks, Blanks(k - 1) + rest);
    if k == 1 {
      assert Blanks(0) + rest == rest;
    } else if blanks + 1 < BLANK_LIMIT {
      BlanksAreCounted(st, port, whole, blanks + 1, k - 1, rest);
    }
  }

  /** The packet with its socket field set, as Socket::Send does when there is room for it. */
  function WithSocket(p: Packet, socket: nat): (r: Packet)
    ensures |r| == |p|
    ensures |p| >= PACKET_HEADER_SIZE ==> Val16(r, 0) == Low16(socket) && r[2..] == p[2..]
    ensures |p| < PACKET_HEADER_SIZE ==> r == p
  {
    HalvesOfLow16(socket);
    if |p| >= PACKET_HEADER_SIZE then Le16(socket) + p[2..] else p
  }

  /** Everything the port writes while it sends the packets one after the other. */
  function WritesAll(ps: seq<Packet>, socket: nat): seq<Packet>
  {
    if ps == [] then [] else Writes(WithSocket(ps[0], socket)) + WritesAll(ps[1..], socket)
  }

  /** w is p as it goes out on a socket: only the socket field is new, and a packet too short for one stays. */
  predicate SentAs(w: Packet, p: Packet, socket: nat)
  {
    && |w| == |p|
    && if |p| >= PACKET_HEADER_SIZE then Val16(w, 0) == Low16(socket) && w[2..] == p[2..] else w == p
  }

  /** So do all of ws. */
  predicate AllSentAs(ws: seq<Packet>, ps: seq<Packet>, socket: nat)
  {
    |ws| == |ps| && forall i :: 0 <= i < |ps| ==> SentAs(ws[i], ps[i], socket)
  }

  /** A device that drops the size packets gets the fragments... */
  function DropSizePackets(ws: seq<Packet>): seq<Packet>
  {
    if ws == [] then [] else (if |ws[0]| == 3 then [] else [ws[0]]) + DropSizePackets(ws[1..])
  }

  lemma {:induction false} DropOfWrites(p: Packet, rest: seq<Packet>)
    requires |p| != 3
    ensures DropSizePackets(Writes(p) + rest) == [p] + DropSizePackets(rest)
  {
    var w := Writes(p);
    if |p| % 0x40 == 0 {
      assert (w + rest)[1..] == [p] + rest;
      assert ([p] + rest)[1..] == rest;
      assert DropSizePackets(w + rest) == [] + DropSizePackets([p] + rest);
    } else {
      assert (w + rest)[1..] == rest;
    }
  }

  /** Of every packet that is no size packet, the socket field is the one of this socket and the rest is the piece. */
  lemma {:induction false} PiecesGoToSocket(ps: seq<Packet>, socket: nat)
    requires forall p :: p in ps ==> |p| != 3
    ensures AllSentAs(DropSizePackets(WritesAll(ps, socket)), ps, socket)
    decreases |ps|
  {
    hide WithSocket, Writes, SentAs, DropSizePackets;
    if ps == [] {
      NothingDropped();
    } else {
      var p, tail := ps[0], ps[1..];
      var ws, sent := DropSizePackets(WritesAll(tail, socket)), WithSocket(p, socket);
      assert p in ps && forall q :: q in tail ==> q in ps;
      PiecesGoToSocket(tail, socket);
      SocketIsSet(p, socket);
      DropOfWrites(sent, WritesAll(tail, socket));
      assert forall i :: 1 <= i < |ps| ==> ps[i] == tail[i - 1] && ([sent] + ws)[i] == ws[i - 1];
    }
  }

  lemma NothingDropped()
    ensures DropSizePackets([]) == []
  {
  }

  lemma SocketIsSet(p: Packet, socket: nat)
    ensures SentAs(WithSocket(p, socket), p, socket)
  {
  }

  lemma {:induction false} DeviceSeesFragments(whole: Packet, offset: nat, socket: nat)
    requires FRAG_HEADER_SIZE + offset <= |whole|
    ensures DropSizePackets(WritesAll(Fragments(whole, offset), socket)) == Fragments(WithSocket(whole, socket), offset)
    decreases |whole| - offset
  {
    var fs, whole' := Fragments(whole, offset), WithSocket(whole, socket);
    assert WithSocket(fs[0], socket) == Piece(whole', offset) by {
      SocketOfPiece(whole, offset, socket);
    }
    DropOfWrites(WithSocket(fs[0], socket), WritesAll(fs[1..], socket));
    if IsLast(whole, offset) {
      assert fs[1..] == [];
      assert WritesAll(fs[1..], socket) == [];
    } else {
      assert fs[1..] == Fragments(whole, offset + MAX_PAYLOAD);
      DeviceSeesFragments(whole, offset + MAX_PAYLOAD, socket);
    }
  }

  /** Setting the socket and stamping touch different bytes. */
  lemma StampThenSocket(p: Packet, command: Byte, socket: nat)
    requires |p| >= PACKET_HEADER_SIZE
    ensures WithSocket(Stamp(p, command), socket) == Stamp(WithSocket(p, socket), command)
  {
    var q := Le16(socket) + p[2..];
    assert q[..2] == Le16(socket) && q[5..] == p[5..];
    assert Stamp(p, command)[2..] == Le16(|p|) + [command] + p[5..];
    assert Le16(socket) + (Le16(|p|) + [command] + p[5..]) == Le16(socket) + Le16(|p|) + [command] + p[5..];
  }

  lemma SocketOfPiece(whole: Packet, offset: nat, socket: nat)
    requires FRAG_HEADER_SIZE + offset <= |whole|
    ensures WithSocket(Piece(whole, offset), socket) == Piece(WithSocket(whole, socket), offset)
  {
    hide Stamp;
    var from, next := FRAG_HEADER_SIZE + offset, FRAG_HEADER_SIZE + offset + Todo(whole, offset);
    var whole' := Le16(socket) + whole[2..];
    assert whole'[from..next] == whole[from..next];
    var a, b := whole[..FRAG_HEADER_SIZE] + whole[from..next], whole'[..FRAG_HEADER_SIZE] + whole'[from..next];
    assert b == Le16(socket) + a[2..];
    StampThenSocket(a, if IsLast(whole, offset) then DB_DATA else DB_FRAGMENTED, socket);
  }

  /** ... and joins them to the request: this socket, its own size, DB_DATA, and everything behind the header. */
  lemma DeviceJoinsRequest(request: Packet, socket: nat)
    requires |request| >= FRAG_HEADER_SIZE
    ensures var fs := DropSizePackets(WritesAll(Fragments(request, 0), socket));
      && (forall f :: f in fs ==> |f| >= FRAG_HEADER_SIZE)
      && var r := Join([], fs);
        && |r| == |request| && Val16(r, 0) == Low16(socket) && Val16(r, 2) == Low16(|request|)
        && r[4] == DB_DATA && r[5..] == request[5..]
  {
    hide Stamp, WithSocket, Fragments, WritesAll, Join, Val16, DropSizePackets;
    DeviceSeesFragments(request, 0, socket);
    JoinUndoesFragments(WithSocket(request, socket));
    SentAndStamped(request, socket);
  }

  lemma SentAndStamped(request: Packet, socket: nat)
    requires |request| >= PACKET_HEADER_SIZE
    ensures
      var r := Stamp(WithSocket(request, socket), DB_DATA);
      && |r| == |request| && Val16(r, 0) == Low16(socket) && Val16(r, 2) == Low16(|request|)
      && r[4] == DB_DATA && r[5..] == request[5..]
  {
    hide Stamp, WithSocket;
    var sent := WithSocket(request, socket);
    var r := Stamp(sent, DB_DATA);
    assert sent[2..][3..] == sent[5..] && request[2..][3..] == request[5..];
    assert r[0] == r[..2][0] == sent[0] && r[1] == r[..2][1] == sent[1];
  }

  /** The fragment sending loop from offset on; the answer to every fragment but the last is dropped. */
  function SendFragments(st: ZeroState, port: Port, send: Packet, offset: nat, incoming: seq<Packet>): Received
    requires FRAG_HEADER_SIZE + offset <= |send|
    decreases |send| - offset
  {
    var last := IsLast(send, offset);
    var r := Receive(st.(hideSequencePacket := last), port, incoming);
    if last || r.Lost? then r else SendFragments(r.state, port, send, offset + MAX_PAYLOAD, r.rest)
  }

  lemma OneFragment(st: ZeroState, port: Port, send: Packet, offset: nat, incoming: seq<Packet>)
    requires FRAG_HEADER_SIZE + offset <= |send|
    ensures
      var last := IsLast(send, offset);
      var r := Receive(st.(hideSequencePacket := last), port, incoming);
      && (!last ==> FRAG_HEADER_SIZE + offset + MAX_PAYLOAD <= |send|)
      && SendFragments(st, port, send, offset, incoming) ==
        if last || r.Lost? then r else SendFragments(r.state, port, send, offset + MAX_PAYLOAD, r.rest)
  {
    hide Receive;
  }

  lemma WritesOfFragments(whole: Packet, offset: nat, socket: nat)
    requires FRAG_HEADER_SIZE + offset <= |whole|
    ensures WritesAll(Fragments(whole, offset), socket) == Writes(WithSocket(Piece(whole, offset), socket))
      + if IsLast(whole, offset) then [] else WritesAll(Fragments(whole, offset + MAX_PAYLOAD), socket)
  {
    var fs := Fragments(whole, offset);
    assert fs[1..] == if IsLast(whole, offset) then [] else Fragments(whole, offset + MAX_PAYLOAD);
  }

  /** The sending half of Socket::Packet, up to the first packet of the reading loop. */
  function SendRequest(st: ZeroState, port: Port, send: Packet, incoming: seq<Packet>): Received
  {
    if |send| <= MAX_PACKET_SIZE then Receive(st, port, incoming) else SendFragments(st, port, send, 0, incoming)
  }

  /** Socket::Packet as a whole. */
  function PacketExchange(st: ZeroState, port: Port, send: Packet, incoming: seq<Packet>): Outcome
  {
    if !Accepted(send) then Failed(st, LogicError, incoming)
    else
      match SendRequest(st, port, send, incoming)
      case Lost(st', fault, rest) => Failed(st', fault, rest)
      case Got(st', p, rest) => Process(st', port, [], 0, p, rest)
  }

  /** With sequence packets shown, each fragment but the last takes one packet, whatever it is. */
  lemma {:induction false} AnswersAreDropped(st: ZeroState, port: Port, send: Packet, offset: nat,
                                             answers: seq<Packet>, more: seq<Packet>)
    requires FRAG_HEADER_SIZE + offset <= |send| && |answers| == |Fragments(send, offset)| - 1
    ensures SendFragments(st, port, send, offset, answers + more)
         == Receive(st.(hideSequencePacket := true), port, more)
    decreases |send| - offset
  {
    if IsLast(send, offset) {
      assert answers + more == more;
    } else {
      assert (answers + more)[0] == answers[0] && (answers + more)[1..] == answers[1..] + more;
      AnswersAreDropped(st.(hideSequencePacket := false), port, send, offset + MAX_PAYLOAD, answers[1..], more);
    }
  }

  /** Is the request one that Socket::Packet accepts? */
  predicate Accepted(request: Packet)
  {
    |request| >= PACKET_HEADER_SIZE && (request[4] == DB_DATA || request[4] == DB_DONE)
  }

  /** The packets an accepted request is sent as. */
  function Pieces(request: Packet): seq<Packet>
  {
    if |request| <= MAX_PACKET_SIZE then [request] else Fragments(request, 0)
  }

  /** How many answers the device gives before the last fragment of a request. */
  function EarlyAnswers(request: Packet): nat
  {
    if |request| <= MAX_PACKET_SIZE then 0 else |Fragments(request, 0)| - 1
  }

  function StateForReply(st: ZeroState, request: Packet): ZeroState
  {
    if |request| <= MAX_PACKET_SIZE then st else st.(hideSequencePacket := true)
  }

  lemma PiecesAreLong(request: Packet)
    requires Accepted(request)
    ensures forall p :: p in Pieces(request) ==> |p| >= PACKET_HEADER_SIZE
  {
    hide Fragments;
    if |request| > MAX_PACKET_SIZE {
      FragmentShape(request, 0);
      WellCutSizes(Fragments(request, 0));
    }
  }

  /** What an accepted request adds to the trace is its pieces, for this socket. */
  lemma RequestGoesToSocket(request: Packet, before: seq<Packet>, socket: nat)
    requires Accepted(request)
    ensures
      var after := before + WritesAll(Pieces(request), socket);
      AllSentAs(DropSizePackets(after[|before|..]), Pieces(request), socket)
  {
    hide WritesAll, DropSizePackets, Pieces, AllSentAs;
    PiecesAreLong(request);
    PiecesGoToSocket(Pieces(request), socket);
    assert (before + WritesAll(Pieces(request), socket))[|before|..] == WritesAll(Pieces(request), socket);
  }

  // ---- What is refused ----

  lemma {:induction false} RawFault(st: ZeroState, incoming: seq<Packet>)
    ensures RawReceive(st, incoming).Lost? ==> RawReceive(st, incoming).fault != LogicError
    decreases |incoming|
  {
    if incoming != [] && IsHidden(st, incoming[0]) && CheckSequence(st, 0, incoming[0]).Advanced? {
      RawFault(CheckSequence(st, 0, incoming[0]).state, incoming[1..]);
    }
  }

  lemma {:induction false} AwaitFault(st: ZeroState, port: Port, whole: Packet, blanks: nat, incoming: seq<Packet>)
    requires whole == [] || |whole| >= PACKET_HEADER_SIZE
    ensures Await(st, port, whole, blanks, incoming).Failed? ==>
      Await(st, port, whole, blanks, incoming).fault != LogicError
    decreases |incoming|
  {
    hide Append, RawReceive;
    RawFault(st, incoming);
    var r := Receive(st, port, incoming);
    if r.Got? {
      var t := Handle(r.state, port.socket, whole, blanks, r.packet);
      if t.Continue? {
        AwaitFault(t.state, port, t.whole, t.blanks, r.rest);
      }
    }
  }

  lemma {:induction false} SendFault(st: ZeroState, port: Port, send: Packet, offset: nat, incoming: seq<Packet>)
    requires FRAG_HEADER_SIZE + offset <= |send|
    ensures SendFragments(st, port, send, offset, incoming).Lost? ==>
      SendFragments(st, port, send, offset, incoming).fault != LogicError
    decreases |send| - offset
  {
    hide RawReceive;
    var last := IsLast(send, offset);
    var shown := st.(hideSequencePacket := last);
    RawFault(shown, incoming);
    if !last && Receive(shown, port, incoming).Got? {
      var r := Receive(shown, port, incoming);
      SendFault(r.state, port, send, offset + MAX_PAYLOAD, r.rest);
    }
  }

  /** A request is refused if and only if it is too short for a command, or has another one than DB_DATA, 0x40,
      and DB_DONE, 0x41; no device can bring that error about. */
  lemma RefusedRequests(st: ZeroState, port: Port, send: Packet, incoming: seq<Packet>)
    ensures
      var o := PacketExchange(st, port, send, incoming);
      var refused := |send| < 5 || (send[4] != 0x40 && send[4] != 0x41);
      && (o.Failed? && o.fault == LogicError <==> refused)
      && (refused ==> o == Failed(st, LogicError, incoming))
  {
    hide SendFragments, RawReceive, Await, Handle;
    if Accepted(send) {
      RawFault(st, incoming);
      if |send| > MAX_PACKET_SIZE {
        SendFault(st, port, send, 0, incoming);
      }
      var r := SendRequest(st, port, send, incoming);
      if r.Got? {
        ProcessFault(r.state, port, r.packet, r.rest);
      }
    }
  }

  lemma ProcessFault(st: ZeroState, port: Port, p: Packet, incoming: seq<Packet>)
    ensures Process(st, port, [], 0, p, incoming).Failed? ==> Process(st, port, [], 0, p, incoming).fault != LogicError
  {
    hide Append, Await;
    var t := Handle(st, port.socket, [], 0, p);
    if t.Continue? {
      AwaitFault(t.state, port, t.whole, t.blanks, incoming);
    }
  }

  /** After the answers to the early fragments, whatever they are, the reply is waited for. */
  lemma AnswersThenReply(st: ZeroState, port: Port, request: Packet, answers: seq<Packet>, more: seq<Packet>)
    requires Accepted(request) && |answers| == EarlyAnswers(request)
    ensures PacketExchange(st, port, request, answers + more) == Await(StateForReply(st, request), port, [], 0, more)
  {
    if |request| <= MAX_PACKET_SIZE {
      assert answers + more == more;
    } else {
      AnswersAreDropped(st, port, request, 0, answers, more);
    }
  }

  /** The end-to-end law: any accepted request, cut or not, gets exactly the reply the device meant, when the
      handshakes around the reply are in sequence for the library's own counter. What a device with a counter of
      its own gets is said in module Numbering. */
  lemma ExchangeReturnsReply(st: ZeroState, port: Port, request: Packet, answers: seq<Packet>,
                             reply: Packet, noises: seq<seq<Packet>>, rest: seq<Packet>)
    requires Accepted(request) && |answers| == EarlyAnswers(request)
    requires FRAG_HEADER_SIZE <= |reply| && |noises| == |Fragments(reply, 0)|
    requires SettleAll(StateForReply(st, request), port, noises).Settled?
    ensures PacketExchange(st, port, request, answers + (Weave(noises, Fragments(reply, 0)) + rest))
         == Done(SettleAll(StateForReply(st, request), port, noises).state, Stamp(reply, DB_DATA), rest)
  {
    AnswersThenReply(st, port, request, answers, Weave(noises, Fragments(reply, 0)) + rest);
    ReplyComesBack(StateForReply(st, request), port, reply, noises, rest);
  }
}
