/** A device that numbers its handshakes, and what it means for a long request that the answers to its early
    fragments are dropped unchecked. */
module Numbering {
  import opened Bytes
  import opened Fragment
  import opened Protocol
  import opened Exchange

  /** A sequence handshake of full size, which carries a running number. */
  predicate IsHandshake(p: Packet)
  {
    |p| >= SEQUENCE_PACKET_SIZE && p[4] == SEQUENCE_HANDSHAKE
  }

  function Number(p: Packet): (n: nat)
    ensures n < TWO_32
  {
    Val32(p, 8)
  }

  /** The device's own counter after a packet. */
  function Counted(n: nat, p: Packet): nat
  {
    if IsHandshake(p) then Low32(Number(p) + 1) else n
  }

  function CountedAll(n: nat, ps: seq<Packet>): nat
    decreases |ps|
  {
    if ps == [] then n else CountedAll(Counted(n, ps[0]), ps[1..])
  }

  /** From counter n on, the device gives each handshake the next number, or starts again with 0. */
  predicate Numbers(n: nat, ps: seq<Packet>)
    decreases |ps|
  {
    ps == []
    || ((IsHandshake(ps[0]) ==> Number(ps[0]) == n || Number(ps[0]) == 0) && Numbers(Counted(n, ps[0]), ps[1..]))
  }

  /** A handshake that is read past below the reading loop. */
  predicate Swallowed(port: Port, hiding: bool, p: Packet)
  {
    !port.registered && hiding && IsHandshake(p) && Val16(p, 0) == 0
  }

  /** Blank packets, fewer than ten in a row, and handshakes of the right size; blanks were read before. */
  predicate Quiet(port: Port, hiding: bool, blanks: nat, noise: seq<Packet>)
    decreases |noise|
  {
    if noise == [] then true
    else if noise[0] == [] then blanks + 1 < BLANK_LIMIT && Quiet(port, hiding, blanks + 1, noise[1..])
    else
      && IsHandshake(noise[0]) && SizeOk(noise[0], SEQUENCE_PACKET_SIZE)
      && Quiet(port, hiding, if Swallowed(port, hiding, noise[0]) then blanks else 0, noise[1..])
  }

  /** A wrong number is noticed only outside socket 0, on a handshake that is not read past, and before the
      device starts again with 0. */
  predicate Forgiven(port: Port, hiding: bool, ps: seq<Packet>)
    decreases |ps|
  {
    if ps == [] then true
    else if !IsHandshake(ps[0]) then Forgiven(port, hiding, ps[1..])
    else Number(ps[0]) == 0 || ((port.socket == 0 || Swallowed(port, hiding, ps[0])) && Forgiven(port, hiding, ps[1..]))
  }

  predicate Restarts(ps: seq<Packet>)
  {
    exists p :: p in ps && IsHandshake(p) && Number(p) == 0
  }

  // ---- Parts of a packet stream ----

  lemma {:induction false} NumbersOfConcat(n: nat, a: seq<Packet>, b: seq<Packet>)
    ensures Numbers(n, a + b) <==> Numbers(n, a) && Numbers(CountedAll(n, a), b)
    ensures CountedAll(n, a + b) == CountedAll(CountedAll(n, a), b)
    decreases |a|
  {
    hide Counted, IsHandshake, Number;
    if a == [] {
      assert a + b == b;
    } else {
      assert (a + b)[1..] == a[1..] + b;
      NumbersOfConcat(Counted(n, a[0]), a[1..], b);
    }
  }

  lemma {:induction false} ForgivenOfConcat(port: Port, hiding: bool, a: seq<Packet>, b: seq<Packet>)
    ensures Forgiven(port, hiding, a + b)
      <==> Forgiven(port, hiding, a) && (Restarts(a) || Forgiven(port, hiding, b))
    decreases |a|
  {
    hide Swallowed, Number, IsHandshake;
    if a == [] {
      assert a + b == b;
    } else {
      assert (a + b)[1..] == a[1..] + b;
      ForgivenOfConcat(port, hiding, a[1..], b);
      RestartsOfTail(a);
    }
  }

  lemma RestartsOfTail(a: seq<Packet>)
    requires a != []
    ensures Restarts(a) <==> (IsHandshake(a[0]) && Number(a[0]) == 0) || Restarts(a[1..])
  {
    hide Number, IsHandshake;
    assert forall p :: p in a <==> p == a[0] || p in a[1..];
  }

  // ---- One run of noise ----

  /** What the library's counter does with one handshake of the device. */
  lemma CheckedNumber(st: ZeroState, socket: nat, dev: nat, p: Packet)
    requires IsHandshake(p) && (Number(p) == dev || Number(p) == 0)
    requires st.sequenceId < TWO_32 && dev < TWO_32
    ensures
      var c := CheckSequence(st, socket, p);
      && (c.Advanced? <==> Number(p) == 0 || st.sequenceId == dev || socket == 0)
      && (c.Rejected? ==> c.fault == OutOfSequence)
      && (c.Advanced? ==>
            && c.state == st.(sequenceId := c.state.sequenceId) && c.state.sequenceId < TWO_32
            && (c.state.sequenceId == Counted(dev, p) <==> Number(p) == 0 || st.sequenceId == dev))
  {
    hide Val32;
  }

  lemma SwallowedIsHidden(st: ZeroState, port: Port, p: Packet)
    requires IsHandshake(p)
    ensures Swallowed(port, st.hideSequencePacket, p) <==> !port.registered && IsHidden(st, p)
  {
  }

  /** Quiet noise settles exactly when the counters agree or the difference is forgiven; they agree after it
      exactly when they did before or the device started again. */
  lemma {:induction false} NoiseOutcome(st: ZeroState, port: Port, dev: nat, blanks: nat, noise: seq<Packet>)
    requires st.sequenceId < TWO_32 && dev < TWO_32
    requires Quiet(port, st.hideSequencePacket, blanks, noise) && Numbers(dev, noise)
    ensures
      var s := Settle(st, port, blanks, noise);
      && (s.Settled? <==> st.sequenceId == dev || Forgiven(port, st.hideSequencePacket, noise))
      && (s.Settled? ==>
            && s.state == st.(sequenceId := s.state.sequenceId) && s.state.sequenceId < TWO_32
            && CountedAll(dev, noise) < TWO_32
            && (s.state.sequenceId == CountedAll(dev, noise) <==> st.sequenceId == dev || Restarts(noise)))
    decreases |noise|
  {
    hide CheckSequence, IsHidden, Swallowed, SizeOk, Number, Counted, IsHandshake, Restarts;
    if noise == [] {
      NothingRestarts();
    } else {
      var p, tail := noise[0], noise[1..];
      RestartsOfTail(noise);
      if p == [] {
        BlankIsNoHandshake(p, dev);
        NoiseOutcome(st, port, dev, blanks + 1, tail);
      } else {
        HandshakeFacts(p, dev);
        SwallowedIsHidden(st, port, p);
        var hidden := Swallowed(port, st.hideSequencePacket, p);
        var socket := if hidden then 0 else port.socket;
        CheckedNumber(st, socket, dev, p);
        if CheckSequence(st, socket, p).Advanced? {
          NoiseOutcome(CheckSequence(st, socket, p).state, port, Counted(dev, p), if hidden then blanks else 0, tail);
        }
      }
    }
  }

  lemma NothingRestarts()
    ensures !Restarts([])
  {
  }

  lemma BlankIsNoHandshake(p: Packet, dev: nat)
    requires p == []
    ensures !IsHandshake(p) && Counted(dev, p) == dev
  {
  }

  lemma HandshakeFacts(p: Packet, dev: nat)
    requires IsHandshake(p)
    ensures |p| >= SEQUENCE_PACKET_SIZE && p[4] == SEQUENCE_HANDSHAKE && Counted(dev, p) < TWO_32
  {
  }

  /** Otherwise reading fails with the sequence error. */
  lemma {:induction false} NoiseFails(st: ZeroState, port: Port, dev: nat, whole: Packet, blanks: nat,
                                      noise: seq<Packet>, rest: seq<Packet>)
    requires whole == [] || |whole| >= PACKET_HEADER_SIZE
    requires st.sequenceId < TWO_32 && dev < TWO_32
    requires Quiet(port, st.hideSequencePacket, blanks, noise) && Numbers(dev, noise)
    requires Settle(st, port, blanks, noise).Upset?
    ensures
      var o := Await(st, port, whole, blanks, noise + rest);
      o.Failed? && o.fault == OutOfSequence
    decreases |noise|
  {
    hide CheckSequence, IsHidden, Swallowed, Number, Counted, IsHandshake, Await;
    var p, tail := noise[0], noise[1..];
    assert (noise + rest)[0] == p && (noise + rest)[1..] == tail + rest;
    if p == [] {
      BlankIsNoHandshake(p, dev);
      AwaitBlank(st, port, whole, blanks, tail + rest);
      NoiseFails(st, port, dev, whole, blanks + 1, tail, rest);
      assert noise + rest == [p] + (tail + rest);
    } else {
      HandshakeFacts(p, dev);
      SwallowedIsHidden(st, port, p);
      var hidden := Swallowed(port, st.hideSequencePacket, p);
      var socket := if hidden then 0 else port.socket;
      CheckedNumber(st, socket, dev, p);
      AwaitHandshake(st, port, whole, blanks, p, tail + rest);
      assert noise + rest == [p] + (tail + rest);
      if CheckSequence(st, socket, p).Advanced? {
        NoiseFails(CheckSequence(st, socket, p).state, port, Counted(dev, p), whole,
                   if hidden then blanks else 0, tail, rest);
      }
    }
  }

  lemma AwaitBlank(st: ZeroState, port: Port, whole: Packet, blanks: nat, rest: seq<Packet>)
    requires (whole == [] || |whole| >= PACKET_HEADER_SIZE) && blanks + 1 < BLANK_LIMIT
    ensures Await(st, port, whole, blanks, [[]] + rest) == Await(st, port, whole, blanks + 1, rest)
  {
    assert ([[]] + rest)[1..] == rest;
  }

  /** A handshake is checked on its way, as one of socket 0 or of this socket. */
  lemma AwaitHandshake(st: ZeroState, port: Port, whole: Packet, blanks: nat, p: Packet, rest: seq<Packet>)
    requires (whole == [] || |whole| >= PACKET_HEADER_SIZE) && IsHandshake(p) && SizeOk(p, SEQUENCE_PACKET_SIZE)
    ensures
      var hidden := Swallowed(port, st.hideSequencePacket, p);
      var o := Await(st, port, whole, blanks, [p] + rest);
      match CheckSequence(st, if hidden then 0 else port.socket, p)
      case Rejected(fault) => o.Failed? && o.fault == fault
      case Advanced(st') => o == Await(st', port, whole, if hidden then blanks else 0, rest)
  {
    hide CheckSequence, Val16;
    assert ([p] + rest)[0] == p && ([p] + rest)[1..] == rest;
    SizeOkMeans(p);
    hide SizeOk;
  }

  lemma SizeOkMeans(p: Packet)
    requires SizeOk(p, SEQUENCE_PACKET_SIZE)
    ensures SizeOk(p, PACKET_HEADER_SIZE)
  {
  }

  // ---- A whole exchange ----

  predicate AllQuiet(port: Port, hiding: bool, noises: seq<seq<Packet>>)
  {
    forall noise :: noise in noises ==> Quiet(port, hiding, 0, noise)
  }

  /** All the noise around a reply: it settles exactly when the counters agree or the difference is forgiven,
      and otherwise reading fails with the sequence error. */
  lemma {:induction false} NoisesOutcome(st: ZeroState, port: Port, dev: nat, whole: Packet, noises: seq<seq<Packet>>,
                                         fragments: seq<Packet>, rest: seq<Packet>)
    requires whole == [] || |whole| >= PACKET_HEADER_SIZE
    requires st.sequenceId < TWO_32 && dev < TWO_32 && WellCut(fragments) && |noises| == |fragments|
    requires AllQuiet(port, st.hideSequencePacket, noises) && Numbers(dev, Flatten(noises))
    ensures
      var fine := st.sequenceId == dev || Forgiven(port, st.hideSequencePacket, Flatten(noises));
      var o := Await(st, port, whole, 0, Weave(noises, fragments) + rest);
      && (SettleAll(st, port, noises).Settled? <==> fine)
      && (!fine ==> o.Failed? && o.fault == OutOfSequence)
    decreases |noises|
  {
    hide Await, Settle, Append, Numbers, Forgiven, Restarts, Quiet, CountedAll;
    var hiding, noise, tail, f := st.hideSequencePacket, noises[0], noises[1..], fragments[0];
    var flat, later := Flatten(tail), Weave(tail, fragments[1..]) + rest;
    assert noise in noises;
    NumbersOfConcat(dev, noise, flat);
    ForgivenOfConcat(port, hiding, noise, flat);
    NoiseOutcome(st, port, dev, 0, noise);
    assert Weave(noises, fragments) + rest == noise + ([f] + later);
    var s := Settle(st, port, 0, noise);
    if s.Upset? {
      NoiseFails(st, port, dev, whole, 0, noise, [f] + later);
    } else {
      NoiseIsSkipped(st, port, whole, 0, noise, [f] + later);
      NoiseDoesNotMatter(s.state, port, whole, s.blanks, f, later);
      FragmentIsJoined(s.state, port, whole, f, later);
      if |fragments| == 1 {
        NothingToForgive(port, hiding);
        assert tail == [] && flat == [];
      } else {
        assert WellCut(fragments[1..]);
        NoisesOutcome(s.state, port, CountedAll(dev, noise), Append(whole, f), tail, fragments[1..], rest);
      }
    }
  }

  lemma NothingToForgive(port: Port, hiding: bool)
    ensures Forgiven(port, hiding, [])
  {
  }

  lemma {:induction false} CountStaysSmall(n: nat, ps: seq<Packet>)
    requires n < TWO_32
    ensures CountedAll(n, ps) < TWO_32
    decreases |ps|
  {
    if ps != [] {
      CountStaysSmall(Counted(n, ps[0]), ps[1..]);
    }
  }

  /** A device that starts in step with the library and numbers all its handshakes, those among the dropped
      answers too: the reply arrives if and only if its counter stands where it stood after these answers, or
      no wrong number can be noticed. Otherwise the exchange fails with the sequence error. */
  lemma NumberedExchange(st: ZeroState, port: Port, request: Packet, answers: seq<Packet>,
                         reply: Packet, noises: seq<seq<Packet>>, rest: seq<Packet>)
    requires Accepted(request) && |answers| == EarlyAnswers(request) && st.sequenceId < TWO_32
    requires FRAG_HEADER_SIZE <= |reply| && |noises| == |Fragments(reply, 0)|
    requires Numbers(st.sequenceId, answers + Flatten(noises))
    requires AllQuiet(port, StateForReply(st, request).hideSequencePacket, noises)
    ensures
      var o := PacketExchange(st, port, request, answers + (Weave(noises, Fragments(reply, 0)) + rest));
      && (o.Done? <==>
            || CountedAll(st.sequenceId, answers) == st.sequenceId
            || Forgiven(port, StateForReply(st, request).hideSequencePacket, Flatten(noises)))
      && (o.Done? ==> o.reply == Stamp(reply, DB_DATA) && o.rest == rest)
      && (o.Failed? ==> o.fault == OutOfSequence)
  {
    hide Await, Fragments, Numbers, Forgiven, CountedAll, SettleAll, PacketExchange, Quiet;
    var st', fs := StateForReply(st, request), Fragments(reply, 0);
    var dev := CountedAll(st.sequenceId, answers);
    AnswersThenReply(st, port, request, answers, Weave(noises, fs) + rest);
    NumbersOfConcat(st.sequenceId, answers, Flatten(noises));
    CountStaysSmall(st.sequenceId, answers);
    FragmentShape(reply, 0);
    NoisesOutcome(st', port, dev, [], noises, fs, rest);
    if SettleAll(st', port, noises).Settled? {
      ReplyComesBack(st', port, reply, noises, rest);
    }
  }

  /** A short request is always answered: nothing is dropped. */
  lemma ShortRequestStaysInStep(st: ZeroState, port: Port, request: Packet, reply: Packet,
                                noises: seq<seq<Packet>>, rest: seq<Packet>)
    requires Accepted(request) && |request| <= MAX_PACKET_SIZE && st.sequenceId < TWO_32
    requires FRAG_HEADER_SIZE <= |reply| && |noises| == |Fragments(reply, 0)|
    requires Numbers(st.sequenceId, Flatten(noises)) && AllQuiet(port, st.hideSequencePacket, noises)
    ensures PacketExchange(st, port, request, Weave(noises, Fragments(reply, 0)) + rest).Done?
  {
    hide PacketExchange, Fragments, Numbers, Quiet;
    var incoming := Weave(noises, Fragments(reply, 0)) + rest;
    assert [] + Flatten(noises) == Flatten(noises) && [] + incoming == incoming;
    NumberedExchange(st, port, request, [], reply, noises, rest);
  }

  /** On a routed socket other than 0, the first handshake after the dropped answers fails the exchange when its
      number is not the one that the library counts. */
  lemma DroppedHandshakeFails(st: ZeroState, port: Port, request: Packet, answers: seq<Packet>,
                              handshake: Packet, more: seq<Packet>)
    requires Accepted(request) && |answers| == EarlyAnswers(request)
    requires port.registered && port.socket != 0
    requires IsHandshake(handshake) && SizeOk(handshake, SEQUENCE_PACKET_SIZE)
    requires Number(handshake) != 0 && Number(handshake) != st.sequenceId
    ensures PacketExchange(st, port, request, answers + ([handshake] + more))
         == Failed(StateForReply(st, request), OutOfSequence, more)
  {
    hide Val32, Val16, PacketExchange;
    AnswersThenReply(st, port, request, answers, [handshake] + more);
    assert ([handshake] + more)[1..] == more;
    SizeOkMeans(handshake);
    hide SizeOk;
  }
}
