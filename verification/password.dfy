/** The half-open password handshake of SocketZero::Open. */
module Password {
  import opened Bytes
  import opened Protocol
  import opened Wrappers
  import Sha1Spec

  const OPEN_SOCKET: Byte := 0x0a
  const PASSWORD_CHALLENGE: Byte := 0x0e
  const PASSWORD: Byte := 0x0f
  const OPENED_SOCKET: Byte := 0x10
  const PASSWORD_FAILED: Byte := 0x11
  const MIN_PASSWORD_TRIES := 3
  const CHALLENGE_HEADER_SIZE := 12
  const CHALLENGE_SEED_SIZE := 16
  const PASSWORD_PACKET_SIZE := 32

  function OpenRequest(socket: nat, sequence: Byte): (p: Packet)
    ensures |p| == 8 && Val16(p, 0) == 0 && Val16(p, 2) == |p| && p[4] == 0x0a
    ensures Val16(p, 5) == Low16(socket) && p[7] == sequence
  {
    HalvesOfLow16(socket);
    [0, 0] + Le16(SOCKET_HEADER_SIZE) + [OPEN_SOCKET] + Le16(socket) + [sequence]
  }

  /** The password digest, hashed again behind the seed. */
  function HashOf(seed: nat, password: seq<Byte>): (h: seq<Byte>)
    ensures |h| == 20
  {
    Sha1Spec.Digest(Le32(seed) + Sha1Spec.Digest(password))
  }

  function HashRequest(socket: nat, sequence: Byte, hash: seq<Byte>): (p: Packet)
    requires |hash| == 20
    ensures |p| == 32 && Val16(p, 0) == 0 && Val16(p, 2) == |p| && p[4] == 0x0f
    ensures Val16(p, 5) == Low16(socket) && p[7] == sequence && Val16(p, 10) == |hash| && p[12..] == hash
  {
    HalvesOfLow16(socket);
    [0, 0] + Le16(PASSWORD_PACKET_SIZE) + [PASSWORD] + Le16(socket) + [sequence] + [0, 0] + Le16(0x14) + hash
  }

  /** One read for an answer: sequence packets that were not hidden are checked and read past once. */
  function Answer(st: ZeroState, incoming: seq<Packet>): (r: Received)
  {
    match RawReceive(st, incoming)
    case Lost(st1, fault, rest) => Lost(st1, fault, rest)
    case Got(st1, p, rest) =>
      if !SizeOk(p, PACKET_HEADER_SIZE) then Lost(st1, BadSize, rest)
      else if p[4] != SEQUENCE_HANDSHAKE then Got(st1, p, rest)
      else
        match CheckSequence(st1, 0, p)
        case Rejected(fault) => Lost(st1, fault, rest)
        case Advanced(st2) => RawReceive(st2, rest)
  }

  datatype OpenResult = Opened(closeFlag: Byte) | Threw(fault: Fault)

  /** What one call of Open does: the state it leaves, its result, what it sent and what it left unread. */
  datatype OpenEffect = OpenEffect(state: ZeroState, result: OpenResult, sent: seq<Packet>, rest: seq<Packet>)

  /** The last check of Open. */
  function Accept(socket: nat, closeFlag: Byte, p: Packet): OpenResult
  {
    if !SizeOk(p, PACKET_HEADER_SIZE) then Threw(BadSize)
    else if p[4] != OPENED_SOCKET then Threw(BadOpenedPacket)
    else if !SizeOk(p, SOCKET_HEADER_SIZE) then Threw(BadSize)
    else if Val16(p, 5) != socket || p[7] != closeFlag then Threw(BadOpenedPacket)
    else Opened(closeFlag)
  }

  /** The half-open part of Open. */
  function TryPassword(st: ZeroState, socket: nat, password: Option<seq<Byte>>, incoming: seq<Packet>): OpenEffect
  {
    if password.None? then OpenEffect(st, Threw(BadPassword(st.remainingTries, false)), [], incoming)
    else if st.remainingTries < MIN_PASSWORD_TRIES then
      OpenEffect(st, Threw(BadPassword(st.remainingTries, true)), [], incoming)
    else
      var sent := [HashRequest(socket, st.zeroSocketSequence, HashOf(st.challengeSeed, password.value))];
      match Answer(st, incoming)
      case Lost(st1, fault, rest) => OpenEffect(st1, Threw(fault), sent, rest)
      case Got(st1, p, rest) =>
        if !SizeOk(p, PACKET_HEADER_SIZE) then OpenEffect(st1, Threw(BadSize), sent, rest)
        else if p[4] != PASSWORD_FAILED then
          OpenEffect(st1.(halfOpen := false), Accept(socket, st.zeroSocketSequence, p), sent, rest)
        else
          var st2 := st1.(halfOpen := true);
          if !SizeOk(p, CHALLENGE_SEED_SIZE) then OpenEffect(st2, Threw(BadSize), sent, rest)
          else
            var st3 := st2.(challengeSeed := Val32(p, 12), remainingTries := p[8]);
            OpenEffect(st3, Threw(BadPassword(p[8], false)), sent, rest)
  }

  /** SocketZero::Open. */
  function Open(st: ZeroState, socket: nat, password: Option<seq<Byte>>, incoming: seq<Packet>): OpenEffect
  {
    if st.halfOpen then TryPassword(st, socket, password, incoming)
    else
      var sent := [OpenRequest(socket, st.zeroSocketSequence)];
      match Answer(st.(remainingTries := 0), incoming)
      case Lost(st1, fault, rest) => OpenEffect(st1, Threw(fault), sent, rest)
      case Got(st1, p, rest) =>
        if !SizeOk(p, PACKET_HEADER_SIZE) then OpenEffect(st1, Threw(BadSize), sent, rest)
        else if p[4] != PASSWORD_CHALLENGE then
          OpenEffect(st1, Accept(socket, st.zeroSocketSequence, p), sent, rest)
        else
          var st2 := st1.(halfOpen := true);
          if !SizeOk(p, CHALLENGE_SEED_SIZE) then OpenEffect(st2, Threw(BadSize), sent, rest)
          else
            var st3 := st2.(challengeSeed := Val32(p, 12), remainingTries := p[8]);
            var tried := TryPassword(st3, socket, password, rest);
            tried.(sent := sent + tried.sent)
  }

  // ---- The device at the other end ----

  /** Its counter, and the seed of the latest challenge or failure it sent. */
  datatype Device = Device(tries: nat, seed: nat)

  /** An answer is handshakes on socket 0 followed by one packet of another kind. */
  datatype DeviceAnswer = DeviceAnswer(handshakes: seq<Packet>, packet: Packet)

  function Stream(a: DeviceAnswer): seq<Packet>
  {
    a.handshakes + [a.packet]
  }

  predicate WellFormed(a: DeviceAnswer)
  {
    && (forall h :: h in a.handshakes ==>
          |h| >= SEQUENCE_PACKET_SIZE && Val16(h, 0) == 0 && h[4] == SEQUENCE_HANDSHAKE)
    && SizeOk(a.packet, PACKET_HEADER_SIZE) && a.packet[4] != SEQUENCE_HANDSHAKE
  }

  /** A challenge states the true counter. */
  predicate HonestToOpen(d: Device, a: DeviceAnswer)
  {
    && WellFormed(a)
    && (a.packet[4] == PASSWORD_CHALLENGE ==> |a.packet| >= CHALLENGE_SEED_SIZE && a.packet[8] == d.tries)
  }

  /** A failure costs one try and states the counter after it. */
  predicate HonestToHash(d: Device, a: DeviceAnswer)
  {
    && WellFormed(a)
    && (a.packet[4] == PASSWORD_FAILED ==>
          d.tries > 0 && |a.packet| >= CHALLENGE_SEED_SIZE && a.packet[8] == d.tries - 1)
  }

  function AfterOpen(d: Device, a: DeviceAnswer): Device
    requires HonestToOpen(d, a)
  {
    if a.packet[4] == PASSWORD_CHALLENGE then d.(seed := Val32(a.packet, 12)) else d
  }

  function AfterHash(d: Device, a: DeviceAnswer): Device
    requires HonestToHash(d, a)
  {
    if a.packet[4] == PASSWORD_FAILED then Device(d.tries - 1, Val32(a.packet, 12)) else d
  }

  /** One call of Open, with the answers the device will give to what the call sends. */
  datatype Call = Call(socket: nat, password: Option<seq<Byte>>, toOpen: DeviceAnswer, toHash: DeviceAnswer)

  /** The device when the call may send a hash. */
  function DeviceAtHash(d: Device, st: ZeroState, c: Call): Device
    requires HonestToOpen(d, c.toOpen)
  {
    if st.halfOpen then d else AfterOpen(d, c.toOpen)
  }

  predicate Honest(d: Device, st: ZeroState, c: Call)
  {
    HonestToOpen(d, c.toOpen) && HonestToHash(DeviceAtHash(d, st, c), c.toHash)
  }

  function CallStream(st: ZeroState, c: Call): seq<Packet>
  {
    (if st.halfOpen then [] else Stream(c.toOpen)) + Stream(c.toHash)
  }

  function Effect(st: ZeroState, c: Call): OpenEffect
  {
    Open(st, c.socket, c.password, CallStream(st, c))
  }

  predicate IsHash(p: Packet)
  {
    |p| >= PACKET_HEADER_SIZE && p[4] == PASSWORD
  }

  predicate SendsHash(st: ZeroState, c: Call)
  {
    exists p :: p in Effect(st, c).sent && IsHash(p)
  }

  function DeviceAfter(d: Device, st: ZeroState, c: Call): Device
    requires Honest(d, st, c)
  {
    var d1 := DeviceAtHash(d, st, c);
    if SendsHash(st, c) then AfterHash(d1, c.toHash) else d1
  }

  /** What Open relies on between calls: while half open, it knows the counter and the seed. */
  predicate InStep(d: Device, st: ZeroState)
  {
    st.hideSequencePacket && (st.halfOpen ==> st.remainingTries == d.tries && st.challengeSeed == d.seed)
  }

  /** Handshakes of socket 0, and behind them a packet of another kind, whatever it is. */
  predicate Arrives(hs: seq<Packet>, p: Packet)
  {
    && (forall h :: h in hs ==> |h| >= SEQUENCE_PACKET_SIZE && Val16(h, 0) == 0 && h[4] == SEQUENCE_HANDSHAKE)
    && (|p| >= 5 ==> p[4] != SEQUENCE_HANDSHAKE)
  }

  lemma {:induction false} FirstOther(st: ZeroState, hs: seq<Packet>, p: Packet, rest: seq<Packet>)
    requires st.hideSequencePacket && Arrives(hs, p)
    ensures var r := RawReceive(st, hs + [p] + rest);
      r.Got? && r.packet == p && r.rest == rest && r.state == st.(sequenceId := r.state.sequenceId)
    decreases |hs|
  {
    if hs == [] {
      assert hs + [p] + rest == [p] + rest;
    } else {
      assert (hs + [p] + rest)[1..] == hs[1..] + [p] + rest;
      FirstOther(CheckSequence(st, 0, hs[0]).state, hs[1..], p, rest);
    }
  }

  /** What Open reads as the answer to what it sent, or the size error. */
  lemma AnswerIs(st: ZeroState, hs: seq<Packet>, p: Packet, rest: seq<Packet>)
    requires st.hideSequencePacket && Arrives(hs, p)
    ensures var r := Answer(st, hs + [p] + rest);
      && r.state == st.(sequenceId := r.state.sequenceId) && r.rest == rest
      && if SizeOk(p, PACKET_HEADER_SIZE) then r.Got? && r.packet == p else r.Lost? && r.fault == BadSize
  {
    hide RawReceive;
    FirstOther(st, hs, p, rest);
  }

  lemma AnswerArrives(st: ZeroState, a: DeviceAnswer, rest: seq<Packet>)
    requires st.hideSequencePacket && WellFormed(a)
    ensures var r := Answer(st, Stream(a) + rest);
      r.Got? && r.packet == a.packet && r.rest == rest && r.state == st.(sequenceId := r.state.sequenceId)
  {
    hide Answer;
    AnswerIs(st, a.handshakes, a.packet, rest);
  }

  /** The half-open part: a hash goes out only with three or more tries left, over the latest seed. */
  lemma PasswordStep(d: Device, st: ZeroState, c: Call)
    requires InStep(d, st) && st.halfOpen && HonestToHash(d, c.toHash)
    ensures var e := TryPassword(st, c.socket, c.password, Stream(c.toHash));
      if e.sent == [] then InStep(d, e.state)
      else
        && d.tries >= MIN_PASSWORD_TRIES && c.password.Some?
        && e.sent == [HashRequest(c.socket, st.zeroSocketSequence, HashOf(d.seed, c.password.value))]
        && InStep(AfterHash(d, c.toHash), e.state)
  {
    AnswerArrives(st, c.toHash, []);
    assert Stream(c.toHash) + [] == Stream(c.toHash);
  }

  /** A call that is not half open asks first; only a challenge leads on to the password. */
  lemma AskedFirst(d: Device, st: ZeroState, c: Call) returns (asked: ZeroState)
    requires InStep(d, st) && Honest(d, st, c) && !st.halfOpen
    ensures
      var e, request := Effect(st, c), OpenRequest(c.socket, st.zeroSocketSequence);
      if c.toOpen.packet[4] != PASSWORD_CHALLENGE then e.sent == [request] && InStep(d, e.state)
      else
        && asked.halfOpen && asked.zeroSocketSequence == st.zeroSocketSequence
        && InStep(AfterOpen(d, c.toOpen), asked)
        && var tried := TryPassword(asked, c.socket, c.password, Stream(c.toHash));
          e == tried.(sent := [request] + tried.sent)
  {
    hide TryPassword, Answer, OpenRequest, Val32, Stream, Accept;
    AnswerArrives(st.(remainingTries := 0), c.toOpen, Stream(c.toHash));
    asked := Answer(st.(remainingTries := 0), CallStream(st, c)).state;
    if c.toOpen.packet[4] == PASSWORD_CHALLENGE {
      asked := asked.(halfOpen := true, challengeSeed := Val32(c.toOpen.packet, 12),
                      remainingTries := c.toOpen.packet[8]);
    }
  }

  lemma HalfOpenCall(st: ZeroState, c: Call)
    requires st.halfOpen
    ensures Effect(st, c) == TryPassword(st, c.socket, c.password, Stream(c.toHash))
  {
    hide TryPassword, Stream;
    assert CallStream(st, c) == Stream(c.toHash);
  }

  lemma RequestsByKind(socket: nat, sequence: Byte, hash: seq<Byte>)
    requires |hash| == 20
    ensures !IsHash(OpenRequest(socket, sequence)) && IsHash(HashRequest(socket, sequence, hash))
  {
  }

  /** A call sends at most one hash, with three or more tries left and over the latest seed, and both sides agree
      on what is left afterwards. */
  lemma CallSends(d: Device, st: ZeroState, c: Call)
    requires InStep(d, st) && Honest(d, st, c)
    ensures
      var e, d1 := Effect(st, c), DeviceAtHash(d, st, c);
      if exists p :: p in e.sent && IsHash(p) then
        && d1.tries >= MIN_PASSWORD_TRIES && c.password.Some?
        && var h := HashRequest(c.socket, st.zeroSocketSequence, HashOf(d1.seed, c.password.value));
          (forall p :: p in e.sent && IsHash(p) ==> p == h) && InStep(AfterHash(d1, c.toHash), e.state)
      else InStep(d1, e.state)
  {
    hide TryPassword, Effect, OpenRequest, HashRequest, HashOf, Stream, IsHash, AfterHash, Val32;
    var e, d1 := Effect(st, c), DeviceAtHash(d, st, c);
    if st.halfOpen {
      HalfOpenCall(st, c);
      PasswordStep(d, st, c);
      OneHash(e.sent, [], d1, st, c);
    } else {
      var asked := AskedFirst(d, st, c);
      var request := [OpenRequest(c.socket, st.zeroSocketSequence)];
      if c.toOpen.packet[4] == PASSWORD_CHALLENGE {
        PasswordStep(d1, asked, c);
        OneHash(TryPassword(asked, c.socket, c.password, Stream(c.toHash)).sent, request, d1, st, c);
      } else {
        OneHash([], request, d1, st, c);
        assert request + [] == request;
      }
    }
  }

  /** Behind an open request or nothing, the tried part decides whether there is a hash. */
  lemma OneHash(tried: seq<Packet>, request: seq<Packet>, d1: Device, st: ZeroState, c: Call)
    requires request == [] || request == [OpenRequest(c.socket, st.zeroSocketSequence)]
    requires tried == [] || (c.password.Some?
      && tried == [HashRequest(c.socket, st.zeroSocketSequence, HashOf(d1.seed, c.password.value))])
    ensures forall p :: p in request + tried && IsHash(p) ==> tried != [] && p == tried[0]
    ensures tried != [] ==> tried[0] in request + tried && IsHash(tried[0])
  {
    hide OpenRequest, HashRequest, HashOf, IsHash;
    var hash := if c.password.Some? then HashOf(d1.seed, c.password.value) else seq(20, _ => 0);
    RequestsByKind(c.socket, st.zeroSocketSequence, hash);
  }

  // ---- When a socket is opened ----

  /** The answer that opens this socket: long enough, its own size, and the numbers of the request. */
  predicate OpensSocket(p: Packet, socket: nat, sequence: Byte)
  {
    && |p| >= 8 && (|p| <= 0xFFFF ==> Val16(p, 2) == |p|)
    && p[4] == 0x10 && Val16(p, 5) == socket && p[7] == sequence
  }

  /** With sequence packets shown, one of them is counted and read past, and the next packet is the answer. */
  lemma AnswerBehindShown(st: ZeroState, h: Packet, p: Packet, rest: seq<Packet>)
    requires !st.hideSequencePacket && |h| >= 12 && SizeOk(h, 12) && h[4] == 0x13
    ensures Answer(st, [h, p] + rest)
         == Got(st.(sequenceId := if Val32(h, 8) == 0 then 1 else Low32(st.sequenceId + 1)), p, rest)
  {
    hide Val32;
    assert ([h, p] + rest)[0] == h && ([h, p] + rest)[1..] == [p] + rest && ([p] + rest)[1..] == rest;
    assert SizeOk(h, PACKET_HEADER_SIZE);
  }

  lemma AcceptIsExact(socket: nat, closeFlag: Byte, p: Packet)
    ensures Accept(socket, closeFlag, p).Opened? <==> OpensSocket(p, socket, closeFlag)
    ensures Accept(socket, closeFlag, p).Opened? ==> Accept(socket, closeFlag, p).closeFlag == closeFlag
  {
  }

  /** Without a password challenge, a socket is opened if and only if the answer opens it, under the number the
      request carried. */
  lemma OpensUnlocked(st: ZeroState, socket: nat, password: Option<seq<Byte>>, hs: seq<Packet>, p: Packet,
                      rest: seq<Packet>, f: Byte)
    requires !st.halfOpen && st.hideSequencePacket && Arrives(hs, p)
    requires |p| < 5 || p[4] != PASSWORD_CHALLENGE
    ensures
      var e := Open(st, socket, password, hs + [p] + rest);
      && (e.result == Opened(f) <==> OpensSocket(p, socket, st.zeroSocketSequence) && f == st.zeroSocketSequence)
      && e.state == st.(remainingTries := 0, sequenceId := e.state.sequenceId) && e.rest == rest
      && e.sent == [OpenRequest(socket, st.zeroSocketSequence)]
  {
    hide Answer, Accept, TryPassword, OpenRequest;
    AnswerIs(st.(remainingTries := 0), hs, p, rest);
    AcceptIsExact(socket, st.zeroSocketSequence, p);
  }

  /** Half open, it takes a password, three tries left, and an answer that opens the socket; then the device is
      unlocked. Without a password or with fewer tries nothing is sent and nothing changes. */
  lemma OpensAfterHash(st: ZeroState, socket: nat, password: Option<seq<Byte>>, hs: seq<Packet>, p: Packet,
                       rest: seq<Packet>, f: Byte)
    requires st.halfOpen && st.hideSequencePacket && Arrives(hs, p)
    ensures
      var e := Open(st, socket, password, hs + [p] + rest);
      && (e.result == Opened(f) <==>
            && password.Some? && st.remainingTries >= 3
            && OpensSocket(p, socket, st.zeroSocketSequence) && f == st.zeroSocketSequence)
      && (e.result.Opened? ==> !e.state.halfOpen && e.rest == rest)
      && (password.None? || st.remainingTries < 3 ==>
            e == OpenEffect(st, Threw(BadPassword(st.remainingTries, password.Some?)), [], hs + [p] + rest))
      && (password.Some? && st.remainingTries >= 3 ==>
            e.sent == [HashRequest(socket, st.zeroSocketSequence, HashOf(st.challengeSeed, password.value))])
  {
    hide Answer, Accept, HashRequest, HashOf;
    AnswerIs(st, hs, p, rest);
    AcceptIsExact(socket, st.zeroSocketSequence, p);
  }

  /** A refused hash is told from its packet: tries left and the next seed. */
  lemma RefusedHash(st: ZeroState, socket: nat, password: seq<Byte>, hs: seq<Packet>, p: Packet, rest: seq<Packet>)
    requires st.halfOpen && st.hideSequencePacket && st.remainingTries >= 3 && Arrives(hs, p)
    requires |p| >= 16 && (|p| <= 0xFFFF ==> Val16(p, 2) == |p|) && p[4] == 0x11
    ensures
      var e := Open(st, socket, Some(password), hs + [p] + rest);
      && e.result == Threw(BadPassword(p[8], false)) && e.rest == rest
      && e.state.halfOpen && e.state.remainingTries == p[8] && e.state.challengeSeed == Val32(p, 12)
  {
    hide Answer, Accept, HashRequest, HashOf, Val32;
    AnswerIs(st, hs, p, rest);
  }

  /** A challenge leads on to the password with the tries and the seed it names. */
  lemma ChallengeLeadsOn(st: ZeroState, socket: nat, password: Option<seq<Byte>>, hs: seq<Packet>, p: Packet,
                         rest: seq<Packet>)
    returns (asked: ZeroState)
    requires !st.halfOpen && st.hideSequencePacket && Arrives(hs, p)
    requires |p| >= 16 && (|p| <= 0xFFFF ==> Val16(p, 2) == |p|) && p[4] == 0x0e
    ensures asked.halfOpen && asked.remainingTries == p[8] && asked.challengeSeed == Val32(p, 12)
    ensures asked.hideSequencePacket && asked.zeroSocketSequence == st.zeroSocketSequence
    ensures
      var e, tried := Open(st, socket, password, hs + [p] + rest), Open(asked, socket, password, rest);
      e == tried.(sent := e.sent) && |e.sent| == 1 + |tried.sent| && e.sent[1..] == tried.sent
  {
    hide Answer, Accept, TryPassword, OpenRequest, Val32;
    AnswerIs(st.(remainingTries := 0), hs, p, rest);
    asked := Answer(st.(remainingTries := 0), hs + [p] + rest).state;
    asked := asked.(halfOpen := true, challengeSeed := Val32(p, 12), remainingTries := p[8]);
  }

  /** One call keeps device and host in step, and what it sends is safe. */
  lemma CallIsSafe(d: Device, st: ZeroState, c: Call)
    requires InStep(d, st) && Honest(d, st, c)
    ensures InStep(DeviceAfter(d, st, c), Effect(st, c).state)
    ensures forall p :: p in Effect(st, c).sent && IsHash(p) ==>
      var d1 := DeviceAtHash(d, st, c);
      d1.tries >= MIN_PASSWORD_TRIES && c.password.Some?
      && p == HashRequest(c.socket, st.zeroSocketSequence, HashOf(d1.seed, c.password.value))
    ensures DeviceAfter(d, st, c).tries < d.tries ==> d.tries >= MIN_PASSWORD_TRIES
    ensures d.tries - 1 <= DeviceAfter(d, st, c).tries <= d.tries
  {
    hide Effect, InStep, HashRequest, HashOf, IsHash, WellFormed;
    CallSends(d, st, c);
  }

  /** Every call of a run is answered honestly by the device it finds. */
  predicate HonestRun(d: Device, st: ZeroState, calls: seq<Call>)
    decreases |calls|
  {
    calls == []
    || (Honest(d, st, calls[0]) && HonestRun(DeviceAfter(d, st, calls[0]), Effect(st, calls[0]).state, calls[1..]))
  }

  /** A hash on the wire, with the device it reached and the password it was made from. */
  datatype Attempt = Attempt(device: Device, password: Option<seq<Byte>>, packet: Packet)

  function Hashes(sent: seq<Packet>, d: Device, password: Option<seq<Byte>>): seq<Attempt>
  {
    if sent == [] then []
    else (if IsHash(sent[0]) then [Attempt(d, password, sent[0])] else []) + Hashes(sent[1..], d, password)
  }

  /** All password attempts of a run, and the device after it. */
  function Attempts(d: Device, st: ZeroState, calls: seq<Call>): seq<Attempt>
    requires HonestRun(d, st, calls)
    decreases |calls|
  {
    if calls == [] then []
    else
      Hashes(Effect(st, calls[0]).sent, DeviceAtHash(d, st, calls[0]), calls[0].password)
        + Attempts(DeviceAfter(d, st, calls[0]), Effect(st, calls[0]).state, calls[1..])
  }

  function DeviceAtEnd(d: Device, st: ZeroState, calls: seq<Call>): Device
    requires HonestRun(d, st, calls)
    decreases |calls|
  {
    if calls == [] then d else DeviceAtEnd(DeviceAfter(d, st, calls[0]), Effect(st, calls[0]).state, calls[1..])
  }

  /** An attempt that the device can afford, made with the seed it is waiting for. */
  predicate SafeAttempt(a: Attempt)
  {
    && a.device.tries >= MIN_PASSWORD_TRIES && a.password.Some?
    && |a.packet| == PASSWORD_PACKET_SIZE
    && a.packet[12..] == HashOf(a.device.seed, a.password.value)
  }

  lemma {:induction false} HashesAreSent(sent: seq<Packet>, d: Device, password: Option<seq<Byte>>)
    ensures forall a :: a in Hashes(sent, d, password) ==>
      a.device == d && a.password == password && a.packet in sent && IsHash(a.packet)
    decreases |sent|
  {
    if sent != [] {
      HashesAreSent(sent[1..], d, password);
    }
  }

  /** Over every run of Open calls, with any sockets and passwords: no attempt is made with fewer than
      three tries left, every hash answers the latest seed, and a counter of three or more ends at two or more. */
  lemma {:induction false} PasswordRunIsSafe(d: Device, st: ZeroState, calls: seq<Call>)
    requires InStep(d, st) && HonestRun(d, st, calls)
    ensures forall a :: a in Attempts(d, st, calls) ==> SafeAttempt(a)
    ensures var tries := DeviceAtEnd(d, st, calls).tries;
      tries <= d.tries && (if d.tries >= MIN_PASSWORD_TRIES then tries >= MIN_PASSWORD_TRIES - 1 else tries == d.tries)
    decreases |calls|
  {
    if calls != [] {
      var c := calls[0];
      CallIsSafe(d, st, c);
      HashesAreSent(Effect(st, c).sent, DeviceAtHash(d, st, c), c.password);
      PasswordRunIsSafe(DeviceAfter(d, st, c), Effect(st, c).state, calls[1..]);
    }
  }

  /** A fresh SocketZero is in step with every device. */
  lemma FreshIsInStep(d: Device, sequence: Byte)
    ensures InStep(d, ZeroState(0, true, false, 0, 0, sequence))
  {
  }

  /** So every run of a new SocketZero is safe, whatever state the device is in. */
  lemma FreshRunIsSafe(d: Device, sequence: Byte, calls: seq<Call>)
    requires HonestRun(d, ZeroState(0, true, false, 0, 0, sequence), calls)
    ensures
      var st := ZeroState(0, true, false, 0, 0, sequence);
      && (forall a :: a in Attempts(d, st, calls) ==> SafeAttempt(a))
      && (d.tries >= MIN_PASSWORD_TRIES ==> DeviceAtEnd(d, st, calls).tries >= MIN_PASSWORD_TRIES - 1)
      && (d.tries < MIN_PASSWORD_TRIES ==> DeviceAtEnd(d, st, calls).tries == d.tries)
  {
    hide InStep, HonestRun, Attempts, SafeAttempt, DeviceAtEnd;
    FreshIsInStep(d, sequence);
    PasswordRunIsSafe(d, ZeroState(0, true, false, 0, 0, sequence), calls);
  }
}
