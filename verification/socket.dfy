/** The classes of socket.cc, each method tied to the function that specifies it. */
module SocketIo {
  import opened Bytes
  import opened DataBuffer
  import opened Wrappers
  import opened Fragment
  import P = Protocol
  import X = Exchange
  import W = Password
  import Sha1
  import Sha1Spec

  datatype Status = Fine | Throws(fault: P.Fault)

  /** The USB endpoints: what the device will send, and a trace of what was written to it. */
  class UsbDevice {
    var incoming: seq<P.Packet>
    var written: seq<P.Packet>

    constructor (incoming: seq<P.Packet>)
      ensures this.incoming == incoming && written == []
    {
      this.incoming, written := incoming, [];
    }

    method BulkWrite(p: P.Packet)
      modifies this`written
      ensures written == old(written) + [p]
    {
      written := written + [p];
    }

    method BulkRead(receive: Data) returns (ok: bool)
      requires receive.Valid()
      modifies this`incoming, receive, receive.m_data
      ensures receive.Valid() && receive.m_externalData == old(receive.m_externalData)
      ensures receive.m_data == old(receive.m_data) || fresh(receive.m_data)
      ensures ok == (old(incoming) != [])
      ensures ok ==> receive.Contents() == old(incoming)[0] && incoming == old(incoming)[1..]
      ensures !ok ==> incoming == [] && receive.Contents() == old(receive.Contents())
    {
      ok := incoming != [];
      if ok {
        var p := incoming[0];
        receive.GetBuffer(|p|);
        CopyBytes(receive.m_data, 0, p);
        receive.ReleaseBuffer(|p|);
        incoming := incoming[1..];
      }
    }
  }

  class SocketZero {
    const m_dev: UsbDevice
    var m_zeroSocketSequence: Byte
    var m_sequenceId: nat
    var m_halfOpen: bool
    var m_challengeSeed: nat
    var m_remainingTries: nat
    var m_hideSequencePacket: bool

    ghost function State(): P.ZeroState
      reads this
    {
      P.ZeroState(m_sequenceId, m_hideSequencePacket, m_halfOpen, m_challengeSeed, m_remainingTries,
                  m_zeroSocketSequence)
    }

    constructor (dev: UsbDevice, zeroSocketSequenceStart: Byte)
      ensures m_dev == dev && State() == P.ZeroState(0, true, false, 0, 0, zeroSocketSequenceStart)
    {
      m_dev := dev;
      m_zeroSocketSequence := zeroSocketSequenceStart;
      m_sequenceId, m_halfOpen, m_challengeSeed := 0, false, 0;
      m_remainingTries, m_hideSequencePacket := 0, true;
    }

    method CheckSequence(socket: nat, p: P.Packet) returns (s: Status)
      modifies this`m_sequenceId
      ensures match P.CheckSequence(old(State()), socket, p)
        case Rejected(fault) => s == Throws(fault) && State() == old(State())
        case Advanced(st) => s == Fine && State() == st
      ensures s == Throws(P.ShortSequencePacket) <==> |p| < 12
      ensures s == Throws(P.OutOfSequence) <==>
        |p| >= 12 && Val32(p, 8) != 0 && Val32(p, 8) != old(m_sequenceId) && socket != 0
      ensures s == Fine ==> m_sequenceId == if Val32(p, 8) == 0 then 1 else Low32(old(m_sequenceId) + 1)
    {
      if |p| < P.SEQUENCE_PACKET_SIZE {
        return Throws(P.ShortSequencePacket);
      }
      var sequenceId := Val32(p, 8);
      if sequenceId == 0 {
        m_sequenceId := 0;
      } else if sequenceId != m_sequenceId && socket != 0 {
        return Throws(P.OutOfSequence);
      }
      m_sequenceId := Low32(m_sequenceId + 1);
      return Fine;
    }

    method RawSend(p: P.Packet)
      modifies m_dev`written
      ensures m_dev.written == old(m_dev.written) + P.Writes(p)
      ensures |p| % 0x40 != 0 ==> m_dev.written == old(m_dev.written) + [p]
      ensures |p| % 0x40 == 0 ==>
        var n := |old(m_dev.written)|;
        && |m_dev.written| == n + 2 && m_dev.written[n + 1] == p
        && |m_dev.written[n]| == 3 && Val16(m_dev.written[n], 0) == Low16(|p|) && m_dev.written[n][2] == 0
    {
      if |p| % 0x40 == 0 {
        m_dev.BulkWrite(Le16(|p|) + [0]);
      }
      m_dev.BulkWrite(p);
    }

    method SequencePacket(p: P.Packet) returns (ignore: bool, s: Status)
      modifies this`m_sequenceId
      ensures !P.IsHidden(old(State()), p) ==> !ignore && s == Fine && State() == old(State())
      ensures P.IsHidden(old(State()), p) ==>
        match P.CheckSequence(old(State()), 0, p)
        case Rejected(fault) => s == Throws(fault) && State() == old(State())
        case Advanced(st) => ignore && s == Fine && State() == st
    {
      ignore, s := false, Fine;
      if !m_hideSequencePacket {
        return;
      }
      if |p| >= P.PACKET_HEADER_SIZE && Val16(p, 0) == 0 && p[4] == P.SEQUENCE_HANDSHAKE {
        s := CheckSequence(0, p);
        ignore := true;
      }
    }

    method RawReceive(receive: Data) returns (s: Status)
      requires receive.Valid()
      modifies this`m_sequenceId, m_dev`incoming, receive, receive.m_data
      ensures receive.Valid() && receive.m_externalData == old(receive.m_externalData)
      ensures receive.m_data == old(receive.m_data) || fresh(receive.m_data)
      ensures match P.RawReceive(old(State()), old(m_dev.incoming))
        case Lost(st, fault, rest) => s == Throws(fault) && State() == st && m_dev.incoming == rest
        case Got(st, p, rest) => s == Fine && State() == st && m_dev.incoming == rest && receive.Contents() == p
    {
      ghost var all := P.RawReceive(State(), m_dev.incoming);
      var again := true;
      while again
        invariant receive.Valid() && receive.m_externalData == old(receive.m_externalData)
        invariant receive.m_data == old(receive.m_data) || fresh(receive.m_data)
        invariant again ==> P.RawReceive(State(), m_dev.incoming) == all
        invariant !again ==> all == P.Got(State(), receive.Contents(), m_dev.incoming)
        decreases |m_dev.incoming|, again
      {
        var ok := m_dev.BulkRead(receive);
        if !ok {
          return Throws(P.Timeout);
        }
        again, s := SequencePacket(receive.Contents());
        if s.Throws? {
          return;
        }
      }
      return Fine;
    }

    /** Reads the answer to a socket 0 command, past one shown sequence packet. */
    method ReadAnswer(receive: Data) returns (s: Status)
      requires receive.Valid()
      modifies this`m_sequenceId, m_dev`incoming, receive, receive.m_data
      ensures receive.Valid() && receive.m_externalData == old(receive.m_externalData)
      ensures receive.m_data == old(receive.m_data) || fresh(receive.m_data)
      ensures match W.Answer(old(State()), old(m_dev.incoming))
        case Lost(st, fault, rest) => s == Throws(fault) && State() == st && m_dev.incoming == rest
        case Got(st, p, rest) => s == Fine && State() == st && m_dev.incoming == rest && receive.Contents() == p
    {
      hide P.RawReceive, P.CheckSequence;
      s := RawReceive(receive);
      if s == Fine {
        var p := receive.Contents();
        if !P.SizeOk(p, P.PACKET_HEADER_SIZE) {
          return Throws(P.BadSize);
        }
        if p[4] == P.SEQUENCE_HANDSHAKE {
          s := CheckSequence(0, p);
          if s == Fine {
            s := RawReceive(receive);
          }
        }
      }
    }

    method SendOpen(socket: nat, receive: Data) returns (s: Status)
      requires receive.Valid()
      modifies this`m_sequenceId, m_dev, receive, receive.m_data
      ensures receive.Valid() && (receive.m_data == old(receive.m_data) || fresh(receive.m_data))
      ensures m_dev.written == old(m_dev.written) + [W.OpenRequest(socket, m_zeroSocketSequence)]
      ensures match W.Answer(old(State()), old(m_dev.incoming))
        case Lost(st, fault, rest) => s == Throws(fault) && State() == st && m_dev.incoming == rest
        case Got(st, p, rest) => s == Fine && State() == st && m_dev.incoming == rest && receive.Contents() == p
    {
      hide W.Answer;
      RawSend(W.OpenRequest(socket, m_zeroSocketSequence));
      s := ReadAnswer(receive);
    }

    method HashPassword(password: seq<Byte>) returns (hash: seq<Byte>)
      ensures hash == W.HashOf(m_challengeSeed, password)
    {
      hide Sha1Spec.Digest;
      var pwdigest := new Byte[20];
      Sha1.SHA1(password, pwdigest);
      var prefixedhash := Le32(m_challengeSeed) + pwdigest[..];
      Sha1.SHA1(prefixedhash, pwdigest);
      hash := pwdigest[..];
    }

    method SendPasswordHash(socket: nat, password: seq<Byte>, receive: Data) returns (s: Status)
      requires receive.Valid()
      modifies this`m_sequenceId, m_dev, receive, receive.m_data
      ensures receive.Valid() && (receive.m_data == old(receive.m_data) || fresh(receive.m_data))
      ensures m_dev.written == old(m_dev.written)
        + [W.HashRequest(socket, m_zeroSocketSequence, W.HashOf(old(m_challengeSeed), password))]
      ensures match W.Answer(old(State()), old(m_dev.incoming))
        case Lost(st, fault, rest) => s == Throws(fault) && State() == st && m_dev.incoming == rest
        case Got(st, p, rest) => s == Fine && State() == st && m_dev.incoming == rest && receive.Contents() == p
    {
      hide W.Answer, W.HashOf, W.HashRequest;
      var hash := HashPassword(password);
      RawSend(W.HashRequest(socket, m_zeroSocketSequence, hash));
      s := ReadAnswer(receive);
    }

    /** Takes seed and counter from a challenge or failure; the seed is size-checked first. */
    method TakeChallenge(p: P.Packet) returns (s: Status)
      modifies this`m_halfOpen, this`m_challengeSeed, this`m_remainingTries
      ensures m_halfOpen && State() == if P.SizeOk(p, W.CHALLENGE_SEED_SIZE)
        then old(State()).(halfOpen := true, challengeSeed := Val32(p, 12), remainingTries := p[8])
        else old(State()).(halfOpen := true)
      ensures s == if P.SizeOk(p, W.CHALLENGE_SEED_SIZE) then Fine else Throws(P.BadSize)
    {
      m_halfOpen := true;
      if !P.SizeOk(p, W.CHALLENGE_SEED_SIZE) {
        return Throws(P.BadSize);
      }
      m_challengeSeed := Val32(p, 12);
      if !P.SizeOk(p, W.CHALLENGE_HEADER_SIZE) {
        return Throws(P.BadSize);
      }
      m_remainingTries := p[8];
      return Fine;
    }

    /** The half-open part of Open. */
    method TryPassword(socket: nat, password: Option<seq<Byte>>, receive: Data) returns (r: W.OpenResult)
      requires receive.Valid()
      modifies this, m_dev, receive, receive.m_data
      ensures var e := W.TryPassword(old(State()), socket, password, old(m_dev.incoming));
        && r == e.result && State() == e.state && m_dev.incoming == e.rest
        && m_dev.written == old(m_dev.written) + e.sent
    {
      hide W.Answer, W.HashOf, W.HashRequest;
      if password.None? {
        return W.Threw(P.BadPassword(m_remainingTries, false));
      }
      if m_remainingTries < W.MIN_PASSWORD_TRIES {
        return W.Threw(P.BadPassword(m_remainingTries, true));
      }
      var closeFlag := m_zeroSocketSequence;
      var s := SendPasswordHash(socket, password.value, receive);
      if s.Throws? {
        return W.Threw(s.fault);
      }
      var p := receive.Contents();
      if !P.SizeOk(p, P.PACKET_HEADER_SIZE) {
        return W.Threw(P.BadSize);
      }
      if p[4] == W.PASSWORD_FAILED {
        s := TakeChallenge(p);
        return if s.Throws? then W.Threw(s.fault) else W.Threw(P.BadPassword(m_remainingTries, false));
      }
      m_halfOpen := false;
      return W.Accept(socket, closeFlag, p);
    }

    method Open(socket: nat, password: Option<seq<Byte>>) returns (r: W.OpenResult)
      modifies this, m_dev
      ensures var e := W.Open(old(State()), socket, password, old(m_dev.incoming));
        && r == e.result && State() == e.state && m_dev.incoming == e.rest
        && m_dev.written == old(m_dev.written) + e.sent
    {
      hide W.Answer, W.TryPassword;
      var receive := new Data();
      var closeFlag := m_zeroSocketSequence;
      if !m_halfOpen {
        m_remainingTries := 0;
        var s := SendOpen(socket, receive);
        if s.Throws? {
          return W.Threw(s.fault);
        }
        var p := receive.Contents();
        if !P.SizeOk(p, P.PACKET_HEADER_SIZE) {
          return W.Threw(P.BadSize);
        }
        if p[4] != W.PASSWORD_CHALLENGE {
          return W.Accept(socket, closeFlag, p);
        }
        s := TakeChallenge(p);
        if s.Throws? {
          return W.Threw(s.fault);
        }
      }
      r := TryPassword(socket, password, receive);
    }
  }

  /** The length of all packets still to come; buffer sizes are C ints. */
  function TotalSize(ps: seq<P.Packet>): nat
  {
    if ps == [] then 0 else |ps[0]| + TotalSize(ps[1..])
  }

  lemma {:induction false} ReceiveShrinks(st: P.ZeroState, port: X.Port, incoming: seq<P.Packet>)
    ensures var r := X.Receive(st, port, incoming);
      r.Got? ==> |r.packet| + TotalSize(r.rest) <= TotalSize(incoming)
    decreases |incoming|
  {
    if incoming != [] && !port.registered && P.IsHidden(st, incoming[0]) {
      var c := P.CheckSequence(st, 0, incoming[0]);
      if c.Advanced? {
        ReceiveShrinks(c.state, port, incoming[1..]);
      }
    }
  }

  lemma {:induction false} FragmentsShrink(st: P.ZeroState, port: X.Port, send: P.Packet, offset: nat,
                                           incoming: seq<P.Packet>)
    requires FRAG_HEADER_SIZE + offset <= |send|
    ensures var r := X.SendFragments(st, port, send, offset, incoming);
      r.Got? ==> |r.packet| + TotalSize(r.rest) <= TotalSize(incoming)
    decreases |send| - offset
  {
    var st1 := st.(hideSequencePacket := IsLast(send, offset));
    ReceiveShrinks(st1, port, incoming);
    var r := X.Receive(st1, port, incoming);
    if !IsLast(send, offset) && r.Got? {
      FragmentsShrink(r.state, port, send, offset + MAX_PAYLOAD, r.rest);
    }
  }

  lemma SendShrinks(st: P.ZeroState, port: X.Port, send: P.Packet, incoming: seq<P.Packet>)
    ensures var r := X.SendRequest(st, port, send, incoming);
      r.Got? ==> |r.packet| + TotalSize(r.rest) <= TotalSize(incoming)
  {
    if |send| <= MAX_PACKET_SIZE {
      ReceiveShrinks(st, port, incoming);
    } else {
      FragmentsShrink(st, port, send, 0, incoming);
    }
  }

  class Socket {
    const m_zero: SocketZero
    const m_socket: nat
    var m_registered: bool

    ghost function Port(): X.Port
      reads this
    {
      X.Port(m_socket, m_registered)
    }

    constructor (zero: SocketZero, socket: nat)
      ensures m_zero == zero && m_socket == socket && !m_registered
    {
      m_zero, m_socket, m_registered := zero, socket, false;
    }

    /** Writes the socket number into the first two bytes, if there is room for a header. */
    method StoreSocket(send: Data)
      requires send.Valid()
      modifies send, send.m_data
      ensures send.Valid() && send.m_externalData == old(send.m_externalData)
      ensures send.m_data == old(send.m_data) || fresh(send.m_data)
      ensures send.Contents() == X.WithSocket(old(send.Contents()), m_socket)
    {
      if send.m_datasize >= P.PACKET_HEADER_SIZE {
        send.GetBuffer(0);
        assert send.m_data[..send.m_datasize] == old(send.Contents());
        var stored := Le16(m_socket);
        send.m_data[0] := stored[0];
        send.m_data[1] := stored[1];
      }
    }

    method Send(send: Data)
      requires send.Valid()
      modifies m_zero.m_dev`written, send, send.m_data
      ensures send.Valid() && send.m_externalData == old(send.m_externalData)
      ensures send.m_data == old(send.m_data) || fresh(send.m_data)
      ensures send.Contents() == X.WithSocket(old(send.Contents()), m_socket)
      ensures m_zero.m_dev.written == old(m_zero.m_dev.written) + P.Writes(send.Contents())
    {
      hide X.WithSocket, P.Writes;
      StoreSocket(send);
      m_zero.RawSend(send.Contents());
    }

    method Receive(receive: Data) returns (s: Status)
      requires receive.Valid()
      modifies m_zero`m_sequenceId, m_zero.m_dev`incoming, receive, receive.m_data
      ensures receive.Valid() && receive.m_externalData == old(receive.m_externalData)
      ensures receive.m_data == old(receive.m_data) || fresh(receive.m_data)
      ensures match X.Receive(old(m_zero.State()), Port(), old(m_zero.m_dev.incoming))
        case Lost(st, fault, rest) => s == Throws(fault) && m_zero.State() == st && m_zero.m_dev.incoming == rest
        case Got(st, p, rest) =>
          s == Fine && m_zero.State() == st && m_zero.m_dev.incoming == rest && receive.Contents() == p
    {
      if m_registered {
        var ok := m_zero.m_dev.BulkRead(receive);
        return if ok then Fine else Throws(P.Timeout);
      } else {
        s := m_zero.RawReceive(receive);
      }
    }

    method SendReceive(send: Data, receive: Data) returns (s: Status)
      requires send != receive && send.Valid() && receive.Valid() && Apart(send, receive)
      modifies m_zero`m_sequenceId, m_zero.m_dev, send, send.m_data, receive, receive.m_data
      ensures send.Valid() && receive.Valid() && Apart(send, receive)
      ensures send.m_data == old(send.m_data) || fresh(send.m_data)
      ensures receive.m_data == old(receive.m_data) || fresh(receive.m_data)
      ensures send.m_externalData == old(send.m_externalData) && receive.m_externalData == old(receive.m_externalData)
      ensures m_zero.m_dev.written == old(m_zero.m_dev.written) + P.Writes(X.WithSocket(old(send.Contents()), m_socket))
      ensures match X.Receive(old(m_zero.State()), Port(), old(m_zero.m_dev.incoming))
        case Lost(st, fault, rest) => s == Throws(fault) && m_zero.State() == st && m_zero.m_dev.incoming == rest
        case Got(st, p, rest) =>
          s == Fine && m_zero.State() == st && m_zero.m_dev.incoming == rest && receive.Contents() == p
    {
      hide X.Receive, P.Writes, X.WithSocket;
      Send(send);
      s := Receive(receive);
    }

    /** The switch of the reading loop; whether fragments came before is whether receive has bytes. */
    method HandlePacket(inFrag: Data, receive: Data, frag: bool, blanks: nat)
      returns (s: Status, done: bool, frag': bool, blanks': nat)
      requires inFrag != receive && inFrag.Valid() && receive.Valid() && Apart(inFrag, receive)
      requires |receive.Contents()| + |inFrag.Contents()| <= INT_MAX
      requires frag == (receive.Contents() != []) && (frag ==> |receive.Contents()| >= P.PACKET_HEADER_SIZE)
      modifies m_zero`m_sequenceId, receive, receive.m_data
      ensures inFrag.Valid() && receive.Valid() && Apart(inFrag, receive)
      ensures receive.m_data == old(receive.m_data) || fresh(receive.m_data)
      ensures inFrag.Contents() == old(inFrag.Contents())
      ensures match X.Handle(old(m_zero.State()), m_socket, old(receive.Contents()), blanks, inFrag.Contents())
        case Stop(fault) => s == Throws(fault) && m_zero.State() == old(m_zero.State())
        case Finish(reply) => s == Fine && done && receive.Contents() == reply && m_zero.State() == old(m_zero.State())
        case Continue(st, whole, b) =>
          && s == Fine && !done && m_zero.State() == st && receive.Contents() == whole && blanks' == b
          && frag' == (whole != []) && |whole| <= |old(receive.Contents())| + |inFrag.Contents()|
    {
      var p := inFrag.Contents();
      s, done, frag', blanks' := Fine, false, frag, 0;
      if |p| == 0 {
        blanks' := blanks + 1;
        return if blanks' == X.BLANK_LIMIT then Throws(P.TenBlankPackets) else Fine, false, frag, blanks';
      }
      if !P.SizeOk(p, P.PACKET_HEADER_SIZE) {
        return Throws(P.BadSize), false, frag, 0;
      }
      if p[4] == P.SEQUENCE_HANDSHAKE {
        s := m_zero.CheckSequence(m_socket, p);
      } else if p[4] == DB_DONE || (p[4] == DB_DATA && !frag) {
        receive.Assign(inFrag);
        done := true;
      } else if p[4] != DB_DATA && p[4] != DB_FRAGMENTED {
        s := Throws(P.Unhandled(p[4]));
      } else if frag && |p| < FRAG_HEADER_SIZE {
        s := Throws(P.ShortFragment);
      } else {
        AppendFragment(receive, inFrag);
        done, frag' := p[4] == DB_DATA, true;
      }
    }

    /** One turn of the reading loop: the packet in inFrag is handled, and the next one is read if there is more. */
    method TakeTurn(inFrag: Data, receive: Data, frag: bool, blanks: nat)
      returns (s: Status, done: bool, frag': bool, blanks': nat)
      requires inFrag != receive && inFrag.Valid() && receive.Valid() && Apart(inFrag, receive)
      requires |receive.Contents()| + |inFrag.Contents()| + TotalSize(m_zero.m_dev.incoming) <= INT_MAX
      requires frag == (receive.Contents() != []) && (frag ==> |receive.Contents()| >= P.PACKET_HEADER_SIZE)
      modifies m_zero`m_sequenceId, m_zero.m_dev`incoming, inFrag, inFrag.m_data, receive, receive.m_data
      ensures inFrag.Valid() && receive.Valid() && Apart(inFrag, receive)
      ensures inFrag.m_data == old(inFrag.m_data) || fresh(inFrag.m_data)
      ensures receive.m_data == old(receive.m_data) || fresh(receive.m_data)
      ensures
        var all := X.Process(old(m_zero.State()), Port(), old(receive.Contents()), blanks, old(inFrag.Contents()),
                             old(m_zero.m_dev.incoming));
        && (s.Throws? || done ==> Ended(all, s, receive))
        && (done ==> m_zero.m_dev.incoming == old(m_zero.m_dev.incoming))
        && (s == Fine && !done ==>
              && |receive.Contents()| + |inFrag.Contents()| + TotalSize(m_zero.m_dev.incoming) <= INT_MAX
              && |m_zero.m_dev.incoming| < |old(m_zero.m_dev.incoming)|
              && frag' == (receive.Contents() != []) && (frag' ==> |receive.Contents()| >= P.PACKET_HEADER_SIZE)
              && all == X.Process(m_zero.State(), Port(), receive.Contents(), blanks', inFrag.Contents(),
                                  m_zero.m_dev.incoming))
    {
      hide X.Handle, X.Receive, X.Process, X.Await, TotalSize;
      X.OneTurn(m_zero.State(), Port(), receive.Contents(), blanks, inFrag.Contents(), m_zero.m_dev.incoming);
      s, done, frag', blanks' := HandlePacket(inFrag, receive, frag, blanks);
      if s == Fine && !done {
        ReceiveShrinks(m_zero.State(), Port(), m_zero.m_dev.incoming);
        s := Receive(inFrag);
      }
    }

    /** The reading loop of Packet: inFrag has just been read, and receive is empty. */
    method ReadReply(inFrag: Data, receive: Data) returns (s: Status)
      requires inFrag != receive && inFrag.Valid() && receive.Valid() && Apart(inFrag, receive)
      requires receive.Contents() == []
      requires |inFrag.Contents()| + TotalSize(m_zero.m_dev.incoming) <= INT_MAX
      modifies m_zero`m_sequenceId, m_zero.m_dev`incoming, inFrag, inFrag.m_data, receive, receive.m_data
      ensures receive.Valid()
      ensures Ended(X.Process(old(m_zero.State()), Port(), [], 0, old(inFrag.Contents()), old(m_zero.m_dev.incoming)),
                    s, receive)
    {
      hide X.Process, TotalSize, Ended;
      ghost var all := X.Process(m_zero.State(), Port(), [], 0, inFrag.Contents(), m_zero.m_dev.incoming);
      var done, frag, blanks := false, false, 0;
      s := Fine;
      while !done
        invariant inFrag.Valid() && receive.Valid() && Apart(inFrag, receive) && s == Fine
        invariant inFrag.m_data == old(inFrag.m_data) || fresh(inFrag.m_data)
        invariant receive.m_data == old(receive.m_data) || fresh(receive.m_data)
        invariant done ==> Ended(all, s, receive)
        invariant !done ==>
          && |receive.Contents()| + |inFrag.Contents()| + TotalSize(m_zero.m_dev.incoming) <= INT_MAX
          && frag == (receive.Contents() != []) && (frag ==> |receive.Contents()| >= P.PACKET_HEADER_SIZE)
          && all == X.Process(m_zero.State(), Port(), receive.Contents(), blanks, inFrag.Contents(),
                              m_zero.m_dev.incoming)
        decreases |m_zero.m_dev.incoming|, !done
      {
        s, done, frag, blanks := TakeTurn(inFrag, receive, frag, blanks);
        if s.Throws? {
          return;
        }
      }
    }

    /** One turn of the fragment sending loop. */
    method SendFragment(send: Data, outFrag: Data, inFrag: Data, offset: nat) returns (s: Status, next: nat)
      requires send.Valid() && inFrag.Valid() && outFrag.Valid()
      requires send != inFrag && send != outFrag && inFrag != outFrag
      requires Apart(send, inFrag) && Apart(send, outFrag) && Apart(inFrag, outFrag)
      requires FRAG_HEADER_SIZE + offset <= |send.Contents()| <= INT_MAX
      modifies m_zero`m_sequenceId, m_zero`m_hideSequencePacket, m_zero.m_dev
      modifies inFrag, inFrag.m_data, outFrag, outFrag.m_data
      ensures send.Valid() && inFrag.Valid() && outFrag.Valid()
      ensures Apart(send, inFrag) && Apart(send, outFrag) && Apart(inFrag, outFrag)
      ensures inFrag.m_data == old(inFrag.m_data) || fresh(inFrag.m_data)
      ensures outFrag.m_data == old(outFrag.m_data) || fresh(outFrag.m_data)
      ensures inFrag.m_externalData == old(inFrag.m_externalData)
      ensures send.Contents() == old(send.Contents())
      ensures var last := IsLast(send.Contents(), offset);
        && next == (if last then 0 else offset + MAX_PAYLOAD)
        && match X.Receive(old(m_zero.State()).(hideSequencePacket := last), Port(), old(m_zero.m_dev.incoming))
           case Lost(st, fault, rest) => s == Throws(fault) && m_zero.State() == st && m_zero.m_dev.incoming == rest
           case Got(st, p, rest) =>
             s == Fine && m_zero.State() == st && m_zero.m_dev.incoming == rest && inFrag.Contents() == p
      ensures m_zero.m_dev.written == old(m_zero.m_dev.written)
        + P.Writes(X.WithSocket(Piece(send.Contents(), offset), m_socket))
    {
      hide Piece, X.Receive, P.Writes, X.WithSocket;
      var r := MakeNextFragment(send, outFrag, offset);
      next := r.offset;
      m_zero.m_hideSequencePacket := outFrag.Contents()[4] != DB_FRAGMENTED;
      s := SendReceive(outFrag, inFrag);
    }

    /** The fragment sending loop of Packet; inFrag ends with the answer to the last fragment. */
    method SendFragmented(send: Data, inFrag: Data) returns (s: Status)
      requires send != inFrag && send.Valid() && inFrag.Valid() && Apart(send, inFrag)
      requires MAX_PACKET_SIZE < |send.Contents()| <= INT_MAX
      modifies m_zero`m_sequenceId, m_zero`m_hideSequencePacket, m_zero.m_dev, inFrag, inFrag.m_data
      ensures send.Valid() && inFrag.Valid() && Apart(send, inFrag)
      ensures inFrag.m_data == old(inFrag.m_data) || fresh(inFrag.m_data)
      ensures inFrag.m_externalData == old(inFrag.m_externalData)
      ensures send.Contents() == old(send.Contents())
      ensures match X.SendFragments(old(m_zero.State()), Port(), send.Contents(), 0, old(m_zero.m_dev.incoming))
        case Lost(st, fault, rest) => s == Throws(fault) && m_zero.State() == st && m_zero.m_dev.incoming == rest
        case Got(st, p, rest) =>
          && s == Fine && m_zero.State() == st && m_zero.m_dev.incoming == rest && inFrag.Contents() == p
          && m_zero.m_dev.written
             == old(m_zero.m_dev.written) + X.WritesAll(Fragments(send.Contents(), 0), m_socket)
    {
      hide Piece, Fragments, IsLast, P.Writes, X.WithSocket, X.WritesAll, X.Receive, X.SendFragments;
      hide Data.Contents, Data.Valid;
      ghost var w := send.Contents();
      ghost var all := X.SendFragments(m_zero.State(), Port(), w, 0, m_zero.m_dev.incoming);
      ghost var trace := m_zero.m_dev.written + X.WritesAll(Fragments(w, 0), m_socket);
      var offset, more := 0, true;
      s := Fine;
      var outFrag := new Data();
      while more
        invariant send.Valid() && inFrag.Valid() && outFrag.Valid() && fresh(outFrag) && fresh(outFrag.m_data)
        invariant Apart(send, inFrag) && Apart(send, outFrag) && Apart(inFrag, outFrag)
        invariant inFrag.m_data == old(inFrag.m_data) || fresh(inFrag.m_data)
        invariant inFrag.m_externalData == old(inFrag.m_externalData)
        invariant send.Contents() == w && FRAG_HEADER_SIZE + offset <= |w| && s == Fine
        invariant more ==>
          && X.SendFragments(m_zero.State(), Port(), w, offset, m_zero.m_dev.incoming) == all
          && m_zero.m_dev.written + X.WritesAll(Fragments(w, offset), m_socket) == trace
        invariant !more ==>
          && all == P.Got(m_zero.State(), inFrag.Contents(), m_zero.m_dev.incoming)
          && m_zero.m_dev.written == trace && m_zero.m_hideSequencePacket
        decreases more, |w| - offset
      {
        ghost var before := m_zero.m_dev.written;
        X.WritesOfFragments(w, offset, m_socket);
        X.OneFragment(m_zero.State(), Port(), w, offset, m_zero.m_dev.incoming);
        ghost var sent := P.Writes(X.WithSocket(Piece(w, offset), m_socket));
        var next;
        s, next := SendFragment(send, outFrag, inFrag, offset);
        if s.Throws? {
          return;
        }
        assert m_zero.m_dev.written == before + sent;
        more := next > 0;
        if more {
          assert trace == before + sent + X.WritesAll(Fragments(w, next), m_socket);
          offset := next;
        }
      }
      m_zero.m_hideSequencePacket := true;
    }

    method SendRequest(send: Data, inFrag: Data) returns (s: Status)
      requires send != inFrag && send.Valid() && inFrag.Valid() && Apart(send, inFrag)
      requires |send.Contents()| <= INT_MAX
      modifies m_zero`m_sequenceId, m_zero`m_hideSequencePacket, m_zero.m_dev
      modifies send, send.m_data, inFrag, inFrag.m_data
      ensures inFrag.Valid() && (inFrag.m_data == old(inFrag.m_data) || fresh(inFrag.m_data))
      ensures inFrag.m_externalData == old(inFrag.m_externalData)
      ensures match X.SendRequest(old(m_zero.State()), Port(), old(send.Contents()), old(m_zero.m_dev.incoming))
        case Lost(st, fault, rest) => s == Throws(fault) && m_zero.State() == st && m_zero.m_dev.incoming == rest
        case Got(st, p, rest) =>
          && s == Fine && m_zero.State() == st && m_zero.m_dev.incoming == rest && inFrag.Contents() == p
          && m_zero.m_dev.written
             == old(m_zero.m_dev.written) + X.WritesAll(X.Pieces(old(send.Contents())), m_socket)
    {
      hide X.Receive, X.SendFragments, Fragments, P.Writes, X.WithSocket;
      if send.m_datasize <= MAX_PACKET_SIZE {
        ghost var pieces := [send.Contents()];
        ghost var writes := P.Writes(X.WithSocket(send.Contents(), m_socket));
        assert X.WritesAll(pieces, m_socket) == writes + X.WritesAll(pieces[1..], m_socket);
        assert X.WritesAll(pieces, m_socket) == writes;
        s := SendReceive(send, inFrag);
      } else {
        s := SendFragmented(send, inFrag);
      }
    }

    /** Sends a request, in fragments if it is long, and returns the device's reply. */
    method Packet(send: Data, receive: Data) returns (s: Status)
      requires send != receive && send.Valid() && receive.Valid() && Apart(send, receive)
      requires |send.Contents()| <= INT_MAX && TotalSize(m_zero.m_dev.incoming) <= INT_MAX
      modifies m_zero`m_sequenceId, m_zero`m_hideSequencePacket, m_zero.m_dev
      modifies send, send.m_data, receive, receive.m_data
      ensures receive.Valid()
      ensures Ended(X.PacketExchange(old(m_zero.State()), Port(), old(send.Contents()), old(m_zero.m_dev.incoming)),
                    s, receive)
      ensures s == Fine ==>
        m_zero.m_dev.written == old(m_zero.m_dev.written) + X.WritesAll(X.Pieces(old(send.Contents())), m_socket)
      ensures s == Fine ==>
        X.AllSentAs(X.DropSizePackets(m_zero.m_dev.written[|old(m_zero.m_dev.written)|..]),
                    X.Pieces(old(send.Contents())), m_socket)
      ensures
        var refused := |old(send.Contents())| < 5
          || (old(send.Contents())[4] != 0x40 && old(send.Contents())[4] != 0x41);
        (s == Throws(P.LogicError) <==> refused) && (refused ==> m_zero.m_dev.written == old(m_zero.m_dev.written))
    {
      hide X.SendRequest, X.Process, X.Pieces, X.WritesAll, X.DropSizePackets, X.AllSentAs;
      X.RefusedRequests(m_zero.State(), Port(), send.Contents(), m_zero.m_dev.incoming);
      ghost var request, before := send.Contents(), m_zero.m_dev.written;
      if send.m_datasize < P.PACKET_HEADER_SIZE
         || (send.Contents()[4] != DB_DATA && send.Contents()[4] != DB_DONE) {
        return Throws(P.LogicError);
      }
      X.RequestGoesToSocket(request, before, m_socket);
      SendShrinks(m_zero.State(), Port(), send.Contents(), m_zero.m_dev.incoming);
      var inFrag := new Data();
      receive.Zap();
      s := SendRequest(send, inFrag);
      if s == Fine {
        s := ReadReply(inFrag, receive);
      }
    }

    /** How a method that follows an outcome of the specification leaves things. */
    ghost predicate Ended(outcome: X.Outcome, s: Status, receive: Data)
      requires receive.Valid()
      reads m_zero, m_zero.m_dev, receive, receive.m_data, receive.m_externalData
    {
      match outcome
      case Failed(st, fault, rest) => s == Throws(fault) && m_zero.State() == st && m_zero.m_dev.incoming == rest
      case Done(st, reply, rest) =>
        s == Fine && m_zero.State() == st && m_zero.m_dev.incoming == rest && receive.Contents() == reply
    }
  }
}
