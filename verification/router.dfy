/** The socket router as atomic steps of many threads: one step per critical section. */
module Router {
  import opened Bytes
  import opened Wrappers

  type Buffer = nat
  type SocketId = nat
  type EntryId = nat
  type ThreadId = nat
  type HandleId = nat

  /** A QueueEntry; entries are numbered in the order they are made, and readers may outlive a registration. */
  datatype Entry = Entry(socket: SocketId, handler: bool, queue: seq<Buffer>)

  /** What the mutexes of SocketRoutingQueue protect. */
  datatype Shared = Shared(
    connected: bool,
    interest: bool,
    free: seq<Buffer>,
    unclaimed: seq<Buffer>,
    entries: seq<Entry>,
    sockets: map<SocketId, EntryId>)

  // ---- The critical sections ----

  /** UnregisterInterest: the queued buffers go back to the free queue. */
  function Unregister(s: Shared, socket: SocketId): Shared
  {
    if socket !in s.sockets || s.sockets[socket] >= |s.entries| then s
    else
      var e := s.sockets[socket];
      var left := s.sockets - {socket};
      s.(free := s.free + s.entries[e].queue,
         entries := s.entries[e := s.entries[e].(queue := [])],
         sockets := left,
         interest := |left| > 0)
  }

  /** RegisterInterest of a socket that is not registered. */
  function Register(s: Shared, socket: SocketId, handler: bool): Shared
  {
    s.(entries := s.entries + [Entry(socket, handler, [])],
       sockets := s.sockets[socket := |s.entries|],
       interest := true)
  }

  datatype Destination = ToHandler | ToQueue(entry: EntryId) | ToDefault

  /** The decision DoRead takes under the lock. */
  function Find(s: Shared, socket: SocketId): (d: Destination)
    ensures d.ToQueue? ==> d.entry < |s.entries|
  {
    if s.interest && socket in s.sockets && s.sockets[socket] < |s.entries| then
      if s.entries[s.sockets[socket]].handler then ToHandler else ToQueue(s.sockets[socket])
    else ToDefault
  }

  function PushEntry(s: Shared, e: EntryId, b: Buffer): Shared
    requires e < |s.entries|
  {
    s.(entries := s.entries[e := s.entries[e].(queue := s.entries[e].queue + [b])])
  }

  function PopEntry(s: Shared, e: EntryId): Shared
    requires e < |s.entries| && s.entries[e].queue != []
  {
    s.(entries := s.entries[e := s.entries[e].(queue := s.entries[e].queue[1..])])
  }

  // ---- Threads, handles, and the steps they take ----

  /** Where a thread stands between critical sections, and the buffer its local DataHandle owns. */
  datatype Thread =
    | Idle
    | Reading(buffer: Buffer)
    | Routing(buffer: Buffer)
    | Unclaimed(buffer: Buffer)
    | Handling(buffer: Buffer)
    | Returning(buffer: Buffer)
    | Waiting(socket: SocketId, entry: EntryId)
    | Popped(buffer: Buffer)

  datatype Event =
    | Registered(socket: SocketId)
    | Routed(socket: SocketId, packet: seq<Byte>)
    | Delivered(socket: SocketId, packet: seq<Byte>)
    | Unrouted(packet: seq<Byte>)
    | Taken(packet: seq<Byte>)

  datatype State = State(
    shared: Shared,
    threads: map<ThreadId, Thread>,
    handles: map<HandleId, Buffer>,
    memory: map<Buffer, seq<Byte>>,
    log: seq<Event>)

  function ThreadOf(s: State, t: ThreadId): Thread
  {
    if t in s.threads then s.threads[t] else Idle
  }

  const INITIAL := State(Shared(false, false, [], [], [], map[]), map[], map[], map[], [])

  datatype Step =
    | SetDevice(connected: bool)
    | Allocate(unused: Buffer)
    | FetchFree(thread: ThreadId, unused: Buffer)
    | UsbRead(thread: ThreadId, ok: bool, data: seq<Byte>)
    | Route(thread: ThreadId)
    | PushDefault(thread: ThreadId)
    | HandlerDone(thread: ThreadId, data: seq<Byte>)
    | ReturnBuffer(thread: ThreadId)
    | RegisterInterest(socket: SocketId, handler: bool)
    | UnregisterInterest(socket: SocketId)
    | SocketRead(thread: ThreadId, socket: SocketId)
    | PopSocket(thread: ThreadId)
    | PopDefault(thread: ThreadId)
    | GiveUp(thread: ThreadId)
    | MakeHandle(thread: ThreadId, handle: HandleId)
    | CopyHandle(to: HandleId, from: HandleId)
    | AssignHandle(to: HandleId, from: HandleId)
    | DropHandle(handle: HandleId)
    | WriteThrough(handle: HandleId, data: seq<Byte>)

  function Put(s: State, t: ThreadId, thread: Thread): State
  {
    s.(threads := s.threads[t := thread])
  }

  function Free(s: State, b: Buffer): State
  {
    s.(shared := s.shared.(free := s.shared.free + [b]))
  }

  function Note(s: State, e: Event): State
  {
    s.(log := s.log + [e])
  }

  /** A handle lets go of its buffer, if it has one. */
  function Dropped(s: State, h: HandleId): (d: State)
    ensures h !in d.handles && d.memory == s.memory && d.log == s.log
    ensures d.shared == s.shared.(free := d.shared.free)
  {
    if h in s.handles then Free(s.(handles := s.handles - {h}), s.handles[h]) else s
  }

  /** A handle takes the buffer of another one over. */
  function TakenOver(s: State, to: HandleId, from: HandleId): (r: State)
    requires from in s.handles
    ensures r.shared == s.shared && r.memory == s.memory && r.log == s.log
  {
    s.(handles := (s.handles - {from})[to := s.handles[from]])
  }

  /** One atomic step, or None when the step cannot happen now. */
  function Next(s: State, step: Step): Option<State>
  {
    match step
    case SetDevice(connected) => Some(s.(shared := s.shared.(connected := connected)))
    case Allocate(b) =>
      if b in s.memory then None else Some(Free(s.(memory := s.memory[b := []]), b))
    case FetchFree(t, b) =>
      if ThreadOf(s, t) != Idle || !s.shared.connected then None
      else if s.shared.free != [] then
        Some(Put(s.(shared := s.shared.(free := s.shared.free[1..])), t, Reading(s.shared.free[0])))
      else if b in s.memory then None
      else Some(Put(s.(memory := s.memory[b := []]), t, Reading(b)))
    case UsbRead(t, ok, data) =>
      if !ThreadOf(s, t).Reading? then None
      else
        var b := ThreadOf(s, t).buffer;
        var s' := s.(memory := s.memory[b := data]);
        Some(Put(s', t, if ok && |data| >= 2 then Routing(b) else Returning(b)))
    case Route(t) =>
      if !ThreadOf(s, t).Routing? || ThreadOf(s, t).buffer !in s.memory then None
      else
        var b := ThreadOf(s, t).buffer;
        var socket := Val16(s.memory[b], 0);
        (match Find(s.shared, socket)
         case ToHandler => Some(Put(s, t, Handling(b)))
         case ToDefault => Some(Put(s, t, Unclaimed(b)))
         case ToQueue(e) =>
           Some(Note(Put(s.(shared := PushEntry(s.shared, e, b)), t, Idle), Routed(socket, s.memory[b]))))
    case PushDefault(t) =>
      if !ThreadOf(s, t).Unclaimed? || ThreadOf(s, t).buffer !in s.memory then None
      else
        var b := ThreadOf(s, t).buffer;
        Some(Note(Put(s.(shared := s.shared.(unclaimed := s.shared.unclaimed + [b])), t, Idle), Unrouted(s.memory[b])))
    case HandlerDone(t, data) =>
      if !ThreadOf(s, t).Handling? then None
      else
        var b := ThreadOf(s, t).buffer;
        Some(Put(s.(memory := s.memory[b := data]), t, Returning(b)))
    case ReturnBuffer(t) =>
      if !ThreadOf(s, t).Returning? then None else Some(Put(Free(s, ThreadOf(s, t).buffer), t, Idle))
    case RegisterInterest(socket, handler) =>
      if socket in s.shared.sockets then None
      else Some(Note(s.(shared := Register(s.shared, socket, handler)), Registered(socket)))
    case UnregisterInterest(socket) => Some(s.(shared := Unregister(s.shared, socket)))
    case SocketRead(t, socket) =>
      if ThreadOf(s, t) != Idle || socket !in s.shared.sockets then None
      else Some(Put(s, t, Waiting(socket, s.shared.sockets[socket])))
    case PopSocket(t) =>
      if !ThreadOf(s, t).Waiting? then None
      else
        var e := ThreadOf(s, t).entry;
        if e >= |s.shared.entries| || s.shared.entries[e].queue == [] then None
        else
          var b := s.shared.entries[e].queue[0];
          if b !in s.memory then None
          else Some(Note(Put(s.(shared := PopEntry(s.shared, e)), t, Popped(b)),
                         Delivered(s.shared.entries[e].socket, s.memory[b])))
    case PopDefault(t) =>
      if ThreadOf(s, t) != Idle || s.shared.unclaimed == [] || s.shared.unclaimed[0] !in s.memory then None
      else
        var b := s.shared.unclaimed[0];
        Some(Note(Put(s.(shared := s.shared.(unclaimed := s.shared.unclaimed[1..])), t, Popped(b)), Taken(s.memory[b])))
    case GiveUp(t) => if !ThreadOf(s, t).Waiting? then None else Some(Put(s, t, Idle))
    case MakeHandle(t, h) =>
      if !ThreadOf(s, t).Popped? || h in s.handles then None
      else Some(Put(s.(handles := s.handles[h := ThreadOf(s, t).buffer]), t, Idle))
    case CopyHandle(to, from) =>
      if from !in s.handles || to in s.handles then None else Some(TakenOver(s, to, from))
    case AssignHandle(to, from) =>
      // the old buffer is returned first, and a handle assigned to itself ends empty
      var s1 := Dropped(s, to);
      Some(if from in s1.handles then TakenOver(s1, to, from) else s1)
    case DropHandle(h) => Some(Dropped(s, h))
    case WriteThrough(h, data) =>
      if h !in s.handles then None else Some(s.(memory := s.memory[s.handles[h] := data]))
  }

  function Run(s: State, steps: seq<Step>): Option<State>
    decreases |steps|
  {
    if steps == [] then Some(s)
    else
      match Next(s, steps[0])
      case None => None
      case Some(s') => Run(s', steps[1..])
  }

  /** The steps that write memory, and where. */
  lemma MemoryEffect(s: State, step: Step, s': State)
    requires Next(s, step) == Some(s')
    ensures match step
      case Allocate(b) => b !in s.memory && s'.memory == s.memory[b := []]
      case FetchFree(_, b) =>
        if s.shared.free != [] then s'.memory == s.memory else b !in s.memory && s'.memory == s.memory[b := []]
      case UsbRead(t, _, data) => ThreadOf(s, t).Reading? && s'.memory == s.memory[ThreadOf(s, t).buffer := data]
      case HandlerDone(t, data) => ThreadOf(s, t).Handling? && s'.memory == s.memory[ThreadOf(s, t).buffer := data]
      case WriteThrough(h, data) => h in s.handles && s'.memory == s.memory[s.handles[h] := data]
      case _ => s'.memory == s.memory
  {
    hide Register, Unregister, PushEntry, PopEntry, Find, Val16, ThreadOf, Dropped, TakenOver;
  }

  /** What the other critical sections do to the shared state and the log. */
  lemma RouteEffect(s: State, t: ThreadId, s': State)
    requires Next(s, Route(t)) == Some(s')
    ensures ThreadOf(s, t).Routing? && ThreadOf(s, t).buffer in s.memory && s'.memory == s.memory
    ensures
      var b := ThreadOf(s, t).buffer;
      var socket := Val16(s.memory[b], 0);
      match Find(s.shared, socket)
      case ToQueue(e) =>
        && s'.shared == PushEntry(s.shared, e, b) && s'.log == s.log + [Routed(socket, s.memory[b])]
        && s'.threads == s.threads[t := Idle]
      case ToHandler => s'.shared == s.shared && s'.log == s.log && s'.threads == s.threads[t := Handling(b)]
      case ToDefault => s'.shared == s.shared && s'.log == s.log && s'.threads == s.threads[t := Unclaimed(b)]
  {
    hide Val16, Find, PushEntry;
  }

  lemma PopEffect(s: State, t: ThreadId, s': State)
    requires Next(s, PopSocket(t)) == Some(s')
    ensures ThreadOf(s, t).Waiting? && s'.memory == s.memory && s'.handles == s.handles
    ensures
      var e := ThreadOf(s, t).entry;
      && e < |s.shared.entries| && s.shared.entries[e].queue != []
      && var b := s.shared.entries[e].queue[0];
        && b in s.memory && s'.shared == PopEntry(s.shared, e) && s'.threads == s.threads[t := Popped(b)]
        && s'.log == s.log + [Delivered(s.shared.entries[e].socket, s.memory[b])]
  {
    hide PopEntry;
  }

  lemma DefaultEffect(s: State, step: Step, s': State)
    requires Next(s, step) == Some(s') && (step.PushDefault? || step.PopDefault?)
    ensures s'.memory == s.memory && s'.shared == s.shared.(unclaimed := s'.shared.unclaimed)
    ensures step.PushDefault? ==>
      && ThreadOf(s, step.thread).Unclaimed? && s'.threads == s.threads[step.thread := Idle]
      && var b := ThreadOf(s, step.thread).buffer;
        && b in s.memory && s'.shared.unclaimed == s.shared.unclaimed + [b]
        && s'.log == s.log + [Unrouted(s.memory[b])]
    ensures step.PopDefault? ==>
      && s.shared.unclaimed != []
      && var b := s.shared.unclaimed[0];
        && b in s.memory && s'.shared.unclaimed == s.shared.unclaimed[1..]
        && s'.threads == s.threads[step.thread := Popped(b)] && s'.log == s.log + [Taken(s.memory[b])]
  {
  }

  lemma RegistrationEffect(s: State, step: Step, s': State)
    requires Next(s, step) == Some(s') && (step.RegisterInterest? || step.UnregisterInterest?)
    ensures s'.memory == s.memory && (step.RegisterInterest? ==> step.socket !in s.shared.sockets)
    ensures s'.shared == if step.RegisterInterest? then Register(s.shared, step.socket, step.handler)
                         else Unregister(s.shared, step.socket)
    ensures s'.log == if step.RegisterInterest? then s.log + [Registered(step.socket)] else s.log
  {
    hide Register, Unregister, Find, PushEntry, PopEntry;
  }

  /** The steps that leave registrations, all queues of packets and the log alone. */
  predicate IsQuiet(step: Step)
  {
    && !step.Route? && !step.PopSocket? && !step.PushDefault? && !step.PopDefault?
    && !step.RegisterInterest? && !step.UnregisterInterest?
  }

  predicate SameRegistrations(s: State, s': State)
  {
    && s'.shared.entries == s.shared.entries && s'.shared.sockets == s.shared.sockets
    && s'.shared.interest == s.shared.interest && s'.shared.unclaimed == s.shared.unclaimed && s'.log == s.log
  }

  lemma QuietHandles(s: State, step: Step, s': State)
    requires Next(s, step) == Some(s')
    requires step.MakeHandle? || step.CopyHandle? || step.AssignHandle? || step.DropHandle? || step.WriteThrough?
    ensures SameRegistrations(s, s')
  {
    hide ThreadOf, Dropped, TakenOver;
  }

  lemma QuietThreads(s: State, step: Step, s': State)
    requires Next(s, step) == Some(s') && IsQuiet(step)
    requires step.UsbRead? || step.HandlerDone? || step.ReturnBuffer? || step.SocketRead? || step.GiveUp?
    ensures SameRegistrations(s, s')
  {
    hide ThreadOf;
  }

  lemma QuietSteps(s: State, step: Step, s': State)
    requires IsQuiet(step) && Next(s, step) == Some(s')
    ensures SameRegistrations(s, s')
  {
    match step
    case SetDevice(_) =>
    case Allocate(_) =>
    case FetchFree(_, _) =>
    case _ =>
      hide Next;
      if step.MakeHandle? || step.CopyHandle? || step.AssignHandle? || step.DropHandle? || step.WriteThrough? {
        QuietHandles(s, step, s');
      } else {
        QuietThreads(s, step, s');
      }
  }

  // ---- Ownership ----

  datatype Place =
    | InFree
    | InDefault
    | InEntry(entry: EntryId)
    | InThread(thread: ThreadId)
    | InHandle(handle: HandleId)

  /** The buffers at a place, in order. */
  function Held(s: State, p: Place): seq<Buffer>
  {
    match p
    case InFree => s.shared.free
    case InDefault => s.shared.unclaimed
    case InEntry(e) => if e < |s.shared.entries| then s.shared.entries[e].queue else []
    case InThread(t) =>
      (match ThreadOf(s, t)
       case Idle => []
       case Waiting(_, _) => []
       case _ => [ThreadOf(s, t).buffer])
    case InHandle(h) => if h in s.handles then [s.handles[h]] else []
  }

  predicate NoRepeats(q: seq<Buffer>)
  {
    forall i, j :: 0 <= i < j < |q| ==> q[i] != q[j]
  }

  /** Every allocated buffer is at the one place owner names, once, and nothing else is anywhere. */
  ghost predicate Owned(s: State, owner: map<Buffer, Place>)
  {
    && owner.Keys == s.memory.Keys
    && (forall p, b {:trigger b in Held(s, p)} :: b in Held(s, p) <==> b in owner && owner[b] == p)
    && (forall p {:trigger Held(s, p)} :: NoRepeats(Held(s, p)))
  }

  /** Moving one buffer from the front of one place to the end of another keeps ownership. */
  lemma MoveKeepsOwned(s: State, s': State, owner: map<Buffer, Place>, b: Buffer, from: Place, to: Place)
    requires Owned(s, owner) && from != to && s'.memory.Keys == s.memory.Keys
    requires Held(s, from) == [b] + Held(s', from) && Held(s', to) == Held(s, to) + [b]
    requires forall p :: p != from && p != to ==> Held(s', p) == Held(s, p)
    ensures Owned(s', owner[b := to])
  {
    hide Held;
    assert Held(s, from)[0] == b && b in Held(s, from);
    assert forall i :: 0 <= i < |Held(s', from)| ==> Held(s', from)[i] == Held(s, from)[i + 1];
    assert b !in Held(s', from);
    assert b !in Held(s, to);
    forall p, x
      ensures x in Held(s', p) <==> x in owner[b := to] && owner[b := to][x] == p
    {
      if p == from {
        assert x in Held(s, from) <==> x == b || x in Held(s', from);
      } else if p == to {
        assert x in Held(s', to) <==> x == b || x in Held(s, to);
      }
    }
  }

  /** A new buffer appears at the end of one place. */
  lemma NewKeepsOwned(s: State, s': State, owner: map<Buffer, Place>, b: Buffer, to: Place)
    requires Owned(s, owner) && b !in s.memory && s'.memory.Keys == s.memory.Keys + {b}
    requires Held(s', to) == Held(s, to) + [b]
    requires forall p :: p != to ==> Held(s', p) == Held(s, p)
    ensures Owned(s', owner[b := to])
  {
    hide Held;
    assert b !in Held(s, to);
    forall p, x
      ensures x in Held(s', p) <==> x in owner[b := to] && owner[b := to][x] == p
    {
      if p == to {
        assert x in Held(s', to) <==> x == b || x in Held(s, to);
      }
    }
  }

  lemma SameHeldKeepsOwned(s: State, s': State, owner: map<Buffer, Place>)
    requires Owned(s, owner) && s'.memory.Keys == s.memory.Keys
    requires forall p :: Held(s', p) == Held(s, p)
    ensures Owned(s', owner)
  {
  }

  lemma NoRepeatsTogether(q: seq<Buffer>, r: seq<Buffer>)
    requires NoRepeats(q) && NoRepeats(r) && forall b :: b in q ==> b !in r
    ensures NoRepeats(q + r)
  {
    forall i, j | 0 <= i < j < |q + r|
      ensures (q + r)[i] != (q + r)[j]
    {
      if i < |q| <= j {
        assert q[i] in q && r[j - |q|] in r;
      }
    }
  }

  /** Everything at one place goes to the end of another. */
  lemma DrainKeepsOwned(s: State, s': State, owner: map<Buffer, Place>, from: Place, to: Place)
    returns (owner': map<Buffer, Place>)
    requires Owned(s, owner) && from != to && s'.memory.Keys == s.memory.Keys
    requires Held(s', to) == Held(s, to) + Held(s, from) && Held(s', from) == []
    requires forall p :: p != from && p != to ==> Held(s', p) == Held(s, p)
    ensures Owned(s', owner')
  {
    hide Held;
    var q := Held(s, from);
    owner' := map b | b in owner :: if owner[b] == from then to else owner[b];
    assert NoRepeats(Held(s, to)) && NoRepeats(q);
    assert forall b :: b in Held(s, to) ==> b !in q;
    NoRepeatsTogether(Held(s, to), q);
    forall p
      ensures NoRepeats(Held(s', p))
    {
      if p != from && p != to {
        assert NoRepeats(Held(s, p));
      }
    }
    forall p, b
      ensures b in Held(s', p) <==> b in owner' && owner'[b] == p
    {
      if p == to {
        assert b in Held(s', p) <==> b in Held(s, to) || b in q;
      } else if p != from {
        assert b in Held(s', p) <==> b in Held(s, p);
      }
    }
  }

  /** Unregistering moves a whole queue to the free queue. */
  lemma UnregisterKeepsOwned(s: State, s': State, owner: map<Buffer, Place>, socket: SocketId)
    returns (owner': map<Buffer, Place>)
    requires Owned(s, owner) && Next(s, UnregisterInterest(socket)) == Some(s')
    ensures Owned(s', owner')
  {
    hide Owned;
    if socket !in s.shared.sockets || s.shared.sockets[socket] >= |s.shared.entries| {
      return owner;
    }
    owner' := DrainKeepsOwned(s, s', owner, InEntry(s.shared.sockets[socket]), InFree);
  }

  /** Dropping a handle returns its buffer... */
  lemma DropKeepsOwned(s: State, h: HandleId, owner: map<Buffer, Place>)
    returns (owner': map<Buffer, Place>)
    requires Owned(s, owner)
    ensures Owned(Dropped(s, h), owner')
  {
    hide Owned;
    owner' := owner;
    if h in s.handles {
      MoveKeepsOwned(s, Dropped(s, h), owner, s.handles[h], InHandle(h), InFree);
      owner' := owner[s.handles[h] := InFree];
    }
  }

  /** ... copying one moves it... */
  lemma TakeOverKeepsOwned(s: State, to: HandleId, from: HandleId, owner: map<Buffer, Place>)
    requires Owned(s, owner) && from in s.handles && to !in s.handles
    ensures Owned(TakenOver(s, to, from), owner[s.handles[from] := InHandle(to)])
  {
    hide Owned;
    MoveKeepsOwned(s, TakenOver(s, to, from), owner, s.handles[from], InHandle(from), InHandle(to));
  }

  /** ... and assigning one does both. */
  lemma HandlesKeepOwned(s: State, step: Step, s': State, owner: map<Buffer, Place>)
    returns (owner': map<Buffer, Place>)
    requires Owned(s, owner) && Next(s, step) == Some(s')
    requires step.CopyHandle? || step.AssignHandle? || step.DropHandle?
    ensures Owned(s', owner')
  {
    hide Owned, Dropped, TakenOver, Register, Unregister, PushEntry, PopEntry, Find, Val16;
    var s1 := s;
    owner' := owner;
    if step.DropHandle? {
      owner' := DropKeepsOwned(s, step.handle, owner);
    } else {
      if step.AssignHandle? {
        owner' := DropKeepsOwned(s, step.to, owner);
        s1 := Dropped(s, step.to);
      }
      if step.from in s1.handles {
        TakeOverKeepsOwned(s1, step.to, step.from, owner');
        owner' := owner'[s1.handles[step.from] := InHandle(step.to)];
      }
    }
  }

  lemma RouteKeepsOwned(s: State, t: ThreadId, s': State, owner: map<Buffer, Place>)
    returns (owner': map<Buffer, Place>)
    requires Owned(s, owner) && Next(s, Route(t)) == Some(s')
    ensures Owned(s', owner')
  {
    hide Owned, Register, Unregister, PopEntry, Val16;
    var b := ThreadOf(s, t).buffer;
    match Find(s.shared, Val16(s.memory[b], 0))
    case ToQueue(e) =>
      MoveKeepsOwned(s, s', owner, b, InThread(t), InEntry(e));
      owner' := owner[b := InEntry(e)];
    case _ =>
      SameHeldKeepsOwned(s, s', owner);
      owner' := owner;
  }

  /** The other steps by which a thread gives its buffer away... */
  lemma LeavingKeepsOwned(s: State, step: Step, s': State, owner: map<Buffer, Place>)
    returns (owner': map<Buffer, Place>)
    requires Owned(s, owner) && Next(s, step) == Some(s')
    requires step.PushDefault? || step.ReturnBuffer? || step.MakeHandle?
    ensures Owned(s', owner')
  {
    hide Owned, Register, Unregister, PushEntry, PopEntry, Find, Val16;
    var b := ThreadOf(s, step.thread).buffer;
    var to := if step.PushDefault? then InDefault else if step.ReturnBuffer? then InFree else InHandle(step.handle);
    MoveKeepsOwned(s, s', owner, b, InThread(step.thread), to);
    owner' := owner[b := to];
  }

  /** ... takes one from the queue of an entry... */
  lemma PopSocketKeepsOwned(s: State, t: ThreadId, s': State, owner: map<Buffer, Place>)
    returns (owner': map<Buffer, Place>)
    requires Owned(s, owner) && Next(s, PopSocket(t)) == Some(s')
    ensures Owned(s', owner')
  {
    hide Owned, Next;
    PopEffect(s, t, s');
    var e := ThreadOf(s, t).entry;
    var b := s.shared.entries[e].queue[0];
    MoveKeepsOwned(s, s', owner, b, InEntry(e), InThread(t));
    owner' := owner[b := InThread(t)];
  }

  /** ... or from the default queue. */
  lemma PopDefaultKeepsOwned(s: State, t: ThreadId, s': State, owner: map<Buffer, Place>)
    returns (owner': map<Buffer, Place>)
    requires Owned(s, owner) && Next(s, PopDefault(t)) == Some(s')
    ensures Owned(s', owner')
  {
    hide Owned, Register, Unregister, PushEntry, PopEntry, Find, Val16;
    var b := s.shared.unclaimed[0];
    MoveKeepsOwned(s, s', owner, b, InDefault, InThread(t));
    owner' := owner[b := InThread(t)];
  }

  lemma AllocateKeepsOwned(s: State, unused: Buffer, s': State, owner: map<Buffer, Place>)
    requires Owned(s, owner) && Next(s, Allocate(unused)) == Some(s')
    ensures Owned(s', owner[unused := InFree])
  {
    hide Owned;
    assert unused !in s.memory && s' == Free(s.(memory := s.memory[unused := []]), unused);
    hide Next;
    NewKeepsOwned(s, s', owner, unused, InFree);
  }

  /** The buffer FetchFree takes: the first free one, or a new one. */
  function Fetched(s: State, unused: Buffer): Buffer
  {
    if s.shared.free != [] then s.shared.free[0] else unused
  }

  lemma FetchEffect(s: State, t: ThreadId, unused: Buffer, s': State)
    requires Next(s, FetchFree(t, unused)) == Some(s')
    ensures ThreadOf(s, t) == Idle
    ensures s' == Put(if s.shared.free != [] then s.(shared := s.shared.(free := s.shared.free[1..]))
                      else s.(memory := s.memory[unused := []]), t, Reading(Fetched(s, unused)))
    ensures s.shared.free == [] ==> unused !in s.memory
  {
  }

  lemma FetchKeepsOwned(s: State, t: ThreadId, unused: Buffer, s': State, owner: map<Buffer, Place>)
    requires Owned(s, owner) && Next(s, FetchFree(t, unused)) == Some(s')
    ensures Owned(s', owner[Fetched(s, unused) := InThread(t)])
  {
    hide Owned, Next;
    FetchEffect(s, t, unused, s');
    if s.shared.free != [] {
      MoveKeepsOwned(s, s', owner, s.shared.free[0], InFree, InThread(t));
    } else {
      NewKeepsOwned(s, s', owner, unused, InThread(t));
    }
  }

  /** The steps that write to a buffer which their thread or handle holds... */
  lemma WritesKeepOwned(s: State, step: Step, s': State, owner: map<Buffer, Place>)
    requires Owned(s, owner) && Next(s, step) == Some(s')
    requires step.UsbRead? || step.HandlerDone? || step.WriteThrough?
    ensures Owned(s', owner)
  {
    hide Owned, Register, Unregister, PushEntry, PopEntry, Find, Val16;
    match step {
      case UsbRead(t, _, _) => HolderIsOwner(s, owner, ThreadOf(s, t).buffer, InThread(t));
      case HandlerDone(t, _) => HolderIsOwner(s, owner, ThreadOf(s, t).buffer, InThread(t));
      case WriteThrough(h, _) => HolderIsOwner(s, owner, s.handles[h], InHandle(h));
    }
    SameHeldKeepsOwned(s, s', owner);
  }

  /** ... and those that neither move nor write one. */
  lemma OthersKeepOwned(s: State, step: Step, s': State, owner: map<Buffer, Place>)
    requires Owned(s, owner) && Next(s, step) == Some(s')
    requires step.SetDevice? || step.RegisterInterest? || step.SocketRead? || step.GiveUp?
    ensures Owned(s', owner)
  {
    hide Owned, Unregister, PushEntry, PopEntry, Find, Val16;
    SameHeldKeepsOwned(s, s', owner);
  }

  /** Every step keeps every buffer at exactly one place. */
  lemma StepKeepsOwned(s: State, step: Step, s': State, owner: map<Buffer, Place>)
    returns (owner': map<Buffer, Place>)
    requires Owned(s, owner) && Next(s, step) == Some(s')
    ensures Owned(s', owner')
  {
    hide Owned, Next;
    match step
    case Allocate(unused) =>
      AllocateKeepsOwned(s, unused, s', owner);
      owner' := owner[unused := InFree];
    case FetchFree(t, unused) =>
      FetchKeepsOwned(s, t, unused, s', owner);
      owner' := owner[Fetched(s, unused) := InThread(t)];
    case Route(t) => owner' := RouteKeepsOwned(s, t, s', owner);
    case PushDefault(_) => owner' := LeavingKeepsOwned(s, step, s', owner);
    case ReturnBuffer(_) => owner' := LeavingKeepsOwned(s, step, s', owner);
    case MakeHandle(_, _) => owner' := LeavingKeepsOwned(s, step, s', owner);
    case PopSocket(t) => owner' := PopSocketKeepsOwned(s, t, s', owner);
    case PopDefault(t) => owner' := PopDefaultKeepsOwned(s, t, s', owner);
    case CopyHandle(_, _) => owner' := HandlesKeepOwned(s, step, s', owner);
    case AssignHandle(_, _) => owner' := HandlesKeepOwned(s, step, s', owner);
    case DropHandle(_) => owner' := HandlesKeepOwned(s, step, s', owner);
    case UnregisterInterest(socket) => owner' := UnregisterKeepsOwned(s, s', owner, socket);
    case _ =>
      if step.UsbRead? || step.HandlerDone? || step.WriteThrough? {
        WritesKeepOwned(s, step, s', owner);
      } else {
        OthersKeepOwned(s, step, s', owner);
      }
      owner' := owner;
  }

  lemma HolderIsOwner(s: State, owner: map<Buffer, Place>, b: Buffer, p: Place)
    requires Owned(s, owner) && b in Held(s, p)
    ensures b in s.memory && owner[b] == p
  {
  }

  /** Buffers are made only when asked for, or when a read finds no free one; none is ever lost. */
  lemma AllocationOnlyGrows(s: State, step: Step, s': State, owner: map<Buffer, Place>)
    requires Owned(s, owner) && Next(s, step) == Some(s')
    ensures s'.memory.Keys == s.memory.Keys +
      if step.Allocate? || (step.FetchFree? && s.shared.free == []) then {step.unused} else {}
  {
    hide Owned, Next;
    MemoryEffect(s, step, s');
    match step
    case UsbRead(t, ok, data) => HolderIsOwner(s, owner, ThreadOf(s, t).buffer, InThread(t));
    case HandlerDone(t, data) => HolderIsOwner(s, owner, ThreadOf(s, t).buffer, InThread(t));
    case WriteThrough(h, data) => HolderIsOwner(s, owner, s.handles[h], InHandle(h));
    case _ =>
  }

  // ---- Registrations and order ----

  /** Registrations name live entries, and an entry no longer registered is empty. */
  ghost predicate Linked(s: Shared)
  {
    && (forall k :: k in s.sockets ==> s.sockets[k] < |s.entries| && s.entries[s.sockets[k]].socket == k)
    && (forall e :: 0 <= e < |s.entries| && s.entries[e].queue != [] ==>
          !s.entries[e].handler && s.entries[e].socket in s.sockets && s.sockets[s.entries[e].socket] == e)
    && (s.interest <==> s.sockets != map[])
  }

  lemma UnregisterKeepsLinked(s: Shared, socket: SocketId)
    requires Linked(s)
    ensures Linked(Unregister(s, socket)) && (socket in s.sockets ==> s.sockets[socket] < |s.entries|)
  {
    if socket in s.sockets {
      var left := s.sockets - {socket};
      assert |left| > 0 <==> left != map[];
    }
  }

  lemma RegisterKeepsLinked(s: Shared, socket: SocketId, handler: bool)
    requires Linked(s) && socket !in s.sockets
    ensures Linked(Register(s, socket, handler))
  {
    assert socket in Register(s, socket, handler).sockets;
  }

  lemma PushKeepsLinked(s: Shared, socket: SocketId, b: Buffer)
    requires Linked(s) && Find(s, socket).ToQueue?
    ensures Linked(PushEntry(s, Find(s, socket).entry, b))
  {
  }

  lemma PopKeepsLinked(s: Shared, e: EntryId)
    requires Linked(s) && e < |s.entries| && s.entries[e].queue != []
    ensures Linked(PopEntry(s, e))
  {
  }

  lemma StepKeepsLinked(s: State, step: Step, s': State)
    requires Linked(s.shared) && Next(s, step) == Some(s')
    ensures Linked(s'.shared)
  {
    hide Linked, Next, Register, Unregister, PushEntry, PopEntry, Val16, ThreadOf;
    match step
    case UnregisterInterest(socket) =>
      RegistrationEffect(s, step, s');
      UnregisterKeepsLinked(s.shared, socket);
    case RegisterInterest(socket, handler) =>
      RegistrationEffect(s, step, s');
      RegisterKeepsLinked(s.shared, socket, handler);
    case PopSocket(t) =>
      PopEffect(s, t, s');
      PopKeepsLinked(s.shared, ThreadOf(s, t).entry);
    case Route(t) =>
      RouteEffect(s, t, s');
      var b := ThreadOf(s, t).buffer;
      if Find(s.shared, Val16(s.memory[b], 0)).ToQueue? {
        PushKeepsLinked(s.shared, Val16(s.memory[b], 0), b);
      }
    case _ =>
      if IsQuiet(step) {
        QuietSteps(s, step, s');
      } else {
        DefaultEffect(s, step, s');
      }
      SameLinks(s.shared, s'.shared);
  }

  lemma SameLinks(s: Shared, s': Shared)
    requires Linked(s) && s'.entries == s.entries && s'.sockets == s.sockets && s'.interest == s.interest
    ensures Linked(s')
  {
  }

  /** With a consistent interest flag, skipping the map when it is off changes nothing. */
  lemma InterestFlagIsExact(s: Shared, socket: SocketId)
    requires Linked(s)
    ensures Find(s, socket) ==
      if socket in s.sockets then
        if s.entries[s.sockets[socket]].handler then ToHandler else ToQueue(s.sockets[socket])
      else ToDefault
  {
  }

  /** The packets routed to the socket's queue since it was last registered. */
  function RoutedTo(log: seq<Event>, socket: SocketId): seq<seq<Byte>>
  {
    if log == [] then []
    else
      var earlier, last := log[..|log| - 1], log[|log| - 1];
      if last == Registered(socket) then []
      else if last.Routed? && last.socket == socket then RoutedTo(earlier, socket) + [last.packet]
      else RoutedTo(earlier, socket)
  }

  /** The packets SocketRead has taken for the socket since it was last registered. */
  function DeliveredTo(log: seq<Event>, socket: SocketId): seq<seq<Byte>>
  {
    if log == [] then []
    else
      var earlier, last := log[..|log| - 1], log[|log| - 1];
      if last == Registered(socket) then []
      else if last.Delivered? && last.socket == socket then DeliveredTo(earlier, socket) + [last.packet]
      else DeliveredTo(earlier, socket)
  }

  function PacketIn(s: State, b: Buffer): seq<Byte>
  {
    if b in s.memory then s.memory[b] else []
  }

  function Packets(s: State, q: seq<Buffer>): (ps: seq<seq<Byte>>)
    ensures |ps| == |q|
  {
    seq(|q|, i requires 0 <= i < |q| => PacketIn(s, q[i]))
  }

  /** Delivered then queued is what was routed, for every registered socket. */
  ghost predicate InOrder(s: State)
    requires Linked(s.shared)
  {
    forall k :: k in s.shared.sockets ==>
      DeliveredTo(s.log, k) + Packets(s, s.shared.entries[s.shared.sockets[k]].queue) == RoutedTo(s.log, k)
  }

  ghost predicate OnlyOwnPackets(log: seq<Event>)
  {
    forall e :: e in log && e.Routed? ==> |e.packet| >= 2 && Val16(e.packet, 0) == e.socket
  }

  /** A packet waiting to be routed is long enough to have a socket. */
  ghost predicate RoutableSizes(s: State)
  {
    forall t :: ThreadOf(s, t).Routing? ==> |PacketIn(s, ThreadOf(s, t).buffer)| >= 2
  }

  /** Everything that holds in every reachable state. */
  ghost predicate Invariant(s: State, owner: map<Buffer, Place>)
  {
    Owned(s, owner) && Linked(s.shared) && InOrder(s) && OnlyOwnPackets(s.log) && RoutableSizes(s)
  }

  lemma LogGrows(log: seq<Event>, e: Event, k: SocketId)
    ensures RoutedTo(log + [e], k) == if e == Registered(k) then []
      else if e.Routed? && e.socket == k then RoutedTo(log, k) + [e.packet] else RoutedTo(log, k)
    ensures DeliveredTo(log + [e], k) == if e == Registered(k) then []
      else if e.Delivered? && e.socket == k then DeliveredTo(log, k) + [e.packet] else DeliveredTo(log, k)
  {
    assert (log + [e])[..|log|] == log;
  }

  /** Only the holder of a buffer can change its bytes, so queued packets stay as they were routed. */
  lemma QueuedPacketsStay(s: State, step: Step, s': State, owner: map<Buffer, Place>, b: Buffer, p: Place)
    requires Owned(s, owner) && Next(s, step) == Some(s') && b in Held(s, p) && (p.InEntry? || p.InDefault?)
    ensures PacketIn(s', b) == PacketIn(s, b)
  {
    hide Owned, Next;
    MemoryEffect(s, step, s');
    HolderIsOwner(s, owner, b, p);
    match step
    case UsbRead(t, _, _) => HolderIsOwner(s, owner, ThreadOf(s, t).buffer, InThread(t));
    case HandlerDone(t, _) => HolderIsOwner(s, owner, ThreadOf(s, t).buffer, InThread(t));
    case WriteThrough(h, _) => HolderIsOwner(s, owner, s.handles[h], InHandle(h));
    case _ =>
  }

  lemma PacketsStay(s: State, step: Step, s': State, owner: map<Buffer, Place>, p: Place)
    requires Owned(s, owner) && Next(s, step) == Some(s') && (p.InEntry? || p.InDefault?)
    ensures Packets(s', Held(s, p)) == Packets(s, Held(s, p))
  {
    hide Next, Owned, Held;
    var q := Held(s, p);
    forall i | 0 <= i < |q|
      ensures PacketIn(s', q[i]) == PacketIn(s, q[i])
    {
      QueuedPacketsStay(s, step, s', owner, q[i], p);
    }
  }

  /** Pushing and popping change the queue of one registered socket. */
  lemma PushTouchesOne(s: Shared, socket: SocketId, b: Buffer, k: SocketId)
    requires Linked(s) && Find(s, socket).ToQueue? && Find(s, socket).entry < |s.entries|
    requires k in PushEntry(s, Find(s, socket).entry, b).sockets
    ensures
      var s' := PushEntry(s, Find(s, socket).entry, b);
      && s'.sockets == s.sockets && s.sockets[k] < |s.entries| == |s'.entries|
      && s'.entries[s.sockets[k]].queue
         == s.entries[s.sockets[k]].queue + if k == socket then [b] else []
  {
  }

  lemma PopTouchesOne(s: Shared, e: EntryId, k: SocketId)
    requires Linked(s) && e < |s.entries| && s.entries[e].queue != [] && k in PopEntry(s, e).sockets
    ensures
      var s' := PopEntry(s, e);
      && s'.sockets == s.sockets && s.sockets[k] < |s.entries| == |s'.entries|
      && (s.entries[e].socket == k <==> s.sockets[k] == e)
      && s'.entries[s.sockets[k]].queue
         == if s.sockets[k] == e then s.entries[e].queue[1..] else s.entries[s.sockets[k]].queue
  {
  }

  /** Routing appends to one queue what the log says was routed. */
  lemma RouteKeepsOrder(s: State, t: ThreadId, s': State, owner: map<Buffer, Place>, k: SocketId)
    requires Invariant(s, owner) && Next(s, Route(t)) == Some(s') && Linked(s'.shared) && k in s'.shared.sockets
    ensures DeliveredTo(s'.log, k) + Packets(s', s'.shared.entries[s'.shared.sockets[k]].queue) == RoutedTo(s'.log, k)
  {
    hide Next, Invariant, Linked, RoutedTo, DeliveredTo, Packets, Val16, Find, PushEntry;
    RouteEffect(s, t, s');
    OrderAt(s, owner, k);
    var b, socket := ThreadOf(s, t).buffer, Val16(s.memory[ThreadOf(s, t).buffer], 0);
    match Find(s.shared, socket)
    case ToQueue(_) =>
      PushTouchesOne(s.shared, socket, b, k);
      LogGrows(s.log, Routed(socket, s.memory[b]), k);
      var q := s.shared.entries[s.shared.sockets[k]].queue;
      SamePackets(s, s', q);
      if k == socket {
        PacketsOfMore(s', q, b);
        JoinAgain(DeliveredTo(s.log, k), s.memory[b], Packets(s', q));
      } else {
        assert q + [] == q;
      }
    case _ =>
      SamePackets(s, s', s.shared.entries[s.shared.sockets[k]].queue);
  }

  lemma PacketsOfMore(s: State, q: seq<Buffer>, b: Buffer)
    ensures Packets(s, q + [b]) == Packets(s, q) + [PacketIn(s, b)]
  {
  }

  lemma OrderAt(s: State, owner: map<Buffer, Place>, k: SocketId)
    requires Invariant(s, owner)
    ensures Owned(s, owner) && Linked(s.shared)
    ensures k in s.shared.sockets ==>
      && s.shared.sockets[k] < |s.shared.entries|
      && DeliveredTo(s.log, k) + Packets(s, s.shared.entries[s.shared.sockets[k]].queue) == RoutedTo(s.log, k)
  {
    hide Owned, OnlyOwnPackets, RoutableSizes, RoutedTo, DeliveredTo, Packets;
  }

  lemma JoinAgain(a: seq<seq<Byte>>, p: seq<Byte>, b: seq<seq<Byte>>)
    ensures a + [p] + b == a + ([p] + b) && a + (b + [p]) == a + b + [p]
  {
  }

  lemma SamePackets(s: State, s': State, q: seq<Buffer>)
    requires s'.memory == s.memory
    ensures Packets(s', q) == Packets(s, q)
    ensures q != [] ==> Packets(s, q) == [PacketIn(s, q[0])] + Packets(s', q[1..])
  {
  }

  /** Popping moves the first queued packet of one socket to what was delivered. */
  lemma PopKeepsOrder(s: State, t: ThreadId, s': State, owner: map<Buffer, Place>, k: SocketId)
    requires Invariant(s, owner) && Next(s, PopSocket(t)) == Some(s') && Linked(s'.shared) && k in s'.shared.sockets
    ensures DeliveredTo(s'.log, k) + Packets(s', s'.shared.entries[s'.shared.sockets[k]].queue) == RoutedTo(s'.log, k)
  {
    hide Next, Invariant, Linked, RoutedTo, DeliveredTo, Packets, PopEntry;
    PopEffect(s, t, s');
    OrderAt(s, owner, k);
    var popped := ThreadOf(s, t).entry;
    PopTouchesOne(s.shared, popped, k);
    var q, first := s.shared.entries[s.shared.sockets[k]].queue, s.shared.entries[popped].queue[0];
    LogGrows(s.log, Delivered(s.shared.entries[popped].socket, s.memory[first]), k);
    SamePackets(s, s', q);
    if s.shared.sockets[k] == popped {
      JoinAgain(DeliveredTo(s.log, k), s.memory[first], Packets(s', q[1..]));
    }
  }

  lemma StepKeepsOrder(s: State, step: Step, s': State, owner: map<Buffer, Place>)
    requires Invariant(s, owner) && Next(s, step) == Some(s') && Linked(s'.shared)
    ensures InOrder(s')
  {
    hide Next, Owned;
    forall k | k in s'.shared.sockets
      ensures DeliveredTo(s'.log, k) + Packets(s', s'.shared.entries[s'.shared.sockets[k]].queue) == RoutedTo(s'.log, k)
    {
      if step.Route? {
        RouteKeepsOrder(s, step.thread, s', owner, k);
      } else if step.PopSocket? {
        PopKeepsOrder(s, step.thread, s', owner, k);
      } else if IsQuiet(step) {
        QuietStepsKeepOrder(s, step, s', owner, k);
      } else if step.PushDefault? || step.PopDefault? {
        DefaultStepsKeepOrder(s, step, s', owner, k);
      } else {
        RegistrationsKeepOrder(s, step, s', owner, k);
      }
    }
  }

  lemma RegisterTouchesNoOther(s: Shared, socket: SocketId, handler: bool, k: SocketId)
    requires Linked(s) && socket !in s.sockets && k in Register(s, socket, handler).sockets
    ensures
      var s' := Register(s, socket, handler);
      && s'.sockets[k] < |s'.entries|
      && if k == socket then s'.entries[s'.sockets[k]].queue == []
         else k in s.sockets && s'.entries[s'.sockets[k]] == s.entries[s.sockets[k]]
  {
  }

  lemma UnregisterTouchesNoOther(s: Shared, socket: SocketId, k: SocketId)
    requires Linked(s) && k in Unregister(s, socket).sockets
    ensures
      var s' := Unregister(s, socket);
      && s'.sockets[k] < |s'.entries|
      && k in s.sockets && s'.entries[s'.sockets[k]] == s.entries[s.sockets[k]]
  {
  }

  /** Registering starts an empty history; unregistering touches no other socket's queue. */
  lemma RegistrationsKeepOrder(s: State, step: Step, s': State, owner: map<Buffer, Place>, k: SocketId)
    requires Invariant(s, owner) && Next(s, step) == Some(s') && Linked(s'.shared) && k in s'.shared.sockets
    requires step.RegisterInterest? || step.UnregisterInterest?
    ensures DeliveredTo(s'.log, k) + Packets(s', s'.shared.entries[s'.shared.sockets[k]].queue) == RoutedTo(s'.log, k)
  {
    hide Next, Invariant, Linked, RoutedTo, DeliveredTo, Packets, Register, Unregister;
    OrderAt(s, owner, k);
    RegistrationEffect(s, step, s');
    if step.RegisterInterest? {
      LogGrows(s.log, Registered(step.socket), k);
      NoPackets(s');
      RegisterTouchesNoOther(s.shared, step.socket, step.handler, k);
    } else {
      UnregisterTouchesNoOther(s.shared, step.socket, k);
    }
    if k in s.shared.sockets {
      PacketsStay(s, step, s', owner, InEntry(s.shared.sockets[k]));
    }
  }

  lemma QuietStepsKeepOrder(s: State, step: Step, s': State, owner: map<Buffer, Place>, k: SocketId)
    requires Invariant(s, owner) && Next(s, step) == Some(s') && Linked(s'.shared) && k in s'.shared.sockets
    requires IsQuiet(step)
    ensures DeliveredTo(s'.log, k) + Packets(s', s'.shared.entries[s'.shared.sockets[k]].queue) == RoutedTo(s'.log, k)
  {
    hide Next, Invariant, Linked, RoutedTo, DeliveredTo, Packets;
    OrderAt(s, owner, k);
    QuietSteps(s, step, s');
    PacketsStay(s, step, s', owner, InEntry(s.shared.sockets[k]));
  }

  lemma DefaultStepsKeepOrder(s: State, step: Step, s': State, owner: map<Buffer, Place>, k: SocketId)
    requires Invariant(s, owner) && Next(s, step) == Some(s') && Linked(s'.shared) && k in s'.shared.sockets
    requires step.PushDefault? || step.PopDefault?
    ensures DeliveredTo(s'.log, k) + Packets(s', s'.shared.entries[s'.shared.sockets[k]].queue) == RoutedTo(s'.log, k)
  {
    hide Next, Invariant, Linked, RoutedTo, DeliveredTo, Packets;
    OrderAt(s, owner, k);
    DefaultEffect(s, step, s');
    LogGrows(s.log, s'.log[|s.log|], k);
    SamePackets(s, s', s.shared.entries[s.shared.sockets[k]].queue);
  }

  lemma NoPackets(s: State)
    ensures Packets(s, []) == []
  {
  }

  lemma StepKeepsSizes(s: State, step: Step, s': State, owner: map<Buffer, Place>)
    requires Invariant(s, owner) && Next(s, step) == Some(s')
    ensures RoutableSizes(s')
  {
    hide Owned, InOrder, Linked, OnlyOwnPackets, Register, Unregister, PushEntry, PopEntry, Find, Val16;
    forall t | ThreadOf(s', t).Routing?
      ensures |PacketIn(s', ThreadOf(s', t).buffer)| >= 2
    {
      if !(step.UsbRead? && step.thread == t) {
        assert ThreadOf(s, t) == ThreadOf(s', t);
        ThreadPacketStays(s, step, s', owner, t);
      }
    }
  }

  /** Only routing logs a routed packet, under the socket found in it. */
  lemma StepKeepsAddresses(s: State, step: Step, s': State)
    requires OnlyOwnPackets(s.log) && RoutableSizes(s) && Next(s, step) == Some(s')
    ensures OnlyOwnPackets(s'.log)
  {
    hide Next, Val16, Find, PushEntry, PopEntry, Register, Unregister;
    match step
    case Route(t) => RouteEffect(s, t, s');
    case PopSocket(t) => PopEffect(s, t, s');
    case RegisterInterest(_, _) => RegistrationEffect(s, step, s');
    case UnregisterInterest(_) => RegistrationEffect(s, step, s');
    case _ =>
      if IsQuiet(step) {
        QuietSteps(s, step, s');
      } else {
        DefaultEffect(s, step, s');
      }
  }

  lemma ThreadPacketStays(s: State, step: Step, s': State, owner: map<Buffer, Place>, t: ThreadId)
    requires Owned(s, owner) && Next(s, step) == Some(s') && ThreadOf(s, t).Routing?
    ensures PacketIn(s', ThreadOf(s, t).buffer) == PacketIn(s, ThreadOf(s, t).buffer)
  {
    hide Owned, Next;
    MemoryEffect(s, step, s');
    HolderIsOwner(s, owner, ThreadOf(s, t).buffer, InThread(t));
    match step
    case UsbRead(u, _, _) => HolderIsOwner(s, owner, ThreadOf(s, u).buffer, InThread(u));
    case HandlerDone(u, _) => HolderIsOwner(s, owner, ThreadOf(s, u).buffer, InThread(u));
    case WriteThrough(h, _) => HolderIsOwner(s, owner, s.handles[h], InHandle(h));
    case _ =>
  }

  lemma StepKeepsInvariant(s: State, step: Step, s': State, owner: map<Buffer, Place>)
    returns (owner': map<Buffer, Place>)
    requires Invariant(s, owner) && Next(s, step) == Some(s')
    ensures Invariant(s', owner')
  {
    hide Next, Owned, InOrder, OnlyOwnPackets, RoutableSizes;
    owner' := StepKeepsOwned(s, step, s', owner);
    StepKeepsLinked(s, step, s');
    StepKeepsOrder(s, step, s', owner);
    StepKeepsSizes(s, step, s', owner);
    StepKeepsAddresses(s, step, s');
  }

  lemma {:induction false} RunKeepsInvariant(s: State, steps: seq<Step>, owner: map<Buffer, Place>)
    returns (owner': map<Buffer, Place>)
    requires Invariant(s, owner) && Run(s, steps).Some?
    ensures Invariant(Run(s, steps).value, owner')
    decreases |steps|
  {
    hide Invariant, Next;
    owner' := owner;
    if steps != [] {
      var s1 := Next(s, steps[0]).value;
      owner' := StepKeepsInvariant(s, steps[0], s1, owner);
      owner' := RunKeepsInvariant(s1, steps[1..], owner');
    }
  }

  /** In every reachable state each allocated buffer is at exactly one place, once, and no other buffer is anywhere. */
  lemma BuffersAreConserved(steps: seq<Step>)
    requires Run(INITIAL, steps).Some?
    ensures var s := Run(INITIAL, steps).value;
      && (forall b :: b in s.memory ==> exists p :: b in Held(s, p))
      && (forall p, b {:trigger b in Held(s, p)} :: b in Held(s, p) ==> b in s.memory)
      && (forall p, q, b {:trigger b in Held(s, p), b in Held(s, q)} :: b in Held(s, p) && b in Held(s, q) ==> p == q)
      && (forall p {:trigger Held(s, p)} :: NoRepeats(Held(s, p)))
  {
    assert Invariant(INITIAL, map[]);
    var owner := RunKeepsInvariant(INITIAL, steps, map[]);
    var s := Run(INITIAL, steps).value;
    forall b | b in s.memory
      ensures exists p :: b in Held(s, p)
    {
      assert b in Held(s, owner[b]);
    }
  }

  /** In every reachable state each registered socket has been delivered, in order, a prefix of what was
      routed to it since it was registered; the rest is queued, and all of it is addressed to that socket. */
  lemma SocketsAreFifo(steps: seq<Step>, k: SocketId)
    requires Run(INITIAL, steps).Some? && k in Run(INITIAL, steps).value.shared.sockets
    ensures var s := Run(INITIAL, steps).value;
      && s.shared.sockets[k] < |s.shared.entries|
      && DeliveredTo(s.log, k) + Packets(s, s.shared.entries[s.shared.sockets[k]].queue) == RoutedTo(s.log, k)
      && forall p :: p in RoutedTo(s.log, k) ==> |p| >= 2 && Val16(p, 0) == k
  {
    assert Invariant(INITIAL, map[]);
    var owner := RunKeepsInvariant(INITIAL, steps, map[]);
    RoutedAreLogged(Run(INITIAL, steps).value.log, k);
  }

  lemma {:induction false} RoutedAreLogged(log: seq<Event>, k: SocketId)
    ensures forall p :: p in RoutedTo(log, k) ==> Routed(k, p) in log
    decreases |log|
  {
    if log != [] {
      RoutedAreLogged(log[..|log| - 1], k);
      assert forall e :: e in log[..|log| - 1] ==> e in log;
    }
  }
}
