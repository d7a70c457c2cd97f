/** What the readers of the socket router get: packets of the socket they asked for, and the default queue in order. */
module Readers {
  import opened Bytes
  import opened Wrappers
  import opened Router

  /** A waiting reader holds an entry of the socket it asked for. */
  ghost predicate WaitersRight(s: State)
  {
    forall t {:trigger ThreadOf(s, t)} :: ThreadOf(s, t).Waiting? ==> WaitsRight(s, ThreadOf(s, t))
  }

  predicate WaitsRight(s: State, w: Thread)
    requires w.Waiting?
  {
    w.entry < |s.shared.entries| && s.shared.entries[w.entry].socket == w.socket
  }

  /** What is queued for a socket was routed to that socket. */
  ghost predicate QueuesLogged(s: State)
  {
    forall e, b {:trigger b in s.shared.entries[e].queue} ::
      0 <= e < |s.shared.entries| && b in s.shared.entries[e].queue ==>
        Routed(s.shared.entries[e].socket, PacketIn(s, b)) in s.log
  }

  /** The packets that went to the default queue, and those taken from it. */
  function UnroutedIn(log: seq<Event>): seq<seq<Byte>>
  {
    if log == [] then []
    else UnroutedIn(log[..|log| - 1]) + if log[|log| - 1].Unrouted? then [log[|log| - 1].packet] else []
  }

  function TakenIn(log: seq<Event>): seq<seq<Byte>>
  {
    if log == [] then []
    else TakenIn(log[..|log| - 1]) + if log[|log| - 1].Taken? then [log[|log| - 1].packet] else []
  }

  ghost predicate DefaultInOrder(s: State)
  {
    TakenIn(s.log) + Packets(s, s.shared.unclaimed) == UnroutedIn(s.log)
  }

  ghost predicate ReadersInvariant(s: State)
  {
    WaitersRight(s) && QueuesLogged(s) && DefaultInOrder(s)
  }

  lemma DefaultLogGrows(log: seq<Event>, e: Event)
    ensures UnroutedIn(log + [e]) == UnroutedIn(log) + if e.Unrouted? then [e.packet] else []
    ensures TakenIn(log + [e]) == TakenIn(log) + if e.Taken? then [e.packet] else []
  {
    assert (log + [e])[..|log|] == log;
  }

  // ---- One step ----

  lemma SharedKeepsSockets(s: Shared, socket: SocketId, handler: bool)
    ensures
      var r, u := Register(s, socket, handler), Unregister(s, socket);
      && |s.entries| <= |r.entries| && |s.entries| == |u.entries|
      && (forall e :: 0 <= e < |s.entries| ==> r.entries[e] == s.entries[e])
      && (forall e :: 0 <= e < |s.entries| ==> u.entries[e].socket == s.entries[e].socket)
      && (forall e :: 0 <= e < |s.entries| ==>
            u.entries[e].queue == s.entries[e].queue || u.entries[e].queue == [])
      && (forall e :: |s.entries| <= e < |r.entries| ==> r.entries[e].queue == [])
      && r.unclaimed == s.unclaimed == u.unclaimed
  {
  }

  /** Entries are never given to another socket, and the log only grows, by one event at most. */
  lemma EntriesKeepSockets(s: State, step: Step, s': State)
    requires Next(s, step) == Some(s')
    ensures |s.shared.entries| <= |s'.shared.entries|
    ensures forall e :: 0 <= e < |s.shared.entries| ==> s'.shared.entries[e].socket == s.shared.entries[e].socket
    ensures s'.log == s.log || exists e :: s'.log == s.log + [e]
  {
    hide Next, Register, Unregister, Find, Val16, ThreadOf;
    match step
    case Route(t) => RouteEffect(s, t, s');
    case PopSocket(t) => PopEffect(s, t, s');
    case RegisterInterest(k, h) =>
      RegistrationEffect(s, step, s');
      SharedKeepsSockets(s.shared, k, h);
    case UnregisterInterest(k) =>
      RegistrationEffect(s, step, s');
      SharedKeepsSockets(s.shared, k, false);
    case _ =>
      if IsQuiet(step) {
        QuietSteps(s, step, s');
      } else {
        DefaultEffect(s, step, s');
      }
  }

  /** A thread waits only for the socket of its own SocketRead, on the entry of its registration at that time. */
  lemma WaitsForWhatItAsked(s: State, step: Step, s': State, t: ThreadId)
    requires Next(s, step) == Some(s') && ThreadOf(s', t).Waiting?
    ensures
      var w := ThreadOf(s', t);
      || ThreadOf(s, t) == w
      || (step == SocketRead(t, w.socket) && w.socket in s.shared.sockets && w.entry == s.shared.sockets[w.socket])
  {
    hide Register, Unregister, PushEntry, PopEntry, Find, Val16, Dropped, TakenOver;
    if !step.SocketRead? {
      ThreadsOfHandles(s, step, s');
    }
  }

  lemma ThreadsOfHandles(s: State, step: Step, s': State)
    requires Next(s, step) == Some(s')
    ensures step.CopyHandle? || step.AssignHandle? || step.DropHandle? ==> s'.threads == s.threads
  {
    hide Register, Unregister, PushEntry, PopEntry, Find, Val16;
  }

  lemma StepKeepsWaiters(s: State, step: Step, s': State)
    requires WaitersRight(s) && Linked(s.shared) && Next(s, step) == Some(s')
    ensures WaitersRight(s')
  {
    hide Next;
    EntriesKeepSockets(s, step, s');
    forall t | ThreadOf(s', t).Waiting?
      ensures WaitsRight(s', ThreadOf(s', t))
    {
      WaitsForWhatItAsked(s, step, s', t);
      if ThreadOf(s, t) == ThreadOf(s', t) {
        assert WaitsRight(s, ThreadOf(s, t));
      }
    }
  }

  /** Only routing puts a buffer into the queue of a socket, under an event of that socket. */
  lemma QueuedByRouting(s: State, step: Step, s': State, e: EntryId, b: Buffer)
    requires Linked(s.shared) && Next(s, step) == Some(s')
    requires e < |s'.shared.entries| && b in s'.shared.entries[e].queue
    ensures e < |s.shared.entries| && s'.shared.entries[e].socket == s.shared.entries[e].socket
    ensures
      || b in s.shared.entries[e].queue
      || (step.Route? && b in s.memory && s'.memory == s.memory
          && Routed(s.shared.entries[e].socket, s.memory[b]) in s'.log)
  {
    hide Next, Register, Unregister, Val16, ThreadOf;
    match step
    case Route(t) =>
      RouteEffect(s, t, s');
    case PopSocket(t) => PopEffect(s, t, s');
    case RegisterInterest(k, h) =>
      RegistrationEffect(s, step, s');
      SharedKeepsSockets(s.shared, k, h);
    case UnregisterInterest(k) =>
      RegistrationEffect(s, step, s');
      SharedKeepsSockets(s.shared, k, false);
    case _ =>
      if IsQuiet(step) {
        QuietSteps(s, step, s');
      } else {
        DefaultEffect(s, step, s');
      }
  }

  lemma StepKeepsQueues(s: State, step: Step, s': State, owner: map<Buffer, Place>)
    requires QueuesLogged(s) && Linked(s.shared) && Owned(s, owner) && Next(s, step) == Some(s')
    ensures QueuesLogged(s')
  {
    hide Next, Owned, Linked;
    EntriesKeepSockets(s, step, s');
    assert forall x :: x in s.log ==> x in s'.log;
    forall e, b | 0 <= e < |s'.shared.entries| && b in s'.shared.entries[e].queue
      ensures Routed(s'.shared.entries[e].socket, PacketIn(s', b)) in s'.log
    {
      QueuedByRouting(s, step, s', e, b);
      if b in s.shared.entries[e].queue {
        QueuedPacketsStay(s, step, s', owner, b, InEntry(e));
      }
    }
  }

  /** Every other step leaves the default queue, its packets and its history alone. */
  lemma OthersKeepDefault(s: State, step: Step, s': State, owner: map<Buffer, Place>)
    requires Owned(s, owner) && Next(s, step) == Some(s') && !step.PushDefault? && !step.PopDefault?
    ensures s'.shared.unclaimed == s.shared.unclaimed
    ensures Packets(s', s.shared.unclaimed) == Packets(s, s.shared.unclaimed)
    ensures TakenIn(s'.log) == TakenIn(s.log) && UnroutedIn(s'.log) == UnroutedIn(s.log)
  {
    hide Next, Owned, Register, Unregister, Find, Val16, ThreadOf, Packets, TakenIn, UnroutedIn;
    PacketsStay(s, step, s', owner, InDefault);
    match step {
      case Route(t) => RouteEffect(s, t, s');
      case PopSocket(t) => PopEffect(s, t, s');
      case RegisterInterest(k, h) =>
        RegistrationEffect(s, step, s');
        SharedKeepsSockets(s.shared, k, h);
      case UnregisterInterest(k) =>
        RegistrationEffect(s, step, s');
        SharedKeepsSockets(s.shared, k, false);
      case _ => QuietSteps(s, step, s');
    }
    if s'.log != s.log {
      DefaultLogGrows(s.log, s'.log[|s.log|]);
    }
  }

  lemma StepKeepsDefault(s: State, step: Step, s': State, owner: map<Buffer, Place>)
    requires DefaultInOrder(s) && Owned(s, owner) && Next(s, step) == Some(s')
    ensures DefaultInOrder(s')
  {
    hide Next, Owned, Packets, TakenIn, UnroutedIn, ThreadOf;
    if step.PushDefault? || step.PopDefault? {
      DefaultEffect(s, step, s');
      DefaultLogGrows(s.log, s'.log[|s.log|]);
      var q, taken := s.shared.unclaimed, TakenIn(s.log);
      SamePackets(s, s', q);
      if step.PushDefault? {
        var b := ThreadOf(s, step.thread).buffer;
        PacketsOfMore(s', q, b);
        JoinAgain(taken, s.memory[b], Packets(s', q));
      } else {
        JoinAgain(taken, s.memory[q[0]], Packets(s', q[1..]));
      }
    } else {
      OthersKeepDefault(s, step, s', owner);
    }
  }

  // ---- Every run ----

  lemma {:induction false} RunKeepsReaders(s: State, steps: seq<Step>, owner: map<Buffer, Place>)
    requires Invariant(s, owner) && ReadersInvariant(s) && Run(s, steps).Some?
    ensures ReadersInvariant(Run(s, steps).value) && Linked(Run(s, steps).value.shared)
      && OnlyOwnPackets(Run(s, steps).value.log)
    decreases |steps|
  {
    hide Owned, Linked, InOrder, OnlyOwnPackets, RoutableSizes, Next, WaitersRight, QueuesLogged, DefaultInOrder;
    if steps != [] {
      var s1 := Next(s, steps[0]).value;
      StepKeepsWaiters(s, steps[0], s1);
      StepKeepsQueues(s, steps[0], s1, owner);
      StepKeepsDefault(s, steps[0], s1, owner);
      var owner1 := StepKeepsInvariant(s, steps[0], s1, owner);
      RunKeepsReaders(s1, steps[1..], owner1);
    }
  }

  lemma ReachableReaders(steps: seq<Step>)
    requires Run(INITIAL, steps).Some?
    ensures ReadersInvariant(Run(INITIAL, steps).value) && Linked(Run(INITIAL, steps).value.shared)
    ensures OnlyOwnPackets(Run(INITIAL, steps).value.log)
  {
    assert Invariant(INITIAL, map[]);
    assert ReadersInvariant(INITIAL);
    hide Invariant, ReadersInvariant;
    RunKeepsReaders(INITIAL, steps, map[]);
  }

  /** After SocketRead of a socket, in any reachable state, the thread waits on the entry that the socket is
      registered under, and that is an entry of this socket. */
  lemma ReaderWaitsOnItsSocket(steps: seq<Step>, t: ThreadId, k: SocketId, s': State)
    requires Run(INITIAL, steps).Some? && Next(Run(INITIAL, steps).value, SocketRead(t, k)) == Some(s')
    ensures var s := Run(INITIAL, steps).value;
      && k in s.shared.sockets && s.shared.sockets[k] < |s.shared.entries|
      && ThreadOf(s', t) == Waiting(k, s.shared.sockets[k]) && s.shared.entries[s.shared.sockets[k]].socket == k
      && s'.shared == s.shared
  {
    hide Run;
    ReachableReaders(steps);
  }

  /** In every run, the packet a waiting thread pops is addressed to the socket it asked for, was routed to that
      socket, and is what its buffer holds from then on. */
  lemma ReaderGetsItsSocket(steps: seq<Step>, t: ThreadId, s': State)
    requires Run(INITIAL, steps).Some? && Next(Run(INITIAL, steps).value, PopSocket(t)) == Some(s')
    ensures var s := Run(INITIAL, steps).value;
      && ThreadOf(s, t).Waiting? && ThreadOf(s', t).Popped?
      && var k, p := ThreadOf(s, t).socket, PacketIn(s', ThreadOf(s', t).buffer);
        && |p| >= 2 && Val16(p, 0) == k && Routed(k, p) in s.log && s'.log == s.log + [Delivered(k, p)]
  {
    hide Run, Next, Linked, DefaultInOrder;
    ReachableReaders(steps);
    var s := Run(INITIAL, steps).value;
    PopEffect(s, t, s');
    assert WaitsRight(s, ThreadOf(s, t));
    var e := ThreadOf(s, t).entry;
    assert s.shared.entries[e].queue[0] in s.shared.entries[e].queue;
  }

  /** In every run, readers of the default queue have taken, in order, a prefix of what was sent there. */
  lemma DefaultIsFifo(steps: seq<Step>)
    requires Run(INITIAL, steps).Some?
    ensures var s := Run(INITIAL, steps).value;
      TakenIn(s.log) + Packets(s, s.shared.unclaimed) == UnroutedIn(s.log)
  {
    hide Run;
    ReachableReaders(steps);
  }

  /** What was read is routed if and only if the read succeeded and gave at least two bytes; otherwise the buffer goes
      back unused. */
  lemma OnlyPacketsAreRouted(s: State, t: ThreadId, ok: bool, data: seq<Byte>, s': State)
    requires Next(s, UsbRead(t, ok, data)) == Some(s')
    ensures ThreadOf(s, t).Reading? && PacketIn(s', ThreadOf(s, t).buffer) == data
    ensures ThreadOf(s', t).Routing? <==> ok && |data| >= 2
    ensures !ThreadOf(s', t).Routing? ==> ThreadOf(s', t) == Returning(ThreadOf(s, t).buffer)
    ensures ThreadOf(s', t).Routing? ==> ThreadOf(s', t).buffer == ThreadOf(s, t).buffer
  {
  }

  /** In every run, a packet goes to the handler of its socket, or to the end of its queue, and only without a
      registration to the default queue. */
  lemma RoutedByRegistration(steps: seq<Step>, t: ThreadId, s': State)
    requires Run(INITIAL, steps).Some? && Next(Run(INITIAL, steps).value, Route(t)) == Some(s')
    ensures var s := Run(INITIAL, steps).value;
      && ThreadOf(s, t).Routing? && s'.memory == s.memory
      && var b := ThreadOf(s, t).buffer;
        && b in s.memory
        && var k := Val16(s.memory[b], 0);
          if k !in s.shared.sockets then s'.shared == s.shared && ThreadOf(s', t) == Unclaimed(b)
          else
            && s.shared.sockets[k] < |s.shared.entries|
            && var e := s.shared.sockets[k];
              if s.shared.entries[e].handler then s'.shared == s.shared && ThreadOf(s', t) == Handling(b)
              else
                && ThreadOf(s', t) == Idle && e < |s'.shared.entries|
                && s'.shared.entries[e].queue == s.shared.entries[e].queue + [b]
  {
    hide Run, Next, Val16;
    ReachableReaders(steps);
    var s := Run(INITIAL, steps).value;
    RouteEffect(s, t, s');
    InterestFlagIsExact(s.shared, Val16(s.memory[ThreadOf(s, t).buffer], 0));
  }
}
