/** The critical sections of router.cc and dataqueue.cc, and the handles of router.h, as they run. */
module RouterIo {
  import opened Wrappers
  import R = Router

  class SocketRoutingQueue {
    var m_dev: bool
    var m_interest: bool
    var m_free: seq<R.Buffer>
    var m_default: seq<R.Buffer>
    /** Every QueueEntry made; the map and the readers hold positions in it as they hold shared pointers. */
    var m_entries: seq<R.Entry>
    var m_socketQueues: map<R.SocketId, R.EntryId>

    ghost function View(): R.Shared
      reads this
    {
      R.Shared(m_dev, m_interest, m_free, m_default, m_entries, m_socketQueues)
    }

    ghost predicate Valid()
      reads this
    {
      R.Linked(View())
    }

    constructor ()
      ensures Valid() && View() == R.INITIAL.shared
    {
      m_dev, m_interest := false, false;
      m_free, m_default, m_entries, m_socketQueues := [], [], [], map[];
    }

    method ReturnBuffer(buf: R.Buffer)
      requires Valid()
      modifies this`m_free
      ensures Valid() && View() == old(View()).(free := old(m_free) + [buf])
    {
      R.SameLinks(View(), View().(free := m_free + [buf]));
      m_free := m_free + [buf];
    }

    /** Tops the free queue up to count buffers, made from the numbers given. */
    method AllocateBuffers(count: nat, unused: seq<R.Buffer>)
      requires Valid() && |unused| >= count
      modifies this`m_free
      ensures Valid() && View() == old(View()).(free := m_free)
      ensures m_free == old(m_free) + unused[..if |old(m_free)| < count then count - |old(m_free)| else 0]
    {
      var todo := count as int - |m_free|;
      for i := 0 to if todo < 0 then 0 else todo
        invariant m_free == old(m_free) + unused[..i]
      {
        m_free := m_free + [unused[i]];
      }
      R.SameLinks(old(View()), View());
    }

    /** m_free.pop(). */
    method PopFree() returns (buf: Option<R.Buffer>)
      requires Valid()
      modifies this`m_free
      ensures Valid()
      ensures buf == if old(m_free) == [] then None else Some(old(m_free)[0])
      ensures View() == old(View()).(free := if old(m_free) == [] then [] else old(m_free)[1..])
    {
      buf := None;
      if |m_free| > 0 {
        buf := Some(m_free[0]);
        m_free := m_free[1..];
      }
      R.SameLinks(old(View()), View());
    }

    /** False stands for the logic_error of a socket that is already registered. */
    method RegisterInterest(socket: R.SocketId, handler: bool) returns (ok: bool)
      requires Valid()
      modifies this
      ensures Valid() && ok == (socket !in old(m_socketQueues))
      ensures View() == if ok then R.Register(old(View()), socket, handler) else old(View())
    {
      if socket in m_socketQueues {
        return false;
      }
      R.RegisterKeepsLinked(View(), socket, handler);
      m_socketQueues := m_socketQueues[socket := |m_entries|];
      m_entries := m_entries + [R.Entry(socket, handler, [])];
      m_interest := true;
      return true;
    }

    /** DataQueue::append_from on the free queue; returns what is left of the other queue. */
    method AppendFrom(other: seq<R.Buffer>) returns (left: seq<R.Buffer>)
      modifies this`m_free
      ensures left == [] && m_free == old(m_free) + other
    {
      left := other;
      while |left| > 0
        invariant m_free + left == old(m_free) + other
        decreases |left|
      {
        m_free := m_free + [left[0]];
        left := left[1..];
      }
    }

    /** Salvages the queued buffers and forgets the registration. */
    method UnregisterInterest(socket: R.SocketId)
      requires Valid()
      modifies this
      ensures Valid() && View() == R.Unregister(old(View()), socket)
    {
      hide R.Linked;
      if socket !in m_socketQueues {
        return;
      }
      ghost var s := View();
      R.UnregisterKeepsLinked(s, socket);
      var e := m_socketQueues[socket];
      var left := AppendFrom(m_entries[e].queue);
      assert View() == s.(free := s.free + s.entries[e].queue);
      m_entries := m_entries[e := m_entries[e].(queue := left)];
      m_socketQueues := m_socketQueues - {socket};
      m_interest := |m_socketQueues| > 0;
    }

    /** The second critical section of DoRead: a queued packet is pushed under the same lock. */
    method RoutePacket(socket: R.SocketId, buf: R.Buffer) returns (d: R.Destination)
      requires Valid()
      modifies this`m_entries
      ensures Valid() && d == R.Find(old(View()), socket)
      ensures View() == if d.ToQueue? then R.PushEntry(old(View()), d.entry, buf) else old(View())
    {
      if m_interest {
        if socket in m_socketQueues {
          var e := m_socketQueues[socket];
          if m_entries[e].handler {
            return R.ToHandler;
          }
          R.PushKeepsLinked(View(), socket, buf);
          m_entries := m_entries[e := m_entries[e].(queue := m_entries[e].queue + [buf])];
          return R.ToQueue(e);
        }
      }
      return R.ToDefault;
    }

    /** m_default.push(): what no registration wants. */
    method PushDefault(buf: R.Buffer)
      requires Valid()
      modifies this`m_default
      ensures Valid() && View() == old(View()).(unclaimed := old(m_default) + [buf])
    {
      R.SameLinks(View(), View().(unclaimed := m_default + [buf]));
      m_default := m_default + [buf];
    }

    /** m_default.pop(). */
    method PopDefault() returns (buf: Option<R.Buffer>)
      requires Valid()
      modifies this`m_default
      ensures Valid()
      ensures buf == if old(m_default) == [] then None else Some(old(m_default)[0])
      ensures View() == old(View()).(unclaimed := if old(m_default) == [] then [] else old(m_default)[1..])
    {
      buf := None;
      if |m_default| > 0 {
        buf := Some(m_default[0]);
        m_default := m_default[1..];
      }
      R.SameLinks(old(View()), View());
    }

    /** The first critical section of SocketRead; None stands for its logic_error. */
    method FindQueue(socket: R.SocketId) returns (entry: Option<R.EntryId>)
      requires Valid()
      ensures entry == if socket in m_socketQueues then Some(m_socketQueues[socket]) else None
      ensures entry.Some? ==> entry.value < |m_entries| && m_entries[entry.value].socket == socket
    {
      if socket !in m_socketQueues {
        return None;
      }
      return Some(m_socketQueues[socket]);
    }

    /** DataQueue::pop on an entry a reader holds, registered or not. */
    method PopQueue(entry: R.EntryId) returns (buf: Option<R.Buffer>)
      requires Valid() && entry < |m_entries|
      modifies this`m_entries
      ensures Valid()
      ensures buf == if old(m_entries)[entry].queue == [] then None else Some(old(m_entries)[entry].queue[0])
      ensures View() == if buf.None? then old(View()) else R.PopEntry(old(View()), entry)
    {
      if |m_entries[entry].queue| == 0 {
        return None;
      }
      R.PopKeepsLinked(View(), entry);
      buf := Some(m_entries[entry].queue[0]);
      m_entries := m_entries[entry := m_entries[entry].(queue := m_entries[entry].queue[1..])];
    }
  }

  /** Owns at most one buffer, and gives it back to the free queue when it lets go of it. */
  class DataHandle {
    const m_queue: SocketRoutingQueue
    var m_data: Option<R.Buffer>

    constructor (queue: SocketRoutingQueue, data: Option<R.Buffer>)
      ensures m_queue == queue && m_data == data
    {
      m_queue, m_data := queue, data;
    }

    /** The copy constructor takes the buffer over. */
    constructor Copy(other: DataHandle)
      modifies other
      ensures m_queue == other.m_queue && m_data == old(other.m_data) && other.m_data == None
    {
      m_queue, m_data := other.m_queue, other.m_data;
      new;
      other.m_data := None;
    }

    method Clear()
      requires m_queue.Valid()
      modifies this, m_queue`m_free
      ensures m_queue.Valid() && m_data == None
      ensures m_queue.m_free == old(m_queue.m_free) + if old(m_data).Some? then [old(m_data).value] else []
      ensures m_queue.View() == old(m_queue.View()).(free := m_queue.m_free)
    {
      if m_data.Some? {
        m_queue.ReturnBuffer(m_data.value);
        m_data := None;
      }
    }

    method Release() returns (buf: Option<R.Buffer>)
      modifies this
      ensures buf == old(m_data) && m_data == None
    {
      buf := m_data;
      m_data := None;
    }

    /** False stands for the logic_error of handles of different queues; a handle assigned to itself ends empty. */
    method Assign(other: DataHandle) returns (ok: bool)
      requires m_queue.Valid()
      modifies this, other, m_queue`m_free
      ensures m_queue.Valid() && ok == (m_queue == other.m_queue)
      ensures !ok ==> m_data == old(m_data) && other.m_data == old(other.m_data)
      ensures !ok ==> m_queue.View() == old(m_queue.View())
      ensures ok ==>
        && m_data == (if other == this then None else old(other.m_data)) && other.m_data == None
        && m_queue.m_free == old(m_queue.m_free) + (if old(m_data).Some? then [old(m_data).value] else [])
        && m_queue.View() == old(m_queue.View()).(free := m_queue.m_free)
    {
      if m_queue != other.m_queue {
        return false;
      }
      Clear();
      m_data := other.m_data;
      other.m_data := None;
      return true;
    }
  }
}
