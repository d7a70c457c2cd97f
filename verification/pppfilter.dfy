/** The PPP flag filter of pppfilter.cc: a closing 0x7e is always followed by an opening one. */
module Ppp {
  import opened Bytes
  import opened DataBuffer

  const FLAG: Byte := 0x7e

  // ---- A transducer with two states: has the last frame just been closed? ----

  function Put(closed: bool, x: Byte): seq<Byte>
  {
    if closed && x != FLAG then [FLAG, x] else [x]
  }

  function Next(closed: bool, x: Byte): bool
  {
    x == FLAG && !closed
  }

  function Output(s: seq<Byte>, closed: bool): seq<Byte>
  {
    if s == [] then [] else Put(closed, s[0]) + Output(s[1..], Next(closed, s[0]))
  }

  function Final(s: seq<Byte>, closed: bool): bool
  {
    if s == [] then closed else Final(s[1..], Next(closed, s[0]))
  }

  /** Filtering piece by piece gives the pieces of the filtered whole. */
  lemma {:induction false} FilterOfConcat(a: seq<Byte>, b: seq<Byte>, closed: bool)
    ensures Output(a + b, closed) == Output(a, closed) + Output(b, Final(a, closed))
    ensures Final(a + b, closed) == Final(b, Final(a, closed))
    decreases |a|
  {
    if a == [] {
      assert a + b == b;
    } else {
      var c := a + b;
      assert c[0] == a[0] && c[1..] == a[1..] + b;
      var next := Next(closed, a[0]);
      FilterOfConcat(a[1..], b, next);
      hide Put, Next;
      assert Output(c, closed) == Put(closed, a[0]) + Output(a[1..] + b, next);
      assert Final(c, closed) == Final(a[1..] + b, next);
    }
  }

  /** Nothing is missing: after a closing flag comes an opening one. */
  predicate Framed(s: seq<Byte>, closed: bool)
  {
    s == [] || ((closed ==> s[0] == FLAG) && Framed(s[1..], Next(closed, s[0])))
  }

  /** What comes out is well-framed, and leaves the filter in the same state when it is filtered again. */
  lemma {:induction false} OutputIsFramed(s: seq<Byte>, closed: bool)
    ensures Framed(Output(s, closed), closed) && Final(Output(s, closed), closed) == Final(s, closed)
    decreases |s|
  {
    if s != [] {
      var next := Next(closed, s[0]);
      OutputIsFramed(s[1..], next);
      var out, rest := Output(s, closed), Output(s[1..], next);
      if closed && s[0] != FLAG {
        assert out[0] == FLAG && out[1..] == [s[0]] + rest;
        assert ([s[0]] + rest)[1..] == rest;
      } else {
        assert out[0] == s[0] && out[1..] == rest;
      }
    }
  }

  lemma {:induction false} FramedIsFixed(s: seq<Byte>, closed: bool)
    ensures |s| <= |Output(s, closed)|
    ensures Output(s, closed) == s <==> Framed(s, closed)
    decreases |s|
  {
    if s != [] {
      var next := Next(closed, s[0]);
      FramedIsFixed(s[1..], next);
      var out, rest := Output(s, closed), Output(s[1..], next);
      if closed && s[0] != FLAG {
        assert out[0] == FLAG;
      } else {
        assert out[0] == s[0] && out[1..] == rest;
        assert rest == s[1..] <==> out == s;
      }
    }
  }

  /** The filter always delivers well-framed data, changes nothing else than data that is not, and so
      filtering twice is filtering once. */
  lemma {:induction false} FilterFrames(s: seq<Byte>, closed: bool)
    ensures Framed(Output(s, closed), closed) && Final(Output(s, closed), closed) == Final(s, closed)
    ensures Output(s, closed) == s <==> Framed(s, closed)
    ensures Output(Output(s, closed), closed) == Output(s, closed)
    ensures |s| <= |Output(s, closed)|
  {
    hide Output, Final, Framed;
    OutputIsFramed(s, closed);
    FramedIsFixed(s, closed);
    FramedIsFixed(Output(s, closed), closed);
  }

  /** The non-empty runs between flags; run is the one being read. */
  function Frames(s: seq<Byte>, run: seq<Byte>): seq<seq<Byte>>
    decreases |s|
  {
    var finished := if run == [] then [] else [run];
    if s == [] then finished
    else if s[0] == FLAG then finished + Frames(s[1..], [])
    else Frames(s[1..], run + [s[0]])
  }

  /** The filter changes no frame. */
  lemma {:induction false} FilterKeepsFrames(s: seq<Byte>, closed: bool, run: seq<Byte>)
    requires closed ==> run == []
    ensures Frames(Output(s, closed), run) == Frames(s, run)
    decreases |s|
  {
    if s != [] {
      var out, rest := Output(s, closed), Output(s[1..], Next(closed, s[0]));
      if closed && s[0] != FLAG {
        assert out[1..] == [s[0]] + rest && ([s[0]] + rest)[1..] == rest;
        assert run + [s[0]] == [s[0]];
        FilterKeepsFrames(s[1..], false, [s[0]]);
      } else {
        assert out[1..] == rest;
        FilterKeepsFrames(s[1..], Next(closed, s[0]), if s[0] == FLAG then [] else run + [s[0]]);
      }
    }
  }

  /** At most one byte is inserted for every two read, and one more. */
  lemma {:induction false} OutputIsBounded(s: seq<Byte>, closed: bool)
    ensures |Output(s, closed)| <= |s| + (|s| + if closed then 1 else 0) / 2
    decreases |s|
  {
    if s != [] {
      OutputIsBounded(s[1..], Next(closed, s[0]));
    }
  }

  /** The worst case the filter makes room for. */
  function Needed(n: nat): nat
  {
    n / 2 * 3 + 4
  }

  lemma OutputFits(s: seq<Byte>, closed: bool)
    ensures |Output(s, closed)| <= Needed(|s|)
  {
    OutputIsBounded(s, closed);
  }

  lemma InsertFlag(s: seq<Byte>)
    requires s != [] && s[0] != FLAG
    ensures Output(s, true) == [FLAG] + Output(s, false) && Final(s, true) == Final(s, false)
  {
  }

  /** One byte read in a state that inserts nothing. */
  lemma NextByte(s: seq<Byte>, b: nat, closed: bool)
    requires b < |s| && (closed ==> s[b] == FLAG)
    ensures Output(s[b..], closed) == [s[b]] + Output(s[b + 1..], Next(closed, s[b]))
    ensures Final(s[b..], closed) == Final(s[b + 1..], Next(closed, s[b]))
  {
    assert s[b..][1..] == s[b + 1..];
  }

  lemma NothingLeft(s: seq<Byte>, closed: bool)
    ensures Output(s[|s|..], closed) == [] && Final(s[|s|..], closed) == closed
  {
  }

  // ---- Runs of Write ----

  /** What PppFilter remembers between writes. */
  datatype Mode = Mode(ppp: bool, closed: bool)

  const FRESH := Mode(false, true)

  function Detect(m: Mode, data: seq<Byte>): Mode
  {
    m.(ppp := m.ppp || (data != [] && data[0] == FLAG))
  }

  function WriteOutput(m: Mode, data: seq<Byte>): seq<Byte>
  {
    if Detect(m, data).ppp then Output(data, m.closed) else data
  }

  function AfterWrite(m: Mode, data: seq<Byte>): Mode
  {
    var m' := Detect(m, data);
    if m'.ppp then m'.(closed := Final(data, m.closed)) else m'
  }

  /** Everything a run of writes delivers. */
  function RunOutput(m: Mode, chunks: seq<seq<Byte>>): seq<Byte>
    decreases |chunks|
  {
    if chunks == [] then [] else WriteOutput(m, chunks[0]) + RunOutput(AfterWrite(m, chunks[0]), chunks[1..])
  }

  /** In PPP mode the output does not depend on how the input is cut. */
  lemma {:induction false} CutsDoNotMatter(m: Mode, chunks: seq<seq<Byte>>)
    requires m.ppp
    ensures RunOutput(m, chunks) == Output(Flatten(chunks), m.closed)
    decreases |chunks|
  {
    if chunks != [] {
      FilterOfConcat(chunks[0], Flatten(chunks[1..]), m.closed);
      CutsDoNotMatter(AfterWrite(m, chunks[0]), chunks[1..]);
    }
  }

  /** From a fresh filter everything passes as it is until a chunk starts with a flag. */
  lemma {:induction false} PassesUntilFlag(before: seq<seq<Byte>>, chunks: seq<seq<Byte>>)
    requires forall c :: c in before ==> c == [] || c[0] != 0x7E
    requires chunks != [] ==> chunks[0] != [] && chunks[0][0] == 0x7E
    ensures RunOutput(FRESH, before + chunks) == Flatten(before) + Output(Flatten(chunks), true)
    decreases |before|
  {
    if before == [] {
      assert before + chunks == chunks;
      if chunks != [] {
        FilterOfConcat(chunks[0], Flatten(chunks[1..]), true);
        CutsDoNotMatter(AfterWrite(FRESH, chunks[0]), chunks[1..]);
      }
    } else {
      assert (before + chunks)[1..] == before[1..] + chunks;
      PassesUntilFlag(before[1..], chunks);
    }
  }

  // ---- The class ----

  class PppFilter {
    const m_writeBuf: Data
    var m_ppp_mode: bool
    var m_last: Byte

    ghost predicate Valid()
      reads this, m_writeBuf
    {
      m_writeBuf.Valid()
    }

    function Memory(): Mode
      reads this
    {
      Mode(m_ppp_mode, m_last == FLAG)
    }

    constructor ()
      ensures Valid() && Memory() == FRESH && fresh(m_writeBuf) && fresh(m_writeBuf.m_data)
    {
      m_writeBuf := new Data();
      m_ppp_mode, m_last := false, FLAG;
    }

    /** *put++ = x: one more byte of all is in place, and rest is still to come. */
    method Store(buf: array<Byte>, ghost start: nat, put: nat, x: Byte, ghost rest: seq<Byte>, ghost all: seq<Byte>)
      returns (next: nat)
      requires start <= put <= buf.Length && start + |all| <= buf.Length
      requires buf[start..put] + ([x] + rest) == all
      modifies buf
      ensures next == put + 1 <= buf.Length && buf[start..next] + rest == all
    {
      assert |all| == put - start + 1 + |rest|;
      buf[put] := x;
      next := put + 1;
      assert buf[start..next] == old(buf[start..put]) + [x];
    }

    /** The inner loop of Filter: copies up to the next flag. */
    method CopyRun(buf: array<Byte>, ghost start: nat, s: seq<Byte>, from: nat, to: nat, ghost all: seq<Byte>)
      returns (b: nat, put: nat)
      requires from <= |s| && start <= to <= buf.Length && start + |all| <= buf.Length
      requires buf[start..to] + Output(s[from..], false) == all
      modifies buf
      ensures from <= b <= |s| && start <= put <= buf.Length && (b != |s| ==> s[b] == FLAG)
      ensures buf[start..put] + Output(s[b..], false) == all && Final(s[b..], false) == Final(s[from..], false)
    {
      hide Output, Final;
      b, put := from, to;
      while b != |s| && s[b] != FLAG
        invariant from <= b <= |s| && start <= put <= buf.Length
        invariant buf[start..put] + Output(s[b..], false) == all
        invariant Final(s[b..], false) == Final(s[from..], false)
        decreases |s| - b
      {
        NextByte(s, b, false);
        put := Store(buf, start, put, s[b], Output(s[b + 1..], false), all);
        b := b + 1;
      }
    }

    /** The loop of Filter: a position b in the source, a position put in the buffer. */
    method FilterInto(buf: array<Byte>, start: nat, s: seq<Byte>) returns (put: nat)
      requires start + |Output(s, Memory().closed)| <= buf.Length
      modifies this`m_last, buf
      ensures start <= put <= buf.Length
      ensures buf[start..put] == Output(s, old(Memory()).closed)
      ensures Memory() == old(Memory()).(closed := Final(s, old(Memory()).closed))
    {
      hide Output, Final;
      var b := 0;
      put := start;
      assert s[0..] == s;
      ghost var all, end := Output(s, m_last == FLAG), Final(s, m_last == FLAG);
      while b != |s|
        invariant b <= |s| && start <= put <= buf.Length
        invariant buf[start..put] + Output(s[b..], m_last == FLAG) == all
        invariant Final(s[b..], m_last == FLAG) == end
        decreases |s| - b
      {
        if m_last == FLAG {
          m_last := 0;
          if s[b] != FLAG {
            InsertFlag(s[b..]);
            put := Store(buf, start, put, FLAG, Output(s[b..], false), all);
          } else {
            NextByte(s, b, true);
            put := Store(buf, start, put, s[b], Output(s[b + 1..], false), all);
            b := b + 1;
          }
        }
        b, put := CopyRun(buf, start, s, b, put, all);
        if b != |s| {
          NextByte(s, b, false);
          put := Store(buf, start, put, s[b], Output(s[b + 1..], true), all);
          b := b + 1;
          m_last := FLAG;
        }
      }
      NothingLeft(s, m_last == FLAG);
    }

    method Filter(dest: Data, src: Data, destoffset: nat)
      requires dest != src && dest.Valid() && src.Valid() && Apart(dest, src)
      modifies this`m_last, dest, dest.m_data
      ensures dest.Valid() && src.Valid() && Apart(dest, src)
      ensures src.Contents() == old(src.Contents())
      ensures |dest.Contents()| >= destoffset
      ensures dest.Contents()[destoffset..] == Output(src.Contents(), old(Memory()).closed)
      ensures Memory() == old(Memory()).(closed := Final(src.Contents(), old(Memory()).closed))
    {
      var s := src.Contents();
      OutputFits(s, m_last == FLAG);
      dest.GetBuffer(Needed(|s|) + destoffset);
      var put := FilterInto(dest.m_data, destoffset, s);
      dest.ReleaseBuffer(put);
    }

    /** Returns data itself, or the filtered bytes in the internal buffer. */
    method Write(data: Data) returns (r: Data)
      requires Valid() && data != m_writeBuf && data.Valid() && Apart(m_writeBuf, data)
      modifies this, m_writeBuf, m_writeBuf.m_data
      ensures Valid() && r.Valid() && (r == data || r == m_writeBuf) && Apart(m_writeBuf, data)
      ensures data.Valid() && data.Contents() == old(data.Contents())
      ensures r.Contents() == WriteOutput(old(Memory()), data.Contents())
      ensures Memory() == AfterWrite(old(Memory()), data.Contents())
    {
      if data.m_datasize == 0 {
        return data;
      }
      if !m_ppp_mode {
        if data.Contents()[0] == FLAG {
          m_ppp_mode := true;
        } else {
          return data;
        }
      }
      Filter(m_writeBuf, data, 0);
      return m_writeBuf;
    }

    /** The same, with prepend bytes of room in front. */
    method WritePrepend(data: Data, prepend: nat) returns (r: Data)
      requires Valid() && data != m_writeBuf && data.Valid() && Apart(m_writeBuf, data)
      modifies this, m_writeBuf, m_writeBuf.m_data
      ensures Valid() && r == m_writeBuf && Apart(m_writeBuf, data)
      ensures data.Valid() && data.Contents() == old(data.Contents())
      ensures |r.Contents()| >= prepend && r.Contents()[prepend..] == WriteOutput(old(Memory()), data.Contents())
      ensures Memory() == AfterWrite(old(Memory()), data.Contents())
    {
      var s := data.Contents();
      if !m_ppp_mode {
        if |s| > 0 && s[0] == FLAG {
          m_ppp_mode := true;
        } else {
          m_writeBuf.GetBuffer(|s| + prepend);
          CopyBytes(m_writeBuf.m_data, prepend, s);
          m_writeBuf.ReleaseBuffer(|s| + prepend);
          return m_writeBuf;
        }
      }
      Filter(m_writeBuf, data, prepend);
      return m_writeBuf;
    }
  }
}
