/** Splitting and joining of Desktop database packets (socket.cc), on Data buffers. */
module Fragment {
  import opened Bytes
  import opened DataBuffer

  const FRAG_HEADER_SIZE := 6
  const MAX_PACKET_SIZE := 0x400
  const MAX_PAYLOAD := MAX_PACKET_SIZE - FRAG_HEADER_SIZE
  const DB_DATA: Byte := 0x40
  const DB_DONE: Byte := 0x41
  const DB_FRAGMENTED: Byte := 0x60

  /** The packet with its size field and command byte rewritten. */
  function Stamp(p: seq<Byte>, command: Byte): (r: seq<Byte>)
    requires |p| >= 5
    ensures |r| == |p| && r[..2] == p[..2] && r[5..] == p[5..]
    ensures r[4] == command && Val16(r, 2) == Low16(|p|)
  {
    var r := p[..2] + Le16(|p|) + [command] + p[5..];
    assert r[2] == Le16(|p|)[0] && r[3] == Le16(|p|)[1];
    r
  }

  /** How many payload bytes the fragment at offset takes. */
  function Todo(whole: seq<Byte>, offset: nat): (n: nat)
    requires FRAG_HEADER_SIZE + offset <= |whole|
    ensures n <= MAX_PAYLOAD && FRAG_HEADER_SIZE + offset + n <= |whole|
  {
    var left := |whole| - FRAG_HEADER_SIZE - offset;
    if left > MAX_PAYLOAD then MAX_PAYLOAD else left
  }

  predicate IsLast(whole: seq<Byte>, offset: nat)
    requires FRAG_HEADER_SIZE + offset <= |whole|
  {
    |whole| - FRAG_HEADER_SIZE - offset <= MAX_PAYLOAD
  }

  /** The fragment MakeNextFragment cuts at offset. */
  function Piece(whole: seq<Byte>, offset: nat): (f: seq<Byte>)
    requires FRAG_HEADER_SIZE + offset <= |whole|
    ensures |f| == FRAG_HEADER_SIZE + Todo(whole, offset)
    ensures f[4] == if IsLast(whole, offset) then DB_DATA else DB_FRAGMENTED
  {
    var from := FRAG_HEADER_SIZE + offset;
    Stamp(whole[..FRAG_HEADER_SIZE] + whole[from..from + Todo(whole, offset)],
          if IsLast(whole, offset) then DB_DATA else DB_FRAGMENTED)
  }

  /** All fragments from offset on, in sending order. */
  function Fragments(whole: seq<Byte>, offset: nat): (fs: seq<seq<Byte>>)
    requires FRAG_HEADER_SIZE + offset <= |whole|
    ensures |fs| > 0 && fs[0] == Piece(whole, offset)
    decreases |whole| - offset
  {
    if IsLast(whole, offset) then [Piece(whole, offset)]
    else [Piece(whole, offset)] + Fragments(whole, offset + MAX_PAYLOAD)
  }

  /** What AppendFragment leaves in whole. */
  function Append(whole: seq<Byte>, fragment: seq<Byte>): (r: seq<Byte>)
    requires |fragment| >= if whole == [] then 5 else FRAG_HEADER_SIZE
    requires whole == [] || |whole| >= 5
    ensures |r| >= 5
  {
    if whole == [] then Stamp(fragment, DB_DATA)
    else Stamp(whole + fragment[FRAG_HEADER_SIZE..], DB_DATA)
  }

  /** AppendFragment applied to each fragment in turn. */
  function Join(whole: seq<Byte>, fragments: seq<seq<Byte>>): (r: seq<Byte>)
    requires whole == [] || |whole| >= 5
    requires forall f :: f in fragments ==> |f| >= FRAG_HEADER_SIZE
    decreases |fragments|
  {
    if fragments == [] then whole else Join(Append(whole, fragments[0]), fragments[1..])
  }

  lemma PieceSize(whole: seq<Byte>, offset: nat)
    requires FRAG_HEADER_SIZE + offset <= |whole|
    ensures Val16(Piece(whole, offset), 2) == |Piece(whole, offset)|
  {
  }

  /** Fragments cut by the rule of MakeNextFragment: all but the last are marked as fragmented, the last is
      the DB_DATA one, and all carry their own size. */
  predicate WellCut(fragments: seq<seq<Byte>>)
  {
    && fragments != []
    && (forall i :: 0 <= i < |fragments| ==> FRAG_HEADER_SIZE <= |fragments[i]| <= MAX_PACKET_SIZE)
    && (forall i :: 0 <= i < |fragments| ==> Val16(fragments[i], 2) == |fragments[i]|)
    && (forall i :: 0 <= i < |fragments| - 1 ==> fragments[i][4] == DB_FRAGMENTED)
    && fragments[|fragments| - 1][4] == DB_DATA
  }

  /** The fragments of a packet are well cut, and all but the last one are full. */
  lemma {:induction false} FragmentShape(whole: seq<Byte>, offset: nat)
    requires FRAG_HEADER_SIZE + offset <= |whole|
    ensures WellCut(Fragments(whole, offset))
    ensures
      var fs := Fragments(whole, offset);
      && (forall i :: 0 <= i < |fs| - 1 ==> |fs[i]| == 0x400 && fs[i][4] == 0x60)
      && 6 <= |fs[|fs| - 1]| <= 0x400 && fs[|fs| - 1][4] == 0x40
    decreases |whole| - offset
  {
    hide Val16;
    var fs := Fragments(whole, offset);
    PieceSize(whole, offset);
    hide Piece;
    if !IsLast(whole, offset) {
      FragmentShape(whole, offset + MAX_PAYLOAD);
      var rest := Fragments(whole, offset + MAX_PAYLOAD);
      assert forall i :: 1 <= i < |fs| ==> fs[i] == rest[i - 1];
    }
  }

  lemma JoinOne(whole: seq<Byte>, offset: nat)
    requires 0 < offset && FRAG_HEADER_SIZE + offset <= |whole|
    ensures Append(Stamp(whole[..FRAG_HEADER_SIZE + offset], DB_DATA), Piece(whole, offset))
         == Stamp(whole[..FRAG_HEADER_SIZE + offset + Todo(whole, offset)], DB_DATA)
  {
    var from := FRAG_HEADER_SIZE + offset;
    var next := from + Todo(whole, offset);
    var header, payload := whole[..FRAG_HEADER_SIZE], whole[from..next];
    var acc, piece := Stamp(whole[..from], DB_DATA), Piece(whole, offset);
    assert piece[FRAG_HEADER_SIZE..] == payload by {
      assert piece[FRAG_HEADER_SIZE..] == piece[5..][1..];
      assert (header + payload)[5..][1..] == payload;
    }
    assert (acc + payload)[5..] == whole[..next][5..] by {
      assert acc[5..] == whole[5..from];
    }
    assert (acc + payload)[..2] == whole[..next][..2];
  }

  lemma {:induction false} JoinFrom(whole: seq<Byte>, offset: nat)
    requires 0 < offset && FRAG_HEADER_SIZE + offset <= |whole|
    requires forall f :: f in Fragments(whole, offset) ==> |f| >= FRAG_HEADER_SIZE
    ensures Join(Stamp(whole[..FRAG_HEADER_SIZE + offset], DB_DATA), Fragments(whole, offset)) == Stamp(whole, DB_DATA)
    decreases |whole| - offset
  {
    var fs := Fragments(whole, offset);
    var next := FRAG_HEADER_SIZE + offset + Todo(whole, offset);
    var acc := Stamp(whole[..FRAG_HEADER_SIZE + offset], DB_DATA);
    JoinOne(whole, offset);
    if IsLast(whole, offset) {
      assert whole[..next] == whole;
      assert Join(Append(acc, fs[0]), fs[1..]) == Append(acc, fs[0]);
    } else {
      assert fs[1..] == Fragments(whole, offset + MAX_PAYLOAD);
      JoinFrom(whole, offset + MAX_PAYLOAD);
    }
  }

  lemma JoinFirst(whole: seq<Byte>)
    requires |whole| >= FRAG_HEADER_SIZE
    ensures Append([], Piece(whole, 0)) == Stamp(whole[..FRAG_HEADER_SIZE + Todo(whole, 0)], DB_DATA)
  {
    var next := FRAG_HEADER_SIZE + Todo(whole, 0);
    assert whole[..FRAG_HEADER_SIZE] + whole[FRAG_HEADER_SIZE..next] == whole[..next];
  }

  /** Joining the fragments of a packet gives the packet, whatever its length. */
  lemma {:induction false} JoinUndoesFragments(whole: seq<Byte>)
    requires |whole| >= FRAG_HEADER_SIZE
    ensures forall f :: f in Fragments(whole, 0) ==> |f| >= FRAG_HEADER_SIZE
    ensures Join([], Fragments(whole, 0)) == Stamp(whole, DB_DATA)
  {
    hide Append, Stamp, Piece, WellCut;
    var fs := Fragments(whole, 0);
    FragmentShape(whole, 0);
    WellCutSizes(fs);
    JoinFirst(whole);
    if IsLast(whole, 0) {
      assert whole[..FRAG_HEADER_SIZE + Todo(whole, 0)] == whole;
      assert Join(Append([], fs[0]), fs[1..]) == Append([], fs[0]);
    } else {
      assert fs[1..] == Fragments(whole, MAX_PAYLOAD);
      JoinFrom(whole, MAX_PAYLOAD);
    }
  }

  lemma WellCutSizes(fs: seq<seq<Byte>>)
    requires WellCut(fs)
    ensures fs != [] && forall f :: f in fs ==> |f| >= FRAG_HEADER_SIZE
  {
  }

  /** Stamping changes nothing exactly on packets that carry DB_DATA and their own size, modulo 2^16. */
  lemma StampIsIdentity(p: seq<Byte>)
    requires 5 <= |p|
    ensures Stamp(p, DB_DATA) == p <==> p[4] == DB_DATA && Val16(p, 2) == Low16(|p|)
  {
    hide Low16;
    if p[4] == DB_DATA && Val16(p, 2) == Low16(|p|) {
      SizeBytes(p[2], p[3], |p|);
      assert Le16(|p|) == p[2..4];
      assert p == p[..2] + p[2..4] + [p[4]] + p[5..];
    }
  }

  /** The two bytes of a stored size. */
  lemma SizeBytes(low: Byte, high: Byte, n: nat)
    requires low + 0x100 * high == Low16(n)
    ensures Le16(n) == [low, high]
  {
    HalvesOfLow16(n);
  }

  /** Rewrites the size field and command byte in place, as the casts to Protocol::Packet do. */
  method WriteStamp(buf: array<Byte>, size: nat, command: Byte)
    requires 5 <= size <= buf.Length
    modifies buf
    ensures buf[..size] == Stamp(old(buf[..size]), command)
    ensures forall i :: size <= i < buf.Length ==> buf[i] == old(buf[i])
  {
    var stored := Le16(size);
    buf[2] := stored[0];
    buf[3] := stored[1];
    buf[4] := command;
  }

  /** Grows the packet by src, which lies in another object. */
  method AppendBytes(whole: Data, src: seq<Byte>, room: nat)
    requires whole.Valid() && |src| <= room
    modifies whole, whole.m_data
    ensures whole.Valid() && !whole.m_external && whole.m_externalData == old(whole.m_externalData)
    ensures whole.m_data == old(whole.m_data) || fresh(whole.m_data)
    ensures whole.Contents() == old(whole.Contents()) + src
  {
    var size := whole.m_datasize;
    whole.GetBuffer(size + room);
    CopyBytes(whole.m_data, size, src);
    whole.ReleaseBuffer(size + |src|);
    assert whole.Contents() == whole.m_data[..size] + whole.m_data[size..size + |src|];
  }

  method Restamp(d: Data, command: Byte)
    requires d.Valid() && d.m_datasize >= 5
    modifies d, d.m_data
    ensures d.Valid() && !d.m_external && d.m_externalData == old(d.m_externalData)
    ensures d.m_data == old(d.m_data) || fresh(d.m_data)
    ensures d.Contents() == Stamp(old(d.Contents()), command)
  {
    d.GetBuffer(0);
    assert d.m_data[..d.m_datasize] == old(d.Contents());
    WriteStamp(d.m_data, d.m_datasize, command);
  }

  method AppendFragment(whole: Data, fragment: Data)
    requires whole != fragment && whole.Valid() && fragment.Valid() && Apart(whole, fragment)
    requires fragment.m_datasize >= if whole.m_datasize == 0 then 5 else FRAG_HEADER_SIZE
    requires whole.m_datasize == 0 || whole.m_datasize >= 5
    requires whole.m_datasize + fragment.m_datasize <= INT_MAX
    modifies whole, whole.m_data
    ensures whole.Valid() && fragment.Valid() && Apart(whole, fragment)
    ensures whole.m_data == old(whole.m_data) || fresh(whole.m_data)
    ensures whole.Contents() == Append(old(whole.Contents()), fragment.Contents())
    ensures fragment.Contents() == old(fragment.Contents())
  {
    if whole.m_datasize == 0 {
      whole.Assign(fragment);
    } else {
      AppendBytes(whole, fragment.Contents()[FRAG_HEADER_SIZE..], fragment.m_datasize);
    }
    Restamp(whole, DB_DATA);
  }

  /** Header, payload and rewritten header fields of one outgoing fragment. */
  method CutPiece(fragment: Data, header: seq<Byte>, payload: seq<Byte>, command: Byte)
    requires fragment.Valid() && |header| == FRAG_HEADER_SIZE
    modifies fragment, fragment.m_data
    ensures fragment.Valid() && !fragment.m_external && fragment.m_externalData == old(fragment.m_externalData)
    ensures fragment.m_data == old(fragment.m_data) || fresh(fragment.m_data)
    ensures fragment.Contents() == Stamp(header + payload, command)
  {
    hide Stamp;
    var size := FRAG_HEADER_SIZE + |payload|;
    fragment.GetBuffer(size);
    CopyBytes(fragment.m_data, 0, header);
    CopyBytes(fragment.m_data, FRAG_HEADER_SIZE, payload);
    assert fragment.m_data[..size]
        == fragment.m_data[..FRAG_HEADER_SIZE] + fragment.m_data[FRAG_HEADER_SIZE..size];
    WriteStamp(fragment.m_data, size, command);
    fragment.ReleaseBuffer(size);
  }

  datatype NextOffset = Next(offset: nat) | TooShort

  /** Returns the offset of the following fragment, or 0 after the last one. */
  method MakeNextFragment(whole: Data, fragment: Data, offset: nat) returns (r: NextOffset)
    requires whole != fragment && whole.Valid() && fragment.Valid() && Apart(whole, fragment)
    requires whole.m_datasize >= FRAG_HEADER_SIZE ==> FRAG_HEADER_SIZE + offset <= whole.m_datasize <= INT_MAX
    modifies fragment, fragment.m_data
    ensures whole.Valid() && fragment.Valid() && Apart(whole, fragment)
    ensures fragment.m_data == old(fragment.m_data) || fresh(fragment.m_data)
    ensures fragment.m_externalData == old(fragment.m_externalData)
    ensures whole.Contents() == old(whole.Contents())
    ensures r.TooShort? <==> |whole.Contents()| < FRAG_HEADER_SIZE
    ensures r.TooShort? ==> fragment.Contents() == old(fragment.Contents())
    ensures r.Next? ==>
      && fragment.Contents() == Piece(whole.Contents(), offset)
      && r.offset == if IsLast(whole.Contents(), offset) then 0 else offset + MAX_PAYLOAD
  {
    if whole.m_datasize < FRAG_HEADER_SIZE {
      return TooShort;
    }
    hide Stamp;
    var bytes := whole.Contents();
    var todo := |bytes| - FRAG_HEADER_SIZE - offset;
    var nextOffset := 0;
    if todo > MAX_PAYLOAD {
      todo := MAX_PAYLOAD;
      nextOffset := offset + todo;
    }
    var from := FRAG_HEADER_SIZE + offset;
    CutPiece(fragment, bytes[..FRAG_HEADER_SIZE], bytes[from..from + todo],
             if nextOffset > 0 then DB_FRAGMENTED else DB_DATA);
    assert fragment.Contents() == Piece(bytes, offset);
    return Next(nextOffset);
  }
}
