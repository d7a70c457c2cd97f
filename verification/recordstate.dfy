/** The record state table of r_recordstate.cc, and its search for a record id that is not in use. */
module RecordStates {
  import opened Bytes
  import opened Wrappers
  import opened DataBuffer

  datatype State = State(index: Word32, recordId: Word32, dirty: bool, recType: Byte, unknown2: seq<Byte>)

  // ---- The ordered map, as the sequence that stepping through it gives ----

  predicate Sorted(s: seq<State>)
  {
    forall i, j :: 0 <= i < j < |s| ==> s[i].index < s[j].index
  }

  /** StateMap[x.index] = x. */
  function Store(s: seq<State>, x: State): (r: seq<State>)
    requires Sorted(s)
    ensures Sorted(r) && forall y :: y in r <==> y == x || (y in s && y.index != x.index)
  {
    if s == [] || x.index < s[0].index then [x] + s
    else if x.index == s[0].index then [x] + s[1..]
    else [s[0]] + Store(s[1..], x)
  }

  /** RecordStateTableField is 12 bytes long. */
  const FIELD_SIZE := 12

  function FieldState(f: seq<Byte>): State
    requires |f| == FIELD_SIZE
  {
    State(Val16(f, 1), Val32(f, 3), f[7] % 2 == 1, f[0], f[8..])
  }

  /** A field built from its members is read back as these: type, index, record id, flags, four unknown bytes. */
  lemma FieldReadsBack(recType: Byte, index: Word16, recordId: Word32, flags: Byte, unknown2: seq<Byte>)
    requires |unknown2| == 4
    ensures FieldState([recType] + Le16(index) + Le32(recordId) + [flags] + unknown2)
         == State(index, recordId, flags % 2 == 1, recType, unknown2)
  {
    hide Le16, Le32, Val16, Val32;
    var f := [recType] + Le16(index) + Le32(recordId) + [flags] + unknown2;
    Val16OfLe16([recType], index, Le32(recordId) + [flags] + unknown2);
    assert f == [recType] + Le16(index) + (Le32(recordId) + [flags] + unknown2);
    Val32OfLe32([recType] + Le16(index), recordId, [flags] + unknown2);
    assert f == ([recType] + Le16(index)) + Le32(recordId) + ([flags] + unknown2);
  }

  /** All complete fields, one after the other. */
  function FieldStates(s: seq<Byte>): seq<State>
    decreases |s|
  {
    if |s| < FIELD_SIZE then [] else [FieldState(s[..FIELD_SIZE])] + FieldStates(s[FIELD_SIZE..])
  }

  function StoreAll(table: seq<State>, xs: seq<State>): (r: seq<State>)
    requires Sorted(table)
    ensures Sorted(r)
    decreases |xs|
  {
    if xs == [] then table else StoreAll(Store(table, xs[0]), xs[1..])
  }

  function AfterHeader(s: seq<Byte>): seq<Byte>
  {
    if |s| <= 12 then [] else s[12..]
  }

  /** The fields start behind the header of 12 bytes and are 12 bytes long; what is left over is no field. */
  lemma FieldsBehindHeader(header: seq<Byte>, f: seq<Byte>, rest: seq<Byte>)
    requires |header| == 12 && |f| == 12
    ensures FieldStates(AfterHeader(header + f + rest)) == [FieldState(f)] + FieldStates(rest)
    ensures |rest| < 12 ==> FieldStates(rest) == []
  {
    hide FieldState;
    var all, fields := header + f + rest, f + rest;
    SkipsHeader(header, fields);
    assert all == header + fields;
    assert fields[..12] == f && fields[12..] == rest;
  }

  lemma SkipsHeader(header: seq<Byte>, fields: seq<Byte>)
    requires |header| == 12
    ensures AfterHeader(header + fields) == fields
  {
  }

  predicate NoneHas(xs: seq<State>, index: Word32)
  {
    forall j :: 0 <= j < |xs| ==> xs[j].index != index
  }

  /** y is entry number i of xs, and no later one has its index. */
  predicate LastAt(xs: seq<State>, y: State, i: nat)
  {
    i < |xs| && xs[i] == y && forall j :: i < j < |xs| ==> xs[j].index != y.index
  }

  ghost predicate LastOf(xs: seq<State>, y: State)
  {
    exists i: nat :: LastAt(xs, y, i)
  }

  lemma LastAtTail(xs: seq<State>, y: State, i: nat)
    requires xs != []
    ensures LastAt(xs[1..], y, i) <==> LastAt(xs, y, i + 1)
    ensures LastAt(xs, y, 0) <==> xs[0] == y && NoneHas(xs[1..], y.index)
    ensures NoneHas(xs, y.index) <==> xs[0].index != y.index && NoneHas(xs[1..], y.index)
  {
    assert forall j :: 1 <= j < |xs| ==> xs[j] == xs[1..][j - 1];
  }

  lemma LastOfTail(xs: seq<State>, y: State)
    requires xs != []
    ensures NoneHas(xs, y.index) <==> xs[0].index != y.index && NoneHas(xs[1..], y.index)
    ensures LastOf(xs, y) <==> (xs[0] == y && NoneHas(xs[1..], y.index)) || LastOf(xs[1..], y)
  {
    hide LastAt, NoneHas;
    LastAtTail(xs, y, 0);
    if LastOf(xs, y) {
      var i: nat :| LastAt(xs, y, i);
      if i > 0 {
        LastAtTail(xs, y, i - 1);
      }
    }
    if LastOf(xs[1..], y) {
      var i: nat :| LastAt(xs[1..], y, i);
      LastAtTail(xs, y, i);
    }
  }

  /** Of several fields with the same index the last one stays, over whatever the table held. */
  lemma {:induction false} LastFieldStays(table: seq<State>, xs: seq<State>, y: State)
    requires Sorted(table)
    ensures y in StoreAll(table, xs) <==> LastOf(xs, y) || (y in table && NoneHas(xs, y.index))
    decreases |xs|
  {
    if xs != [] {
      LastOfTail(xs, y);
      hide LastOf, NoneHas, Sorted;
      LastFieldStays(Store(table, xs[0]), xs[1..], y);
    }
  }

  // ---- Fresh record ids ----

  function Ids(s: seq<State>): set<Word32>
  {
    set x | x in s :: x.recordId
  }

  /** The id k steps after last, wrapping around at 32 bits. */
  function Ahead(last: Word32, k: nat): Word32
  {
    (last + k) % 0x1_0000_0000
  }

  /** k is the least positive number of steps to an id that is not in use. */
  ghost predicate FirstFree(last: Word32, used: set<Word32>, k: nat)
  {
    k >= 1 && Ahead(last, k) !in used && forall j :: 1 <= j < k ==> Ahead(last, j) in used
  }

  lemma FirstFreeIsUnique(last: Word32, used: set<Word32>, k: nat, k': nat)
    requires FirstFree(last, used, k) && FirstFree(last, used, k')
    ensures k == k'
  {
  }

  function Window(last: Word32, n: nat): set<Word32>
  {
    set j | 1 <= j <= n :: Ahead(last, j)
  }

  lemma AheadIsInjective(last: Word32, i: nat, j: nat)
    requires i < j < i + 0x1_0000_0000
    ensures Ahead(last, i) != Ahead(last, j)
  {
  }

  lemma AheadOfNext(last: Word32, k: nat)
    ensures (Ahead(last, k) + 1) % 0x1_0000_0000 == Ahead(last, k + 1)
  {
  }

  /** Up to 2^32 steps never meet an id twice. */
  lemma {:induction false} WindowSize(last: Word32, n: nat)
    requires n <= 0x1_0000_0000
    ensures |Window(last, n)| == n
  {
    hide Ahead;
    if n == 0 {
      assert Window(last, n) == {};
    } else {
      WindowSize(last, n - 1);
      forall j | 1 <= j < n
        ensures Ahead(last, j) != Ahead(last, n)
      {
        AheadIsInjective(last, j, n);
      }
      assert Window(last, n) == Window(last, n - 1) + {Ahead(last, n)};
    }
  }

  lemma SubsetIsSmaller(a: set<Word32>, b: set<Word32>)
    requires a <= b
    ensures |a| <= |b|
  {
    assert b == a + (b - a);
  }

  /** As long as every id ahead was in use, no more than |used| of them were passed. */
  lemma StepsAreBounded(last: Word32, used: set<Word32>, k: nat)
    requires |used| < 0x1_0000_0000 && k <= |used| + 1
    requires forall j :: 1 <= j <= k ==> Ahead(last, j) in used
    ensures k <= |used|
  {
    hide Ahead;
    WindowSize(last, k);
    SubsetIsSmaller(Window(last, k), used);
  }

  /** A table with at most 2^32 - 1 ids in use always has a free one within |used| + 1 steps. */
  lemma FreeIdExists(last: Word32, used: set<Word32>)
    requires |used| < 0x1_0000_0000
    ensures exists k: nat :: k <= |used| + 1 && FirstFree(last, used, k)
  {
    hide Ahead;
    var k := 1;
    while Ahead(last, k) in used
      invariant 1 <= k <= |used| + 1
      invariant forall j :: 1 <= j < k ==> Ahead(last, j) in used
      decreases |used| + 1 - k
    {
      StepsAreBounded(last, used, k);
      k := k + 1;
    }
    assert FirstFree(last, used, k);
  }

  class RecordStateTable {
    var StateMap: seq<State>
    var m_LastNewRecordId: Word32

    ghost predicate Valid()
      reads this
    {
      Sorted(StateMap)
    }

    constructor ()
      ensures Valid() && StateMap == [] && m_LastNewRecordId == 1
    {
      StateMap, m_LastNewRecordId := [], 1;
    }

    method ParseField(s: seq<Byte>, begin: nat) returns (next: nat)
      requires Valid() && begin < |s|
      modifies this`StateMap
      ensures Valid() && next == begin + FIELD_SIZE
      ensures StateMap
        == if next <= |s| then Store(old(StateMap), FieldState(s[begin..next])) else old(StateMap)
    {
      next := begin + FIELD_SIZE;
      if next > |s| {
        return;
      }
      StateMap := Store(StateMap, FieldState(s[begin..next]));
    }

    method Parse(data: Data)
      requires Valid() && data.Valid()
      modifies this`StateMap
      ensures Valid() && StateMap == StoreAll(old(StateMap), FieldStates(AfterHeader(data.Contents())))
    {
      hide Store, Sorted, FieldState, FieldStates;
      var s := data.Contents();
      if 12 >= |s| {
        NoFields();
        return;
      }
      var begin := 12;
      ghost var all := StoreAll(StateMap, FieldStates(s[12..]));
      while begin < |s|
        invariant Valid() && 12 <= begin
        invariant StoreAll(StateMap, FieldStates(if begin <= |s| then s[begin..] else [])) == all
      {
        FieldsFrom(s, begin);
        NoFields();
        begin := ParseField(s, begin);
      }
      NoFields();
      assert begin == |s| ==> s[begin..] == [];
    }

    /** The first entry, in the order of the indexes, that has this record id. */
    method GetIndex(recordId: Word32) returns (found: Option<Word32>)
      requires Valid()
      ensures found.None? <==> recordId !in Ids(StateMap)
      ensures found.Some? ==> exists x :: x in StateMap && x.recordId == recordId && x.index == found.value
      ensures found.Some? ==> forall x :: x in StateMap && x.recordId == recordId ==> found.value <= x.index
    {
      for i := 0 to |StateMap|
        invariant forall k :: 0 <= k < i ==> StateMap[k].recordId != recordId
      {
        if StateMap[i].recordId == recordId {
          assert StateMap[i] in StateMap;
          return Some(StateMap[i].index);
        }
      }
      return None;
    }

    /** Starts over whenever the candidate is in use, and still ends: the result is the next id after the
        last one, cyclically, that no entry uses. */
    method MakeNewRecordId() returns (id: Word32)
      requires |Ids(StateMap)| < 0x1_0000_0000
      modifies this`m_LastNewRecordId
      ensures id == m_LastNewRecordId && id !in Ids(StateMap)
      ensures exists k: nat :: k <= |Ids(StateMap)| + 1
                && FirstFree(old(m_LastNewRecordId), Ids(StateMap), k) && id == Ahead(old(m_LastNewRecordId), k)
    {
      hide Ahead;
      ghost var last, used, k := m_LastNewRecordId, Ids(StateMap), 1;
      FirstStep(last);
      m_LastNewRecordId := (m_LastNewRecordId + 1) % 0x1_0000_0000;
      var i := 0;
      while i < |StateMap|
        invariant i <= |StateMap| && 1 <= k <= |used| + 1
        invariant m_LastNewRecordId == Ahead(last, k)
        invariant forall j :: 1 <= j < k ==> Ahead(last, j) in used
        invariant forall j :: 0 <= j < i ==> StateMap[j].recordId != m_LastNewRecordId
        decreases |used| + 1 - k, |StateMap| - i
      {
        if m_LastNewRecordId == StateMap[i].recordId {
          assert StateMap[i] in StateMap;
          StepsAreBounded(last, used, k);
          AheadOfNext(last, k);
          m_LastNewRecordId := (m_LastNewRecordId + 1) % 0x1_0000_0000;
          k := k + 1;
          i := 0;
        } else {
          i := i + 1;
        }
      }
      assert FirstFree(last, used, k);
      return m_LastNewRecordId;
    }
  }

  lemma NoFields()
    ensures FieldStates([]) == []
  {
  }

  /** The fields from position begin on. */
  lemma FieldsFrom(s: seq<Byte>, begin: nat)
    requires begin < |s|
    ensures FieldStates(s[begin..])
      == if begin + FIELD_SIZE > |s| then []
         else [FieldState(s[begin..begin + FIELD_SIZE])] + FieldStates(s[begin + FIELD_SIZE..])
  {
    hide FieldState;
    var rest := s[begin..];
    if begin + FIELD_SIZE <= |s| {
      assert rest[..FIELD_SIZE] == s[begin..begin + FIELD_SIZE] && rest[FIELD_SIZE..] == s[begin + FIELD_SIZE..];
    }
  }

  lemma FirstStep(last: Word32)
    ensures (last + 1) % 0x1_0000_0000 == Ahead(last, 1)
  {
  }
}
