/** The category lists of record.cc: names joined by ", " and split again at commas. */
module Categories {
  import opened Bytes

  const COMMA: Byte := 0x2C
  const NPOS := -1

  /** str.find(',', from). */
  function Find(s: seq<Byte>, from: nat): (r: int)
    requires from <= |s|
    ensures r == NPOS || (from <= r < |s| && s[r] == COMMA)
    ensures forall i :: from <= i < (if r == NPOS then |s| else r) ==> s[i] != COMMA
    decreases |s| - from
  {
    if from == |s| then NPOS else if s[from] == COMMA then from else Find(s, from + 1)
  }

  function StripLeft(s: seq<Byte>): (r: seq<Byte>)
    ensures |r| <= |s| && (r != [] ==> r[0] != SPACE)
  {
    if s != [] && s[0] == SPACE then StripLeft(s[1..]) else s
  }

  function StripRight(s: seq<Byte>): (r: seq<Byte>)
    ensures r <= s && (r != [] ==> r[|r| - 1] != SPACE)
  {
    if s != [] && s[|s| - 1] == SPACE then StripRight(s[..|s| - 1]) else s
  }

  function Strip(s: seq<Byte>): seq<Byte>
  {
    StripRight(StripLeft(s))
  }

  /** What one piece between commas contributes. */
  function Keep(piece: seq<Byte>): seq<seq<Byte>>
  {
    if Strip(piece) == [] then [] else [Strip(piece)]
  }

  function Split(s: seq<Byte>): seq<seq<Byte>>
    decreases |s|
  {
    var comma := Find(s, 0);
    if comma == NPOS then Keep(s) else Keep(s[..comma]) + Split(s[comma + 1..])
  }

  /** Before a leading comma end wraps around, and an empty name is kept. */
  function Tokens(s: seq<Byte>): seq<seq<Byte>>
  {
    if s == [] then [] else (if s[0] == COMMA then [[]] else []) + Split(s)
  }

  function JoinAfter(str: seq<Byte>, names: seq<seq<Byte>>): seq<Byte>
    decreases |names|
  {
    if names == [] then str
    else JoinAfter(str + (if str == [] then [] else [COMMA, SPACE]) + names[0], names[1..])
  }

  function Joined(names: seq<seq<Byte>>): seq<Byte>
  {
    JoinAfter([], names)
  }

  /** Each further name stands behind a comma and a space, unless nothing has been written yet. */
  lemma {:induction false} JoinedOneMore(str: seq<Byte>, names: seq<seq<Byte>>, name: seq<Byte>)
    ensures
      var joined := JoinAfter(str, names);
      JoinAfter(str, names + [name]) == (if joined == [] then [] else joined + [0x2C, 0x20]) + name
    decreases |names|
  {
    if names == [] {
      assert (names + [name])[1..] == [];
    } else {
      assert (names + [name])[1..] == names[1..] + [name];
      JoinedOneMore(str + (if str == [] then [] else [COMMA, SPACE]) + names[0], names[1..], name);
    }
  }

  predicate Spaces(s: seq<Byte>)
  {
    forall i :: 0 <= i < |s| ==> s[i] == SPACE
  }

  lemma {:induction false} StripLeftOf(s: seq<Byte>, i: nat)
    requires i <= |s| && Spaces(s[..i]) && (i < |s| ==> s[i] != SPACE)
    ensures StripLeft(s) == s[i..]
    decreases i
  {
    if i > 0 {
      assert s[0] == s[..i][0];
      assert s[1..][..i - 1] == s[..i][1..];
      StripLeftOf(s[1..], i - 1);
    }
  }

  lemma {:induction false} StripRightOf(s: seq<Byte>, j: nat)
    requires j <= |s| && Spaces(s[j..]) && (j > 0 ==> s[j - 1] != SPACE)
    ensures StripRight(s) == s[..j]
    decreases |s|
  {
    if j < |s| {
      var n := |s| - 1;
      assert s[n] == s[j..][n - j];
      assert s[..n][j..] == s[j..][..n - j];
      StripRightOf(s[..n], j);
      assert s[..n][..j] == s[..j];
    }
  }

  /** What lies between the outer spaces. */
  lemma StripOf(s: seq<Byte>, i: nat, j: nat)
    requires i < j <= |s| && Spaces(s[..i]) && Spaces(s[j..]) && s[i] != SPACE && s[j - 1] != SPACE
    ensures Strip(s) == s[i..j]
  {
    StripLeftOf(s, i);
    assert s[i..][j - i..] == s[j..];
    StripRightOf(s[i..], j - i);
    assert s[i..][..j - i] == s[i..j];
  }

  lemma StripOfSpaces(s: seq<Byte>)
    requires Spaces(s)
    ensures Strip(s) == []
  {
    assert s[..|s|] == s;
    StripLeftOf(s, |s|);
  }

  /** The pieces found from position start on. */
  lemma SplitStep(s: seq<Byte>, start: nat)
    requires start <= |s|
    ensures
      var d := Find(s, start);
      Split(s[start..]) == if d == NPOS then Keep(s[start..]) else Keep(s[start..d]) + Split(s[d + 1..])
  {
    hide Keep, Find;
    var d, e := Find(s, start), Find(s[start..], 0);
    assert forall i :: start <= i < |s| ==> s[i] == s[start..][i - start];
    if d != NPOS {
      assert e != NPOS && start + e == d;
      assert s[start..][..e] == s[start..d] && s[start..][e + 1..] == s[d + 1..];
    }
  }

  predicate SpacesIn(s: seq<Byte>, from: nat, to: nat)
    requires to <= |s|
  {
    forall i :: from <= i < to ==> s[i] == SPACE
  }

  /** A piece that is more than spaces, and where its outer spaces end. */
  lemma KeepIn(s: seq<Byte>, from: nat, to: nat, i: nat, j: nat)
    requires from <= i < j <= to <= |s|
    requires SpacesIn(s, from, i) && SpacesIn(s, j, to) && s[i] != SPACE && s[j - 1] != SPACE
    ensures Keep(s[from..to]) == [s[i..j]]
  {
    hide Strip;
    var piece := s[from..to];
    assert piece[..i - from] == s[from..i] && piece[j - from..] == s[j..to];
    StripOf(piece, i - from, j - from);
    SliceOfSlice(s, from, to, i, j);
  }

  lemma SliceOfSlice(s: seq<Byte>, from: nat, to: nat, i: nat, j: nat)
    requires from <= i <= j <= to <= |s|
    ensures s[from..to][i - from..j - from] == s[i..j]
  {
    var piece := s[from..to];
    var inner := piece[i - from..j - from];
    assert forall k :: 0 <= k < |inner| ==> inner[k] == s[i..j][k];
  }

  lemma KeepNothing(s: seq<Byte>, from: nat, to: nat)
    requires from <= to <= |s| && SpacesIn(s, from, to)
    ensures Keep(s[from..to]) == []
  {
    var piece := s[from..to];
    assert forall k :: 0 <= k < |piece| ==> piece[k] == s[from + k];
    StripOfSpaces(piece);
  }

  /** The two stripping loops, on the piece from position from to just before stop. */
  method Trim(str: seq<Byte>, from: nat, stop: nat) returns (start: nat, end: int)
    requires from <= stop <= |str|
    requires stop < |str| ==> str[stop] == COMMA
    requires from > 0 ==> str[from - 1] == COMMA
    ensures NPOS <= end < stop && (end == NPOS <==> stop == 0)
    ensures start <= end ==> [str[start..end + 1]] == Keep(str[from..stop])
    ensures end != NPOS && start > end ==> Keep(str[from..stop]) == []
  {
    hide Keep;
    start, end := from, stop - 1;
    while start < |str| && str[start] == SPACE
      invariant from <= start <= stop && SpacesIn(str, from, start)
      decreases |str| - start
    {
      start := start + 1;
    }
    while end != NPOS && end != 0 && str[end] == SPACE
      invariant NPOS <= end < stop && (end == NPOS <==> stop == 0)
      invariant start < stop ==> start <= end && SpacesIn(str, end + 1, stop)
      decreases end
    {
      end := end - 1;
    }
    if start < stop {
      KeepIn(str, from, stop, start, end + 1);
    } else {
      KeepNothing(str, from, stop);
    }
  }

  /** What is still to come when the scan stands at start. */
  function Pending(str: seq<Byte>, start: int): seq<seq<Byte>>
    requires NPOS <= start <= |str|
  {
    if start == NPOS then []
    else (if start == 0 && str != [] && str[0] == COMMA then [[]] else []) + Split(str[start..])
  }

  lemma PendingEnds(str: seq<Byte>)
    ensures if str == [] then Tokens(str) == [] else Pending(str, 0) == Tokens(str)
    ensures Pending(str, NPOS) == []
  {
    assert str[0..] == str;
  }

  /** One turn of the scan: the piece from start to stop, then the rest. */
  lemma PendingStep(str: seq<Byte>, start: nat)
    requires str != [] && start <= |str|
    ensures
      var d := Find(str, start);
      var stop := if d == NPOS then |str| else d;
      Pending(str, start)
        == (if stop == 0 then [[]] else Keep(str[start..stop])) + Pending(str, if d == NPOS then NPOS else d + 1)
  {
    hide Keep, Split, Find;
    SplitStep(str, start);
    assert str[start..|str|] == str[start..];
    KeepNothing(str, 0, 0);
  }

  /** One token or none; start <= end compares unsigned sizes, where NPOS is the largest, and the length of
      the token from 0 to NPOS wraps to 0. */
  method TakeToken(str: seq<Byte>, from: nat, stop: nat) returns (token: seq<seq<Byte>>)
    requires from <= stop <= |str|
    requires stop < |str| ==> str[stop] == COMMA
    requires from > 0 ==> str[from - 1] == COMMA
    ensures token == if stop == 0 then [[]] else Keep(str[from..stop])
  {
    hide Keep;
    var start, end := Trim(str, from, stop);
    token := if end == NPOS then [[]] else if start <= end then [str[start..end + 1]] else [];
  }

  method CategoryStr2List(str: seq<Byte>) returns (list: seq<seq<Byte>>)
    ensures list == Tokens(str)
  {
    hide Keep, Pending, Find, Tokens, Split;
    list := [];
    PendingEnds(str);
    if |str| == 0 {
      return;
    }
    var start: int, delim := 0, Find(str, 0);
    while start != NPOS
      invariant NPOS <= start <= |str|
      invariant start != NPOS ==> delim == Find(str, start)
      invariant start > 0 ==> str[start - 1] == COMMA
      invariant list + Pending(str, start) == Tokens(str)
      decreases if start == NPOS then -1 else |str| - start
    {
      PendingStep(str, start);
      var token := TakeToken(str, start, if delim == NPOS then |str| else delim);
      list := list + token;
      start := delim;
      if start != NPOS {
        start := start + 1;
        delim := Find(str, start);
      }
    }
  }

  method CategoryList2Str(names: seq<seq<Byte>>) returns (str: seq<Byte>)
    ensures str == Joined(names)
  {
    str := [];
    for i := 0 to |names|
      invariant JoinAfter(str, names[i..]) == Joined(names)
    {
      assert names[i..][1..] == names[i + 1..];
      if |str| > 0 {
        str := str + [COMMA, SPACE];
      }
      str := str + names[i];
    }
  }

  // ---- Which lists come back ----

  /** A name that the text form can carry. */
  predicate Plain(name: seq<Byte>)
  {
    name != [] && COMMA !in name && name[0] != SPACE && name[|name| - 1] != SPACE
  }

  lemma StripOfPlain(name: seq<Byte>, front: seq<Byte>)
    requires Plain(name) && Spaces(front)
    ensures Strip(front + name) == name
  {
    var s := front + name;
    assert s[..|front|] == front && s[|front|..|s|] == name;
    StripOf(s, |front|, |s|);
  }

  lemma SplitAtComma(piece: seq<Byte>, rest: seq<Byte>)
    requires COMMA !in piece
    ensures Split(piece + [COMMA] + rest) == Keep(piece) + Split(rest)
    ensures Split(piece) == Keep(piece)
  {
    hide Keep;
    var s := piece + [COMMA] + rest;
    assert s[|piece|] == COMMA;
    assert forall i :: 0 <= i < |piece| ==> s[i] == piece[i];
    assert Find(s, 0) == |piece|;
    assert s[..|piece|] == piece && s[|piece| + 1..] == rest;
  }

  /** The names of a list, each one but the first after a separator. */
  function Rest(names: seq<seq<Byte>>): seq<Byte>
  {
    if names == [] then [] else [COMMA, SPACE] + names[0] + Rest(names[1..])
  }

  lemma {:induction false} JoinAfterIs(str: seq<Byte>, names: seq<seq<Byte>>)
    requires str != []
    ensures JoinAfter(str, names) == str + Rest(names)
    decreases |names|
  {
    if names != [] {
      var next := str + [COMMA, SPACE] + names[0];
      JoinAfterIs(next, names[1..]);
      assert next + Rest(names[1..]) == str + ([COMMA, SPACE] + names[0] + Rest(names[1..]));
    }
  }

  lemma JoinedIs(names: seq<seq<Byte>>)
    requires names != [] && names[0] != []
    ensures Joined(names) == names[0] + Rest(names[1..])
  {
    assert [] + [] + names[0] == names[0];
    JoinAfterIs(names[0], names[1..]);
  }

  /** A list of plain names, each after a comma, comes apart again in front of anything. */
  lemma {:induction false} SplitOfRest(front: seq<Byte>, name: seq<Byte>, names: seq<seq<Byte>>, tail: seq<Byte>)
    requires Spaces(front) && Plain(name) && forall n :: n in names ==> Plain(n)
    requires tail == [] || tail[0] == COMMA
    ensures Split(front + name + Rest(names) + tail)
         == [name] + names + if tail == [] then [] else Split(tail[1..])
    decreases |names|
  {
    hide Split, StripLeft, StripRight, Plain;
    var s := front + name + Rest(names) + tail;
    if names == [] {
      assert s == front + name + tail;
      if tail == [] {
        SplitPlain(front, name);
        assert s == front + name;
      } else {
        SplitPlainThen(front, name, tail[1..]);
        assert s == front + name + [COMMA] + tail[1..];
      }
    } else {
      SplitOfRest([SPACE], names[0], names[1..], tail);
      var below := [SPACE] + names[0] + Rest(names[1..]) + tail;
      SplitPlainThen(front, name, below);
      assert s == front + name + [COMMA] + below;
      assert names == [names[0]] + names[1..];
    }
  }

  lemma SplitPlain(front: seq<Byte>, name: seq<Byte>)
    requires Spaces(front) && Plain(name)
    ensures Split(front + name) == [name]
  {
    hide Strip;
    StripOfPlain(name, front);
    SplitAtComma(front + name, []);
  }

  lemma SplitPlainThen(front: seq<Byte>, name: seq<Byte>, rest: seq<Byte>)
    requires Spaces(front) && Plain(name)
    ensures Split(front + name + [COMMA] + rest) == [name] + Split(rest)
  {
    hide Strip;
    StripOfPlain(name, front);
    SplitAtComma(front + name, rest);
  }

  lemma JoinedIsEmpty()
    ensures Joined([]) == []
  {
  }

  lemma TokensOfJoined(names: seq<seq<Byte>>)
    requires forall n :: n in names ==> Plain(n)
    ensures Tokens(Joined(names)) == names
  {
    hide Split, Joined;
    if names == [] {
      JoinedIsEmpty();
    } else {
      assert Plain(names[0]);
      FirstOfJoined(names);
      JoinedIs(names);
      SplitOfRest([], names[0], names[1..], []);
      assert [] + names[0] + Rest(names[1..]) + [] == Joined(names);
      assert [names[0]] + names[1..] == names;
    }
  }

  lemma {:induction false} StrippedHasNoComma(s: seq<Byte>)
    requires COMMA !in s
    ensures COMMA !in StripLeft(s) && COMMA !in StripRight(s)
    decreases |s|
  {
    if s != [] {
      StrippedHasNoComma(s[1..]);
      StrippedHasNoComma(s[..|s| - 1]);
    }
  }

  lemma KeptIsPlain(piece: seq<Byte>)
    requires COMMA !in piece
    ensures forall n :: n in Keep(piece) ==> Plain(n)
  {
    StrippedHasNoComma(piece);
    StrippedHasNoComma(StripLeft(piece));
  }

  /** Only plain names are ever read, but for the empty one before a leading comma. */
  lemma {:induction false} SplitIsPlain(s: seq<Byte>)
    ensures forall n :: n in Split(s) ==> Plain(n)
    decreases |s|
  {
    var comma := Find(s, 0);
    if comma == NPOS {
      KeptIsPlain(s);
    } else {
      KeptIsPlain(s[..comma]);
      SplitIsPlain(s[comma + 1..]);
    }
  }

  lemma FirstOfJoined(names: seq<seq<Byte>>)
    requires names != [] && Plain(names[0])
    ensures Joined(names) != [] && Joined(names)[0] != COMMA
  {
    JoinedIs(names);
    assert Joined(names)[0] == names[0][0] && names[0][0] in names[0];
  }

  /** Reading any text gives plain names only, unless it starts with a comma. */
  lemma TokensArePlain(s: seq<Byte>, names: seq<seq<Byte>>)
    requires Tokens(s) == names && s <= Joined(names)
    ensures forall n :: n in names ==> Plain(n)
  {
    SplitIsPlain(s);
    if s != [] && s[0] == COMMA {
      assert names[1..] == Split(s) && names[0] == [];
      assert [] + [] + names[0] == [];
      assert Joined(names) == Joined(names[1..]);
      if names[1..] != [] {
        FirstOfJoined(names[1..]);
      }
      assert false;
    }
  }

  /** A list of names comes back from its text exactly when every name is non-empty, without commas, and
      without outer spaces. */
  lemma CategoryRoundTrip(names: seq<seq<Byte>>)
    ensures Tokens(Joined(names)) == names <==> forall n :: n in names ==> Plain(n)
  {
    if Tokens(Joined(names)) == names {
      TokensArePlain(Joined(names), names);
    }
    if forall n :: n in names ==> Plain(n) {
      TokensOfJoined(names);
    }
  }

  // ---- The same through a field, which loses the NULs at the end of the text ----

  lemma {:induction false} RestOfSnoc(names: seq<seq<Byte>>, last: seq<Byte>)
    ensures Rest(names + [last]) == Rest(names) + ([COMMA, SPACE] + last)
    decreases |names|
  {
    var all := names + [last];
    if names == [] {
      assert all[1..] == [];
    } else {
      assert all[1..] == names[1..] + [last];
      RestOfSnoc(names[1..], last);
    }
  }

  /** What stands before the last name of a list. */
  function BeforeLast(init: seq<seq<Byte>>): seq<Byte>
  {
    if init == [] then [] else init[0] + Rest(init[1..]) + [COMMA, SPACE]
  }

  lemma JoinedOfSnoc(init: seq<seq<Byte>>, last: seq<Byte>)
    requires last != [] && (init != [] ==> init[0] != [])
    ensures Joined(init + [last]) == BeforeLast(init) + last
  {
    var names := init + [last];
    JoinedIs(names);
    if init == [] {
      assert names[1..] == [];
    } else {
      assert names[1..] == init[1..] + [last];
      RestOfSnoc(init[1..], last);
    }
  }

  lemma {:induction false} StripIsNoLonger(s: seq<Byte>)
    ensures |Strip(s)| <= |s|
  {
  }

  /** With a shorter last piece, the last name does not come back. */
  lemma ShorterLast(init: seq<seq<Byte>>, last: seq<Byte>, piece: seq<Byte>)
    requires (forall n :: n in init ==> Plain(n)) && COMMA !in piece && |piece| < |last|
    ensures Tokens(BeforeLast(init) + piece) != init + [last]
  {
    hide Strip, Split, Rest, Tokens;
    StripIsNoLonger(piece);
    if init == [] {
      assert BeforeLast(init) + piece == piece && init + [last] == [last];
      TokensOfOne(piece);
    } else {
      var tail := [COMMA, SPACE] + piece;
      assert Plain(init[0]);
      SplitOfRest([], init[0], init[1..], tail);
      var text := BeforeLast(init) + piece;
      assert [] + init[0] + Rest(init[1..]) + tail == text && [init[0]] + init[1..] == init;
      assert tail[1..] == [SPACE] + piece && COMMA !in tail[1..];
      SplitAtComma(tail[1..], []);
      SpaceInFront(piece);
      assert text[0] == init[0][0] && init[0][0] in init[0];
      TokensAreSplit(text);
      var kept := Keep(tail[1..]);
      assert Tokens(text) == init + kept;
      assert kept != [] ==> (init + kept)[|init|] == Strip(piece) != (init + [last])[|init|];
    }
  }

  lemma TokensAreSplit(s: seq<Byte>)
    requires s != [] && s[0] != COMMA
    ensures Tokens(s) == Split(s)
  {
  }

  lemma TokensOfOne(piece: seq<Byte>)
    requires COMMA !in piece
    ensures Tokens(piece) == [] || Tokens(piece) == [Strip(piece)]
  {
    hide Strip;
    SplitAtComma(piece, []);
    if piece != [] {
      assert piece[0] in piece;
    }
  }

  lemma SpaceInFront(s: seq<Byte>)
    ensures Strip([SPACE] + s) == Strip(s)
  {
    assert ([SPACE] + s)[1..] == s;
  }
}

/** The dates of record.cc, and their text form DD/MM/YYYY on the device. */
module Dates {
  import opened Bytes
  import opened Wrappers

  const SLASH: Byte := 0x2F
  const MINUS: Byte := 0x2D
  const PLUS: Byte := 0x2B

  /** month counts from 0. */
  datatype Date = Date(month: int, day: int, year: int)

  const NO_DATE := Date(0, 0, 0)

  predicate HasData(d: Date)
  {
    d.month != 0 || d.day != 0 || d.year != 0
  }

  /** An int through operator<<. */
  function Decimal(n: int): seq<Byte>
  {
    if n < 0 then [MINUS] + Digits(-n) else Digits(n)
  }

  /** The same through setw(2) and setfill('0'). */
  function Padded(n: int): seq<Byte>
  {
    if |Decimal(n)| < 2 then [ZERO] + Decimal(n) else Decimal(n)
  }

  function ToBBString(d: Date): seq<Byte>
  {
    Padded(d.day) + ([SLASH] + (Padded(d.month + 1) + ([SLASH] + Padded(d.year))))
  }

  // ---- sscanf(str, "%d/%d/%d") ----

  datatype Scan = Scan(value: int, rest: seq<Byte>)

  function SkipSpace(s: seq<Byte>): seq<Byte>
  {
    if s != [] && (s[0] == 0x20 || 0x09 <= s[0] <= 0x0D) then SkipSpace(s[1..]) else s
  }

  function ScanDigits(s: seq<Byte>, sofar: nat): Scan
    decreases |s|
  {
    if s != [] && IsDigit(s[0]) then ScanDigits(s[1..], 10 * sofar + (s[0] - ZERO)) else Scan(sofar, s)
  }

  function ScanInt(text: seq<Byte>): Option<Scan>
  {
    var s := SkipSpace(text);
    var signed := s != [] && (s[0] == MINUS || s[0] == PLUS);
    var digits := if signed then s[1..] else s;
    if digits == [] || !IsDigit(digits[0]) then None
    else
      var r := ScanDigits(digits, 0);
      Some(if signed && s[0] == MINUS then r.(value := -r.value) else r)
  }

  function ScanSlash(s: seq<Byte>): Option<seq<Byte>>
  {
    if s != [] && s[0] == SLASH then Some(s[1..]) else None
  }

  /** None leaves the date as it was. */
  function FromBBString(s: seq<Byte>): Option<Date>
  {
    match ScanInt(s)
    case None => None
    case Some(d) =>
      match ScanSlash(d.rest)
      case None => None
      case Some(s2) =>
        match ScanInt(s2)
        case None => None
        case Some(m) =>
          match ScanSlash(m.rest)
          case None => None
          case Some(s3) =>
            match ScanInt(s3)
            case None => None
            case Some(y) => Some(Date(m.value - 1, d.value, y.value))
  }

  predicate NoDigitFirst(s: seq<Byte>)
  {
    s == [] || !IsDigit(s[0])
  }

  /** Reading digits off the front of a text. */
  function Value(digits: seq<Byte>, sofar: nat): nat
    requires forall i :: 0 <= i < |digits| ==> IsDigit(digits[i])
    decreases |digits|
  {
    if digits == [] then sofar
    else assert IsDigit(digits[0]); Value(digits[1..], 10 * sofar + (digits[0] - ZERO))
  }

  lemma {:induction false} ScanDigitsOf(digits: seq<Byte>, sofar: nat, rest: seq<Byte>)
    requires forall i :: 0 <= i < |digits| ==> IsDigit(digits[i])
    requires NoDigitFirst(rest)
    ensures ScanDigits(digits + rest, sofar) == Scan(Value(digits, sofar), rest)
    decreases |digits|
  {
    if digits == [] {
      assert digits + rest == rest;
    } else {
      assert (digits + rest)[1..] == digits[1..] + rest;
      ScanDigitsOf(digits[1..], 10 * sofar + (digits[0] - ZERO), rest);
    }
  }

  lemma {:induction false} ValueOfSnoc(digits: seq<Byte>, d: Byte, sofar: nat)
    requires (forall i :: 0 <= i < |digits| ==> IsDigit(digits[i])) && IsDigit(d)
    ensures Value(digits + [d], sofar) == 10 * Value(digits, sofar) + (d - ZERO)
    decreases |digits|
  {
    if digits == [] {
      assert (digits + [d])[1..] == [];
    } else {
      assert (digits + [d])[1..] == digits[1..] + [d];
      ValueOfSnoc(digits[1..], d, 10 * sofar + (digits[0] - ZERO));
    }
  }

  lemma {:induction false} ValueOfDigits(n: nat)
    ensures Value(Digits(n), 0) == n
  {
    if n < 10 {
      assert Digits(n)[1..] == [];
    } else {
      ValueOfDigits(n / 10);
      ValueOfSnoc(Digits(n / 10), ZERO + n % 10, 0);
    }
  }

  lemma LeadingZero(digits: seq<Byte>)
    requires forall i :: 0 <= i < |digits| ==> IsDigit(digits[i])
    ensures Value([ZERO] + digits, 0) == Value(digits, 0)
  {
    assert ([ZERO] + digits)[1..] == digits;
  }

  /** A printed number is read back, with or without its padding. */
  lemma ScanOfPadded(n: int, rest: seq<Byte>)
    requires NoDigitFirst(rest)
    ensures ScanInt(Padded(n) + rest) == Some(Scan(n, rest))
  {
    hide Digits, Value, ScanDigits;
    var text := Padded(n) + rest;
    var digits := Digits(if n < 0 then -n else n);
    ValueOfDigits(if n < 0 then -n else n);
    ScanDigitsOf(digits, 0, rest);
    ScanDigitsOf([ZERO] + digits, 0, rest);
    LeadingZero(digits);
    if n < 0 {
      assert text[0] == MINUS && text[1..] == digits + rest;
    } else if |digits| < 2 {
      assert text == [ZERO] + digits + rest;
    } else {
      assert text == digits + rest;
    }
  }

  /** Blanks in front of a number are skipped, and a plus sign changes nothing. */
  lemma {:induction false} BlanksBeforeNumber(gap: seq<Byte>, text: seq<Byte>)
    requires forall i :: 0 <= i < |gap| ==> gap[i] == 0x20 || 0x09 <= gap[i] <= 0x0D
    ensures ScanInt(gap + text) == ScanInt(text)
    ensures text != [] && IsDigit(text[0]) ==> ScanInt([0x2B] + text) == ScanInt(text)
    decreases |gap|
  {
    hide ScanDigits;
    if gap == [] {
      assert gap + text == text;
      assert ([0x2B] + text)[1..] == text;
    } else {
      assert (gap + text)[1..] == gap[1..] + text;
      BlanksBeforeNumber(gap[1..], text);
    }
  }

  /** Two digits for the day, two for the month counted from 1, and the year, with slashes between them. */
  lemma DateLayout(d: Date)
    requires 1 <= d.day <= 31 && 0 <= d.month <= 11 && 1000 <= d.year <= 9999
    ensures var s := ToBBString(d);
      && |s| == 10 && s[2] == 0x2F && s[5] == 0x2F
      && s[0] == 0x30 + d.day / 10 && s[1] == 0x30 + d.day % 10
      && s[3] == 0x30 + (d.month + 1) / 10 && s[4] == 0x30 + (d.month + 1) % 10
      && s[6] == 0x30 + d.year / 1000 && s[7] == 0x30 + d.year / 100 % 10
      && s[8] == 0x30 + d.year / 10 % 10 && s[9] == 0x30 + d.year % 10
  {
    TwoDigits(d.day);
    TwoDigits(d.month + 1);
    FourDigits(d.year);
    hide Padded;
  }

  lemma TwoDigits(n: nat)
    requires n < 100
    ensures Padded(n) == [ZERO + n / 10, ZERO + n % 10]
  {
    assert n >= 10 ==> Digits(n / 10) == [ZERO + n / 10];
  }

  lemma FourDigits(n: nat)
    requires 1000 <= n <= 9999
    ensures Padded(n) == [ZERO + n / 1000, ZERO + n / 100 % 10, ZERO + n / 10 % 10, ZERO + n % 10]
  {
    assert n / 10 / 10 == n / 100 && n / 100 / 10 == n / 1000;
    assert Digits(n / 1000) == [ZERO + n / 1000];
    assert Digits(n / 100) == Digits(n / 1000) + [ZERO + n / 100 % 10];
    assert Digits(n / 10) == Digits(n / 100) + [ZERO + n / 10 % 10];
  }

  /** Every date comes back from its text form. */
  lemma DateRoundTrip(d: Date)
    ensures FromBBString(ToBBString(d)) == Some(d)
  {
    hide Padded, ScanInt;
    var year := Padded(d.year);
    var month := Padded(d.month + 1) + ([SLASH] + year);
    ScanOfPadded(d.year, []);
    assert year + [] == year;
    ScanOfPadded(d.month + 1, [SLASH] + year);
    ScanOfPadded(d.day, [SLASH] + month);
    assert ([SLASH] + year)[1..] == year && ([SLASH] + month)[1..] == month;
  }
}

/** The tagged fields of record.cc: a 16-bit size, a type byte, and that many bytes. */
module Fields {
  import opened Bytes
  import opened DataBuffer

  const HEADER := 3

  datatype Field = Field(code: Byte, payload: seq<Byte>)

  /** The size is stored modulo 2^16. */
  function FieldBytes(f: Field): (r: seq<Byte>)
    ensures |r| == HEADER + |f.payload|
  {
    Le16(|f.payload|) + [f.code] + f.payload
  }

  /** A string is stored with a terminator. */
  function TextField(code: Byte, text: seq<Byte>): Field
  {
    Field(code, text + [0])
  }

  function TrimNuls(s: seq<Byte>): (r: seq<Byte>)
    ensures r <= s && (r != [] ==> r[|r| - 1] != 0)
  {
    if s != [] && s[|s| - 1] == 0 then TrimNuls(s[..|s| - 1]) else s
  }

  predicate Trimmed(s: seq<Byte>)
  {
    s != [] ==> s[|s| - 1] != 0
  }

  method ParseFieldString(raw: seq<Byte>, size: nat) returns (str: seq<Byte>)
    requires size <= |raw|
    ensures str == TrimNuls(raw[..size])
  {
    var maxlen: nat := size;
    while maxlen > 0 && raw[maxlen - 1] == 0
      invariant maxlen <= size
      invariant TrimNuls(raw[..maxlen]) == TrimNuls(raw[..size])
    {
      assert raw[..maxlen][..maxlen - 1] == raw[..maxlen - 1];
      maxlen := maxlen - 1;
    }
    str := raw[..maxlen];
  }

  /** The stored string reads back without the NULs it ended in. */
  lemma TrimOfText(text: seq<Byte>)
    ensures TrimNuls(text + [0]) == TrimNuls(text)
    ensures TrimNuls(text) == text <==> Trimmed(text)
  {
    assert (text + [0])[..|text|] == text;
  }

  lemma {:induction false} TrimOfConcat(front: seq<Byte>, s: seq<Byte>)
    requires Trimmed(front)
    ensures TrimNuls(front + s) == front + TrimNuls(s)
    decreases |s|
  {
    if s == [] {
      assert front + s == front;
    } else {
      var t := front + s;
      assert t[|t| - 1] == s[|s| - 1];
      assert t[..|t| - 1] == front + s[..|s| - 1];
      if s[|s| - 1] == 0 {
        TrimOfConcat(front, s[..|s| - 1]);
      }
    }
  }

  // ---- Writing into a buffer at an advancing offset ----

  /** Everything from the starting offset on has been written and can be read back. */
  ghost predicate Holds(data: Data, from: nat, to: nat)
    reads data
  {
    data.Valid() && from <= to && (from == to || (!data.m_external && to <= data.m_data.Length))
  }

  ghost function Written(data: Data, from: nat, to: nat): seq<Byte>
    requires Holds(data, from, to)
    reads data, data.m_data
  {
    if from == to then [] else data.m_data[from..to]
  }

  /** What every step of a builder leaves true about its buffer. */
  twostate predicate Kept(data: Data)
    reads data
  {
    (data.m_data == old(data.m_data) || fresh(data.m_data)) && data.m_externalData == old(data.m_externalData)
  }

  lemma Halves(s: seq<Byte>, i: nat, j: nat, k: nat)
    requires i <= j <= k <= |s|
    ensures s[i..k] == s[i..j] + s[j..k]
  {
  }

  /** The BuildField functions differ only in where the payload comes from. */
  method BuildField(data: Data, ghost from: nat, size: nat, f: Field) returns (next: nat)
    requires Holds(data, from, size)
    modifies data, data.m_data
    ensures Kept(data) && next == size + |FieldBytes(f)| && Holds(data, from, next)
    ensures Written(data, from, next) == old(Written(data, from, size)) + FieldBytes(f)
  {
    hide FieldBytes;
    next := size + HEADER + |f.payload|;
    MakeRoom(data, from, size, next);
    ghost var now := Written(data, from, size);
    WriteField(data.m_data, size, f);
    assert data.m_data[from..size] == now;
    Halves(data.m_data[..], from, size, next);
  }

  method MakeRoom(data: Data, ghost from: nat, size: nat, next: nat)
    requires Holds(data, from, size) && size < next
    modifies data, data.m_data
    ensures Kept(data) && Holds(data, from, size) && !data.m_external && next <= data.m_data.Length
    ensures Written(data, from, size) == old(Written(data, from, size))
  {
    ghost var was := data.m_data[..];
    data.GetBuffer(next);
    if from < size {
      ghost var kept := data.m_data[..|was|];
      assert kept == was;
      assert forall i :: from <= i < size ==> data.m_data[i] == kept[i];
    }
  }

  /** The three members of the CommonField struct, through a pointer into the buffer. */
  method WriteField(buf: array<Byte>, at: nat, f: Field)
    requires at + |FieldBytes(f)| <= buf.Length
    modifies buf
    ensures buf[at..at + |FieldBytes(f)|] == FieldBytes(f)
    ensures forall i :: 0 <= i < at ==> buf[i] == old(buf[i])
  {
    CopyBytes(buf, at, Le16(|f.payload|));
    assert forall i :: 0 <= i < at ==> buf[i] == buf[..at][i];
    label sized:
    buf[at + 2] := f.code;
    assert buf[at..at + 2] == Le16(|f.payload|);
    label coded:
    CopyBytes(buf, at + HEADER, f.payload);
    var to := at + HEADER + |f.payload|;
    assert forall i :: 0 <= i < at + HEADER ==> buf[i] == buf[..at + HEADER][i] == old@coded(buf[i]);
    assert buf[at..to] == buf[at..at + 2] + [buf[at + 2]] + buf[at + HEADER..to];
  }
}
