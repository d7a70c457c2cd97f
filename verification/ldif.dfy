/** LDIF text of contacts, after ldif.cc and RFC 2849: what is printed, and what reading it gives. */
module Ldif {
  import opened Bytes
  import opened Wrappers
  import opened Contacts
  import Base64

  const COLON: Byte := 0x3A

  /** The bytes of a text in 7-bit characters. */
  function Ascii(s: string): (r: seq<Byte>)
    ensures |r| == |s|
  {
    seq(|s|, i requires 0 <= i < |s| => s[i] as int % 0x80)
  }

  // ---- The attribute map ----

  /** A getter of ContactLdif together with its own setter, as the default map pairs them. */
  datatype Access = Email | Member(code: Byte) | FirstName | LastName | FullName | WorkLabel | HomeLabel | Fqdn

  datatype Attribute = Attribute(name: seq<Byte>, objectClass: seq<Byte>, access: Access)

  function Text(con: Card, code: Byte): seq<Byte>
  {
    if code in con.members then con.members[code] else []
  }

  function GetFullName(con: Card): seq<Byte>
  {
    con.firstName + (if con.firstName != [] && con.lastName != [] then [SPACE] else []) + con.lastName
  }

  function Line(sofar: seq<Byte>, next: seq<Byte>): seq<Byte>
  {
    if next == [] then sofar else sofar + (if sofar == [] then [] else [NEWLINE]) + next
  }

  function Broken(s: seq<Byte>): seq<Byte>
  {
    if s == [] then s else s + [NEWLINE]
  }

  /** A mailing address as one string. */
  function Label(a1: seq<Byte>, a2: seq<Byte>, a3: seq<Byte>, city: seq<Byte>, province: seq<Byte>,
                 country: seq<Byte>, postalCode: seq<Byte>): seq<Byte>
  {
    var place :=
      (if city == [] then [] else city + [SPACE]) + (if province == [] then [] else province + [SPACE]) + country;
    Broken(Broken(Line(Line(a1, a2), a3)) + place) + postalCode
  }

  function WorkAddress(con: Card): seq<Byte>
  {
    Label(Text(con, 35), Text(con, 36), Text(con, 37), Text(con, 38), Text(con, 39), Text(con, 41), Text(con, 40))
  }

  function HomeAddress(con: Card): seq<Byte>
  {
    Label(Text(con, 61), Text(con, 62), Text(con, 63), Text(con, 69), Text(con, 70), Text(con, 72), Text(con, 71))
  }

  /** The dn attribute is cn, whose getter is the full name. */
  function Dn(con: Card, baseDN: seq<Byte>): seq<Byte>
  {
    Ascii("cn=") + GetFullName(con) + Ascii(",") + baseDN
  }

  function Email0(con: Card, index: nat): seq<Byte>
  {
    if index < |con.emails| then con.emails[index] else []
  }

  /** The getters that do not step through an array. */
  function Read(con: Card, access: Access, baseDN: seq<Byte>): seq<Byte>
  {
    match access
    case Email => []
    case Member(code) => Text(con, code)
    case FirstName => con.firstName
    case LastName => con.lastName
    case FullName => GetFullName(con)
    case WorkLabel => WorkAddress(con)
    case HomeLabel => HomeAddress(con)
    case Fqdn => Dn(con, baseDN)
  }

  // ---- Printing ----

  predicate Unsafe(c: Byte)
  {
    c == 0x00 || c == NEWLINE || c == 0x0D || c > 0x7F
  }

  predicate UnsafeFirst(c: Byte)
  {
    c == SPACE || c == COLON || c == 0x3C
  }

  predicate NeedsEncoding(s: seq<Byte>)
  {
    (exists i :: 0 <= i < |s| && Unsafe(s[i])) || (s != [] && UnsafeFirst(s[0]))
  }

  function MakeLdifData(s: seq<Byte>): seq<Byte>
  {
    if NeedsEncoding(s) then [COLON] + [COLON, SPACE] + Base64.Encoded(s) else [COLON] + [SPACE] + s
  }

  datatype Entry = Entry(name: seq<Byte>, value: seq<Byte>)

  function EntryBytes(e: Entry): seq<Byte>
  {
    e.name + MakeLdifData(e.value) + [NEWLINE]
  }

  function EntriesBytes(es: seq<Entry>): seq<Byte>
  {
    if es == [] then [] else EntryBytes(es[0]) + EntriesBytes(es[1..])
  }

  function ObjectClass(): seq<Byte>
  {
    Ascii("objectClass")
  }

  /** One field and the object class that goes with it. */
  function FieldEntries(a: Attribute, value: seq<Byte>): seq<Entry>
  {
    [Entry(a.name, value)] + if a.objectClass == [] then [] else [Entry(ObjectClass(), a.objectClass)]
  }

  /** The addresses from index up to the first empty one. */
  function EmailEntries(a: Attribute, con: Card, index: nat): seq<Entry>
    decreases |con.emails| - index
  {
    if Email0(con, index) == [] then [] else FieldEntries(a, Email0(con, index)) + EmailEntries(a, con, index + 1)
  }

  function EmailEnd(con: Card, index: nat): (r: nat)
    decreases |con.emails| - index
  {
    if Email0(con, index) == [] then index + 1 else EmailEnd(con, index + 1)
  }

  /** All fields with data, in the order of the map; index is the getter's place in the address list. */
  function DumpEntries(m: seq<Attribute>, con: Card, baseDN: seq<Byte>, index: nat): seq<Entry>
    decreases |m|
  {
    if m == [] then []
    else if m[0].access == Email then
      EmailEntries(m[0], con, index) + DumpEntries(m[1..], con, baseDN, EmailEnd(con, index))
    else
      var value := Read(con, m[0].access, baseDN);
      (if value == [] then [] else FieldEntries(m[0], value)) + DumpEntries(m[1..], con, baseDN, index)
  }

  function HexDigit(n: nat): Byte
    requires n < 16
  {
    if n < 10 then 0x30 + n else 0x61 + (n - 10)
  }

  function Hex(n: nat): (r: seq<Byte>)
    ensures r != [] && NEWLINE !in r
  {
    if n < 16 then [HexDigit(n)] else Hex(n / 16) + [HexDigit(n % 16)]
  }

  function Comment(con: Card): seq<Byte>
  {
    Ascii("# Contact 0x") + Hex(con.recordId) + Ascii(", ") + GetFullName(con)
  }

  function LastEntry(): Entry
  {
    Entry(ObjectClass(), Ascii("inetOrgPerson"))
  }

  function Dumped(m: seq<Attribute>, con: Card, baseDN: seq<Byte>): seq<Byte>
  {
    if con.firstName == [] && con.lastName == [] then []
    else
      Comment(con) + [NEWLINE] + EntriesBytes(DumpEntries(m, con, baseDN, 0)) + EntryBytes(LastEntry()) + [NEWLINE]
  }

  // ---- Reading ----

  datatype Lines = Lines(line: seq<Byte>, rest: seq<Byte>)

  /** std::getline: None at the end of the stream. */
  function NextLine(s: seq<Byte>): (r: Option<Lines>)
    ensures r.Some? ==> |r.value.rest| < |s| && NEWLINE !in r.value.line
    ensures r.None? <==> s == []
  {
    if s == [] then None
    else if s[0] == NEWLINE then Some(Lines([], s[1..]))
    else
      match NextLine(s[1..])
      case None => Some(Lines(s, []))
      case Some(l) => Some(Lines([s[0]] + l.line, l.rest))
  }

  /** The variables behind the hooks. */
  datatype Hooks = Hooks(cn: seq<Byte>, displayName: seq<Byte>, sn: seq<Byte>, givenName: seq<Byte>)

  const NO_HOOKS := Hooks([], [], [], [])

  function SetHook(h: Hooks, attr: seq<Byte>, data: seq<Byte>): Hooks
  {
    if attr == Ascii("cn") then h.(cn := data)
    else if attr == Ascii("displayName") then h.(displayName := data)
    else if attr == Ascii("sn") then h.(sn := data)
    else if attr == Ascii("givenName") then h.(givenName := data)
    else h
  }

  predicate IsHook(name: seq<Byte>)
  {
    name == Ascii("cn") || name == Ascii("displayName") || name == Ascii("sn") || name == Ascii("givenName")
  }

  function HookOf(h: Hooks, name: seq<Byte>): seq<Byte>
    requires IsHook(name)
  {
    if name == Ascii("cn") then h.cn
    else if name == Ascii("displayName") then h.displayName
    else if name == Ascii("sn") then h.sn
    else h.givenName
  }

  function LastSpace(s: seq<Byte>): (r: int)
    ensures -1 <= r < |s| && (r >= 0 ==> s[r] == SPACE)
    ensures forall i :: r < i < |s| ==> s[i] != SPACE
  {
    if s == [] then -1 else if s[|s| - 1] == SPACE then |s| - 1 else LastSpace(s[..|s| - 1])
  }

  function BeforeNul(s: seq<Byte>): seq<Byte>
  {
    if s == [] || s[0] == 0 then [] else [s[0]] + BeforeNul(s[1..])
  }

  /** Contact::SplitName; the last name is read as a C string. */
  function SplitFirst(full: seq<Byte>): seq<Byte>
  {
    var pos := LastSpace(full);
    if pos >= 0 then full[..pos] else full
  }

  function SplitLast(full: seq<Byte>): seq<Byte>
  {
    var pos := LastSpace(full);
    if pos >= 0 then BeforeNul(full[pos + 1..]) else []
  }

  /** The setters; the ones for whole addresses do nothing. */
  function Write(con: Card, access: Access, data: seq<Byte>): Card
  {
    match access
    case Email => con.(emails := con.emails + [data])
    case Member(code) => con.(members := con.members[code := data])
    case FirstName => con.(firstName := data)
    case LastName => con.(lastName := data)
    case FullName => con.(firstName := SplitFirst(data), lastName := SplitLast(data))
    case WorkLabel => con
    case HomeLabel => con
    case Fqdn => con
  }

  function Lookup(m: seq<Attribute>, name: seq<Byte>): (r: Option<Attribute>)
    ensures r.Some? ==> r.value in m && r.value.name == name
  {
    if m == [] then None else if m[0].name == name then Some(m[0]) else Lookup(m[1..], name)
  }

  /** A base64 field that may go on in the next line. */
  datatype Pending = Pending(attr: seq<Byte>, coded: seq<Byte>)

  /** thrown: the setter of dn has thrown its exception. */
  datatype State = State(con: Card, hooks: Hooks, pending: Option<Pending>, thrown: bool)

  function DoWrite(m: seq<Attribute>, st: State, attr: seq<Byte>, data: seq<Byte>): State
  {
    if attr == [] || data == [] then st
    else
      var hooked := st.(hooks := SetHook(st.hooks, attr, data));
      match Lookup(m, attr)
      case None => hooked
      case Some(a) => hooked.(con := Write(st.con, a.access, data), thrown := a.access == Fqdn)
  }

  /** Ends a base64 field, with or without its errors. */
  function Settle(m: seq<Attribute>, st: State): State
  {
    match st.pending
    case None => st
    case Some(p) => DoWrite(m, st.(pending := None), p.attr, Base64.Decoded(p.coded).bytes)
  }

  function FindColon(s: seq<Byte>): (r: Option<nat>)
    ensures r.Some? ==> r.value < |s| && s[r.value] == COLON
    ensures r.None? ==> COLON !in s
    ensures r.Some? ==> COLON !in s[..r.value]
  {
    if s == [] then None
    else if s[0] == COLON then Some(0)
    else
      match FindColon(s[1..])
      case None => None
      case Some(i) =>
        assert s[..i + 1] == [s[0]] + s[1..][..i];
        Some(i + 1)
  }

  function SkipSeparators(s: seq<Byte>): (r: seq<Byte>)
    ensures |r| <= |s|
  {
    if s != [] && (s[0] == SPACE || s[0] == COLON) then SkipSeparators(s[1..]) else s
  }

  function Process(m: seq<Attribute>, st: State, line: seq<Byte>): State
  {
    match FindColon(line)
    case None => st
    case Some(delim) =>
      var attr, after := line[..delim], line[delim + 1..];
      var data := SkipSeparators(after);
      if after != [] && after[0] == COLON then st.(pending := Some(Pending(attr, data)))
      else DoWrite(m, st, attr, data)
  }

  function LineStep(m: seq<Attribute>, st: State, line: seq<Byte>): State
    requires line != []
  {
    if st.pending.Some? && line[0] == SPACE then
      var p := st.pending.value;
      st.(pending := Some(p.(coded := p.coded + [NEWLINE] + line)))
    else
      var settled := Settle(m, st);
      if settled.thrown then settled else Process(m, settled, line)
  }

  datatype Position = Position(st: State, rest: seq<Byte>)

  /** Up to the empty line or the end of the stream, or to an exception. */
  function ReadFields(m: seq<Attribute>, st: State, s: seq<Byte>): Position
    decreases |s|
  {
    match NextLine(s)
    case None => Position(Settle(m, st), [])
    case Some(l) =>
      if l.line == [] then Position(Settle(m, st), l.rest)
      else
        var next := LineStep(m, st, l.line);
        if next.thrown then Position(next, l.rest) else ReadFields(m, next, l.rest)
  }

  predicate StartsWithDn(line: seq<Byte>)
  {
    Ascii("dn: ") <= line
  }

  function FindDn(s: seq<Byte>): Option<seq<Byte>>
    decreases |s|
  {
    match NextLine(s)
    case None => None
    case Some(l) => if StartsWithDn(l.line) then Some(l.rest) else FindDn(l.rest)
  }

  function Or(a: seq<Byte>, b: seq<Byte>): seq<Byte>
  {
    if a != [] then a else b
  }

  /** The names of a record: sn and givenName, then what cn and displayName offer. */
  function RunHeuristics(con: Card, h: Hooks): Card
  {
    con.(lastName := Or(h.sn, Or(SplitLast(h.cn), SplitLast(h.displayName))),
         firstName := Or(h.givenName, Or(SplitFirst(h.cn), SplitFirst(h.displayName))))
  }

  datatype Status = NoRecord | Thrown | Incomplete | Complete

  datatype Outcome = Outcome(con: Card, status: Status, rest: seq<Byte>)

  /** Clear keeps the record id. */
  function Cleared(con: Card): Card
  {
    Blank(0, con.recordId)
  }

  function ReadLdif(m: seq<Attribute>, con: Card, s: seq<Byte>): Outcome
  {
    match FindDn(s)
    case None => Outcome(Cleared(con), NoRecord, [])
    case Some(body) =>
      var p := ReadFields(m, State(Cleared(con), NO_HOOKS, None, false), body);
      if p.st.thrown then Outcome(p.st.con, Thrown, p.rest)
      else
        var r := RunHeuristics(p.st.con, p.st.hooks);
        Outcome(r, if r.lastName != [] && r.firstName != [] then Complete else Incomplete, p.rest)
  }

  // ---- Reading back what was printed ----

  /** What a value is after printing and reading. */
  function Recovered(value: seq<Byte>): seq<Byte>
  {
    if NeedsEncoding(value) then Base64.Decoded(Base64.Encoded(value)).bytes else value
  }

  /** A value comes back exactly when it is printed as it is, or is short and has no 0xFF. */
  lemma RecoveredExactly(value: seq<Byte>)
    ensures Recovered(value) == value
      <==> !NeedsEncoding(value) || (|value| <= 72 && 0xFF !in value)
  {
    hide NeedsEncoding, Base64.Decoded, Base64.Encoded;
    Base64.Base64RoundTrip(value);
  }

  lemma {:induction false} NextLineOf(line: seq<Byte>, rest: seq<Byte>)
    requires NEWLINE !in line
    ensures NextLine(line + [NEWLINE] + rest) == Some(Lines(line, rest))
    decreases |line|
  {
    var s := line + [NEWLINE] + rest;
    if line == [] {
      assert s[1..] == rest;
    } else {
      assert s[1..] == line[1..] + [NEWLINE] + rest && s[0] == line[0] && line[0] in line;
      NextLineOf(line[1..], rest);
      assert [line[0]] + line[1..] == line;
    }
  }

  /** Reading one line that is not empty. */
  lemma ReadOne(m: seq<Attribute>, st: State, line: seq<Byte>, rest: seq<Byte>)
    requires line != [] && NEWLINE !in line && !LineStep(m, st, line).thrown
    ensures ReadFields(m, st, line + [NEWLINE] + rest) == ReadFields(m, LineStep(m, st, line), rest)
  {
    hide LineStep, NextLine, Settle;
    NextLineOf(line, rest);
  }

  /** Names that can stand in front of a colon at the start of a line. */
  predicate NameOk(name: seq<Byte>)
  {
    name != [] && COLON !in name && NEWLINE !in name && name[0] != SPACE
  }

  lemma {:induction false} ColonAfter(name: seq<Byte>, after: seq<Byte>)
    requires COLON !in name
    ensures FindColon(name + [COLON] + after) == Some(|name|)
    decreases |name|
  {
    var s := name + [COLON] + after;
    if name != [] {
      assert s[0] == name[0] && s[1..] == name[1..] + [COLON] + after;
      ColonAfter(name[1..], after);
    }
  }

  /** A line with a value that needs no encoding. */
  lemma ProcessPlain(m: seq<Attribute>, st: State, name: seq<Byte>, value: seq<Byte>)
    requires NameOk(name) && !NeedsEncoding(value)
    ensures Process(m, st, name + ([COLON] + [SPACE] + value)) == DoWrite(m, st, name, value)
  {
    hide DoWrite, NeedsEncoding, FindColon;
    var line := name + ([COLON] + [SPACE] + value);
    ColonAfter(name, [SPACE] + value);
    assert line == name + [COLON] + ([SPACE] + value);
    assert line[..|name|] == name && line[|name| + 1..] == [SPACE] + value;
    SkipBeforePlain(value);
  }

  lemma SkipBeforePlain(value: seq<Byte>)
    requires !NeedsEncoding(value)
    ensures SkipSeparators([SPACE] + value) == value
  {
    assert ([SPACE] + value)[1..] == value;
  }

  /** The first line of an encoded value. */
  lemma ProcessEncoded(m: seq<Attribute>, st: State, name: seq<Byte>, symbols: seq<Byte>)
    requires NameOk(name) && (symbols != [] ==> symbols[0] != SPACE && symbols[0] != COLON)
    ensures Process(m, st, name + ([COLON] + [COLON, SPACE] + symbols))
         == st.(pending := Some(Pending(name, symbols)))
  {
    hide DoWrite, FindColon;
    var line := name + ([COLON] + [COLON, SPACE] + symbols);
    ColonAfter(name, [COLON, SPACE] + symbols);
    assert line == name + [COLON] + ([COLON, SPACE] + symbols);
    var after := [COLON, SPACE] + symbols;
    assert line[..|name|] == name && line[|name| + 1..] == after;
    assert after[1..] == [SPACE] + symbols && ([SPACE] + symbols)[1..] == symbols;
    assert SkipSeparators(after) == SkipSeparators([SPACE] + symbols) == SkipSeparators(symbols);
  }

  predicate NoBreaks(s: seq<Byte>)
  {
    NEWLINE !in s
  }

  /** Folding cuts symbols into lines of 72. */
  lemma {:induction false} FoldIsLines(s: seq<Byte>, linelength: nat)
    requires linelength <= Base64.LINELEN
    ensures
      var n := Base64.LINELEN - linelength;
      Base64.Fold(s, linelength)
        == if |s| <= n then s else s[..n] + ([NEWLINE, SPACE] + Base64.Fold(s[n..], 0))
    decreases |s|
  {
    var n := Base64.LINELEN - linelength;
    if s != [] {
      if n == 0 {
        assert s[..0] == [] && s[0..] == s;
        assert [NEWLINE, SPACE, s[0]] + Base64.Fold(s[1..], 1) == [NEWLINE, SPACE] + Base64.Fold(s, 0);
      } else {
        var tail := s[1..];
        FoldIsLines(tail, linelength + 1);
        if |s| > n {
          var later := [NEWLINE, SPACE] + Base64.Fold(s[n..], 0);
          assert tail[n - 1..] == s[n..] && [s[0]] + tail[..n - 1] == s[..n];
          assert [s[0]] + (tail[..n - 1] + later) == s[..n] + later;
        }
      }
    }
  }

  /** Continuation lines of an encoded value. */
  lemma {:induction false} ReadContinuation(m: seq<Attribute>, st: State, attr: seq<Byte>, coded: seq<Byte>,
                                            symbols: seq<Byte>, rest: seq<Byte>)
    requires st.pending == Some(Pending(attr, coded)) && !st.thrown && NoBreaks(symbols)
    ensures ReadFields(m, st, [SPACE] + Base64.Fold(symbols, 0) + [NEWLINE] + rest)
         == ReadFields(m, st.(pending := Some(Pending(attr, coded + [NEWLINE, SPACE] + Base64.Fold(symbols, 0)))), rest)
    decreases |symbols|
  {
    hide Base64.Fold, ReadFields, DoWrite;
    FoldIsLines(symbols, 0);
    var n := Base64.LINELEN;
    var head := if |symbols| <= n then symbols else symbols[..n];
    var line := [SPACE] + head;
    var next := st.(pending := Some(Pending(attr, coded + [NEWLINE] + line)));
    assert LineStep(m, st, line) == next;
    if |symbols| <= n {
      ReadOne(m, st, line, rest);
      assert coded + [NEWLINE] + line == coded + [NEWLINE, SPACE] + symbols;
    } else {
      var tail := Base64.Fold(symbols[n..], 0);
      ReadOne(m, st, line, [SPACE] + tail + [NEWLINE] + rest);
      ReadContinuation(m, next, attr, coded + [NEWLINE] + line, symbols[n..], rest);
      assert [SPACE] + (head + ([NEWLINE, SPACE] + tail)) + [NEWLINE] + rest
          == line + [NEWLINE] + ([SPACE] + tail + [NEWLINE] + rest);
      assert coded + [NEWLINE] + line + [NEWLINE, SPACE] + tail
          == coded + [NEWLINE, SPACE] + (head + ([NEWLINE, SPACE] + tail));
    }
  }

  /** Every line that does not continue an earlier one settles that one first. */
  lemma LineStepSettles(m: seq<Attribute>, st: State, line: seq<Byte>)
    requires line != [] && line[0] != SPACE && !Settle(m, st).thrown
    ensures LineStep(m, st, line) == Process(m, Settle(m, st), line)
  {
  }

  lemma SettleNothing(m: seq<Attribute>, st: State)
    requires st.pending == None
    ensures Settle(m, st) == st
  {
  }

  /** A printed value, read in any state, leaves a state that settles as if the value had been written. */
  lemma ReadPlainEntry(m: seq<Attribute>, st: State, e: Entry, rest: seq<Byte>)
    requires NameOk(e.name) && !NeedsEncoding(e.value) && !Settle(m, st).thrown
    requires !DoWrite(m, Settle(m, st), e.name, e.value).thrown
    ensures ReadFields(m, st, EntryBytes(e) + rest)
         == ReadFields(m, DoWrite(m, Settle(m, st), e.name, e.value), rest)
  {
    hide ReadFields, DoWrite, Settle, Process;
    var line := e.name + ([COLON] + [SPACE] + e.value);
    LineStepSettles(m, st, line);
    ProcessPlain(m, Settle(m, st), e.name, e.value);
    PlainHasNoBreaks(e.value);
    ReadOne(m, st, line, rest);
  }

  lemma PlainHasNoBreaks(value: seq<Byte>)
    requires !NeedsEncoding(value)
    ensures NEWLINE !in value
  {
    assert forall i :: 0 <= i < |value| ==> !Unsafe(value[i]);
  }

  lemma SymbolsAreSafe(value: seq<Byte>)
    ensures
      var g := Base64.Groups(Base64.BeforeFF(value));
      NoBreaks(g) && (g != [] ==> g[0] != SPACE && g[0] != COLON)
  {
    hide Base64.Groups, Base64.BeforeFF;
    var s := Base64.BeforeFF(value);
    Base64.GroupsUndone(s);
    Base64.FirstIsSymbol(s);
  }

  /** The lines an encoded entry is printed as: one, or a first line and its continuations. */
  lemma EncodedEntryLines(e: Entry, rest: seq<Byte>)
    requires NeedsEncoding(e.value)
    ensures
      var g, n := Base64.Groups(Base64.BeforeFF(e.value)), Base64.LINELEN;
      var start := e.name + ([COLON] + [COLON, SPACE] + if |g| <= n then g else g[..n]);
      if |g| <= n then Base64.Encoded(e.value) == g && EntryBytes(e) + rest == start + [NEWLINE] + rest
      else
        var tail := Base64.Fold(g[n..], 0);
        && Base64.Encoded(e.value) == g[..n] + [NEWLINE, SPACE] + tail
        && EntryBytes(e) + rest == start + [NEWLINE] + ([SPACE] + tail + [NEWLINE] + rest)
  {
    hide Base64.Groups, Base64.BeforeFF, Base64.Fold, NeedsEncoding;
    var g, n := Base64.Groups(Base64.BeforeFF(e.value)), Base64.LINELEN;
    FoldIsLines(g, 0);
    if |g| <= n {
      assert EntryBytes(e) + rest == e.name + ([COLON] + [COLON, SPACE] + g) + [NEWLINE] + rest;
    } else {
      var head, tail := g[..n], Base64.Fold(g[n..], 0);
      assert head + ([NEWLINE, SPACE] + tail) == head + [NEWLINE, SPACE] + tail;
      assert EntryBytes(e) + rest
          == e.name + ([COLON] + [COLON, SPACE] + head) + [NEWLINE] + ([SPACE] + tail + [NEWLINE] + rest);
    }
  }

  lemma ReadEncodedEntry(m: seq<Attribute>, st: State, e: Entry, rest: seq<Byte>)
    requires NameOk(e.name) && NeedsEncoding(e.value) && !Settle(m, st).thrown && !st.thrown
    ensures ReadFields(m, st, EntryBytes(e) + rest)
         == ReadFields(m, Settle(m, st).(pending := Some(Pending(e.name, Base64.Encoded(e.value)))), rest)
  {
    hide ReadFields, DoWrite, Settle, Process, LineStep, EntryBytes, NeedsEncoding;
    hide Base64.Groups, Base64.BeforeFF, Base64.Fold, Base64.Encoded;
    var g, n := Base64.Groups(Base64.BeforeFF(e.value)), Base64.LINELEN;
    SymbolsAreSafe(e.value);
    EncodedEntryLines(e, rest);
    var head := if |g| <= n then g else g[..n];
    var line := e.name + ([COLON] + [COLON, SPACE] + head);
    var next := Settle(m, st).(pending := Some(Pending(e.name, head)));
    LineStepSettles(m, st, line);
    ProcessEncoded(m, Settle(m, st), e.name, head);
    if |g| <= n {
      ReadOne(m, st, line, rest);
    } else {
      ReadOne(m, st, line, [SPACE] + Base64.Fold(g[n..], 0) + [NEWLINE] + rest);
      ReadContinuation(m, next, e.name, head, g[n..], rest);
    }
  }

  // ---- Running over a list of entries ----

  function Written(m: seq<Attribute>, st: State, e: Entry): State
  {
    DoWrite(m, st, e.name, Recovered(e.value))
  }

  function RunEntries(m: seq<Attribute>, st: State, es: seq<Entry>): State
    decreases |es|
  {
    if es == [] then st else RunEntries(m, Written(m, st, es[0]), es[1..])
  }

  /** No entry goes to the setter that throws. */
  predicate Harmless(m: seq<Attribute>, es: seq<Entry>)
  {
    forall e :: e in es ==> NameOk(e.name) && (Lookup(m, e.name).Some? ==> Lookup(m, e.name).value.access != Fqdn)
  }

  lemma WriteIsHarmless(m: seq<Attribute>, st: State, e: Entry, data: seq<Byte>)
    requires Harmless(m, [e]) && !st.thrown && st.pending == None
    ensures !DoWrite(m, st, e.name, data).thrown && DoWrite(m, st, e.name, data).pending == None
  {
    hide Lookup, NameOk, SetHook;
    assert e in [e];
  }

  /** A printed list of fields, read in any state, has the effect of writing each recovered value in turn. */
  lemma {:induction false} ReadEntries(m: seq<Attribute>, st: State, es: seq<Entry>, more: seq<Byte>)
    requires Harmless(m, es) && !st.thrown && !Settle(m, st).thrown && Settle(m, st).pending == None
    ensures ReadFields(m, st, EntriesBytes(es) + [NEWLINE] + more)
         == Position(RunEntries(m, Settle(m, st), es), more)
    ensures !RunEntries(m, Settle(m, st), es).thrown
    decreases |es|
  {
    hide ReadFields, DoWrite, Settle, NameOk, Lookup, NeedsEncoding, EntryBytes, Base64.Encoded, Base64.Decoded;
    if es == [] {
      ReadEnd(m, st, more);
      assert EntriesBytes(es) + [NEWLINE] + more == [NEWLINE] + more;
    } else {
      var e, tail := es[0], EntriesBytes(es[1..]) + [NEWLINE] + more;
      assert es[0] in es;
      assert EntriesBytes(es) + [NEWLINE] + more == EntryBytes(e) + tail;
      var settled := Settle(m, st);
      WriteIsHarmless(m, settled, e, Recovered(e.value));
      var next: State;
      if NeedsEncoding(e.value) {
        ReadEncodedEntry(m, st, e, tail);
        next := settled.(pending := Some(Pending(e.name, Base64.Encoded(e.value))));
        SettlePending(m, next);
        assert next.(pending := None) == settled;
      } else {
        ReadPlainEntry(m, st, e, tail);
        next := DoWrite(m, settled, e.name, e.value);
        SettleNothing(m, next);
      }
      assert Settle(m, next) == Written(m, settled, e);
      ReadEntries(m, next, es[1..], more);
    }
  }

  lemma SettlePending(m: seq<Attribute>, st: State)
    requires st.pending.Some?
    ensures Settle(m, st)
         == DoWrite(m, st.(pending := None), st.pending.value.attr, Base64.Decoded(st.pending.value.coded).bytes)
  {
  }

  lemma ReadEnd(m: seq<Attribute>, st: State, more: seq<Byte>)
    ensures ReadFields(m, st, [NEWLINE] + more) == Position(Settle(m, st), more)
  {
    hide Settle;
    assert ([NEWLINE] + more)[1..] == more;
  }

  lemma {:induction false} BytesOfConcat(a: seq<Entry>, b: seq<Entry>)
    ensures EntriesBytes(a + b) == EntriesBytes(a) + EntriesBytes(b)
    decreases |a|
  {
    hide EntryBytes;
    if a == [] {
      assert a + b == b;
    } else {
      assert (a + b)[1..] == a[1..] + b;
      BytesOfConcat(a[1..], b);
    }
  }

  lemma BytesOfOne(e: Entry)
    ensures EntriesBytes([e]) == EntryBytes(e)
  {
    hide EntryBytes;
    assert [e][1..] == [];
  }

  // ---- Running over a whole map ----

  /** What the proofs below need of an attribute map. */
  ghost predicate MapOk(m: seq<Attribute>)
  {
    && (forall a :: a in m ==> NameOk(a.name) && Lookup(m, a.name) == Some(a))
    && Lookup(m, ObjectClass()) == None
    && (forall a :: a in m && IsHook(a.name) ==> a.access != Email)
  }

  function AttributeEntries(a: Attribute, con: Card, baseDN: seq<Byte>, index: nat): seq<Entry>
  {
    if a.access == Email then EmailEntries(a, con, index)
    else if Read(con, a.access, baseDN) == [] then []
    else FieldEntries(a, Read(con, a.access, baseDN))
  }

  function IndexAfter(a: Attribute, con: Card, index: nat): nat
  {
    if a.access == Email then EmailEnd(con, index) else index
  }

  lemma {:induction false} RunConcat(m: seq<Attribute>, st: State, a: seq<Entry>, b: seq<Entry>)
    ensures RunEntries(m, st, a + b) == RunEntries(m, RunEntries(m, st, a), b)
    decreases |a|
  {
    hide Written;
    if a == [] {
      assert a + b == b;
    } else {
      assert (a + b)[1..] == a[1..] + b;
      RunConcat(m, Written(m, st, a[0]), a[1..], b);
    }
  }

  /** Object class lines are read and dropped. */
  lemma ObjectClassIsDropped(m: seq<Attribute>, st: State, data: seq<Byte>)
    requires Lookup(m, ObjectClass()) == None
    ensures DoWrite(m, st, ObjectClass(), data) == st
  {
    hide Lookup;
    assert ObjectClass()[0] == 'o' as int;
    assert Ascii("cn")[0] == 'c' as int && Ascii("displayName")[0] == 'd' as int;
    assert Ascii("sn")[0] == 's' as int && Ascii("givenName")[0] == 'g' as int;
  }

  lemma RunField(m: seq<Attribute>, st: State, a: Attribute, value: seq<Byte>)
    requires Lookup(m, ObjectClass()) == None
    ensures RunEntries(m, st, FieldEntries(a, value)) == DoWrite(m, st, a.name, Recovered(value))
  {
    hide DoWrite, Recovered, Lookup, ObjectClass;
    var first := Entry(a.name, value);
    if a.objectClass == [] {
      assert FieldEntries(a, value) == [first];
      RunOne(m, st, first);
    } else {
      var second := Entry(ObjectClass(), a.objectClass);
      RunOne(m, st, first);
      RunConcat(m, st, [first], [second]);
      RunOne(m, Written(m, st, first), second);
      ObjectClassIsDropped(m, Written(m, st, first), Recovered(a.objectClass));
    }
  }

  lemma RunOne(m: seq<Attribute>, st: State, e: Entry)
    ensures RunEntries(m, st, [e]) == Written(m, st, e)
  {
    hide Written;
    assert [e][1..] == [];
  }

  /** The addresses that come back, up to the first one that was empty. */
  function RecoveredEmails(con: Card, index: nat): seq<seq<Byte>>
    decreases |con.emails| - index
  {
    if Email0(con, index) == [] then []
    else
      var r := Recovered(Email0(con, index));
      (if r == [] then [] else [r]) + RecoveredEmails(con, index + 1)
  }

  /** The contact read so far, after one more attribute. */
  function CardAfter(d: Card, con: Card, a: Attribute, baseDN: seq<Byte>, index: nat): Card
  {
    if a.access == Email then d.(emails := d.emails + RecoveredEmails(con, index))
    else
      var r := Recovered(Read(con, a.access, baseDN));
      if r == [] then d else Write(d, a.access, r)
  }

  /** The hook of this name, after one more attribute. */
  function HookAfter(before: seq<Byte>, name: seq<Byte>, con: Card, a: Attribute, baseDN: seq<Byte>): seq<Byte>
  {
    if a.name == name then Or(Recovered(Read(con, a.access, baseDN)), before) else before
  }

  lemma RecoveredNothing()
    ensures Recovered([]) == []
  {
  }

  /** Writing a hook changes that one only; other names have none. */
  lemma HooksOfSet(h: Hooks, attr: seq<Byte>, data: seq<Byte>)
    ensures forall n :: IsHook(n) ==> HookOf(SetHook(h, attr, data), n) == if attr == n then data else HookOf(h, n)
    ensures !IsHook(attr) ==> SetHook(h, attr, data) == h
  {
    var cn, displayName, sn, givenName := Ascii("cn"), Ascii("displayName"), Ascii("sn"), Ascii("givenName");
    assert cn[0] == 'c' as int && displayName[0] == 'd' as int && sn[0] == 's' as int && givenName[0] == 'g' as int;
    hide Ascii;
  }

  lemma WriteEmail(m: seq<Attribute>, st: State, a: Attribute, r: seq<Byte>)
    requires MapOk(m) && a in m && a.access == Email && !st.thrown
    ensures DoWrite(m, st, a.name, r) == st.(con := st.con.(emails := st.con.emails + if r == [] then [] else [r]))
  {
    hide Lookup, SetHook, IsHook;
    HooksOfSet(st.hooks, a.name, r);
    assert NameOk(a.name) && st.con.emails + [] == st.con.emails;
  }

  /** The addresses so far, the next one if it is not empty, and the later ones. */
  lemma JoinEmails(emails: seq<seq<Byte>>, r: seq<Byte>, later: seq<seq<Byte>>)
    ensures emails + (if r == [] then [] else [r]) + later == emails + ((if r == [] then [] else [r]) + later)
  {
  }

  lemma {:induction false} RunEmails(m: seq<Attribute>, st: State, a: Attribute, con: Card, index: nat)
    requires MapOk(m) && a in m && a.access == Email && !st.thrown
    ensures RunEntries(m, st, EmailEntries(a, con, index))
         == st.(con := st.con.(emails := st.con.emails + RecoveredEmails(con, index)))
    decreases |con.emails| - index
  {
    hide FieldEntries, Recovered, Lookup, DoWrite, RunEntries, MapOk;
    var value := Email0(con, index);
    if value == [] {
      assert st.con.emails + RecoveredEmails(con, index) == st.con.emails;
      RunNothing(m, st);
    } else {
      var r, later := Recovered(value), RecoveredEmails(con, index + 1);
      NoObjectClass(m);
      RunField(m, st, a, value);
      WriteEmail(m, st, a, r);
      RunConcat(m, st, FieldEntries(a, value), EmailEntries(a, con, index + 1));
      RunEmails(m, DoWrite(m, st, a.name, r), a, con, index + 1);
      JoinEmails(st.con.emails, r, later);
    }
  }

  lemma NoObjectClass(m: seq<Attribute>)
    requires MapOk(m)
    ensures Lookup(m, ObjectClass()) == None
  {
  }

  lemma RunNothing(m: seq<Attribute>, st: State)
    ensures RunEntries(m, st, []) == st
  {
  }

  /** st' is st after everything printed for one attribute was read. */
  ghost predicate AttributeRead(st: State, st': State, a: Attribute, con: Card, baseDN: seq<Byte>, index: nat)
  {
    && st'.con == CardAfter(st.con, con, a, baseDN, index) && st'.pending == st.pending && !st'.thrown
    && (forall n :: IsHook(n) ==> HookOf(st'.hooks, n) == HookAfter(HookOf(st.hooks, n), n, con, a, baseDN))
  }

  lemma RunAttribute(m: seq<Attribute>, st: State, a: Attribute, con: Card, baseDN: seq<Byte>, index: nat)
    requires MapOk(m) && a in m && a.access != Fqdn && !st.thrown
    ensures AttributeRead(st, RunEntries(m, st, AttributeEntries(a, con, baseDN, index)), a, con, baseDN, index)
  {
    hide FieldEntries, Recovered, SetHook, Lookup, EmailEntries, IsHook, HookOf;
    RecoveredNothing();
    if a.access == Email {
      RunEmails(m, st, a, con, index);
    } else {
      var value := Read(con, a.access, baseDN);
      if value != [] {
        RunField(m, st, a, value);
        HooksOfSet(st.hooks, a.name, Recovered(value));
        assert NameOk(a.name);
      }
    }
  }

  lemma DumpStep(m: seq<Attribute>, con: Card, baseDN: seq<Byte>, index: nat)
    requires m != []
    ensures DumpEntries(m, con, baseDN, index)
         == AttributeEntries(m[0], con, baseDN, index)
            + DumpEntries(m[1..], con, baseDN, IndexAfter(m[0], con, index))
  {
  }

  ghost predicate Has(m: seq<Attribute>, access: Access)
  {
    exists a :: a in m && a.access == access
  }

  ghost predicate Named(m: seq<Attribute>, name: seq<Byte>)
  {
    exists a :: a in m && a.name == name
  }

  /** At most one attribute steps through the addresses. */
  predicate OneEmail(m: seq<Attribute>)
  {
    forall i, j :: 0 <= i < j < |m| ==> m[i].access != Email || m[j].access != Email
  }

  /** A member for each attribute that stands for it. */
  ghost predicate MembersGathered(c: Card, c': Card, part: seq<Attribute>, con: Card)
  {
    && (forall code :: Text(c', code)
          == if Has(part, Member(code)) then Or(Recovered(Text(con, code)), Text(c, code)) else Text(c, code))
    && (forall code :: code in c.members ==> code in c'.members)
    && (forall code :: code in c'.members ==> code in c.members || Has(part, Member(code)))
  }

  /** want is what each hook is to hold when its attribute has a value. */
  ghost predicate HooksGathered(h: Hooks, h': Hooks, part: seq<Attribute>, want: Hooks)
  {
    forall n :: IsHook(n) ==>
      HookOf(h', n) == if Named(part, n) then Or(HookOf(want, n), HookOf(h, n)) else HookOf(h, n)
  }

  /** Everything that reading the printed part of a map leaves behind: members, all addresses, and the
      hooks. */
  ghost predicate Gathered(st: State, st': State, part: seq<Attribute>, con: Card, want: Hooks)
  {
    && !st'.thrown && st'.pending == st.pending
    && st'.con == st.con.(members := st'.con.members, emails := st'.con.emails,
                          firstName := st'.con.firstName, lastName := st'.con.lastName)
    && st'.con.emails == st.con.emails + (if Has(part, Email) then RecoveredEmails(con, 0) else [])
    && MembersGathered(st.con, st'.con, part, con)
    && HooksGathered(st.hooks, st'.hooks, part, want)
  }

  /** The part of a map that is still to be printed, and what its name attributes hold. */
  ghost predicate PartOk(m: seq<Attribute>, part: seq<Attribute>, con: Card, baseDN: seq<Byte>, index: nat,
                         want: Hooks)
  {
    && MapOk(m) && OneEmail(part) && (Has(part, Email) ==> index == 0)
    && (forall a :: a in part ==> a in m && a.access != Fqdn)
    && (forall a :: a in part && IsHook(a.name) ==> Recovered(Read(con, a.access, baseDN)) == HookOf(want, a.name))
  }

  lemma HasParts(part: seq<Attribute>, access: Access, name: seq<Byte>)
    requires part != []
    ensures Has(part, access) <==> part[0].access == access || Has(part[1..], access)
    ensures Named(part, name) <==> part[0].name == name || Named(part[1..], name)
  {
    assert part == [part[0]] + part[1..];
    assert forall a :: a in part <==> a == part[0] || a in part[1..];
  }

  lemma OneEmailLeft(part: seq<Attribute>)
    requires part != [] && OneEmail(part)
    ensures OneEmail(part[1..]) && (part[0].access == Email ==> !Has(part[1..], Email))
  {
    var rest := part[1..];
    assert forall j :: 0 <= j < |rest| ==> rest[j] == part[j + 1];
  }

  lemma PartStep(m: seq<Attribute>, part: seq<Attribute>, con: Card, baseDN: seq<Byte>, index: nat,
                 want: Hooks)
    requires part != [] && PartOk(m, part, con, baseDN, index, want)
    ensures PartOk(m, part[1..], con, baseDN, IndexAfter(part[0], con, index), want)
    ensures part[0] in m && part[0].access != Fqdn && (part[0].access == Email ==> index == 0)
  {
    hide MapOk, OneEmail, Read, Recovered, IsHook, HookOf;
    HasParts(part, Email, []);
    OneEmailLeft(part);
    assert part[0] in part && forall a :: a in part[1..] ==> a in part;
    assert part[0].access == Email ==> Has(part, Email);
  }

  lemma {:induction false} RunDump(m: seq<Attribute>, part: seq<Attribute>, st: State, con: Card, baseDN: seq<Byte>,
                                   index: nat, want: Hooks)
    requires PartOk(m, part, con, baseDN, index, want) && !st.thrown
    ensures Gathered(st, RunEntries(m, st, DumpEntries(part, con, baseDN, index)), part, con, want)
    decreases |part|
  {
    hide PartOk, Gathered, DumpEntries, AttributeEntries, RunEntries;
    if part == [] {
      NothingGathered(st, con, want);
      RunNothing(m, st);
      DumpNothing(con, baseDN, index);
    } else {
      var a, tail, index' := part[0], part[1..], IndexAfter(part[0], con, index);
      PartStep(m, part, con, baseDN, index, want);
      MapOfPart(m, part, con, baseDN, index, want);
      var next := RunEntries(m, st, AttributeEntries(a, con, baseDN, index));
      RunAttribute(m, st, a, con, baseDN, index);
      DumpStep(part, con, baseDN, index);
      RunConcat(m, st, AttributeEntries(a, con, baseDN, index), DumpEntries(tail, con, baseDN, index'));
      RunDump(m, tail, next, con, baseDN, index', want);
      GatherStep(m, part, st, next, RunEntries(m, next, DumpEntries(tail, con, baseDN, index')),
                 con, baseDN, index, want);
    }
  }

  lemma DumpNothing(con: Card, baseDN: seq<Byte>, index: nat)
    ensures DumpEntries([], con, baseDN, index) == []
  {
  }

  lemma MapOfPart(m: seq<Attribute>, part: seq<Attribute>, con: Card, baseDN: seq<Byte>, index: nat,
                  want: Hooks)
    requires PartOk(m, part, con, baseDN, index, want)
    ensures MapOk(m)
  {
  }

  lemma NothingGathered(st: State, con: Card, want: Hooks)
    requires !st.thrown
    ensures Gathered(st, st, [], con, want)
  {
    assert st.con.emails + [] == st.con.emails;
  }

  lemma GatherStep(m: seq<Attribute>, part: seq<Attribute>, st: State, next: State, st': State, con: Card,
                   baseDN: seq<Byte>, index: nat, want: Hooks)
    requires part != [] && PartOk(m, part, con, baseDN, index, want)
    requires AttributeRead(st, next, part[0], con, baseDN, index)
    requires Gathered(next, st', part[1..], con, want)
    ensures Gathered(st, st', part, con, want)
  {
    hide MapOk, OneEmail, Recovered, RecoveredEmails, MembersGathered, HooksGathered, HookAfter, Has, Read, IsHook;
    PartStep(m, part, con, baseDN, index, want);
    HasParts(part, Email, []);
    OneEmailLeft(part);
    GatherMembers(st.con, next.con, st'.con, part, con, baseDN, index);
    GatherHooks(m, part, st, next, st', con, baseDN, index, want);
    assert st.con.emails + [] == st.con.emails && next.con.emails + [] == next.con.emails;
  }

  /** What one attribute does to one member. */
  lemma TextAfter(c: Card, con: Card, a: Attribute, baseDN: seq<Byte>, index: nat, code: Byte)
    ensures
      var next := CardAfter(c, con, a, baseDN, index);
      && Text(next, code)
         == (if a.access == Member(code) then Or(Recovered(Text(con, code)), Text(c, code)) else Text(c, code))
      && (code in c.members ==> code in next.members)
      && (code in next.members ==> code in c.members || a.access == Member(code))
  {
    hide Recovered, RecoveredEmails;
  }

  lemma GatherMembers(c: Card, next: Card, c': Card, part: seq<Attribute>, con: Card, baseDN: seq<Byte>, index: nat)
    requires part != [] && next == CardAfter(c, con, part[0], baseDN, index)
    requires MembersGathered(next, c', part[1..], con)
    ensures MembersGathered(c, c', part, con)
  {
    hide Recovered, CardAfter, Has, Text;
    forall code: Byte
      ensures Text(c', code)
        == if Has(part, Member(code)) then Or(Recovered(Text(con, code)), Text(c, code)) else Text(c, code)
      ensures code in c.members ==> code in c'.members
      ensures code in c'.members ==> code in c.members || Has(part, Member(code))
    {
      HasParts(part, Member(code), []);
      TextAfter(c, con, part[0], baseDN, index, code);
    }
  }

  lemma GatherHooks(m: seq<Attribute>, part: seq<Attribute>, st: State, next: State, st': State, con: Card,
                    baseDN: seq<Byte>, index: nat, want: Hooks)
    requires part != [] && PartOk(m, part, con, baseDN, index, want)
    requires AttributeRead(st, next, part[0], con, baseDN, index)
    requires HooksGathered(next.hooks, st'.hooks, part[1..], want)
    ensures HooksGathered(st.hooks, st'.hooks, part, want)
  {
    hide MapOk, OneEmail, Recovered, RecoveredEmails, Has, Named, Read, CardAfter, IsHook, HookOf;
    assert part[0] in part;
    forall n | IsHook(n)
      ensures Named(part, n) <==> part[0].name == n || Named(part[1..], n)
    {
      HasParts(part, Email, n);
    }
  }
}
