/** What printing a contact as LDIF and reading it back recovers, with the default map of ldif.cc. */
module LdifLaws {
  import opened Bytes
  import opened Wrappers
  import opened Contacts
  import opened Ldif
  import opened LdifDefault
  import Base64

  // ---- Printing and reading a contact ----

  lemma {:induction false} EmailsAreHarmless(m: seq<Attribute>, a: Attribute, con: Card, index: nat)
    requires MapOk(m) && NameOk(ObjectClass()) && a in m && a.access != Fqdn
    ensures Harmless(m, EmailEntries(a, con, index))
    decreases |con.emails| - index
  {
    hide Lookup, NameOk, ObjectClass;
    if Email0(con, index) != [] {
      EmailsAreHarmless(m, a, con, index + 1);
    }
  }

  /** No printed entry reaches the setter of dn. */
  lemma {:induction false} DumpIsHarmless(m: seq<Attribute>, part: seq<Attribute>, con: Card, baseDN: seq<Byte>,
                                          index: nat)
    requires MapOk(m) && NameOk(ObjectClass()) && forall a :: a in part ==> a in m && a.access != Fqdn
    ensures Harmless(m, DumpEntries(part, con, baseDN, index))
    decreases |part|
  {
    hide Lookup, NameOk, ObjectClass, Read, EmailEntries;
    if part != [] {
      assert part[0] in part;
      EmailsAreHarmless(m, part[0], con, index);
      DumpIsHarmless(m, part[1..], con, baseDN, IndexAfter(part[0], con, index));
    }
  }

  /** The full name is printed inside the dn line, so a plain dn says much about both names. */
  lemma NamesInDn(con: Card, baseDN: seq<Byte>)
    requires !NeedsEncoding(Dn(con, baseDN))
    ensures NEWLINE !in GetFullName(con) && 0 !in GetFullName(con) && 0xFF !in GetFullName(con)
    ensures 0xFF !in con.firstName && 0xFF !in con.lastName
  {
    var dn, full := Dn(con, baseDN), GetFullName(con);
    assert forall i :: 0 <= i < |dn| ==> !Unsafe(dn[i]);
    assert forall i :: 0 <= i < |full| ==> full[i] == dn[3 + i];
    assert forall i :: 0 <= i < |con.firstName| ==> con.firstName[i] == full[i];
    var gap := |full| - |con.lastName|;
    assert forall i :: 0 <= i < |con.lastName| ==> con.lastName[i] == full[gap + i];
  }

  /** A value without 0xFF is not lost, and gains no NUL. */
  lemma NameIsRecovered(name: seq<Byte>)
    requires name != [] && 0xFF !in name
    ensures Recovered(name) != [] && (0 !in name ==> 0 !in Recovered(name))
  {
    hide Base64.Fold, NeedsEncoding, Base64.Decoded, Base64.Encoded;
    Base64.DecodeOfEncode(name);
    Base64.FoldGrows(name, 0);
    if 0 !in name {
      Base64.FoldAddsNo(0, name, 0);
    }
  }

  /** The comment line is skipped and the dn line is found. */
  lemma DnIsFound(con: Card, baseDN: seq<Byte>, body: seq<Byte>)
    requires !NeedsEncoding(Dn(con, baseDN))
    ensures FindDn(Comment(con) + [NEWLINE] + (EntryBytes(Entry(Ascii("dn"), Dn(con, baseDN))) + body)) == Some(body)
  {
    var dn := Dn(con, baseDN);
    var line := Ascii("dn") + ([COLON] + [SPACE] + dn);
    NamesInDn(con, baseDN);
    PlainHasNoBreaks(dn);
    hide Dn, NeedsEncoding;
    LineOfDn(dn);
    NextLineOf(line, body);
    CommentIsOneLine(con);
    NextLineOf(Comment(con), line + [NEWLINE] + body);
    assert EntryBytes(Entry(Ascii("dn"), dn)) + body == line + [NEWLINE] + body;
  }

  lemma LineOfDn(dn: seq<Byte>)
    requires NEWLINE !in dn
    ensures
      var line := Ascii("dn") + ([COLON] + [SPACE] + dn);
      StartsWithDn(line) && NEWLINE !in line
  {
    assert Ascii("dn") + ([COLON] + [SPACE] + dn) == Ascii("dn: ") + dn;
  }

  lemma CommentIsOneLine(con: Card)
    requires NEWLINE !in GetFullName(con)
    ensures NEWLINE !in Comment(con) && !StartsWithDn(Comment(con))
  {
    hide GetFullName, Hex;
    assert Comment(con)[0] == Ascii("# Contact 0x")[0] == '#' as int;
    assert Ascii("dn: ")[0] == 'd' as int;
    assert NEWLINE !in Ascii("# Contact 0x") && NEWLINE !in Ascii(", ");
  }

  /** Everything but the dn line, as the reader gets it. */
  function Body(con: Card, baseDN: seq<Byte>): seq<Entry>
  {
    DumpEntries(MAP[1..], con, baseDN, 0) + [LastEntry()]
  }

  lemma DumpedShape(con: Card, baseDN: seq<Byte>, more: seq<Byte>)
    requires con.firstName != [] || con.lastName != []
    ensures Dumped(MAP, con, baseDN) + more
         == Comment(con) + [NEWLINE]
            + (EntryBytes(Entry(Ascii("dn"), Dn(con, baseDN))) + (EntriesBytes(Body(con, baseDN)) + [NEWLINE] + more))
  {
    hide MAP, DumpEntries, EntryBytes, Comment, LastEntry, AttributeAt;
    MapAt();
    var first, es := Entry(Ascii("dn"), Dn(con, baseDN)), DumpEntries(MAP[1..], con, baseDN, 0);
    DumpStep(MAP, con, baseDN, 0);
    DnEntries(con, baseDN);
    BytesOfConcat([first], es);
    BytesOfOne(first);
    BytesOfConcat(es, [LastEntry()]);
    BytesOfOne(LastEntry());
  }

  lemma DnEntries(con: Card, baseDN: seq<Byte>)
    ensures AttributeAt(0).access == Fqdn
    ensures AttributeEntries(AttributeAt(0), con, baseDN, 0) == [Entry(Ascii("dn"), Dn(con, baseDN))]
  {
    assert Dn(con, baseDN) != [];
  }

  /** The members as they come back: those without an attribute are lost. */
  function RestoredMembers(con: Card): map<Byte, seq<Byte>>
  {
    map code | code in TABLE :: if Mapped(code) then Recovered(Text(con, code)) else []
  }

  /** The contact as it comes back into an object that had the given record id. A name that is missing is
      made up from the full name. */
  function Restored(con: Card, recordId: Word32): Card
  {
    var full := Recovered(GetFullName(con));
    Blank(0, recordId).(emails := RecoveredEmails(con, 0),
                        firstName := Or(Recovered(con.firstName), SplitFirst(full)),
                        lastName := Or(Recovered(con.lastName), SplitLast(full)),
                        members := RestoredMembers(con))
  }

  /** What ReadLdif reports about the names it has found. */
  function StatusOf(con: Card): Status
  {
    if con.lastName != [] && con.firstName != [] then Complete else Incomplete
  }

  lemma MembersRestored(c: Card, con: Card, part: seq<Attribute>)
    requires MembersGathered(Blank(0, 0), c, part, con)
    requires forall code: Byte :: Has(part, Member(code)) <==> Mapped(code)
    ensures c.members == RestoredMembers(con)
  {
    hide Has, Recovered, InTable;
    InTableMeans();
    hide TABLE;
    forall code: Byte
      ensures code in c.members <==> InTable(code)
      ensures InTable(code) ==> c.members[code] == RestoredMembers(con)[code]
    {
      assert Text(Blank(0, 0), code) == [];
      MappedIsInTable(code);
    }
  }

  lemma MappedIsInTable(code: Byte)
    ensures Mapped(code) ==> InTable(code)
  {
  }

  lemma SameMembers(c: Card, recordId: Word32, part: seq<Attribute>, con: Card, d: Card)
    requires MembersGathered(c, d, part, con) && c == Blank(0, recordId)
    ensures MembersGathered(Blank(0, 0), d, part, con)
  {
    hide Has, Recovered;
    assert c.members == Blank(0, 0).members;
    assert forall code :: Text(c, code) == Text(Blank(0, 0), code);
  }

  /** Running the printed fields of a contact over a cleared one. */
  lemma BodyRestores(con: Card, baseDN: seq<Byte>, recordId: Word32)
    ensures
      var st := RunEntries(MAP, State(Blank(0, recordId), NO_HOOKS, None, false), Body(con, baseDN));
      RunHeuristics(st.con, st.hooks) == Restored(con, recordId) && !st.thrown
  {
    hide MAP, MapOk, DumpEntries, RunEntries, Has, Named, OneEmail, Read, Recovered, RestoredMembers, MembersGathered,
      NoMembers, RecoveredEmails, Ascii, AttributeAt, Mapped, HooksGathered, HookAccess, IsHook, HookOf, SplitFirst,
      SplitLast, GetFullName;
    DefaultMapOk();
    var st0 := State(Blank(0, recordId), NO_HOOKS, None, false);
    MapAt();
    var part, es := MAP[1..], DumpEntries(MAP[1..], con, baseDN, 0);
    PartHas();
    PartNames();
    forall code: Byte
      ensures Has(part, Member(code)) <==> Mapped(code)
    {
      PartHasMembers(code);
    }
    forall n | IsHook(n)
      ensures Recovered(Read(con, HookAccess(n), baseDN)) == HookOf(Wanted(con), n)
    {
      ReadHook(con, baseDN, n);
    }
    RunDump(MAP, part, st0, con, baseDN, 0, Wanted(con));
    var st := RunEntries(MAP, st0, es);
    HooksAreWanted(con, part, st.hooks);
    RunConcat(MAP, st0, es, [LastEntry()]);
    LastIsDropped(st);
    SameMembers(st0.con, recordId, part, con, st.con);
    MembersRestored(st.con, con, part);
    assert [] + RecoveredEmails(con, 0) == RecoveredEmails(con, 0);
  }

  /** What the hooks hold at the end. */
  function Wanted(con: Card): Hooks
  {
    var full := Recovered(GetFullName(con));
    Hooks(full, full, Recovered(con.lastName), Recovered(con.firstName))
  }

  lemma ReadHook(con: Card, baseDN: seq<Byte>, n: seq<Byte>)
    requires IsHook(n)
    ensures Recovered(Read(con, HookAccess(n), baseDN)) == HookOf(Wanted(con), n)
  {
    hide Recovered, GetFullName;
  }

  lemma HookNamesDiffer()
    ensures Ascii("cn") != Ascii("sn") && Ascii("displayName") != Ascii("sn") && Ascii("givenName") != Ascii("sn")
    ensures Ascii("cn") != Ascii("givenName") && Ascii("displayName") != Ascii("givenName")
    ensures Ascii("sn") != [] && Ascii("givenName") != []
  {
    assert Ascii("cn")[0] == 'c' as int && Ascii("displayName")[0] == 'd' as int;
    assert Ascii("sn")[0] == 's' as int && Ascii("givenName")[0] == 'g' as int;
  }

  /** Hooks are their four values. */
  lemma HooksByName(h: Hooks)
    ensures IsHook(Ascii("cn")) && HookOf(h, Ascii("cn")) == h.cn
    ensures IsHook(Ascii("displayName")) && HookOf(h, Ascii("displayName")) == h.displayName
    ensures IsHook(Ascii("sn")) && HookOf(h, Ascii("sn")) == h.sn
    ensures IsHook(Ascii("givenName")) && HookOf(h, Ascii("givenName")) == h.givenName
  {
    assert Ascii("cn")[0] == 'c' as int && Ascii("displayName")[0] == 'd' as int;
    HookNamesDiffer();
    hide Ascii;
  }

  lemma HooksAreWanted(con: Card, part: seq<Attribute>, h: Hooks)
    requires HooksGathered(NO_HOOKS, h, part, Wanted(con)) && forall n :: IsHook(n) ==> Named(part, n)
    ensures h == Wanted(con)
  {
    hide Ascii, Wanted, Named, IsHook, HookOf;
    HooksByName(NO_HOOKS);
    HooksByName(h);
    HooksByName(Wanted(con));
  }

  lemma LastIsDropped(st: State)
    ensures RunEntries(MAP, st, [LastEntry()]) == st
  {
    hide MAP, DoWrite, Recovered, Ascii, ObjectClass, Lookup, NameOk;
    DefaultMapOk();
    RunOne(MAP, st, LastEntry());
    ObjectClassIsDropped(MAP, st, Recovered(LastEntry().value));
  }

  /** Printing a contact with a plain dn and reading it back gives the names, the addresses in order and
      every field with a working setter, and leaves the stream where the printed record ends. */
  lemma LdifRoundTrip(con: Card, baseDN: seq<Byte>, into: Card, more: seq<Byte>)
    requires con.firstName != [] || con.lastName != []
    requires !NeedsEncoding(Dn(con, baseDN))
    ensures
      var back := Restored(con, into.recordId);
      ReadLdif(MAP, into, Dumped(MAP, con, baseDN) + more) == Outcome(back, StatusOf(back), more)
  {
    hide MAP, MapOk, FindDn, ReadFields, RunEntries, Body, Dumped, Restored, RunHeuristics, Comment, EntryBytes,
      EntriesBytes, Recovered, Dn, NeedsEncoding, Harmless, Blank;
    var body := EntriesBytes(Body(con, baseDN)) + [NEWLINE] + more;
    DumpedShape(con, baseDN, more);
    DnIsFound(con, baseDN, body);
    DefaultMapOk();
    BodyIsHarmless(con, baseDN);
    var st0 := State(Cleared(into), NO_HOOKS, None, false);
    SettleNothing(MAP, st0);
    ReadEntries(MAP, st0, Body(con, baseDN), more);
    BodyRestores(con, baseDN, into.recordId);
  }

  lemma BodyIsHarmless(con: Card, baseDN: seq<Byte>)
    ensures Harmless(MAP, Body(con, baseDN))
  {
    hide MAP, NameOk, Lookup, ObjectClass, DumpEntries, OneEmail, Has, AttributeAt;
    MapAt();
    PartHas();
    DefaultMapOk();
    DumpIsHarmless(MAP, MAP[1..], con, baseDN, 0);
  }

  // ---- Without a plain dn nothing is found ----

  lemma FindPast(line: seq<Byte>, rest: seq<Byte>)
    requires NEWLINE !in line && !StartsWithDn(line)
    ensures FindDn(line + [NEWLINE] + rest) == FindDn(rest)
  {
    hide NextLine, StartsWithDn;
    NextLineOf(line, rest);
  }

  /** A line is taken for a dn line only if its attribute is dn and its value is printed as it is. */
  lemma DnLineHasPlainValue(name: seq<Byte>, after: seq<Byte>)
    requires NameOk(name) && StartsWithDn(name + [COLON] + after)
    ensures name == Ascii("dn") && after != [] && after[0] == SPACE
  {
    var line, dn := name + [COLON] + after, Ascii("dn: ");
    assert dn == Ascii("dn") + [COLON] + [SPACE];
    assert line[0] == dn[0] && line[1] == dn[1] && line[2] == dn[2] && line[3] == dn[3];
    assert forall i :: 0 <= i < |name| ==> line[i] == name[i] && name[i] in name;
    assert line[|name|] == COLON;
  }

  lemma {:induction false} FindPastContinuation(symbols: seq<Byte>, rest: seq<Byte>)
    requires NoBreaks(symbols)
    ensures FindDn([SPACE] + Base64.Fold(symbols, 0) + [NEWLINE] + rest) == FindDn(rest)
    decreases |symbols|
  {
    hide Base64.Fold, FindDn;
    FoldIsLines(symbols, 0);
    var n := Base64.LINELEN;
    var head := if |symbols| <= n then symbols else symbols[..n];
    assert ([SPACE] + head)[0] == SPACE && Ascii("dn: ")[0] == 'd' as int;
    if |symbols| <= n {
      FindPast([SPACE] + head, rest);
    } else {
      var tail := Base64.Fold(symbols[n..], 0);
      FindPast([SPACE] + head, [SPACE] + tail + [NEWLINE] + rest);
      FindPastContinuation(symbols[n..], rest);
      assert [SPACE] + (head + ([NEWLINE, SPACE] + tail)) + [NEWLINE] + rest
          == [SPACE] + head + [NEWLINE] + ([SPACE] + tail + [NEWLINE] + rest);
    }
  }

  predicate NoDnLine(e: Entry)
  {
    NameOk(e.name) && (e.name == Ascii("dn") ==> NeedsEncoding(e.value))
  }

  lemma FindPastEntry(e: Entry, rest: seq<Byte>)
    requires NoDnLine(e)
    ensures FindDn(EntryBytes(e) + rest) == FindDn(rest)
  {
    hide FindDn, NeedsEncoding, Ascii, StartsWithDn, Base64.Groups, Base64.BeforeFF, Base64.Fold;
    if NeedsEncoding(e.value) {
      FindPastEncoded(e, rest);
    } else {
      var line := e.name + [COLON] + ([SPACE] + e.value);
      PlainHasNoBreaks(e.value);
      if StartsWithDn(line) {
        DnLineHasPlainValue(e.name, [SPACE] + e.value);
      }
      FindPast(line, rest);
      assert EntryBytes(e) + rest == line + [NEWLINE] + rest;
    }
  }

  lemma FindPastEncoded(e: Entry, rest: seq<Byte>)
    requires NameOk(e.name) && NeedsEncoding(e.value)
    ensures FindDn(EntryBytes(e) + rest) == FindDn(rest)
  {
    hide FindDn, NeedsEncoding, Ascii, StartsWithDn, Base64.Groups, Base64.BeforeFF, Base64.Fold;
    var g := Base64.Groups(Base64.BeforeFF(e.value));
    SymbolsAreSafe(e.value);
    FoldIsLines(g, 0);
    var n := Base64.LINELEN;
    var head := if |g| <= n then g else g[..n];
    var line := e.name + [COLON] + ([COLON, SPACE] + head);
    if StartsWithDn(line) {
      DnLineHasPlainValue(e.name, [COLON, SPACE] + head);
    }
    if |g| <= n {
      FindPast(line, rest);
      assert EntryBytes(e) + rest == line + [NEWLINE] + rest;
    } else {
      var tail := Base64.Fold(g[n..], 0);
      FindPast(line, [SPACE] + tail + [NEWLINE] + rest);
      FindPastContinuation(g[n..], rest);
      assert EntryBytes(e) + rest == line + [NEWLINE] + ([SPACE] + tail + [NEWLINE] + rest);
    }
  }

  lemma {:induction false} FindPastEntries(es: seq<Entry>, rest: seq<Byte>)
    requires forall e :: e in es ==> NoDnLine(e)
    ensures FindDn(EntriesBytes(es) + rest) == FindDn(rest)
    decreases |es|
  {
    hide FindDn, EntryBytes, NoDnLine;
    if es == [] {
      assert EntriesBytes(es) + rest == rest;
    } else {
      FindPastEntry(es[0], EntriesBytes(es[1..]) + rest);
      FindPastEntries(es[1..], rest);
      assert EntriesBytes(es) + rest == EntryBytes(es[0]) + (EntriesBytes(es[1..]) + rest);
    }
  }

  /** The attributes after dn print no dn line. */
  lemma {:induction false} DumpHasNoDn(part: seq<Attribute>, con: Card, baseDN: seq<Byte>, index: nat)
    requires NameOk(ObjectClass()) && ObjectClass() != Ascii("dn")
    requires forall a :: a in part ==> NameOk(a.name) && a.name != Ascii("dn")
    ensures forall e :: e in DumpEntries(part, con, baseDN, index) ==> NoDnLine(e)
    decreases |part|
  {
    hide NameOk, ObjectClass, Read, EmailEntries, Ascii, NeedsEncoding;
    if part != [] {
      assert part[0] in part;
      EmailsHaveNoDn(part[0], con, index);
      DumpHasNoDn(part[1..], con, baseDN, IndexAfter(part[0], con, index));
    }
  }

  lemma {:induction false} EmailsHaveNoDn(a: Attribute, con: Card, index: nat)
    requires NameOk(ObjectClass()) && ObjectClass() != Ascii("dn") && NameOk(a.name) && a.name != Ascii("dn")
    ensures forall e :: e in EmailEntries(a, con, index) ==> NoDnLine(e)
    decreases |con.emails| - index
  {
    hide NameOk, ObjectClass, Ascii, NeedsEncoding;
    if Email0(con, index) != [] {
      EmailsHaveNoDn(a, con, index + 1);
    }
  }

  lemma PartHasNoDn()
    ensures NameOk(ObjectClass()) && ObjectClass() != Ascii("dn")
    ensures NameOk(Ascii("dn"))
    ensures forall a :: a in MAP[1..] ==> NameOk(a.name) && a.name != Ascii("dn")
  {
    hide MAP, AttributeAt, Ascii, PositionOf, NameOk, ObjectClass;
    MapAt();
    ObjectClassFits();
    LettersOfDn();
    var part := MAP[1..];
    forall k | 0 <= k < |part|
      ensures NameOk(part[k].name) && part[k].name != Ascii("dn")
    {
      NamesFit(k + 1);
    }
  }

  lemma LettersOfDn()
    ensures NameOk(Ascii("dn")) && Ascii("dn") != [] && PositionOf(Ascii("dn")) == 0
  {
    LettersAreOk("dn");
  }

  lemma EmptyLineIsNotDn()
    ensures !StartsWithDn([])
  {
  }

  /** Any text in front of which nothing is found, up to the end of a line. */
  predicate WholeLines(s: seq<Byte>)
  {
    s == [] || s[|s| - 1] == NEWLINE
  }

  lemma {:induction false} LineParts(s: seq<Byte>)
    requires s != []
    ensures
      var l := NextLine(s).value;
      s == l.line + [NEWLINE] + l.rest || (s == l.line && l.rest == [] && NEWLINE !in s)
    decreases |s|
  {
    if s[0] == NEWLINE {
      assert s == [] + [NEWLINE] + s[1..];
    } else if s[1..] != [] {
      LineParts(s[1..]);
      var l := NextLine(s[1..]).value;
      assert s == [s[0]] + s[1..];
    }
  }

  lemma WholeLineParts(c: seq<Byte>)
    requires c != [] && WholeLines(c)
    ensures c == NextLine(c).value.line + [NEWLINE] + NextLine(c).value.rest && WholeLines(NextLine(c).value.rest)
  {
    LineParts(c);
    var front, rest := NextLine(c).value.line + [NEWLINE], NextLine(c).value.rest;
    hide NextLine;
    assert c[|c| - 1] in c;
    assert rest != [] ==> (front + rest)[|front| + |rest| - 1] == rest[|rest| - 1];
  }

  /** The first of some whole lines, in front of anything. */
  lemma FirstLine(c: seq<Byte>, rest: seq<Byte>)
    requires c != [] && WholeLines(c)
    ensures
      var l := NextLine(c).value;
      && WholeLines(l.rest) && |l.rest| < |c| && NextLine(c + rest) == Some(Lines(l.line, l.rest + rest))
  {
    WholeLineParts(c);
    hide NextLine, WholeLines;
    FirstLineOf(NextLine(c).value.line, NextLine(c).value.rest, rest);
  }

  lemma FirstLineOf(line: seq<Byte>, later: seq<Byte>, rest: seq<Byte>)
    requires NEWLINE !in line
    ensures NextLine(line + [NEWLINE] + later + rest) == Some(Lines(line, later + rest))
  {
    hide NextLine;
    NextLineOf(line, later + rest);
    assert line + [NEWLINE] + later + rest == line + [NEWLINE] + (later + rest);
  }

  /** The search for a dn line passes whole lines, or stops among them. */
  lemma {:induction false} FindDnThrough(c: seq<Byte>, rest: seq<Byte>)
    requires WholeLines(c)
    ensures FindDn(c).None? ==> FindDn(c + rest) == FindDn(rest)
    ensures FindDn(c).Some? ==> WholeLines(FindDn(c).value) && FindDn(c + rest) == Some(FindDn(c).value + rest)
    decreases |c|
  {
    hide NextLine, StartsWithDn;
    if c == [] {
      assert c + rest == rest;
      assert NextLine(c).None?;
    } else {
      FirstLine(c, rest);
      FindDnThrough(NextLine(c).value.rest, rest);
    }
  }

  /** Reading goes through whole lines into what follows them, or ends among them. */
  lemma {:induction false} ReadThrough(m: seq<Attribute>, st: State, c: seq<Byte>, rest: seq<Byte>)
    returns (st': Option<State>)
    requires WholeLines(c) && !st.thrown
    ensures st'.None? ==> |ReadFields(m, st, c + rest).rest| >= |rest|
    ensures st'.Some? ==> !st'.value.thrown && ReadFields(m, st, c + rest) == ReadFields(m, st'.value, rest)
    decreases |c|
  {
    hide NextLine, LineStep, Settle;
    if c == [] {
      assert c + rest == rest;
      st' := Some(st);
    } else {
      FirstLine(c, rest);
      var l := NextLine(c).value;
      if l.line == [] || LineStep(m, st, l.line).thrown {
        st' := None;
      } else {
        st' := ReadThrough(m, LineStep(m, st, l.line), l.rest, rest);
      }
    }
  }

  lemma {:induction false} FindDnShortens(s: seq<Byte>)
    ensures FindDn(s).Some? ==> |FindDn(s).value| < |s|
    decreases |s|
  {
    hide NextLine, StartsWithDn;
    if s != [] {
      FindDnShortens(NextLine(s).value.rest);
    }
  }

  lemma {:induction false} ReadFieldsShortens(m: seq<Attribute>, st: State, s: seq<Byte>)
    ensures |ReadFields(m, st, s).rest| <= |s|
    decreases |s|
  {
    hide NextLine, LineStep, Settle;
    if NextLine(s).Some? {
      var l := NextLine(s).value;
      if l.line != [] {
        ReadFieldsShortens(m, LineStep(m, st, l.line), l.rest);
      }
    }
  }

  /** A record that is found takes at least its dn line from the stream. */
  lemma ReadingShortens(m: seq<Attribute>, into: Card, s: seq<Byte>)
    ensures ReadLdif(m, into, s).status == NoRecord || |ReadLdif(m, into, s).rest| < |s|
  {
    hide FindDn, ReadFields, RunHeuristics;
    FindDnShortens(s);
    if FindDn(s).Some? {
      ReadFieldsShortens(m, State(Cleared(into), NO_HOOKS, None, false), FindDn(s).value);
    }
  }

  /** A state that throws when its pending field ends throws at the next line of its own. */
  lemma ThrowsAtNextLine(m: seq<Attribute>, st: State, s: seq<Byte>)
    requires Settle(m, st).thrown && s != [] && s[0] != NEWLINE && s[0] != SPACE
    ensures ReadFields(m, st, s).st.thrown
  {
    hide Settle;
  }

  lemma LookupDn()
    ensures Lookup(MAP, Ascii("dn")).Some? && Lookup(MAP, Ascii("dn")).value.access == Fqdn
  {
    hide MAP, Lookup, NameOk, Ascii;
    MapAt();
    DefaultMapOk();
    assert MAP[0] in MAP && MAP[0] == AttributeAt(0);
  }

  /** A dn in base64, read as a field of a record, ends in the exception of its setter. */
  lemma DnFieldThrows(con: Card, baseDN: seq<Byte>, st: State, more: seq<Byte>)
    requires NeedsEncoding(Dn(con, baseDN)) && !st.thrown
    ensures
      var dn := Entry(Ascii("dn"), Dn(con, baseDN));
      ReadFields(MAP, st, EntryBytes(dn) + (EntriesBytes(Body(con, baseDN)) + [NEWLINE] + more)).st.thrown
  {
    hide MAP, ReadFields, Settle, EntryBytes, EntriesBytes, NeedsEncoding, NameOk, Ascii, Body, Dn, Base64.Encoded;
    var dn, body := Entry(Ascii("dn"), Dn(con, baseDN)), EntriesBytes(Body(con, baseDN)) + [NEWLINE] + more;
    LettersOfDn();
    BodyStarts(con, baseDN);
    if Settle(MAP, st).thrown {
      EntryStarts(dn);
      ThrowsAtNextLine(MAP, st, EntryBytes(dn) + body);
    } else {
      ReadEncodedEntry(MAP, st, dn, body);
      var next := Settle(MAP, st).(pending := Some(Pending(dn.name, Base64.Encoded(dn.value))));
      DnThrows(con, baseDN, next);
      ThrowsAtNextLine(MAP, next, body);
    }
  }

  lemma EntryStarts(e: Entry)
    requires NameOk(e.name)
    ensures EntryBytes(e) != [] && EntryBytes(e)[0] != NEWLINE && EntryBytes(e)[0] != SPACE
  {
    assert EntryBytes(e)[0] == e.name[0] && e.name[0] in e.name;
  }

  lemma BodyStarts(con: Card, baseDN: seq<Byte>)
    ensures
      var s := EntriesBytes(Body(con, baseDN));
      s != [] && s[0] != NEWLINE && s[0] != SPACE
  {
    hide MAP, DumpEntries, NameOk, ObjectClass, Ascii, EntryBytes, NeedsEncoding;
    MapAt();
    PartHasNoDn();
    DumpHasNoDn(MAP[1..], con, baseDN, 0);
    var es := Body(con, baseDN);
    assert es[0] in DumpEntries(MAP[1..], con, baseDN, 0) || es[0] == LastEntry();
    EntryStarts(es[0]);
  }

  lemma DnThrows(con: Card, baseDN: seq<Byte>, st: State)
    requires st.pending == Some(Pending(Ascii("dn"), Base64.Encoded(Dn(con, baseDN))))
    ensures Settle(MAP, st).thrown
  {
    hide MAP, Lookup, Base64.Encoded, Base64.Decoded, Base64.Fold;
    LookupDn();
    var dn := Dn(con, baseDN);
    assert dn[0] == Ascii("cn=")[0] == 'c' as int;
    Base64.DecodeOfEncode(dn);
    Base64.FoldGrows(Base64.BeforeFF(dn), 0);
  }

  /** When the dn needs encoding, reading never ends where the printed record ends: it finds nothing, or
      starts inside the name and throws at the dn or ends before it, or starts in what follows. */
  lemma EncodedDnNeverReturns(con: Card, baseDN: seq<Byte>, into: Card, more: seq<Byte>)
    requires con.firstName != [] || con.lastName != []
    requires NeedsEncoding(Dn(con, baseDN))
    ensures
      var o := ReadLdif(MAP, into, Dumped(MAP, con, baseDN) + more);
      o.status == NoRecord || o.status == Thrown || |o.rest| != |more|
  {
    hide MAP, FindDn, ReadFields, EntryBytes, EntriesBytes, Comment, Dn, NeedsEncoding, Body, Ascii, RunHeuristics;
    var dn := Entry(Ascii("dn"), Dn(con, baseDN));
    var body := EntriesBytes(Body(con, baseDN)) + [NEWLINE] + more;
    var comment, rest := Comment(con) + [NEWLINE], EntryBytes(dn) + body;
    DumpedShape(con, baseDN, more);
    FindDnThrough(comment, rest);
    if FindDn(comment).None? {
      FindPastRecord(con, baseDN, more);
      ReadingShortens(MAP, into, more);
    } else {
      var st0 := State(Cleared(into), NO_HOOKS, None, false);
      var st := ReadThrough(MAP, st0, FindDn(comment).value, rest);
      if st.Some? {
        DnFieldThrows(con, baseDN, st.value, more);
      }
    }
  }

  /** No line of the printed fields is a plain dn line. */
  lemma FindPastRecord(con: Card, baseDN: seq<Byte>, more: seq<Byte>)
    requires NeedsEncoding(Dn(con, baseDN))
    ensures
      var dn := Entry(Ascii("dn"), Dn(con, baseDN));
      FindDn(EntryBytes(dn) + (EntriesBytes(Body(con, baseDN)) + [NEWLINE] + more)) == FindDn(more)
  {
    hide MAP, FindDn, EntryBytes, Dn, NeedsEncoding, DumpEntries, NameOk, Ascii, StartsWithDn, ObjectClass;
    var dn := Entry(Ascii("dn"), Dn(con, baseDN));
    PartHasNoDn();
    MapAt();
    DumpHasNoDn(MAP[1..], con, baseDN, 0);
    var body := EntriesBytes(Body(con, baseDN)) + [NEWLINE] + more;
    FindPastEntry(dn, body);
    FindPastEntries(Body(con, baseDN), [NEWLINE] + more);
    assert body == EntriesBytes(Body(con, baseDN)) + ([NEWLINE] + more);
    EmptyLineIsNotDn();
    FindPast([], more);
    assert [] + [NEWLINE] + more == [NEWLINE] + more;
  }

  /** The dn law, for every contact that is printed at all: reading returns the restored contact and stops
      where the record ends if and only if the dn needs no encoding. */
  lemma LdifNeedsPlainDn(con: Card, baseDN: seq<Byte>, into: Card, more: seq<Byte>)
    requires con.firstName != [] || con.lastName != []
    ensures
      var back := Restored(con, into.recordId);
      ReadLdif(MAP, into, Dumped(MAP, con, baseDN) + more) == Outcome(back, StatusOf(back), more)
      <==> !NeedsEncoding(Dn(con, baseDN))
  {
    hide MAP, Dumped, Dn, NeedsEncoding, ReadLdif, Restored;
    if NeedsEncoding(Dn(con, baseDN)) {
      EncodedDnNeverReturns(con, baseDN, into, more);
    } else {
      LdifRoundTrip(con, baseDN, into, more);
    }
  }

  /** A line break in the name, and a plain dn line right after it. */
  ghost predicate DnLineIn(full: seq<Byte>)
  {
    exists i: nat :: i < |full| && full[i] == NEWLINE && Ascii("dn: ") <= full[i + 1..]
  }

  ghost predicate DnLineAt(s: seq<Byte>, i: nat)
  {
    i <= |s| && (i > 0 ==> s[i - 1] == NEWLINE) && Ascii("dn: ") <= s[i..]
  }

  /** A dn line is found exactly when some line starts with it. */
  lemma {:induction false} FindDnIff(s: seq<Byte>)
    ensures FindDn(s).Some? <==> exists i: nat :: DnLineAt(s, i)
    decreases |s|
  {
    hide NextLine, StartsWithDn, DnLineAt;
    if s == [] {
      NoDnAtEnd(s);
    } else {
      var l := NextLine(s).value;
      FindDnIff(l.rest);
      LineParts(s);
      DnInFirstLine(s);
      if StartsWithDn(l.line) {
        assert DnLineAt(s, 0);
      } else {
        if FindDn(l.rest).Some? {
          var i: nat :| DnLineAt(l.rest, i);
          DnInLaterLine(s, i);
        }
        if exists i: nat :: DnLineAt(s, i) {
          var i: nat :| DnLineAt(s, i);
          DnInLaterLine(s, i);
        }
      }
    }
  }

  lemma NoDnAtEnd(s: seq<Byte>)
    requires s == []
    ensures forall i: nat :: !DnLineAt(s, i)
  {
  }

  lemma DnInFirstLine(s: seq<Byte>)
    requires s != []
    ensures StartsWithDn(NextLine(s).value.line) <==> DnLineAt(s, 0)
  {
    LineParts(s);
    DnIsNotEmpty();
    var l, dn := NextLine(s).value, Ascii("dn: ");
    hide NextLine, Ascii;
    assert s[0..] == s;
    assert forall i :: 0 <= i < |l.line| ==> s[i] == l.line[i];
    assert dn <= s ==> forall i :: 0 <= i < |dn| ==> s[i] == dn[i] && dn[i] in dn;
    assert s == l.line + [NEWLINE] + l.rest ==> s[|l.line|] == NEWLINE;
  }

  lemma DnInLaterLine(s: seq<Byte>, i: nat)
    requires s != [] && !StartsWithDn(NextLine(s).value.line)
    ensures
      var l := NextLine(s).value;
      && (DnLineAt(s, i) ==> i > |l.line| && DnLineAt(l.rest, i - |l.line| - 1))
      && (DnLineAt(l.rest, i) ==> DnLineAt(s, i + |l.line| + 1))
  {
    hide NextLine, StartsWithDn, Ascii, DnLineAt;
    LineParts(s);
    DnInFirstLine(s);
    var l := NextLine(s).value;
    if s == l.line + [NEWLINE] + l.rest {
      DnBehindLine(s, l.line, l.rest, i);
    } else {
      NoDnInside(s, s, i);
      NoDnAtEnd(l.rest);
      NoDnBehind(s, i);
    }
  }

  lemma DnBehindLine(s: seq<Byte>, line: seq<Byte>, rest: seq<Byte>, i: nat)
    requires s == line + [NEWLINE] + rest && NEWLINE !in line && !DnLineAt(s, 0)
    ensures DnLineAt(s, i) ==> i > |line| && DnLineAt(rest, i - |line| - 1)
    ensures DnLineAt(rest, i) ==> DnLineAt(s, i + |line| + 1)
  {
    hide Ascii, DnLineAt;
    assert s == line + ([NEWLINE] + rest);
    NoDnInside(s, line, i);
    DnShifts(line + [NEWLINE], rest, i);
    if i > |line| {
      DnShifts(line + [NEWLINE], rest, i - |line| - 1);
    }
  }

  lemma NoDnBehind(s: seq<Byte>, i: nat)
    ensures i > |s| ==> !DnLineAt(s, i)
  {
  }

  /** No line starts inside another one. */
  lemma NoDnInside(s: seq<Byte>, line: seq<Byte>, i: nat)
    requires line <= s && NEWLINE !in line && !DnLineAt(s, 0)
    ensures i <= |line| ==> !DnLineAt(s, i)
  {
    hide Ascii;
    assert forall k :: 0 <= k < |line| ==> s[k] == line[k] && line[k] in line;
  }

  lemma DnShifts(front: seq<Byte>, rest: seq<Byte>, i: nat)
    requires front != [] && front[|front| - 1] == NEWLINE
    ensures DnLineAt(front + rest, |front| + i) <==> DnLineAt(rest, i)
  {
    hide Ascii;
    var s := front + rest;
    if i <= |rest| {
      assert s[|front| + i..] == rest[i..] && s[|front| + i - 1] == if i > 0 then rest[i - 1] else NEWLINE;
    }
  }

  lemma DnIsNotEmpty()
    ensures Ascii("dn: ") != [] && NEWLINE !in Ascii("dn: ") && Ascii("dn: ")[0] == 'd' as int
  {
  }

  /** The comment line holds a dn line exactly when the full name does. */
  lemma DnInComment(con: Card)
    ensures FindDn(Comment(con) + [NEWLINE]).Some? <==> DnLineIn(GetFullName(con))
  {
    var full, s := GetFullName(con), Comment(con) + [NEWLINE];
    var front := Ascii("# Contact 0x") + Hex(con.recordId) + Ascii(", ");
    FindDnIff(s);
    FrontIsOneLine(con.recordId);
    DnIsNotEmpty();
    hide FindDn, Ascii, Hex, GetFullName;
    assert s == front + full + [NEWLINE] && s[0..] == s;
    assert forall k :: 0 <= k < |front| ==> s[k] == front[k] && front[k] in front;
    DnFirst(s);
    forall i: nat
      ensures DnLineAt(s, i) ==> i > |front| && full[i - |front| - 1] == NEWLINE && Ascii("dn: ") <= full[i - |front|..]
    {
      if DnLineAt(s, i) {
        PrefixBeforeBreak(s, front, full, i);
      }
    }
    forall i: nat | i < |full| && full[i] == NEWLINE && Ascii("dn: ") <= full[i + 1..]
      ensures DnLineAt(s, |front| + i + 1)
    {
      assert s[|front| + i + 1..] == full[i + 1..] + [NEWLINE];
    }
    if DnLineIn(full) {
      var i: nat :| i < |full| && full[i] == NEWLINE && Ascii("dn: ") <= full[i + 1..];
      assert DnLineAt(s, |front| + i + 1);
    }
  }

  lemma DnFirst(s: seq<Byte>)
    requires s != [] && s[0] == '#' as int
    ensures !(Ascii("dn: ") <= s)
  {
    assert Ascii("dn: ")[0] == 'd' as int;
  }

  lemma FrontIsOneLine(recordId: Word32)
    ensures
      var front := Ascii("# Contact 0x") + Hex(recordId) + Ascii(", ");
      NEWLINE !in front && front[0] == '#' as int
  {
    hide Hex;
    assert NEWLINE !in Ascii("# Contact 0x") && NEWLINE !in Ascii(", ");
  }

  lemma PrefixBeforeBreak(s: seq<Byte>, front: seq<Byte>, full: seq<Byte>, i: nat)
    requires s == front + full + [NEWLINE] && |front| < i <= |s| && s[i - 1] == NEWLINE && Ascii("dn: ") <= s[i..]
    ensures i <= |front| + |full| && full[i - |front| - 1] == NEWLINE && Ascii("dn: ") <= full[i - |front|..]
  {
    DnIsNotEmpty();
    hide Ascii;
    var dn := Ascii("dn: ");
    var tail := s[i..];
    assert forall k :: 0 <= k < |dn| ==> tail[k] == dn[k] && dn[k] in dn;
    if i <= |front| + |full| {
      assert tail == full[i - |front|..] + [NEWLINE];
      assert tail[|tail| - 1] == NEWLINE;
    }
  }

  /** A printed record is skipped as a whole exactly when its dn needs encoding and its name holds no dn line
      of its own; then reading goes on behind it. */
  lemma EncodedDnIsNotFound(con: Card, baseDN: seq<Byte>, into: Card)
    requires con.firstName != [] || con.lastName != []
    ensures ReadLdif(MAP, into, Dumped(MAP, con, baseDN)).status == NoRecord
      <==> NeedsEncoding(Dn(con, baseDN)) && !DnLineIn(GetFullName(con))
    ensures NeedsEncoding(Dn(con, baseDN)) && !DnLineIn(GetFullName(con)) ==>
      forall more :: ReadLdif(MAP, into, Dumped(MAP, con, baseDN) + more) == ReadLdif(MAP, into, more)
  {
    hide MAP, FindDn, EntryBytes, EntriesBytes, Comment, Dn, NeedsEncoding, Body, Ascii, ReadFields, RunHeuristics,
      GetFullName, DnLineIn, Restored, Dumped;
    DnInComment(con);
    if !NeedsEncoding(Dn(con, baseDN)) {
      LdifRoundTrip(con, baseDN, into, []);
    } else {
      forall more: seq<Byte>
        ensures FindDn(Dumped(MAP, con, baseDN) + more).None? ==> DnLineIn(GetFullName(con)) || FindDn(more).None?
        ensures DnLineIn(GetFullName(con)) ==> FindDn(Dumped(MAP, con, baseDN) + more).Some?
        ensures !DnLineIn(GetFullName(con)) ==> FindDn(Dumped(MAP, con, baseDN) + more) == FindDn(more)
      {
        var dn := Entry(Ascii("dn"), Dn(con, baseDN));
        var rest := EntryBytes(dn) + (EntriesBytes(Body(con, baseDN)) + [NEWLINE] + more);
        DumpedShape(con, baseDN, more);
        FindDnThrough(Comment(con) + [NEWLINE], rest);
        FindPastRecord(con, baseDN, more);
      }
    }
    assert Dumped(MAP, con, baseDN) + [] == Dumped(MAP, con, baseDN);
    FindDnShortens([]);
  }

  // ---- Which values come back unchanged ----

  /** A value that is printed as it is, or is at most 72 bytes long and without 0xFF. */
  predicate Survives(value: seq<Byte>)
  {
    !NeedsEncoding(value) || (|value| <= 72 && 0xFF !in value)
  }

  lemma EmailsFrom(con: Card, index: nat)
    requires index < |con.emails|
    ensures
      var e, r := con.emails[index], Recovered(con.emails[index]);
      RecoveredEmails(con, index)
        == if e == [] then [] else (if r == [] then [] else [r]) + RecoveredEmails(con, index + 1)
  {
    hide Recovered;
  }

  lemma SameStart(a: seq<seq<Byte>>, b: seq<seq<Byte>>, x: seq<Byte>, y: seq<Byte>)
    ensures [x] + a == [y] + b <==> x == y && a == b
  {
    assert ([x] + a)[0] == x && ([y] + b)[0] == y && ([x] + a)[1..] == a && ([y] + b)[1..] == b;
  }

  lemma {:induction false} EmailsKept(con: Card, index: nat)
    requires index <= |con.emails|
    ensures |RecoveredEmails(con, index)| <= |con.emails| - index
    ensures RecoveredEmails(con, index) == con.emails[index..]
      <==> forall e :: e in con.emails[index..] ==> e != [] && Survives(e)
    decreases |con.emails| - index
  {
    hide Recovered, Survives;
    if index < |con.emails| {
      EmailsFrom(con, index);
      hide RecoveredEmails;
      var rest, e, tail := con.emails[index..], con.emails[index], con.emails[index + 1..];
      assert rest == [e] + tail;
      assert forall x :: x in rest <==> x == e || x in tail;
      EmailsKept(con, index + 1);
      ValueKept(e);
      SameStart(RecoveredEmails(con, index + 1), tail, Recovered(e), e);
    }
  }

  lemma ValueKept(value: seq<Byte>)
    ensures Recovered(value) == value <==> Survives(value)
  {
    hide Recovered, NeedsEncoding;
    RecoveredExactly(value);
  }

  lemma {:induction false} NothingBeforeNul(s: seq<Byte>)
    requires 0 !in s
    ensures BeforeNul(s) == s
    decreases |s|
  {
    if s != [] {
      NothingBeforeNul(s[1..]);
      assert s == [s[0]] + s[1..];
    }
  }

  /** When splitting a name leaves no last name... */
  lemma SplitLastFacts(s: seq<Byte>)
    requires s != [] && 0 !in s
    ensures SplitLast(s) == [] <==> SPACE !in s || s[|s| - 1] == SPACE
  {
    hide LastSpace, BeforeNul;
    var pos := LastSpace(s);
    if pos >= 0 {
      var tail := s[pos + 1..];
      assert 0 !in tail;
      NothingBeforeNul(tail);
      assert SplitLast(s) == tail && s[pos] in s;
    }
  }

  /** ... or no first name. */
  lemma SplitFirstFacts(s: seq<Byte>)
    requires s != []
    ensures SplitFirst(s) == [] <==> s[0] == SPACE && SPACE !in s[1..]
  {
    hide LastSpace;
    var pos, tail := LastSpace(s), s[1..];
    assert forall i :: 0 <= i < |tail| ==> tail[i] == s[i + 1];
    if pos > 0 {
      assert tail[pos - 1] == SPACE;
    }
  }

  /** The names that come back as they were: both of them, or the only one when splitting it gives nothing
      more. */
  predicate NamesReturn(con: Card)
  {
    if con.firstName != [] && con.lastName != [] then Survives(con.firstName) && Survives(con.lastName)
    else if con.firstName != [] then
      Survives(con.firstName) && (SPACE !in con.firstName || con.firstName[|con.firstName| - 1] == SPACE)
    else
      Survives(con.lastName) && con.lastName != [] && con.lastName[0] == SPACE && SPACE !in con.lastName[1..]
  }

  /** Success is reported for two names, and for one that splits into two. */
  predicate NamesComplete(con: Card)
  {
    if con.firstName != [] && con.lastName != [] then true
    else if con.firstName != [] then
      var r := Recovered(con.firstName);
      SPACE in r && r[|r| - 1] != SPACE
    else
      var r := Recovered(con.lastName);
      r != [] && !(r[0] == SPACE && SPACE !in r[1..])
  }

  lemma NamesAreExact(con: Card, baseDN: seq<Byte>, recordId: Word32)
    requires con.firstName != [] || con.lastName != []
    requires !NeedsEncoding(Dn(con, baseDN))
    ensures
      var back := Restored(con, recordId);
      && (back.firstName == con.firstName && back.lastName == con.lastName <==> NamesReturn(con))
      && (StatusOf(back) == Complete <==> NamesComplete(con))
  {
    hide Dn, NeedsEncoding, Recovered, Survives, SplitFirst, SplitLast;
    NamesInDn(con, baseDN);
    ValueKept(con.firstName);
    ValueKept(con.lastName);
    var full := GetFullName(con);
    if con.firstName == [] || con.lastName == [] {
      assert full == con.firstName + con.lastName;
      assert full == if con.lastName == [] then con.firstName else con.lastName;
      RecoveredNothing();
      NameIsRecovered(full);
      SplitLastFacts(Recovered(full));
      SplitFirstFacts(Recovered(full));
    } else {
      NameIsRecovered(con.firstName);
      NameIsRecovered(con.lastName);
    }
  }

  lemma RestoredEmails(con: Card, recordId: Word32)
    ensures Restored(con, recordId).emails == RecoveredEmails(con, 0)
  {
  }

  /** The data that LDIF carries is the same in both contacts. */
  predicate SameData(c: Card, d: Card)
  {
    && c.firstName == d.firstName && c.lastName == d.lastName && c.emails == d.emails
    && (forall code :: Mapped(code) ==> Text(c, code) == Text(d, code))
  }

  /** Everything but the names and the dn. */
  predicate FieldsSurvive(con: Card)
  {
    && (forall e :: e in con.emails ==> e != [] && Survives(e))
    && (forall code :: Mapped(code) ==> Survives(Text(con, code)))
  }

  /** What comes back of a contact that is read at all. */
  lemma DataIsExact(con: Card, baseDN: seq<Byte>, recordId: Word32)
    requires con.firstName != [] || con.lastName != []
    requires !NeedsEncoding(Dn(con, baseDN))
    ensures SameData(Restored(con, recordId), con) <==> NamesReturn(con) && FieldsSurvive(con)
  {
    hide Recovered, Survives, RecoveredEmails, Mapped, Dn, NeedsEncoding, NamesReturn, Restored, Text, StatusOf,
      NamesComplete;
    NamesAreExact(con, baseDN, recordId);
    EmailsKept(con, 0);
    RestoredEmails(con, recordId);
    assert con.emails[0..] == con.emails;
    forall code | Mapped(code)
      ensures Text(Restored(con, recordId), code) == Recovered(Text(con, code))
      ensures Recovered(Text(con, code)) == Text(con, code) <==> Survives(Text(con, code))
    {
      RestoredAt(con, recordId, code);
      ValueKept(Text(con, code));
    }
  }

  /** The exact LDIF law, for every contact and everything that follows it in the stream: reading reports
      success, stops where the record ends, and gives back both names, all addresses and all mapped members,
      if and only if there are two names, the dn needs no encoding, every value survives, and no address is
      empty. */
  lemma LdifIsExact(con: Card, baseDN: seq<Byte>, into: Card, more: seq<Byte>)
    ensures
      var o := ReadLdif(MAP, into, Dumped(MAP, con, baseDN) + more);
      o.status == Complete && o.rest == more && SameData(o.con, con)
      <==>
      && con.firstName != [] && con.lastName != [] && !NeedsEncoding(Dn(con, baseDN))
      && Survives(con.firstName) && Survives(con.lastName) && FieldsSurvive(con)
  {
    hide MAP, Dumped, Restored, Dn, NeedsEncoding, Survives, FieldsSurvive, FindDn, ReadFields, RunHeuristics, Mapped;
    CompleteHasNames(into, Dumped(MAP, con, baseDN) + more);
    if con.firstName != [] || con.lastName != [] {
      if NeedsEncoding(Dn(con, baseDN)) {
        EncodedDnNeverReturns(con, baseDN, into, more);
      } else {
        LdifRoundTrip(con, baseDN, into, more);
        DataIsExact(con, baseDN, into.recordId);
        NamesAreExact(con, baseDN, into.recordId);
      }
    }
  }

  lemma CompleteHasNames(into: Card, s: seq<Byte>)
    ensures
      var o := ReadLdif(MAP, into, s);
      o.status == Complete ==> o.con.firstName != [] && o.con.lastName != []
  {
    hide MAP, FindDn, ReadFields, RunHeuristics;
  }

  // ---- Contacts that do not come back ----

  /** A contact with a last name only comes back with that name twice, and success is reported. */
  lemma LastNameTwice(con: Card, baseDN: seq<Byte>, into: Card, more: seq<Byte>)
    requires con.firstName == [] && con.lastName != [] && SPACE !in con.lastName
    requires !NeedsEncoding(con.lastName) && !NeedsEncoding(Dn(con, baseDN))
    ensures
      var o := ReadLdif(MAP, into, Dumped(MAP, con, baseDN) + more);
      o.status == Complete && o.rest == more && o.con.firstName == o.con.lastName == con.lastName
  {
    hide MAP, Dumped, Dn, NeedsEncoding;
    LdifRoundTrip(con, baseDN, into, more);
    assert GetFullName(con) == con.lastName;
    RecoveredNothing();
  }

  lemma SplitAtLastSpace(full: seq<Byte>, word: seq<Byte>, last: seq<Byte>)
    requires full == word + [SPACE] + last && SPACE !in last && 0 !in full
    ensures SplitFirst(full) == word && SplitLast(full) == last
  {
    hide LastSpace, BeforeNul;
    assert full[|word|] == SPACE;
    assert forall i :: |word| < i < |full| ==> full[i] == last[i - |word| - 1] && last[i - |word| - 1] in last;
    assert LastSpace(full) == |word| && full[|word| + 1..] == last;
    assert forall b :: b in last ==> b in full;
    NothingBeforeNul(last);
  }

  /** A contact with a first name only loses nothing, but gains the last word of it as a last name. */
  lemma FirstNameSplits(con: Card, baseDN: seq<Byte>, into: Card, more: seq<Byte>, word: seq<Byte>, last: seq<Byte>)
    requires con.firstName == word + [SPACE] + last && con.lastName == [] && last != [] && SPACE !in last
    requires !NeedsEncoding(con.firstName) && !NeedsEncoding(Dn(con, baseDN))
    ensures
      var o := ReadLdif(MAP, into, Dumped(MAP, con, baseDN) + more);
      o.status == Complete && o.rest == more && o.con.firstName == con.firstName && o.con.lastName == last
  {
    hide MAP, ReadLdif, Dumped, Dn, NeedsEncoding, SplitFirst, SplitLast;
    LdifRoundTrip(con, baseDN, into, more);
    assert GetFullName(con) == con.firstName;
    NamesInDn(con, baseDN);
    SplitAtLastSpace(con.firstName, word, last);
    RecoveredNothing();
  }

  lemma PlainText(s: string)
    requires s != "" && 'A' <= s[0] <= 'z' && forall i :: 0 <= i < |s| ==> ' ' <= s[i] <= 'z'
    ensures !NeedsEncoding(Ascii(s))
  {
  }

  /** Smith comes back as Smith Smith. */
  lemma SmithTwice(into: Card, more: seq<Byte>)
    ensures
      var smith := Blank(0, 0).(lastName := Ascii("Smith"));
      var o := ReadLdif(MAP, into, Dumped(MAP, smith, []) + more);
      o.status == Complete && o.con.firstName == o.con.lastName == Ascii("Smith")
  {
    var smith := Blank(0, 0).(lastName := Ascii("Smith"));
    PlainText("Smith");
    PlainText("cn=Smith,");
    assert Dn(smith, []) == Ascii("cn=Smith,");
    assert SPACE !in smith.lastName;
    hide MAP, ReadLdif, Dumped, Ascii, NeedsEncoding, Dn;
    LastNameTwice(smith, [], into, more);
  }

  /** Mary Ann, without a last name, comes back as Mary Ann Ann. */
  lemma MaryAnnAnn(into: Card, more: seq<Byte>)
    ensures
      var mary := Blank(0, 0).(firstName := Ascii("Mary Ann"));
      var o := ReadLdif(MAP, into, Dumped(MAP, mary, []) + more);
      o.status == Complete && o.con.firstName == Ascii("Mary Ann") && o.con.lastName == Ascii("Ann")
  {
    var mary := Blank(0, 0).(firstName := Ascii("Mary Ann"));
    PlainText("Mary Ann");
    PlainText("cn=Mary Ann,");
    assert Dn(mary, []) == Ascii("cn=Mary Ann,");
    assert mary.firstName == Ascii("Mary") + [SPACE] + Ascii("Ann") && SPACE !in Ascii("Ann");
    hide MAP, ReadLdif, Dumped, Ascii, NeedsEncoding, Dn;
    FirstNameSplits(mary, [], into, more, Ascii("Mary"), Ascii("Ann"));
  }

  /** A first name whose second line is a plain dn line, with two fields and an empty line after it. */
  function NameWithRecord(before: seq<Byte>, sn: seq<Byte>, givenName: seq<Byte>, after: seq<Byte>): seq<Byte>
  {
    var es := [Entry(Ascii("sn"), sn), Entry(Ascii("givenName"), givenName)];
    before + [NEWLINE] + (Ascii("dn: x") + [NEWLINE] + (EntriesBytes(es) + [NEWLINE] + after))
  }

  /** The text printed for such a name starts with a comment line and a record. */
  lemma DumpedBreaks(con: Card, baseDN: seq<Byte>, more: seq<Byte>, before: seq<Byte>, sn: seq<Byte>,
                     givenName: seq<Byte>, after: seq<Byte>)
    returns (later: seq<Byte>)
    requires con.firstName == NameWithRecord(before, sn, givenName, after)
    ensures
      var es := [Entry(Ascii("sn"), sn), Entry(Ascii("givenName"), givenName)];
      var front := Ascii("# Contact 0x") + Hex(con.recordId) + Ascii(", ") + before;
      Dumped(MAP, con, baseDN) + more
        == front + [NEWLINE] + (Ascii("dn: x") + [NEWLINE] + (EntriesBytes(es) + [NEWLINE] + later))
  {
    hide MAP, Hex, DumpEntries, EntriesBytes, EntryBytes, Ascii;
    var record := EntriesBytes([Entry(Ascii("sn"), sn), Entry(Ascii("givenName"), givenName)]);
    var front := Ascii("# Contact 0x") + Hex(con.recordId) + Ascii(", ") + before;
    later := after + (if con.lastName != [] then [SPACE] else []) + con.lastName + [NEWLINE]
      + EntriesBytes(DumpEntries(MAP, con, baseDN, 0)) + EntryBytes(LastEntry()) + [NEWLINE] + more;
    assert Dumped(MAP, con, baseDN) + more
        == front + [NEWLINE] + (Ascii("dn: x") + [NEWLINE] + (record + [NEWLINE] + later));
  }

  /** Such a name makes the dn need encoding, yet a record is read with success: the one inside the name. */
  lemma LineBreakStartsRecord(con: Card, baseDN: seq<Byte>, into: Card, more: seq<Byte>,
                              before: seq<Byte>, sn: seq<Byte>, givenName: seq<Byte>, after: seq<Byte>)
    requires con.firstName == NameWithRecord(before, sn, givenName, after) && NEWLINE !in before
    requires sn != [] && givenName != [] && !NeedsEncoding(sn) && !NeedsEncoding(givenName)
    ensures NeedsEncoding(Dn(con, baseDN))
    ensures
      var o := ReadLdif(MAP, into, Dumped(MAP, con, baseDN) + more);
      o.status == Complete && o.con.lastName == sn && o.con.firstName == givenName
  {
    hide MAP, FindDn, ReadFields, NeedsEncoding, Hex, EntriesBytes, Ascii, Dumped, Dn;
    var es := [Entry(Ascii("sn"), sn), Entry(Ascii("givenName"), givenName)];
    var later := DumpedBreaks(con, baseDN, more, before, sn, givenName, after);
    BreakNeedsEncoding(con, baseDN, |before|);
    FindInside(con.recordId, before, EntriesBytes(es) + [NEWLINE] + later);
    ReadTwoNames(State(Cleared(into), NO_HOOKS, None, false), sn, givenName, later);
  }

  /** The record of C B is read out of the name of A ... D E. */
  lemma LineBreakExample(into: Card, more: seq<Byte>)
    ensures
      var con := Blank(0, 0).(firstName := NameWithRecord(Ascii("A"), Ascii("B"), Ascii("C"), Ascii("D")),
                              lastName := Ascii("E"));
      var o := ReadLdif(MAP, into, Dumped(MAP, con, []) + more);
      && NeedsEncoding(Dn(con, [])) && o.status == Complete
      && o.con.firstName == Ascii("C") && o.con.lastName == Ascii("B")
  {
    var con := Blank(0, 0).(firstName := NameWithRecord(Ascii("A"), Ascii("B"), Ascii("C"), Ascii("D")),
                            lastName := Ascii("E"));
    PlainText("B");
    PlainText("C");
    assert NEWLINE !in Ascii("A");
    hide MAP, ReadLdif, Dumped, Ascii, NeedsEncoding, Dn, NameWithRecord;
    LineBreakStartsRecord(con, [], into, more, Ascii("A"), Ascii("B"), Ascii("C"), Ascii("D"));
  }

  lemma BreakNeedsEncoding(con: Card, baseDN: seq<Byte>, i: nat)
    requires i < |con.firstName| && con.firstName[i] == NEWLINE
    ensures NeedsEncoding(Dn(con, baseDN))
  {
    assert Dn(con, baseDN)[3 + i] == NEWLINE;
  }

  lemma FindInside(recordId: Word32, before: seq<Byte>, rest: seq<Byte>)
    requires NEWLINE !in before
    ensures
      var front := Ascii("# Contact 0x") + Hex(recordId) + Ascii(", ") + before;
      FindDn(front + [NEWLINE] + (Ascii("dn: x") + [NEWLINE] + rest)) == Some(rest)
  {
    var front := Ascii("# Contact 0x") + Hex(recordId) + Ascii(", ") + before;
    FrontIsOneLine(recordId);
    DnIsNotEmpty();
    assert Ascii("dn: x") == Ascii("dn: ") + ['x' as int];
    assert NEWLINE !in Ascii("dn: x");
    hide Hex, Ascii;
    FindPast(front, Ascii("dn: x") + [NEWLINE] + rest);
    NextLineOf(Ascii("dn: x"), rest);
  }

  lemma ReadTwoNames(st: State, sn: seq<Byte>, givenName: seq<Byte>, later: seq<Byte>)
    requires st.hooks == NO_HOOKS && st.pending == None && !st.thrown
    requires sn != [] && givenName != [] && !NeedsEncoding(sn) && !NeedsEncoding(givenName)
    ensures
      var es := [Entry(Ascii("sn"), sn), Entry(Ascii("givenName"), givenName)];
      var p := ReadFields(MAP, st, EntriesBytes(es) + [NEWLINE] + later);
      !p.st.thrown && p.st.hooks == Hooks([], [], sn, givenName)
  {
    hide MAP, ReadFields, EntriesBytes, NeedsEncoding, Lookup, NameOk, Ascii, Settle;
    var first, second := Entry(Ascii("sn"), sn), Entry(Ascii("givenName"), givenName);
    NamesAreHarmless(sn, givenName);
    SettleNothing(MAP, st);
    ReadEntries(MAP, st, [first, second], later);
    assert [first, second] == [first] + [second];
    RunConcat(MAP, st, [first], [second]);
    RunOne(MAP, st, first);
    RunOne(MAP, Written(MAP, st, first), second);
    HookNamesDiffer();
  }

  lemma NamesAreHarmless(sn: seq<Byte>, givenName: seq<Byte>)
    ensures Harmless(MAP, [Entry(Ascii("sn"), sn), Entry(Ascii("givenName"), givenName)])
  {
    hide MAP, Lookup, NameOk, Ascii, AttributeAt, HookAccess, OneEmail, Has;
    MapAt();
    DefaultMapOk();
    PartHas();
    PartNames();
    assert IsHook(Ascii("sn")) && IsHook(Ascii("givenName"));
    hide IsHook;
  }

  lemma RestoredAt(con: Card, recordId: Word32, code: Byte)
    requires Mapped(code)
    ensures Text(Restored(con, recordId), code) == Recovered(Text(con, code))
  {
    hide Recovered;
    MappedIsInTable(code);
    InTableMeans();
    hide TABLE;
  }
}
