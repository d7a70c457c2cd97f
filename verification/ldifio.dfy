/** The ContactLdif class of ldif.cc, with its array index and its heuristics hooks. */
module LdifIo {
  import opened Bytes
  import opened Wrappers
  import opened Contacts
  import opened ContactIo
  import opened Ldif
  import opened LdifDefault
  import Base64

  class ContactLdif {
    var m_map: seq<Attribute>
    var m_baseDN: seq<Byte>
    var m_emailIndex: nat
    var m_cn: seq<Byte>
    var m_displayName: seq<Byte>
    var m_sn: seq<Byte>
    var m_givenName: seq<Byte>

    /** Object classes are printed as they are. */
    ghost predicate Valid()
      reads this
    {
      forall a :: a in m_map ==> !Ldif.NeedsEncoding(a.objectClass)
    }

    constructor (baseDN: seq<Byte>)
      ensures Valid() && m_map == MAP && m_baseDN == baseDN && HookValues() == NO_HOOKS
    {
      hide Ldif.NeedsEncoding, MAP;
      ClassesArePlain();
      m_map, m_baseDN, m_emailIndex := MAP, baseDN, 0;
      m_cn, m_displayName, m_sn, m_givenName := [], [], [], [];
    }

    function HookValues(): Hooks
      reads this
    {
      Hooks(m_cn, m_displayName, m_sn, m_givenName)
    }

    // ---- Printing ----

    static method NeedsEncoding(str: seq<Byte>) returns (r: bool)
      ensures r == Ldif.NeedsEncoding(str)
      ensures r <==>
        || (exists i :: 0 <= i < |str| && (str[i] == 0x00 || str[i] == 0x0A || str[i] == 0x0D || str[i] > 0x7F))
        || (str != [] && (str[0] == 0x20 || str[0] == 0x3A || str[0] == 0x3C))
    {
      for i := 0 to |str|
        invariant forall k :: 0 <= k < i ==> !Unsafe(str[k])
        invariant i > 0 ==> !UnsafeFirst(str[0])
      {
        var c := str[i];
        if c == 0x00 || c == 0x0A || c == 0x0D {
          return true;
        }
        if (c == 0x20 || c == 0x3A || c == 0x3C) && i == 0 {
          return true;
        }
        if c > 0x7F {
          return true;
        }
      }
      return false;
    }

    static method MakeLdifData(str: seq<Byte>) returns (data: seq<Byte>)
      ensures data == Ldif.MakeLdifData(str)
    {
      hide Ldif.NeedsEncoding, Base64.Encoded;
      data := [COLON];
      var needed := NeedsEncoding(str);
      if needed {
        var b64 := Base64.Encode(str);
        data := data + [COLON, SPACE] + b64;
      } else {
        data := data + [SPACE] + str;
      }
    }

    /** The getters; the one for addresses moves on to the next. */
    method Get(con: Contact, access: Access) returns (field: seq<Byte>)
      requires con.Valid()
      modifies this`m_emailIndex
      ensures access == Email ==> field == Email0(con.Value(), old(m_emailIndex))
      ensures access != Email ==> field == Read(con.Value(), access, m_baseDN)
      ensures m_emailIndex == old(m_emailIndex) + if access == Email then 1 else 0
    {
      if access == Email {
        field := if m_emailIndex < |con.EmailAddresses| then con.EmailAddresses[m_emailIndex] else [];
        m_emailIndex := m_emailIndex + 1;
      } else {
        field := Read(con.Value(), access, m_baseDN);
      }
    }

    /** The lines for one value: the field, and the object class it needs. */
    method DumpField(a: Attribute, field: seq<Byte>) returns (os: seq<Byte>)
      requires !Ldif.NeedsEncoding(a.objectClass)
      ensures os == EntriesBytes(FieldEntries(a, field))
    {
      hide Ldif.NeedsEncoding, Base64.Encoded;
      var data := MakeLdifData(field);
      os := a.name + data + [NEWLINE];
      BytesOfOne(Entry(a.name, field));
      if |a.objectClass| > 0 {
        os := os + Ascii("objectClass: ") + a.objectClass + [NEWLINE];
        ObjectClassLine(a);
        BytesOfConcat([Entry(a.name, field)], [Entry(ObjectClass(), a.objectClass)]);
      }
    }

    /** One attribute: the do-while loop goes round again only for addresses. */
    method DumpAttribute(con: Contact, a: Attribute) returns (os: seq<Byte>)
      requires con.Valid() && !Ldif.NeedsEncoding(a.objectClass)
      modifies this`m_emailIndex
      ensures os == EntriesBytes(AttributeEntries(a, con.Value(), m_baseDN, old(m_emailIndex)))
      ensures m_emailIndex == IndexAfter(a, con.Value(), old(m_emailIndex))
    {
      hide Ldif.NeedsEncoding, EntriesBytes, FieldEntries, Read;
      EmptyBytes();
      EmailStep(a, con.Value(), m_emailIndex);
      os := [];
      var field := Get(con, a.access);
      if |field| > 0 {
        os := DumpField(a, field);
      }
      if a.access == Email && |field| > 0 {
        var more := DumpMore(con, a);
        os := os + more;
      }
    }

    /** The later turns of that loop. */
    method DumpMore(con: Contact, a: Attribute) returns (os: seq<Byte>)
      requires con.Valid() && !Ldif.NeedsEncoding(a.objectClass) && a.access == Email
      requires m_emailIndex <= |con.EmailAddresses|
      modifies this`m_emailIndex
      ensures os == EntriesBytes(EmailEntries(a, con.Value(), old(m_emailIndex)))
      ensures m_emailIndex == EmailEnd(con.Value(), old(m_emailIndex))
    {
      hide Ldif.NeedsEncoding, EntriesBytes, FieldEntries, EmailEntries, EmailEnd;
      ghost var card := con.Value();
      os := [];
      while true
        invariant con.Value() == card && m_emailIndex <= |card.emails|
        invariant os + EntriesBytes(EmailEntries(a, card, m_emailIndex))
               == EntriesBytes(EmailEntries(a, card, old(m_emailIndex)))
        invariant EmailEnd(card, m_emailIndex) == EmailEnd(card, old(m_emailIndex))
        decreases |card.emails| - m_emailIndex
      {
        EmailStep(a, card, m_emailIndex);
        var field := Get(con, a.access);
        if |field| == 0 {
          return;
        }
        var text := DumpField(a, field);
        os := os + text;
      }
    }

    /** The loop over the map. */
    method DumpMap(con: Contact) returns (os: seq<Byte>)
      requires Valid() && con.Valid()
      modifies this`m_emailIndex
      ensures os == EntriesBytes(DumpEntries(m_map, con.Value(), m_baseDN, old(m_emailIndex)))
    {
      hide Ldif.NeedsEncoding, EntriesBytes, AttributeEntries, DumpEntries;
      ghost var card := con.Value();
      EmptyBytes();
      os := [];
      for b := 0 to |m_map|
        invariant con.Value() == card
        invariant os + EntriesBytes(DumpEntries(m_map[b..], card, m_baseDN, m_emailIndex))
               == EntriesBytes(DumpEntries(m_map, card, m_baseDN, old(m_emailIndex)))
      {
        ghost var later := m_map[b + 1..];
        assert m_map[b..][0] == m_map[b] && m_map[b] in m_map && m_map[b..][1..] == later;
        DumpStep(m_map[b..], card, m_baseDN, m_emailIndex);
        BytesOfConcat(AttributeEntries(m_map[b], card, m_baseDN, m_emailIndex),
                      DumpEntries(later, card, m_baseDN, IndexAfter(m_map[b], card, m_emailIndex)));
        var text := DumpAttribute(con, m_map[b]);
        os := os + text;
      }
      DumpNothing(card, m_baseDN, m_emailIndex);
    }

    method DumpLdif(con: Contact) returns (os: seq<Byte>)
      requires Valid() && con.Valid()
      modifies this`m_emailIndex
      ensures os == Dumped(m_map, con.Value(), m_baseDN)
    {
      hide Ldif.NeedsEncoding, EntriesBytes, DumpEntries, Comment, EntryBytes, Ascii;
      m_emailIndex := 0;
      if |con.FirstName| == 0 && |con.LastName| == 0 {
        return [];
      }
      os := Comment(con.Value()) + [NEWLINE];
      var fields := DumpMap(con);
      LastLine();
      os := os + fields + (Ascii("objectClass: inetOrgPerson") + [NEWLINE]) + [NEWLINE];
    }

    // ---- Reading ----

    method Set(con: Contact, access: Access, data: seq<Byte>) returns (thrown: bool)
      modifies con
      ensures con.Value() == Write(old(con.Value()), access, data) && thrown == (access == Fqdn)
    {
      thrown := false;
      match access
      case Email => con.EmailAddresses := con.EmailAddresses + [data];
      case Member(code) => con.Members := con.Members[code := data];
      case FirstName => con.FirstName := data;
      case LastName => con.LastName := data;
      case FullName =>
        con.FirstName := SplitFirst(data);
        con.LastName := SplitLast(data);
      case WorkLabel =>
      case HomeLabel =>
      case Fqdn => thrown := true;
    }

    ghost function Now(con: Contact, pending: Option<Pending>): State
      reads this, con
    {
      State(con.Value(), HookValues(), pending, false)
    }

    method DoWrite(con: Contact, attr: seq<Byte>, data: seq<Byte>) returns (thrown: bool)
      modifies con, this`m_cn, this`m_displayName, this`m_sn, this`m_givenName
      ensures Now(con, None).(thrown := thrown) == Ldif.DoWrite(m_map, old(Now(con, None)), attr, data)
    {
      hide Ascii, Lookup, Write;
      if |attr| == 0 || |data| == 0 {
        return false;
      }
      if attr == Ascii("cn") {
        m_cn := data;
      } else if attr == Ascii("displayName") {
        m_displayName := data;
      } else if attr == Ascii("sn") {
        m_sn := data;
      } else if attr == Ascii("givenName") {
        m_givenName := data;
      }
      match Lookup(m_map, attr)
      case None => thrown := false;
      case Some(a) => thrown := Set(con, a.access, data);
    }

    /** Ends a base64 field; errors in it are ignored. */
    method EndField(con: Contact, attr: seq<Byte>, coded: seq<Byte>) returns (thrown: bool)
      modifies con, this`m_cn, this`m_displayName, this`m_sn, this`m_givenName
      ensures Now(con, None).(thrown := thrown) == Settle(m_map, old(Now(con, Some(Pending(attr, coded)))))
    {
      hide Ldif.DoWrite, Base64.Decoded;
      var decode, ok := Base64.Decode(coded);
      thrown := DoWrite(con, attr, decode);
    }

    method RunHeuristics(con: Contact) returns (complete: bool)
      modifies con
      ensures con.Value() == Ldif.RunHeuristics(old(con.Value()), HookValues())
      ensures con.LastName == if m_sn != [] then m_sn
        else if SplitLast(m_cn) != [] then SplitLast(m_cn) else SplitLast(m_displayName)
      ensures con.FirstName == if m_givenName != [] then m_givenName
        else if SplitFirst(m_cn) != [] then SplitFirst(m_cn) else SplitFirst(m_displayName)
      ensures complete <==> con.FirstName != [] && con.LastName != []
    {
      hide SplitFirst, SplitLast;
      SplitNothing();
      con.LastName, con.FirstName := m_sn, m_givenName;
      if |con.LastName| == 0 || |con.FirstName| == 0 {
        if |m_cn| > 0 {
          FillNames(con, m_cn);
        }
        if |m_displayName| > 0 {
          FillNames(con, m_displayName);
        }
      }
      return |con.LastName| > 0 && |con.FirstName| > 0;
    }

    /** Takes over the names that are still missing. */
    method FillNames(con: Contact, full: seq<Byte>)
      modifies con
      ensures con.Value() == old(con.Value()).(lastName := Or(old(con.LastName), SplitLast(full)),
                                               firstName := Or(old(con.FirstName), SplitFirst(full)))
    {
      hide SplitFirst, SplitLast;
      var first, last := SplitFirst(full), SplitLast(full);
      if |con.LastName| == 0 && |last| > 0 {
        con.LastName := last;
      }
      if |con.FirstName| == 0 && |first| > 0 {
        con.FirstName := first;
      }
    }

    method ReadLdif(con: Contact, stream: seq<Byte>) returns (status: Status, rest: seq<Byte>)
      modifies con, this`m_cn, this`m_displayName, this`m_sn, this`m_givenName
      ensures Outcome(con.Value(), status, rest) == Ldif.ReadLdif(m_map, old(con.Value()), stream)
    {
      hide FindDn, ReadFields, Ldif.RunHeuristics;
      con.Clear();
      m_cn, m_displayName, m_sn, m_givenName := [], [], [], [];
      var found: bool;
      found, rest := SearchDn(stream);
      if !found {
        return NoRecord, rest;
      }
      var thrown: bool;
      thrown, rest := ReadBody(con, rest);
      if thrown {
        return Thrown, rest;
      }
      var complete := RunHeuristics(con);
      return if complete then Complete else Incomplete, rest;
    }

    method SearchDn(stream: seq<Byte>) returns (found: bool, rest: seq<Byte>)
      ensures if found then FindDn(stream) == Some(rest) else FindDn(stream) == None && rest == []
    {
      rest := stream;
      while true
        invariant FindDn(rest) == FindDn(stream)
        decreases |rest|
      {
        match NextLine(rest)
        case None => return false, [];
        case Some(l) =>
          if StartsWithDn(l.line) {
            return true, l.rest;
          }
          rest := l.rest;
      }
    }

    method ReadBody(con: Contact, body: seq<Byte>) returns (thrown: bool, rest: seq<Byte>)
      modifies con, this`m_cn, this`m_displayName, this`m_sn, this`m_givenName
      ensures Position(Now(con, None).(thrown := thrown), rest) == ReadFields(m_map, old(Now(con, None)), body)
    {
      hide Ldif.DoWrite, SkipSeparators, FindColon, Base64.Decoded, NextLine;
      var attr, coded, b64field := [], [], false;
      rest := body;
      ghost var all := ReadFields(m_map, Now(con, None), body);
      while true
        invariant ReadFields(m_map, Now(con, if b64field then Some(Pending(attr, coded)) else None), rest) == all
        decreases |rest|
      {
        match NextLine(rest)
        case None =>
          thrown := EndIfPending(con, b64field, attr, coded);
          return thrown, [];
        case Some(l) =>
          if |l.line| == 0 {
            thrown := EndIfPending(con, b64field, attr, coded);
            return thrown, l.rest;
          }
          rest := l.rest;
          if b64field && l.line[0] == SPACE {
            coded := coded + [NEWLINE] + l.line;
          } else {
            thrown := EndIfPending(con, b64field, attr, coded);
            if thrown {
              return;
            }
            thrown, b64field, attr, coded := SplitLine(con, l.line);
            if thrown {
              return;
            }
          }
      }
    }

    method EndIfPending(con: Contact, b64field: bool, attr: seq<Byte>, coded: seq<Byte>) returns (thrown: bool)
      modifies con, this`m_cn, this`m_displayName, this`m_sn, this`m_givenName
      ensures Now(con, None).(thrown := thrown)
           == Settle(m_map, old(Now(con, if b64field then Some(Pending(attr, coded)) else None)))
    {
      hide Ldif.DoWrite, Base64.Decoded;
      thrown := false;
      if b64field {
        thrown := EndField(con, attr, coded);
      }
    }

    /** Splits a line into attribute and data, and writes the data unless it is base64. */
    method SplitLine(con: Contact, line: seq<Byte>)
      returns (thrown: bool, b64field: bool, attr: seq<Byte>, coded: seq<Byte>)
      modifies con, this`m_cn, this`m_displayName, this`m_sn, this`m_givenName
      ensures Now(con, if b64field then Some(Pending(attr, coded)) else None).(thrown := thrown)
           == Process(m_map, old(Now(con, None)), line)
      ensures thrown ==> !b64field
    {
      hide Ldif.DoWrite, SkipSeparators;
      thrown, b64field, attr, coded := false, false, [], [];
      match FindColon(line)
      case None =>
      case Some(delim) =>
        attr := line[..delim];
        var after := line[delim + 1..];
        var data := SkipSeparators(after);
        if |after| > 0 && after[0] == COLON {
          coded, b64field := data, true;
        } else {
          thrown := DoWrite(con, attr, data);
        }
    }
  }

  lemma SplitNothing()
    ensures SplitFirst([]) == [] && SplitLast([]) == []
  {
  }

  lemma EmptyBytes()
    ensures EntriesBytes([]) == []
  {
  }

  /** The object class line is printed as it is. */
  lemma ObjectClassLine(a: Attribute)
    requires !Ldif.NeedsEncoding(a.objectClass)
    ensures EntriesBytes([Entry(ObjectClass(), a.objectClass)]) == Ascii("objectClass: ") + a.objectClass + [NEWLINE]
  {
    hide Ldif.NeedsEncoding;
    BytesOfOne(Entry(ObjectClass(), a.objectClass));
    assert Ascii("objectClass: ") == ObjectClass() + [COLON] + [SPACE];
    assert ObjectClass() + ([COLON] + [SPACE] + a.objectClass) == ObjectClass() + [COLON] + [SPACE] + a.objectClass;
  }

  lemma ClassesArePlain()
    ensures forall a :: a in MAP ==> !Ldif.NeedsEncoding(a.objectClass)
  {
    hide MAP, Ldif.NeedsEncoding, Ascii, Letters;
    MapAt();
    forall a | a in MAP
      ensures !Ldif.NeedsEncoding(a.objectClass)
    {
      var k :| 0 <= k < |MAP| && MAP[k] == a;
      ClassIsPlain(k);
    }
  }

  lemma ClassIsPlain(k: nat)
    ensures !Ldif.NeedsEncoding(AttributeAt(k).objectClass)
  {
    LettersArePlain("country");
  }

  lemma EmailStep(a: Attribute, con: Card, index: nat)
    ensures Email0(con, index) == [] ==>
      EmailEntries(a, con, index) == [] && EmailEnd(con, index) == index + 1 && EntriesBytes([]) == []
    ensures Email0(con, index) != [] ==>
      && EntriesBytes(EmailEntries(a, con, index))
         == EntriesBytes(FieldEntries(a, Email0(con, index))) + EntriesBytes(EmailEntries(a, con, index + 1))
      && EmailEnd(con, index) == EmailEnd(con, index + 1) && index < |con.emails|
  {
    hide EntriesBytes, FieldEntries;
    EmptyBytes();
    if Email0(con, index) != [] {
      BytesOfConcat(FieldEntries(a, Email0(con, index)), EmailEntries(a, con, index + 1));
    }
  }
}
