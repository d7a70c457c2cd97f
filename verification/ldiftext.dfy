/** What the text printed for a contact says, line by line. */
module LdifText {
  import opened Bytes
  import opened Wrappers
  import opened Contacts
  import opened Ldif
  import opened LdifDefault
  import Base64

  // ---- Mailing addresses ----

  /** A part with what ends it, or nothing. */
  function Ended(part: seq<Byte>, terminator: Byte): seq<Byte>
  {
    if part == [] then [] else part + [terminator]
  }

  /** A label up to the country: street lines, each with its newline, then city and province, each with a space,
      and the country. Empty parts are dropped with what ends them. */
  function LabelFront(a1: seq<Byte>, a2: seq<Byte>, a3: seq<Byte>, city: seq<Byte>, province: seq<Byte>,
                      country: seq<Byte>): seq<Byte>
  {
    Ended(a1, 0x0A) + Ended(a2, 0x0A) + Ended(a3, 0x0A) + Ended(city, 0x20) + Ended(province, 0x20) + country
  }

  /** If there is any of it, a newline goes between it and the postal code. */
  lemma LabelByParts(a1: seq<Byte>, a2: seq<Byte>, a3: seq<Byte>, city: seq<Byte>, province: seq<Byte>,
                     country: seq<Byte>, postalCode: seq<Byte>)
    ensures Label(a1, a2, a3, city, province, country, postalCode)
      == Ended(LabelFront(a1, a2, a3, city, province, country), 0x0A) + postalCode
  {
    StreetLines(a1, a2, a3);
    var streets := Broken(Line(Line(a1, a2), a3));
    var c, p := Ended(city, 0x20), Ended(province, 0x20);
    hide Line, Ended, Broken;
    assert streets + (c + p + country) == Ended(a1, 0x0A) + Ended(a2, 0x0A) + Ended(a3, 0x0A) + c + p + country;
    PlaceParts(city, province);
    SameAsBroken(streets + (c + p + country));
  }

  lemma StreetLines(a1: seq<Byte>, a2: seq<Byte>, a3: seq<Byte>)
    ensures Broken(Line(Line(a1, a2), a3)) == Ended(a1, 0x0A) + Ended(a2, 0x0A) + Ended(a3, 0x0A)
  {
    OneMoreLine(a1, a2);
    OneMoreLine(Line(a1, a2), a3);
    hide Line;
  }

  lemma OneMoreLine(sofar: seq<Byte>, next: seq<Byte>)
    ensures Broken(Line(sofar, next)) == Broken(sofar) + Ended(next, 0x0A) && Broken(sofar) == Ended(sofar, 0x0A)
  {
  }

  lemma PlaceParts(city: seq<Byte>, province: seq<Byte>)
    ensures Ended(city, 0x20) == if city == [] then [] else city + [SPACE]
    ensures Ended(province, 0x20) == if province == [] then [] else province + [SPACE]
  {
  }

  lemma SameAsBroken(s: seq<Byte>)
    ensures Broken(s) == Ended(s, 0x0A)
  {
  }

  /** With all parts there: three street lines, one line for city, province and country, and the postal code. */
  lemma FullLabel(a1: seq<Byte>, a2: seq<Byte>, a3: seq<Byte>, city: seq<Byte>, province: seq<Byte>,
                  country: seq<Byte>, postalCode: seq<Byte>)
    requires a1 != [] && a2 != [] && a3 != [] && city != [] && province != [] && country != []
    ensures Label(a1, a2, a3, city, province, country, postalCode)
      == a1 + [0x0A] + a2 + [0x0A] + a3 + [0x0A] + city + [0x20] + province + [0x20] + country + [0x0A] + postalCode
  {
    hide Label;
    LabelByParts(a1, a2, a3, city, province, country, postalCode);
    var front := LabelFront(a1, a2, a3, city, province, country);
    assert front
      == a1 + [0x0A] + a2 + [0x0A] + a3 + [0x0A] + city + [0x20] + province + [0x20] + country;
  }

  /** The work address is made of the members 35 to 41, the postal code 40 behind the country 41. */
  lemma WorkLabelByParts(con: Card)
    ensures WorkAddress(con)
      == Ended(LabelFront(Text(con, 35), Text(con, 36), Text(con, 37), Text(con, 38), Text(con, 39), Text(con, 41)),
               0x0A) + Text(con, 40)
  {
    hide Ended, Label, Text, LabelFront;
    LabelByParts(Text(con, 35), Text(con, 36), Text(con, 37), Text(con, 38), Text(con, 39), Text(con, 41),
                 Text(con, 40));
  }

  /** The home address is what the work address of a contact with these texts would be: it depends on the members
      61 to 63 and 69 to 72 alone. */
  lemma HomeLabelAsWork(con: Card, work: Card)
    requires Text(work, 35) == Text(con, 61) && Text(work, 36) == Text(con, 62) && Text(work, 37) == Text(con, 63)
    requires Text(work, 38) == Text(con, 69) && Text(work, 39) == Text(con, 70)
    requires Text(work, 40) == Text(con, 71) && Text(work, 41) == Text(con, 72)
    ensures HomeAddress(con) == WorkAddress(work)
  {
  }

  // ---- Lines ----

  /** A plain value stands behind a colon and a space, an encoded one behind two colons and a space. */
  lemma LineLayout(e: Entry)
    ensures !NeedsEncoding(e.value) ==> EntryBytes(e) == e.name + [0x3A, 0x20] + e.value + [0x0A]
    ensures NeedsEncoding(e.value) ==> EntryBytes(e) == e.name + [0x3A, 0x3A, 0x20] + Base64.Encoded(e.value) + [0x0A]
  {
    hide NeedsEncoding, Base64.Encoded;
    assert e.name + ([COLON] + [SPACE] + e.value) == e.name + [0x3A, 0x20] + e.value;
    var coded := Base64.Encoded(e.value);
    assert e.name + ([COLON] + [COLON, SPACE] + coded) == e.name + [0x3A, 0x3A, 0x20] + coded;
  }

  /** Every attribute with data has its line, and the line of its object class, if it has one, follows it. */
  lemma {:induction false} FieldIsPrinted(m: seq<Attribute>, con: Card, baseDN: seq<Byte>, index: nat, a: Attribute)
    returns (at: nat)
    requires a in m && a.access != Email && Read(con, a.access, baseDN) != []
    ensures
      var es := DumpEntries(m, con, baseDN, index);
      && at < |es| && es[at] == Entry(a.name, Read(con, a.access, baseDN))
      && (a.objectClass != [] ==> at + 1 < |es| && es[at + 1] == Entry(Ascii("objectClass"), a.objectClass))
    decreases |m|
  {
    hide Read, EmailEntries, Ascii;
    DumpStep(m, con, baseDN, index);
    var first := AttributeEntries(m[0], con, baseDN, index);
    if a == m[0] {
      at := 0;
    } else {
      at := FieldIsPrinted(m[1..], con, baseDN, IndexAfter(m[0], con, index), a);
      at := |first| + at;
    }
  }

  predicate ComesFrom(e: Entry, a: Attribute, con: Card, baseDN: seq<Byte>)
  {
    && e.value != []
    && ((e.name == Ascii("objectClass") && e.value == a.objectClass)
        || (e.name == a.name && a.access == Email && e.value in con.emails)
        || (e.name == a.name && a.access != Email && e.value == Read(con, a.access, baseDN)))
  }

  /** And nothing else is printed: fields with data, object classes, and addresses that are not empty. */
  lemma {:induction false} OnlyFieldsArePrinted(m: seq<Attribute>, con: Card, baseDN: seq<Byte>, index: nat, e: Entry)
    requires e in DumpEntries(m, con, baseDN, index)
    ensures exists a :: a in m && ComesFrom(e, a, con, baseDN)
    decreases |m|
  {
    hide Read, Ascii, EmailEntries;
    if m != [] {
      DumpStep(m, con, baseDN, index);
      if e in AttributeEntries(m[0], con, baseDN, index) {
        assert m[0] in m;
        if m[0].access == Email {
          AddressLines(m[0], con, index, e);
        }
      } else {
        OnlyFieldsArePrinted(m[1..], con, baseDN, IndexAfter(m[0], con, index), e);
      }
    }
  }

  lemma {:induction false} AddressLines(a: Attribute, con: Card, index: nat, e: Entry)
    requires e in EmailEntries(a, con, index)
    ensures (e.name == Ascii("objectClass") && e.value == a.objectClass != [])
      || (e.name == a.name && e.value in con.emails && e.value != [])
    decreases |con.emails| - index
  {
    hide Ascii;
    if Email0(con, index) != [] && e !in FieldEntries(a, Email0(con, index)) {
      AddressLines(a, con, index + 1, e);
    }
  }

  /** A record starts with the id and the name in a comment line and the dn line, and ends with the object class of
      a person and an empty line; a contact without names has none. */
  lemma RecordText(con: Card, baseDN: seq<Byte>) returns (fields: seq<Byte>)
    ensures con.firstName == [] && con.lastName == [] ==> Dumped(MAP, con, baseDN) == []
    ensures con.firstName != [] || con.lastName != [] ==>
      var gap := if con.firstName != [] && con.lastName != [] then [0x20] else [];
      var full := con.firstName + gap + con.lastName;
      Dumped(MAP, con, baseDN)
        == Ascii("# Contact 0x") + Hex(con.recordId) + Ascii(", ") + full + [0x0A]
           + EntryBytes(Entry(Ascii("dn"), Ascii("cn=") + full + Ascii(",") + baseDN)) + fields
           + (Ascii("objectClass: inetOrgPerson") + [0x0A] + [0x0A])
  {
    hide MAP, DumpEntries, EntryBytes, EntriesBytes, LastEntry, AttributeAt, Hex, Ascii;
    fields := [];
    if con.firstName != [] || con.lastName != [] {
      MapAt();
      var dn, es := Entry(Ascii("dn"), Dn(con, baseDN)), DumpEntries(MAP[1..], con, baseDN, 0);
      fields := EntriesBytes(es);
      AllEntries(con, baseDN);
      BytesOfConcat([dn], es);
      BytesOfOne(dn);
      LastLine();
      assert Dumped(MAP, con, baseDN)
        == Comment(con) + [NEWLINE] + EntryBytes(dn) + fields
           + (Ascii("objectClass: inetOrgPerson") + [NEWLINE] + [NEWLINE]);
    }
  }

  lemma AllEntries(con: Card, baseDN: seq<Byte>)
    ensures |MAP| == COUNT
    ensures DumpEntries(MAP, con, baseDN, 0)
         == [Entry(Ascii("dn"), Dn(con, baseDN))] + DumpEntries(MAP[1..], con, baseDN, 0)
  {
    hide MAP, DumpEntries, AttributeAt, Dn;
    MapAt();
    DumpStep(MAP, con, baseDN, 0);
    DnIsFirst(con, baseDN);
  }

  lemma DnIsFirst(con: Card, baseDN: seq<Byte>)
    ensures AttributeEntries(AttributeAt(0), con, baseDN, 0) == [Entry(Ascii("dn"), Dn(con, baseDN))]
    ensures IndexAfter(AttributeAt(0), con, 0) == 0
  {
    assert Dn(con, baseDN) != [];
  }

  // ---- The id in the comment ----

  function DigitValue(b: Byte): nat
  {
    if 0x30 <= b <= 0x39 then b - 0x30 else if 0x61 <= b <= 0x66 then b - 0x61 + 10 else 16
  }

  function HexValue(s: seq<Byte>): nat
  {
    if s == [] then 0 else 16 * HexValue(s[..|s| - 1]) + DigitValue(s[|s| - 1])
  }

  /** Hex prints lower-case digits without leading zeros that read as the number. */
  lemma {:induction false} HexIsExact(n: nat)
    ensures HexValue(Hex(n)) == n && forall i :: 0 <= i < |Hex(n)| ==> DigitValue(Hex(n)[i]) < 16
    ensures n > 0 ==> Hex(n)[0] != 0x30
  {
    if n < 16 {
      assert Hex(n)[..0] == [];
    } else {
      HexIsExact(n / 16);
      var h := Hex(n);
      assert h[..|h| - 1] == Hex(n / 16) && h[|h| - 1] == HexDigit(n % 16);
      assert forall i :: 0 <= i < |h| - 1 ==> h[i] == Hex(n / 16)[i];
    }
  }

  // ---- The default map by name ----

  lemma FoundAt(k: nat)
    requires k < COUNT
    ensures Lookup(MAP, AttributeAt(k).name) == Some(AttributeAt(k))
  {
    hide MAP, AttributeAt, Lookup, NameOk;
    MapAt();
    DefaultMapOk();
    assert MAP[k] in MAP;
  }

  predicate Finds(name: string, objectClass: string, access: Access)
  {
    Lookup(MAP, Ascii(name)) == Some(Attribute(Ascii(name), Ascii(objectClass), access))
  }

  lemma FindsAt(k: nat, name: string, objectClass: string, access: Access)
    requires k < COUNT && AttributeAt(k).name == Ascii(name) && AttributeAt(k).access == access
    requires AttributeAt(k).objectClass == Ascii(objectClass)
    ensures Finds(name, objectClass, access)
  {
    hide MAP, AttributeAt, Lookup, Ascii;
    FoundAt(k);
  }

  lemma NoClass()
    ensures Ascii("") == []
  {
  }

  /** Phones, fax and pager. */
  lemma PhonesByName()
    ensures Finds("facsimileTelephoneNumber", "", Member(3))
    ensures Finds("telephoneNumber", "", Member(6))
    ensures Finds("homePhone", "", Member(7))
    ensures Finds("mobile", "", Member(8))
    ensures Finds("pager", "", Member(9))
  {
    hide MAP, Lookup, Ascii, Finds;
    NoClass();
    FindsAt(4, "facsimileTelephoneNumber", "", Member(3));
    FindsAt(19, "telephoneNumber", "", Member(6));
    FindsAt(6, "homePhone", "", Member(7));
    FindsAt(10, "mobile", "", Member(8));
    FindsAt(13, "pager", "", Member(9));
  }

  /** What belongs to the job, and the parts of the work address. */
  lemma WorkByName()
    ensures Finds("o", "", Member(33))
    ensures Finds("title", "", Member(42))
    ensures Finds("note", "", Member(64))
    ensures Finds("street", "", Member(35))
    ensures Finds("l", "", Member(38))
    ensures Finds("st", "", Member(39))
    ensures Finds("postalCode", "", Member(40))
    ensures Finds("c", "country", Member(41))
  {
    hide MAP, Lookup, Ascii, Finds;
    NoClass();
    FindsAt(12, "o", "", Member(33));
    FindsAt(20, "title", "", Member(42));
    FindsAt(11, "note", "", Member(64));
    FindsAt(18, "street", "", Member(35));
    FindsAt(8, "l", "", Member(38));
    FindsAt(17, "st", "", Member(39));
    FindsAt(15, "postalCode", "", Member(40));
    FindsAt(1, "c", "country", Member(41));
  }

  /** Names, addresses in one piece, and mail. */
  lemma NamesByName()
    ensures Finds("dn", "", Fqdn)
    ensures Finds("cn", "", FullName)
    ensures Finds("displayName", "", FullName)
    ensures Finds("sn", "", LastName)
    ensures Finds("givenName", "", FirstName)
    ensures Finds("mail", "", Email)
    ensures Finds("homePostalAddress", "", HomeLabel)
    ensures Finds("postalAddress", "", WorkLabel)
  {
    hide MAP, Lookup, Ascii, Finds;
    NoClass();
    FindsAt(0, "dn", "", Fqdn);
    FindsAt(2, "cn", "", FullName);
    FindsAt(3, "displayName", "", FullName);
    FindsAt(16, "sn", "", LastName);
    FindsAt(5, "givenName", "", FirstName);
    FindsAt(9, "mail", "", Email);
    FindsAt(7, "homePostalAddress", "", HomeLabel);
    FindsAt(14, "postalAddress", "", WorkLabel);
  }

  /** So a contact with a home address has a line for it, made of that address. */
  lemma HomeAddressIsPrinted(con: Card, baseDN: seq<Byte>) returns (at: nat)
    requires HomeAddress(con) != []
    ensures
      var es := DumpEntries(MAP, con, baseDN, 0);
      at < |es| && es[at] == Entry(Ascii("homePostalAddress"), HomeAddress(con))
  {
    hide MAP, Lookup, Ascii, HomeAddress, DumpEntries;
    NamesByName();
    assert Finds("homePostalAddress", "", HomeLabel);
    at := FieldIsPrinted(MAP, con, baseDN, 0, Lookup(MAP, Ascii("homePostalAddress")).value);
  }

  // ---- Lines of any origin ----

  predicate Separators(s: seq<Byte>)
  {
    forall i :: 0 <= i < |s| ==> s[i] == 0x20 || s[i] == 0x3A
  }

  lemma {:induction false} SeparatorsAreSkipped(gap: seq<Byte>, value: seq<Byte>)
    requires Separators(gap) && (value != [] ==> value[0] != 0x20 && value[0] != 0x3A)
    ensures SkipSeparators(gap + value) == value
    decreases |gap|
  {
    if gap == [] {
      assert gap + value == value;
    } else {
      assert (gap + value)[1..] == gap[1..] + value;
      SeparatorsAreSkipped(gap[1..], value);
    }
  }

  /** A line is an attribute up to its first colon, and a value behind all colons and spaces that follow; a second
      colon right behind the first one marks base64. A line without a colon is ignored. */
  lemma LineMeaning(m: seq<Attribute>, st: State, name: seq<Byte>, gap: seq<Byte>, value: seq<Byte>)
    requires 0x3A !in name && Separators(gap) && (value != [] ==> value[0] != 0x20 && value[0] != 0x3A)
    ensures Process(m, st, name) == st
    ensures Process(m, st, name + [0x3A] + (gap + value))
      == if gap != [] && gap[0] == 0x3A then st.(pending := Some(Pending(name, value))) else DoWrite(m, st, name, value)
  {
    hide DoWrite, FindColon, SkipSeparators;
    var line, after := name + [0x3A] + (gap + value), gap + value;
    ColonAfter(name, after);
    assert line[..|name|] == name && line[|name| + 1..] == after;
    SeparatorsAreSkipped(gap, value);
  }
}
