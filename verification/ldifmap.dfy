/** The default attribute map of ldif.cc. */
module LdifDefault {
  import opened Bytes
  import opened Wrappers
  import opened Contacts
  import opened Ldif

  /** Number k of the attributes, in the order of LdifAttribute's operator<: dn, then by name. */
  function AttributeAt(k: nat): Attribute
  {
    if k == 0 then Attribute(Ascii("dn"), [], Fqdn)
    else if k == 1 then Attribute(Ascii("c"), Ascii("country"), Member(41))
    else if k == 2 then Attribute(Ascii("cn"), [], FullName)
    else if k == 3 then Attribute(Ascii("displayName"), [], FullName)
    else if k == 4 then Attribute(Ascii("facsimileTelephoneNumber"), [], Member(3))
    else if k == 5 then Attribute(Ascii("givenName"), [], FirstName)
    else if k == 6 then Attribute(Ascii("homePhone"), [], Member(7))
    else if k == 7 then Attribute(Ascii("homePostalAddress"), [], HomeLabel)
    else if k == 8 then Attribute(Ascii("l"), [], Member(38))
    else if k == 9 then Attribute(Ascii("mail"), [], Email)
    else if k == 10 then Attribute(Ascii("mobile"), [], Member(8))
    else if k == 11 then Attribute(Ascii("note"), [], Member(64))
    else if k == 12 then Attribute(Ascii("o"), [], Member(33))
    else if k == 13 then Attribute(Ascii("pager"), [], Member(9))
    else if k == 14 then Attribute(Ascii("postalAddress"), [], WorkLabel)
    else if k == 15 then Attribute(Ascii("postalCode"), [], Member(40))
    else if k == 16 then Attribute(Ascii("sn"), [], LastName)
    else if k == 17 then Attribute(Ascii("st"), [], Member(39))
    else if k == 18 then Attribute(Ascii("street"), [], Member(35))
    else if k == 19 then Attribute(Ascii("telephoneNumber"), [], Member(6))
    else Attribute(Ascii("title"), [], Member(42))
  }

  const COUNT := 21

  function AttributesFrom(k: nat): (m: seq<Attribute>)
    requires k <= COUNT
    ensures |m| == COUNT - k && forall i :: 0 <= i < |m| ==> m[i] == AttributeAt(k + i)
    decreases COUNT - k
  {
    if k == COUNT then [] else [AttributeAt(k)] + AttributesFrom(k + 1)
  }

  const MAP: seq<Attribute> := AttributesFrom(0)

  /** The members that an attribute stands for. */
  predicate Mapped(code: Byte)
  {
    code == 3 || code == 6 || code == 7 || code == 8 || code == 9 || code == 33 || code == 35
    || code == 38 || code == 39 || code == 40 || code == 41 || code == 42 || code == 64
  }

  // ---- The names of the map are different ----

  /** Which attribute has a name of this length with these two ends. */
  function Position(length: nat, first: Byte, last: Byte): nat
  {
    if length == 1 then (if first == 0x63 then 1 else if first == 0x6C then 8 else 12)
    else if length == 2 then
      (if first == 0x64 then 0 else if first == 0x63 then 2 else if last == 0x6E then 16 else 17)
    else if length == 4 then (if first == 0x6D then 9 else 11)
    else if length == 5 then (if first == 0x70 then 13 else 20)
    else if length == 6 then (if first == 0x6D then 10 else 18)
    else if length == 9 then (if first == 0x67 then 5 else 6)
    else if length == 10 then 15
    else if length == 11 then (if first == 0x64 then 3 else 99)
    else if length == 13 then 14
    else if length == 15 then 19
    else if length == 17 then 7
    else 4
  }

  function PositionOf(name: seq<Byte>): nat
    requires name != []
  {
    Position(|name|, name[0], name[|name| - 1])
  }

  predicate Letters(s: string)
  {
    s != "" && forall i :: 0 <= i < |s| ==> 'A' <= s[i] <= 'z'
  }

  /** The position that a text of letters leads to. */
  function PositionOfText(s: string): nat
    requires Letters(s)
  {
    Position(|s|, s[0] as int, s[|s| - 1] as int)
  }

  lemma LettersArePlain(s: string)
    requires Letters(s)
    ensures !NeedsEncoding(Ascii(s))
  {
  }

  /** The line every record ends with. */
  lemma LastLine()
    ensures EntryBytes(LastEntry()) == Ascii("objectClass: inetOrgPerson") + [NEWLINE]
  {
    var v := Ascii("inetOrgPerson");
    assert Ascii("objectClass: inetOrgPerson") == ObjectClass() + ([COLON] + [SPACE] + v);
    LettersArePlain("inetOrgPerson");
  }

  lemma LettersAreOk(s: string)
    requires Letters(s)
    ensures NameOk(Ascii(s)) && PositionOf(Ascii(s)) == PositionOfText(s)
  {
  }

  /** An attribute's name can stand in front of a value, and leads to its own position. */
  predicate NameFits(k: nat)
    requires k < |MAP|
  {
    MAP[k].name != [] && NameOk(MAP[k].name) && PositionOf(MAP[k].name) == k
  }

  lemma FitAt(k: nat, s: string)
    requires k < COUNT && Letters(s) && AttributeAt(k).name == Ascii(s) && PositionOfText(s) == k
    ensures NameFits(k)
  {
    hide AttributeAt, Ascii, Letters, PositionOfText, NameOk;
    LettersAreOk(s);
  }

  lemma NamesFrom0()
    ensures NameFits(0) && NameFits(1) && NameFits(2) && NameFits(3) && NameFits(4)
  {
    hide MAP, NameFits, Ascii, NameOk;
    FitAt(0, "dn");
    FitAt(1, "c");
    FitAt(2, "cn");
    FitAt(3, "displayName");
    FitAt(4, "facsimileTelephoneNumber");
  }

  lemma NamesFrom5()
    ensures NameFits(5) && NameFits(6) && NameFits(7) && NameFits(8) && NameFits(9)
  {
    hide MAP, NameFits, Ascii, NameOk;
    FitAt(5, "givenName");
    FitAt(6, "homePhone");
    FitAt(7, "homePostalAddress");
    FitAt(8, "l");
    FitAt(9, "mail");
  }

  lemma NamesFrom10()
    ensures NameFits(10) && NameFits(11) && NameFits(12) && NameFits(13) && NameFits(14)
  {
    hide MAP, NameFits, Ascii, NameOk;
    FitAt(10, "mobile");
    FitAt(11, "note");
    FitAt(12, "o");
    FitAt(13, "pager");
    FitAt(14, "postalAddress");
  }

  lemma NamesFrom15()
    ensures NameFits(15) && NameFits(16) && NameFits(17)
  {
    hide MAP, NameFits, Ascii, NameOk;
    FitAt(15, "postalCode");
    FitAt(16, "sn");
    FitAt(17, "st");
  }

  lemma NamesFrom18()
    ensures NameFits(18) && NameFits(19) && NameFits(20)
  {
    hide MAP, NameFits, Ascii, NameOk;
    FitAt(18, "street");
    FitAt(19, "telephoneNumber");
    FitAt(20, "title");
  }

  lemma MapAt()
    ensures |MAP| == COUNT && forall k :: 0 <= k < COUNT ==> MAP[k] == AttributeAt(k)
    ensures |MAP[1..]| == COUNT - 1 && forall k :: 0 <= k < COUNT - 1 ==> MAP[1..][k] == AttributeAt(k + 1)
  {
  }

  lemma NamesFit(k: nat)
    requires k < COUNT
    ensures NameFits(k)
  {
    hide MAP, NameFits;
    NamesFrom0();
    NamesFrom5();
    NamesFrom10();
    NamesFrom15();
    NamesFrom18();
    assert k < 5 ==> k == 0 || k == 1 || k == 2 || k == 3 || k == 4;
    assert 5 <= k < 10 ==> k == 5 || k == 6 || k == 7 || k == 8 || k == 9;
    assert 10 <= k < 15 ==> k == 10 || k == 11 || k == 12 || k == 13 || k == 14;
    assert 15 <= k ==> k == 15 || k == 16 || k == 17 || k == 18 || k == 19 || k == 20;
  }

  lemma {:induction false} LookupFinds(m: seq<Attribute>, k: nat)
    requires k < |m| && forall i :: 0 <= i < k ==> m[i].name != m[k].name
    ensures Lookup(m, m[k].name) == Some(m[k])
    decreases |m|
  {
    if k > 0 {
      assert m[1..][k - 1] == m[k] && m[0].name != m[k].name;
      LookupFinds(m[1..], k - 1);
    }
  }

  lemma LookupFails(m: seq<Attribute>, name: seq<Byte>)
    requires forall k :: 0 <= k < |m| ==> m[k].name != name
    ensures Lookup(m, name) == None
  {
  }

  lemma ObjectClassFits()
    ensures NameOk(ObjectClass()) && ObjectClass() != [] && PositionOf(ObjectClass()) == 99
  {
    LettersAreOk("objectClass");
  }

  /** Every attribute of the map is found by its name, and the object class lines by none. */
  lemma DefaultMapOk()
    ensures MapOk(MAP) && NameOk(ObjectClass())
  {
    hide NameOk, Lookup, PositionOf, ObjectClass, MAP, AttributeAt, Ascii;
    MapAt();
    ObjectClassFits();
    forall k | 0 <= k < |MAP|
      ensures NameOk(MAP[k].name) && MAP[k].name != [] && PositionOf(MAP[k].name) == k
    {
      NamesFit(k);
    }
    forall k | 0 <= k < |MAP|
      ensures Lookup(MAP, MAP[k].name) == Some(MAP[k])
    {
      LookupFinds(MAP, k);
    }
    LookupFails(MAP, ObjectClass());
    NameAccess();
  }

  /** Where the four hooks stand in the map, and what they read. */
  function HookPosition(name: seq<Byte>): nat
    requires IsHook(name)
  {
    if name == Ascii("cn") then 2
    else if name == Ascii("displayName") then 3
    else if name == Ascii("sn") then 16
    else 5
  }

  function HookAccess(name: seq<Byte>): Access
    requires IsHook(name)
  {
    if name == Ascii("cn") || name == Ascii("displayName") then FullName
    else if name == Ascii("sn") then LastName
    else FirstName
  }

  lemma HookFacts(name: seq<Byte>)
    requires IsHook(name)
    ensures name != [] && PositionOf(name) == HookPosition(name)
    ensures AttributeAt(HookPosition(name)) == Attribute(name, [], HookAccess(name))
  {
    LettersAreOk("cn");
    LettersAreOk("displayName");
    LettersAreOk("sn");
    LettersAreOk("givenName");
    var cn, displayName, sn, givenName := Ascii("cn"), Ascii("displayName"), Ascii("sn"), Ascii("givenName");
    assert cn[0] == 'c' as int && displayName[0] == 'd' as int && sn[0] == 's' as int && givenName[0] == 'g' as int;
    hide Ascii, NameOk, Letters;
  }

  lemma NameAccess()
    requires forall k :: 0 <= k < |MAP| ==> MAP[k].name != [] && PositionOf(MAP[k].name) == k
    ensures forall a :: a in MAP && IsHook(a.name) ==> a.access != Email
  {
    hide AttributeAt, PositionOf, IsHook, HookPosition, HookAccess, MAP;
    MapAt();
    forall a | a in MAP && IsHook(a.name)
      ensures a.access == HookAccess(a.name) != Email
    {
      HookIsOneName(a.name);
      HookFacts(a.name);
    }
  }

  lemma HookIsOneName(name: seq<Byte>)
    requires IsHook(name)
    ensures HookAccess(name) != Email && 2 <= HookPosition(name) < COUNT
  {
  }

  // ---- What the attributes after dn stand for ----

  function MemberAt(code: Byte): nat
    requires Mapped(code)
  {
    if code == 3 then 4 else if code == 6 then 19 else if code == 7 then 6 else if code == 8 then 10
    else if code == 9 then 13 else if code == 33 then 12 else if code == 35 then 18 else if code == 38 then 8
    else if code == 39 then 17 else if code == 40 then 15 else if code == 41 then 1 else if code == 42 then 20
    else 11
  }

  lemma AccessAt(k: nat)
    requires 1 <= k < COUNT
    ensures AttributeAt(k).access != Fqdn && (AttributeAt(k).access == Email <==> k == 9)
    ensures forall code :: AttributeAt(k).access == Member(code) ==> Mapped(code)
  {
    hide Ascii;
  }

  lemma AccessOfMember(code: Byte)
    requires Mapped(code)
    ensures 1 <= MemberAt(code) < COUNT && AttributeAt(MemberAt(code)).access == Member(code)
  {
    hide Ascii;
  }

  lemma PartHasMembers(code: Byte)
    ensures Has(MAP[1..], Member(code)) <==> Mapped(code)
  {
    hide MAP, AttributeAt, MemberAt, Mapped;
    MapAt();
    var part := MAP[1..];
    if Mapped(code) {
      AccessOfMember(code);
      assert part[MemberAt(code) - 1] in part;
    }
    if Has(part, Member(code)) {
      var a :| a in part && a.access == Member(code);
      var k :| 0 <= k < |part| && part[k] == a;
      AccessAt(k + 1);
    }
  }

  lemma PartHas()
    ensures Has(MAP[1..], Email) && OneEmail(MAP[1..])
    ensures forall a :: a in MAP[1..] ==> a in MAP && a.access != Fqdn
  {
    hide MAP, AttributeAt;
    MapAt();
    var part := MAP[1..];
    forall k | 0 <= k < |part|
      ensures part[k] == MAP[k + 1] && part[k].access != Fqdn && (part[k].access == Email <==> k == 8)
    {
      AccessAt(k + 1);
    }
    assert part[8] in part;
  }

  lemma PartNames()
    ensures forall n :: IsHook(n) ==> Named(MAP[1..], n)
    ensures forall a :: a in MAP[1..] && IsHook(a.name) ==> a.access == HookAccess(a.name)
  {
    hide MAP, AttributeAt, PositionOf, IsHook, HookPosition, HookAccess;
    MapAt();
    var part := MAP[1..];
    forall k | 0 <= k < |part|
      ensures part[k].name != [] && PositionOf(part[k].name) == k + 1
    {
      NamesFit(k + 1);
    }
    forall n | IsHook(n)
      ensures Named(part, n)
    {
      HookIsOneName(n);
      HookFacts(n);
      assert part[HookPosition(n) - 1] in part;
    }
    forall a | a in part && IsHook(a.name)
      ensures a.access == HookAccess(a.name)
    {
      HookIsOneName(a.name);
      HookFacts(a.name);
    }
  }
}
