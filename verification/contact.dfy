/** Contact records of r_contact.cc: building the wire form of a contact, and parsing it again. */
module Contacts {
  import opened Bytes
  import opened Wrappers
  import opened Categories
  import opened Dates
  import opened Fields

  const EMAIL: Byte := 1
  const NAME: Byte := 32
  const COMPANY: Byte := 33
  const GROUP_FLAG: Byte := 44
  const GROUP_LINK: Byte := 52
  const CATEGORY: Byte := 59
  const BIRTHDAY: Byte := 82
  const ANNIVERSARY: Byte := 83
  const UNIQUEID: Byte := 85

  /** The type codes of ContactFieldLinks, in the order of its rows; every row names one string member. */
  const TABLE: seq<Byte> := LOW_CODES + MIDDLE_CODES + HIGH_CODES
  const LOW_CODES: seq<Byte> := [2, 3, 6, 7, 8, 9, 10, 14, 16, 17, 18]
  const MIDDLE_CODES: seq<Byte> := [33, 34, 35, 36, 37, 38, 39, 40, 41, 42, 43, 54, 55]
  const HIGH_CODES: seq<Byte> := [61, 62, 63, 64, 65, 66, 67, 68, 69, 70, 71, 72, 77]

  predicate InTable(code: Byte)
  {
    code in TABLE
  }

  datatype GroupLink = GroupLink(link: Word32, unknown: Word16)

  /** The value of a contact; members holds the string members by type code. */
  datatype Card = Card(
    recType: Byte, recordId: Word32,
    emails: seq<seq<Byte>>, firstName: seq<Byte>, lastName: seq<Byte>, firstNameSeen: bool,
    members: map<Byte, seq<Byte>>,
    birthday: Date, anniversary: Date,
    categories: seq<seq<Byte>>, links: seq<GroupLink>, unknowns: seq<Field>)
  {
    predicate Valid()
    {
      forall code :: code in members <==> InTable(code)
    }
  }

  function NoMembers(): (m: map<Byte, seq<Byte>>)
    ensures forall code :: code in m <==> InTable(code)
    ensures forall code :: code in m ==> m[code] == []
  {
    map code | code in TABLE :: []
  }

  /** A new contact with the ids that the parser sets from the record header. */
  function Blank(recType: Byte, recordId: Word32): Card
  {
    Card(recType, recordId, [], [], [], false, NoMembers(), NO_DATE, NO_DATE, [], [], [])
  }

  // ---- Parsing ----

  /** One field of nonzero size; raw is everything from its payload on. */
  function Handle(c: Card, code: Byte, size: nat, raw: seq<Byte>): Card
    requires size <= |raw|
  {
    var text := TrimNuls(raw[..size]);
    if InTable(code) then c.(members := c.members[code := text])
    else if code == EMAIL then c.(emails := c.emails + [text])
    else if code == NAME then
      if c.firstName != [] || c.firstNameSeen then c.(lastName := text, firstNameSeen := false)
      else c.(firstName := text, firstNameSeen := true)
    else if code == GROUP_LINK then c.(links := c.links + [GroupLink(Val32(raw, 0), Val16(raw, 4))])
    else if code == GROUP_FLAG then c
    else if code == CATEGORY then c.(categories := Tokens(text))
    else if code == BIRTHDAY then
      (match FromBBString(text) case Some(d) => c.(birthday := d) case None => c)
    else if code == ANNIVERSARY then
      (match FromBBString(text) case Some(d) => c.(anniversary := d) case None => c)
    else c.(unknowns := c.unknowns + [Field(code, raw[..size])])
  }

  /** The field at the start of s; one that is empty or runs over the end changes nothing. */
  function Step(c: Card, s: seq<Byte>): Card
    requires HEADER < |s|
  {
    var size := Val16(s, 0);
    if |s| < HEADER + size || size == 0 then c else Handle(c, s[2], size, s[HEADER..])
  }

  function Parse(c: Card, s: seq<Byte>): Card
    decreases |s|
  {
    if |s| <= HEADER then c
    else
      var next := HEADER + Val16(s, 0);
      if |s| < next then Step(c, s) else Parse(Step(c, s), s[next..])
  }

  // ---- Building ----

  function Wire(fs: seq<Field>): seq<Byte>
  {
    if fs == [] then [] else FieldBytes(fs[0]) + Wire(fs[1..])
  }

  function FlagFields(c: Card): seq<Field>
  {
    if c.links != [] then [Field(GROUP_FLAG, [0x47])] else []
  }

  /** A blank first name stands in front of a last name that is alone. */
  function NameFields(c: Card): seq<Field>
  {
    (if c.firstName != [] then [TextField(NAME, c.firstName)] else [])
    + if c.lastName == [] then []
      else (if c.firstName == [] then [TextField(NAME, [])] else []) + [TextField(NAME, c.lastName)]
  }

  function IdField(recordId: Word32): (f: Field)
    ensures f.code == 0x55 && |f.payload| == 4 && Val32(f.payload, 0) == recordId
  {
    Val32OfLe32([], recordId, []);
    assert [] + Le32(recordId) + [] == Le32(recordId);
    Field(UNIQUEID, Le32(recordId))
  }

  function EmailFields(emails: seq<seq<Byte>>): seq<Field>
  {
    if emails == [] then []
    else (if emails[0] == [] then [] else [TextField(EMAIL, emails[0])]) + EmailFields(emails[1..])
  }

  function MemberFields(members: map<Byte, seq<Byte>>, codes: seq<Byte>): seq<Field>
    requires forall code :: code in codes ==> code in members
  {
    if codes == [] then []
    else
      (if members[codes[0]] == [] then [] else [TextField(codes[0], members[codes[0]])])
      + MemberFields(members, codes[1..])
  }

  function LinkFields(links: seq<GroupLink>): seq<Field>
  {
    if links == [] then []
    else [Field(GROUP_LINK, Le32(links[0].link) + Le16(links[0].unknown))] + LinkFields(links[1..])
  }

  function CategoryFields(c: Card): seq<Field>
  {
    if c.categories == [] then [] else [TextField(CATEGORY, Joined(c.categories))]
  }

  function DateFields(code: Byte, d: Date): seq<Field>
  {
    if HasData(d) then [TextField(code, ToBBString(d))] else []
  }

  /** Everything in front of the unknown fields. */
  function KnownBytes(c: Card): seq<Byte>
    requires c.Valid()
  {
    Wire(FlagFields(c)) + Wire(NameFields(c)) + Wire([IdField(c.recordId)]) + Wire(EmailFields(c.emails))
    + Wire(MemberFields(c.members, TABLE)) + Wire(LinkFields(c.links)) + Wire(CategoryFields(c))
    + Wire(DateFields(BIRTHDAY, c.birthday)) + Wire(DateFields(ANNIVERSARY, c.anniversary))
  }

  /** The device requires a name or a company name. */
  predicate Buildable(c: Card)
    requires c.Valid()
  {
    assert InTable(COMPANY);
    c.firstName != [] || c.lastName != [] || c.members[COMPANY] != []
  }

  function Built(c: Card): seq<Byte>
    requires c.Valid()
  {
    KnownBytes(c) + Wire(c.unknowns)
  }

  // ---- Parsing one section after the other ----

  /** Parsing these bytes turns c into d, whatever follows them. */
  ghost predicate Takes(bytes: seq<Byte>, c: Card, d: Card)
  {
    forall rest: seq<Byte> :: Parse(c, bytes + rest) == Parse(d, rest)
  }

  lemma TakesThen(a: seq<Byte>, b: seq<Byte>, c: Card, d: Card, e: Card)
    requires Takes(a, c, d) && Takes(b, d, e)
    ensures Takes(a + b, c, e)
  {
    hide Parse;
    forall rest: seq<Byte>
      ensures Parse(c, a + b + rest) == Parse(e, rest)
    {
      assert a + b + rest == a + (b + rest);
      assert Parse(c, a + (b + rest)) == Parse(d, b + rest);
    }
  }

  lemma TakesNothing(c: Card)
    ensures Takes([], c, c)
  {
    hide Parse;
    forall rest: seq<Byte>
      ensures Parse(c, [] + rest) == Parse(c, rest)
    {
      assert [] + rest == rest;
    }
  }

  /** The size, the type and the payload of a built field, as the parser sees them. */
  lemma HeaderOf(f: Field, rest: seq<Byte>)
    requires |f.payload| < 0x1_0000
    ensures
      var s := FieldBytes(f) + rest;
      && |s| == HEADER + |f.payload| + |rest| && Val16(s, 0) == |f.payload| && s[2] == f.code
      && s[HEADER..] == f.payload + rest && s[HEADER + |f.payload|..] == rest
  {
    var n := |f.payload|;
    Val16OfLe16([], n, [f.code] + f.payload + rest);
    assert [] + Le16(n) + ([f.code] + f.payload + rest) == FieldBytes(f) + rest;
    HalvesOfLow16(n);
  }

  lemma ParseField(c: Card, f: Field, rest: seq<Byte>)
    requires |f.payload| < 0x1_0000
    ensures Parse(c, FieldBytes(f) + rest)
         == Parse(if f.payload == [] then c else Handle(c, f.code, |f.payload|, f.payload + rest), rest)
  {
    hide Handle, FieldBytes;
    HeaderOf(f, rest);
    if f.payload == [] && rest == [] {
      assert FieldBytes(f) + rest == FieldBytes(f);
    }
  }

  /** What a text field stores in the contact, whatever follows it. */
  function WithText(c: Card, code: Byte, text: seq<Byte>): Card
  {
    Handle(c, code, |text| + 1, text + [0])
  }

  lemma TakesText(c: Card, code: Byte, text: seq<Byte>)
    requires |text| < 0xFFFF && code != GROUP_LINK
    ensures Takes(Wire([TextField(code, text)]), c, WithText(c, code, text))
  {
    hide Parse;
    var f := TextField(code, text);
    WireOfOne(f);
    forall rest: seq<Byte>
      ensures Parse(c, Wire([f]) + rest) == Parse(WithText(c, code, text), rest)
    {
      ParseField(c, f, rest);
      assert (f.payload + rest)[..|text| + 1] == f.payload == f.payload[..|text| + 1];
    }
  }

  lemma WireOfOne(f: Field)
    ensures Wire([f]) == FieldBytes(f)
  {
    assert [f][1..] == [];
  }

  lemma {:induction false} WireOfConcat(a: seq<Field>, b: seq<Field>)
    ensures Wire(a + b) == Wire(a) + Wire(b)
    decreases |a|
  {
    if a == [] {
      assert a + b == b;
    } else {
      assert (a + b)[1..] == a[1..] + b;
      WireOfConcat(a[1..], b);
    }
  }

  lemma TakesFirst(f: Field, fs: seq<Field>, c: Card, d: Card, e: Card)
    requires Takes(Wire([f]), c, d) && Takes(Wire(fs), d, e)
    ensures Takes(Wire([f] + fs), c, e)
  {
    hide Takes;
    WireOfConcat([f], fs);
    TakesThen(Wire([f]), Wire(fs), c, d, e);
  }

  /** The type codes with a case of their own, and the one of the record id. */
  predicate Special(code: Byte)
  {
    code == EMAIL || code == NAME || code == GROUP_FLAG || code == GROUP_LINK || code == CATEGORY
    || code == BIRTHDAY || code == ANNIVERSARY || code == UNIQUEID
  }

  lemma LowCodesAreNotSpecial(code: Byte)
    requires code in LOW_CODES
    ensures !Special(code)
  {
    hide TABLE, MIDDLE_CODES, HIGH_CODES;
  }

  lemma MiddleCodesAreNotSpecial(code: Byte)
    requires code in MIDDLE_CODES
    ensures !Special(code)
  {
    hide TABLE, LOW_CODES, HIGH_CODES;
  }

  lemma HighCodesAreNotSpecial(code: Byte)
    requires code in HIGH_CODES
    ensures !Special(code)
  {
    hide TABLE, LOW_CODES, MIDDLE_CODES;
  }

  lemma TableHasNoSpecial(code: Byte)
    requires InTable(code)
    ensures !Special(code)
  {
    hide Special, LOW_CODES, MIDDLE_CODES, HIGH_CODES;
    if code in LOW_CODES {
      LowCodesAreNotSpecial(code);
    } else if code in MIDDLE_CODES {
      MiddleCodesAreNotSpecial(code);
    } else {
      HighCodesAreNotSpecial(code);
    }
  }

  lemma SpecialCodes()
    ensures forall code :: Special(code) ==> !InTable(code)
  {
    forall code | InTable(code)
      ensures !Special(code)
    {
      TableHasNoSpecial(code);
    }
  }

  // ---- What each section becomes ----

  lemma TakesFlag(c: Card, d: Card)
    ensures Takes(Wire(FlagFields(c)), d, d)
  {
    hide Parse, InTable;
    SpecialCodes();
    TakesNothing(d);
    if c.links != [] {
      var f := Field(GROUP_FLAG, [0x47]);
      WireOfOne(f);
      forall rest: seq<Byte>
        ensures Parse(d, Wire([f]) + rest) == Parse(d, rest)
      {
        ParseField(d, f, rest);
      }
    }
  }

  /** The names as they are after a round trip. */
  function WithNames(d: Card, c: Card): Card
  {
    d.(firstName := TrimNuls(c.firstName), lastName := TrimNuls(c.lastName),
       firstNameSeen := c.firstName != [] && c.lastName == [])
  }

  lemma NameTexts(d: Card, text: seq<Byte>)
    ensures WithText(d, NAME, text)
         == if d.firstName != [] || d.firstNameSeen then d.(lastName := TrimNuls(text), firstNameSeen := false)
            else d.(firstName := TrimNuls(text), firstNameSeen := true)
  {
    hide InTable, Tokens, TrimNuls, FromBBString, Val32, Val16;
    SpecialCodes();
    TrimOfText(text);
    assert (text + [0])[..|text| + 1] == text + [0];
  }

  lemma TakesNames(c: Card, d: Card)
    requires |c.firstName| < 0xFFFF && |c.lastName| < 0xFFFF
    requires d.firstName == [] && d.lastName == [] && !d.firstNameSeen
    ensures Takes(Wire(NameFields(c)), d, WithNames(d, c))
  {
    hide Takes, WithText, Wire, TrimNuls;
    TrimOfText([]);
    TrimOfText(c.firstName);
    if c.firstName == [] && c.lastName == [] {
      TakesNothing(d);
      WireOfNothing();
      assert NameFields(c) == [];
    } else {
      var first := d.(firstName := TrimNuls(c.firstName), firstNameSeen := true);
      NameTexts(d, c.firstName);
      TakesText(d, NAME, c.firstName);
      if c.lastName == [] {
        assert NameFields(c) == [TextField(NAME, c.firstName)];
      } else {
        NameTexts(first, c.lastName);
        TakesText(first, NAME, c.lastName);
        TakesFirst(TextField(NAME, c.firstName), [TextField(NAME, c.lastName)], d, first, WithNames(d, c));
        assert NameFields(c) == [TextField(NAME, c.firstName)] + [TextField(NAME, c.lastName)];
      }
    }
  }

  lemma WireOfNothing()
    ensures Wire([]) == [] && TrimNuls([]) == []
  {
  }

  lemma TakesId(c: Card, d: Card)
    ensures Takes(Wire([IdField(c.recordId)]), d, d.(unknowns := d.unknowns + [IdField(c.recordId)]))
  {
    hide Parse, InTable, Le32;
    SpecialCodes();
    var f := IdField(c.recordId);
    WireOfOne(f);
    forall rest: seq<Byte>
      ensures Parse(d, Wire([f]) + rest) == Parse(d.(unknowns := d.unknowns + [f]), rest)
    {
      ParseField(d, f, rest);
      assert (f.payload + rest)[..4] == f.payload;
    }
  }

  /** The addresses that are written, without the NULs they end in. */
  function KeptEmails(emails: seq<seq<Byte>>): seq<seq<Byte>>
  {
    if emails == [] then []
    else (if emails[0] == [] then [] else [TrimNuls(emails[0])]) + KeptEmails(emails[1..])
  }

  lemma EmailsStep(emails: seq<seq<Byte>>)
    requires emails != []
    ensures EmailFields(emails) == if emails[0] == [] then EmailFields(emails[1..])
      else [TextField(EMAIL, emails[0])] + EmailFields(emails[1..])
    ensures KeptEmails(emails) == if emails[0] == [] then KeptEmails(emails[1..])
      else [TrimNuls(emails[0])] + KeptEmails(emails[1..])
  {
  }

  lemma EmailText(d: Card, text: seq<Byte>)
    ensures WithText(d, EMAIL, text) == d.(emails := d.emails + [TrimNuls(text)])
  {
    SpecialCodes();
    TrimOfText(text);
    assert (text + [0])[..|text| + 1] == text + [0];
  }

  lemma TakesFirstEmail(text: seq<Byte>, fs: seq<Field>, d: Card, e: Card)
    requires |text| < 0xFFFF && Takes(Wire(fs), d.(emails := d.emails + [TrimNuls(text)]), e)
    ensures Takes(Wire([TextField(EMAIL, text)] + fs), d, e)
  {
    hide Takes, Wire, WithText, TrimNuls;
    EmailText(d, text);
    TakesText(d, EMAIL, text);
    TakesFirst(TextField(EMAIL, text), fs, d, WithText(d, EMAIL, text), e);
  }

  lemma {:induction false} TakesEmails(emails: seq<seq<Byte>>, d: Card)
    requires forall e :: e in emails ==> |e| < 0xFFFF
    ensures Takes(Wire(EmailFields(emails)), d, d.(emails := d.emails + KeptEmails(emails)))
    decreases |emails|
  {
    hide Takes, Wire, TrimNuls, TextField;
    if emails == [] {
      WireOfNothing();
      assert d.emails + KeptEmails(emails) == d.emails;
      TakesNothing(d);
    } else {
      EmailsStep(emails);
      hide EmailFields, KeptEmails;
      var head, tail := emails[0], emails[1..];
      assert head in emails && forall e :: e in tail ==> e in emails;
      if head == [] {
        TakesEmails(tail, d);
      } else {
        var kept := KeptEmails(tail);
        assert d.emails + [TrimNuls(head)] + kept == d.emails + ([TrimNuls(head)] + kept);
        TakesEmails(tail, d.(emails := d.emails + [TrimNuls(head)]));
        TakesFirstEmail(head, EmailFields(tail), d, d.(emails := d.emails + KeptEmails(emails)));
      }
    }
  }

  /** The members of base overwritten by the non-empty ones of m, in the order of codes. */
  function Filled(base: map<Byte, seq<Byte>>, m: map<Byte, seq<Byte>>, codes: seq<Byte>): map<Byte, seq<Byte>>
    requires forall code :: code in codes ==> code in m
    decreases |codes|
  {
    if codes == [] then base
    else
      var text := m[codes[0]];
      Filled(if text == [] then base else base[codes[0] := TrimNuls(text)], m, codes[1..])
  }

  lemma {:induction false} TakesMembers(m: map<Byte, seq<Byte>>, codes: seq<Byte>, d: Card)
    requires forall code :: code in codes ==> code in m && |m[code]| < 0xFFFF && InTable(code)
    ensures Takes(Wire(MemberFields(m, codes)), d, d.(members := Filled(d.members, m, codes)))
    decreases |codes|
  {
    hide Takes, WithText, Wire, TrimNuls, InTable;
    WireOfNothing();
    if codes == [] {
      TakesNothing(d);
    } else {
      var code, text := codes[0], m[codes[0]];
      if text == [] {
        assert MemberFields(m, codes) == MemberFields(m, codes[1..]);
        TakesMembers(m, codes[1..], d);
      } else {
        var next := d.(members := d.members[code := TrimNuls(text)]);
        MemberText(d, code, text);
        TakesText(d, code, text);
        TakesMembers(m, codes[1..], next);
        TakesFirst(TextField(code, text), MemberFields(m, codes[1..]), d, next,
                   next.(members := Filled(next.members, m, codes[1..])));
      }
    }
  }

  lemma MemberText(d: Card, code: Byte, text: seq<Byte>)
    requires InTable(code)
    ensures WithText(d, code, text) == d.(members := d.members[code := TrimNuls(text)]) && code != GROUP_LINK
  {
    SpecialCodes();
    hide InTable;
    TrimOfText(text);
    assert (text + [0])[..|text| + 1] == text + [0];
  }

  lemma {:induction false} FilledAt(base: map<Byte, seq<Byte>>, m: map<Byte, seq<Byte>>, codes: seq<Byte>, code: Byte)
    requires forall k :: k in codes ==> k in m
    ensures code in codes && m[code] != [] ==>
              code in Filled(base, m, codes) && Filled(base, m, codes)[code] == TrimNuls(m[code])
    ensures code !in codes || m[code] == [] ==>
              (code in Filled(base, m, codes) <==> code in base)
              && (code in base ==> Filled(base, m, codes)[code] == base[code])
    decreases |codes|
  {
    hide TrimNuls;
    if codes != [] {
      var text := m[codes[0]];
      FilledAt(if text == [] then base else base[codes[0] := TrimNuls(text)], m, codes[1..], code);
      assert code in codes <==> code == codes[0] || code in codes[1..];
    }
  }

  /** All members after a round trip into a blank contact. */
  lemma FilledFromBlank(c: Card)
    requires c.Valid()
    ensures forall code :: code in Filled(NoMembers(), c.members, TABLE) <==> InTable(code)
    ensures forall code :: InTable(code) ==> Filled(NoMembers(), c.members, TABLE)[code] == TrimNuls(c.members[code])
  {
    WireOfNothing();
    hide NoMembers, TrimNuls, Filled;
    InTableMeans();
    hide InTable, TABLE;
    forall code: Byte
      ensures code in Filled(NoMembers(), c.members, TABLE) <==> InTable(code)
      ensures InTable(code) ==> Filled(NoMembers(), c.members, TABLE)[code] == TrimNuls(c.members[code])
    {
      FilledAt(NoMembers(), c.members, TABLE, code);
    }
  }

  lemma InTableMeans()
    ensures forall code: Byte :: code in TABLE <==> InTable(code)
  {
  }

  lemma {:induction false} TakesLinks(links: seq<GroupLink>, d: Card)
    ensures Takes(Wire(LinkFields(links)), d, d.(links := d.links + links))
    decreases |links|
  {
    hide Takes, Wire;
    WireOfNothing();
    if links == [] {
      assert d.links + links == d.links;
      TakesNothing(d);
    } else {
      var next := d.(links := d.links + [links[0]]);
      TakesLink(links[0], d);
      TakesLinks(links[1..], next);
      assert next.links + links[1..] == d.links + links;
      TakesFirst(LinkFields(links)[0], LinkFields(links[1..]), d, next, next.(links := next.links + links[1..]));
    }
  }

  lemma LinkBytes(g: GroupLink, rest: seq<Byte>)
    ensures
      var raw := Le32(g.link) + Le16(g.unknown) + rest;
      Val32(raw, 0) == g.link && Val16(raw, 4) == g.unknown
  {
    var low, high := Le32(g.link), Le16(g.unknown);
    Val32OfLe32([], g.link, high + rest);
    Val16OfLe16(low, g.unknown, rest);
    assert [] + low + (high + rest) == low + high + rest;
  }

  lemma TakesLink(g: GroupLink, d: Card)
    ensures Takes(Wire([Field(GROUP_LINK, Le32(g.link) + Le16(g.unknown))]), d, d.(links := d.links + [g]))
  {
    hide Parse, InTable, Le32, Le16, Val32, Val16;
    SpecialCodes();
    var f := Field(GROUP_LINK, Le32(g.link) + Le16(g.unknown));
    WireOfOne(f);
    forall rest: seq<Byte>
      ensures Parse(d, Wire([f]) + rest) == Parse(d.(links := d.links + [g]), rest)
    {
      ParseField(d, f, rest);
      LinkBytes(g, rest);
    }
  }

  /** The names that come back from the text of a list. */
  function KeptCategories(names: seq<seq<Byte>>): seq<seq<Byte>>
  {
    if names == [] then [] else Tokens(TrimNuls(Joined(names)))
  }

  lemma TakesCategories(c: Card, d: Card)
    requires |Joined(c.categories)| < 0xFFFF && d.categories == []
    ensures Takes(Wire(CategoryFields(c)), d, d.(categories := KeptCategories(c.categories)))
  {
    hide Takes, Wire, InTable, Tokens, Joined, TrimNuls;
    WireOfNothing();
    if c.categories == [] {
      TakesNothing(d);
    } else {
      SpecialCodes();
      var text := Joined(c.categories);
      TrimOfText(text);
      assert (text + [0])[..|text| + 1] == text + [0];
      TakesText(d, CATEGORY, text);
    }
  }

  lemma TakesBirthday(c: Card, d: Card)
    requires |ToBBString(c.birthday)| < 0xFFFF && d.birthday == NO_DATE
    ensures Takes(Wire(DateFields(BIRTHDAY, c.birthday)), d, d.(birthday := c.birthday))
  {
    hide Takes, Wire, InTable, TrimNuls, ToBBString, FromBBString;
    WireOfNothing();
    if HasData(c.birthday) {
      SpecialCodes();
      DateText(c.birthday);
      TakesText(d, BIRTHDAY, ToBBString(c.birthday));
    } else {
      TakesNothing(d);
    }
  }

  lemma TakesAnniversary(c: Card, d: Card)
    requires |ToBBString(c.anniversary)| < 0xFFFF && d.anniversary == NO_DATE
    ensures Takes(Wire(DateFields(ANNIVERSARY, c.anniversary)), d, d.(anniversary := c.anniversary))
  {
    hide Takes, Wire, InTable, TrimNuls, ToBBString, FromBBString;
    WireOfNothing();
    if HasData(c.anniversary) {
      SpecialCodes();
      DateText(c.anniversary);
      TakesText(d, ANNIVERSARY, ToBBString(c.anniversary));
    } else {
      TakesNothing(d);
    }
  }

  /** A date's text ends in a digit, so nothing of it is trimmed. */
  lemma DateText(d: Date)
    ensures
      var text := ToBBString(d);
      (text + [0])[..|text| + 1] == text + [0] && FromBBString(TrimNuls(text + [0])) == Some(d)
  {
    var text := ToBBString(d);
    EndsInDigit(d.year);
    assert text[|text| - 1] == Padded(d.year)[|Padded(d.year)| - 1];
    hide ToBBString, FromBBString;
    TrimOfText(text);
    DateRoundTrip(d);
    assert (text + [0])[..|text| + 1] == text + [0];
  }

  lemma EndsInDigit(n: int)
    ensures Padded(n) != [] && IsDigit(Padded(n)[|Padded(n)| - 1])
  {
    hide Digits;
    assert IsDigit(Digits(if n < 0 then -n else n)[|Digits(if n < 0 then -n else n)| - 1]);
  }

  // ---- The round trip ----

  /** Every field fits the 16-bit size it is stored with. */
  predicate Fits(c: Card)
  {
    && (forall e :: e in c.emails ==> |e| < 0xFFFF)
    && |c.firstName| < 0xFFFF && |c.lastName| < 0xFFFF
    && (forall code :: code in c.members ==> |c.members[code]| < 0xFFFF)
    && |Joined(c.categories)| < 0xFFFF
    && |ToBBString(c.birthday)| < 0xFFFF && |ToBBString(c.anniversary)| < 0xFFFF
    && (forall u :: u in c.unknowns ==> |u.payload| < 0x1_0000)
  }

  /** The contact that the known fields of c become, in a blank one with the given ids. */
  function Reread(c: Card, recType: Byte, recordId: Word32): Card
    requires c.Valid()
  {
    Card(recType, recordId,
         KeptEmails(c.emails), TrimNuls(c.firstName), TrimNuls(c.lastName), c.firstName != [] && c.lastName == [],
         Filled(NoMembers(), c.members, TABLE), c.birthday, c.anniversary,
         KeptCategories(c.categories), c.links, [IdField(c.recordId)])
  }

  lemma TakesKnown(c: Card, recType: Byte, recordId: Word32)
    requires c.Valid() && Fits(c)
    ensures Takes(KnownBytes(c), Blank(recType, recordId), Reread(c, recType, recordId))
  {
    hide Takes, Wire, Filled, KeptEmails, KeptCategories, NoMembers, TrimNuls, FlagFields, NameFields, EmailFields,
      MemberFields, LinkFields, CategoryFields, DateFields, IdField, InTable, Joined, ToBBString;
    InTableMeans();
    hide TABLE;
    var d0 := Blank(recType, recordId);
    TakesFlag(c, d0);
    var s, d1 := Wire(FlagFields(c)), WithNames(d0, c);
    TakesNames(c, d0);
    TakesThen(s, Wire(NameFields(c)), d0, d0, d1);
    s := s + Wire(NameFields(c));
    var d2 := d1.(unknowns := [IdField(c.recordId)]);
    TakesId(c, d1);
    assert d1.unknowns + [IdField(c.recordId)] == [IdField(c.recordId)];
    TakesThen(s, Wire([IdField(c.recordId)]), d0, d1, d2);
    s := s + Wire([IdField(c.recordId)]);
    var d3 := d2.(emails := KeptEmails(c.emails));
    TakesEmails(c.emails, d2);
    assert [] + KeptEmails(c.emails) == KeptEmails(c.emails);
    TakesThen(s, Wire(EmailFields(c.emails)), d0, d2, d3);
    s := s + Wire(EmailFields(c.emails));
    var d4 := d3.(members := Filled(NoMembers(), c.members, TABLE));
    TakesMembers(c.members, TABLE, d3);
    TakesThen(s, Wire(MemberFields(c.members, TABLE)), d0, d3, d4);
    s := s + Wire(MemberFields(c.members, TABLE));
    var d5 := d4.(links := c.links);
    TakesLinks(c.links, d4);
    assert [] + c.links == c.links;
    TakesThen(s, Wire(LinkFields(c.links)), d0, d4, d5);
    s := s + Wire(LinkFields(c.links));
    var d6 := d5.(categories := KeptCategories(c.categories));
    TakesCategories(c, d5);
    TakesThen(s, Wire(CategoryFields(c)), d0, d5, d6);
    s := s + Wire(CategoryFields(c));
    var d7 := d6.(birthday := c.birthday);
    TakesBirthday(c, d6);
    TakesThen(s, Wire(DateFields(BIRTHDAY, c.birthday)), d0, d6, d7);
    s := s + Wire(DateFields(BIRTHDAY, c.birthday));
    TakesAnniversary(c, d7);
    TakesThen(s, Wire(DateFields(ANNIVERSARY, c.anniversary)), d0, d7, Reread(c, recType, recordId));
  }

  /** The parser has a meaning of its own for this type code. */
  predicate Handled(code: Byte)
  {
    InTable(code) || (Special(code) && code != UNIQUEID)
  }

  predicate StaysUnknown(u: Field)
  {
    u.payload != [] && !Handled(u.code)
  }

  function KeptUnknowns(us: seq<Field>): (r: seq<Field>)
    ensures |r| <= |us|
  {
    if us == [] then [] else (if StaysUnknown(us[0]) then [us[0]] else []) + KeptUnknowns(us[1..])
  }

  /** Whatever the other fields do, these are the unknown ones that arrive. */
  lemma {:induction false} ParseUnknowns(us: seq<Field>, d: Card)
    requires forall u :: u in us ==> |u.payload| < 0x1_0000
    ensures Parse(d, Wire(us)).unknowns == d.unknowns + KeptUnknowns(us)
    ensures KeptUnknowns(us) == us ==> Parse(d, Wire(us)) == d.(unknowns := d.unknowns + us)
    decreases |us|
  {
    hide Parse, Wire, Handle, StaysUnknown;
    if us == [] {
      assert d.unknowns + us == d.unknowns;
      ParseNothing(d);
    } else {
      var u := us[0];
      var next := AfterUnknown(d, u, Wire(us[1..]));
      ParseFirst(us, d);
      HandleUnknown(d, u, Wire(us[1..]));
      ParseUnknowns(us[1..], next);
      hide AfterUnknown;
      var mine := if StaysUnknown(u) then [u] else [];
      assert next.unknowns + KeptUnknowns(us[1..]) == d.unknowns + (mine + KeptUnknowns(us[1..]));
      if KeptUnknowns(us) == us {
        assert StaysUnknown(u);
        assert KeptUnknowns(us)[1..] == KeptUnknowns(us[1..]);
        assert next.unknowns + us[1..] == d.unknowns + us;
      }
    }
  }

  function AfterUnknown(d: Card, u: Field, rest: seq<Byte>): Card
  {
    if u.payload == [] then d else Handle(d, u.code, |u.payload|, u.payload + rest)
  }

  lemma ParseFirst(us: seq<Field>, d: Card)
    requires us != [] && |us[0].payload| < 0x1_0000
    ensures Parse(d, Wire(us)) == Parse(AfterUnknown(d, us[0], Wire(us[1..])), Wire(us[1..]))
  {
    hide Parse, Handle, FieldBytes;
    ParseField(d, us[0], Wire(us[1..]));
  }

  lemma ParseNothing(d: Card)
    ensures Parse(d, Wire([])) == d
  {
  }

  lemma HandleUnknown(d: Card, u: Field, rest: seq<Byte>)
    ensures
      var next := AfterUnknown(d, u, rest);
      && next.unknowns == d.unknowns + (if StaysUnknown(u) then [u] else [])
      && (StaysUnknown(u) ==> next == d.(unknowns := d.unknowns + [u]))
  {
    hide InTable, Tokens, TrimNuls, FromBBString, Val32, Val16;
    assert (u.payload + rest)[..|u.payload|] == u.payload;
    assert d.unknowns + [] == d.unknowns;
  }

  /** What the device format can carry. */
  predicate WellFormed(c: Card)
  {
    && (forall e :: e in c.emails ==> e != [] && Trimmed(e))
    && Trimmed(c.firstName) && Trimmed(c.lastName)
    && (forall code :: code in c.members ==> Trimmed(c.members[code]))
    && CategoriesFit(c.categories)
    && (forall u :: u in c.unknowns ==> StaysUnknown(u))
  }

  predicate CategoriesFit(names: seq<seq<Byte>>)
  {
    (forall n :: n in names ==> Plain(n)) && (names != [] ==> Trimmed(names[|names| - 1]))
  }

  lemma {:induction false} EmailsStay(emails: seq<seq<Byte>>)
    ensures |KeptEmails(emails)| <= |emails|
    ensures KeptEmails(emails) == emails <==> forall e :: e in emails ==> e != [] && Trimmed(e)
    decreases |emails|
  {
    hide TrimNuls, Trimmed;
    if emails != [] {
      var head, tail := emails[0], emails[1..];
      EmailsStay(tail);
      TrimOfText(head);
      assert emails == [head] + tail && (forall e :: e in tail ==> e in emails) && head in emails;
      if KeptEmails(emails) == emails {
        assert head != [];
        assert KeptEmails(emails)[0] == TrimNuls(head) == emails[0];
        assert KeptEmails(tail) == KeptEmails(emails)[1..] == tail;
        forall e | e in emails
          ensures e != [] && Trimmed(e)
        {
          assert e == head || e in tail;
        }
      }
    }
  }

  lemma {:induction false} UnknownsStay(us: seq<Field>)
    ensures KeptUnknowns(us) == us <==> forall u :: u in us ==> StaysUnknown(u)
    decreases |us|
  {
    hide StaysUnknown;
    if us != [] {
      UnknownsStay(us[1..]);
      assert us == [us[0]] + us[1..];
      if KeptUnknowns(us) == us {
        assert StaysUnknown(us[0]);
        assert KeptUnknowns(us)[1..] == KeptUnknowns(us[1..]);
      }
    }
  }

  /** A category list comes back from its field exactly when its names are plain and the last one does not
      end in a NUL. */
  lemma CategoriesStay(names: seq<seq<Byte>>)
    ensures KeptCategories(names) == names <==> CategoriesFit(names)
  {
    if names != [] {
      hide Tokens, Joined, Plain;
      var text := Joined(names);
      if KeptCategories(names) == names {
        TokensArePlain(TrimNuls(text), names);
      }
      if forall n :: n in names ==> Plain(n) {
        LastCategory(names);
      }
    }
  }

  lemma LastCategory(names: seq<seq<Byte>>)
    requires names != [] && forall n :: n in names ==> Plain(n)
    ensures Tokens(TrimNuls(Joined(names))) == names <==> Trimmed(names[|names| - 1])
  {
    hide Tokens, Joined, TrimNuls;
    var n := |names| - 1;
    var init, last := names[..n], names[n];
    assert names == init + [last] && Plain(last) && (init != [] ==> Plain(init[0]));
    JoinedOfSnoc(init, last);
    assert Trimmed(BeforeLast(init));
    TrimOfConcat(BeforeLast(init), last);
    TrimOfText(last);
    if Trimmed(last) {
      TokensOfJoined(names);
    } else {
      assert COMMA !in TrimNuls(last) by {
        assert TrimNuls(last) <= last;
      }
      ShorterLast(init, last, TrimNuls(last));
    }
  }

  lemma MembersStay(c: Card)
    requires c.Valid()
    ensures Filled(NoMembers(), c.members, TABLE) == c.members
      <==> forall code :: code in c.members ==> Trimmed(c.members[code])
  {
    hide NoMembers, Filled, InTable, TABLE, TrimNuls, Trimmed;
    FilledFromBlank(c);
    forall code | code in c.members
      ensures TrimNuls(c.members[code]) == c.members[code] <==> Trimmed(c.members[code])
    {
      TrimOfText(c.members[code]);
    }
  }

  /** The contact c as it comes back, in a record with the given ids: the record id is now a first unknown
      field, and the parser still waits for a last name when there was only a first one. */
  function Returned(c: Card, recType: Byte, recordId: Word32): Card
  {
    c.(recType := recType, recordId := recordId, unknowns := [IdField(c.recordId)] + c.unknowns,
       firstNameSeen := c.firstName != [] && c.lastName == [])
  }

  /** A contact whose fields fit their sizes comes back from the wire with exactly one more unknown field,
      its own record id, if and only if it is well formed. */
  lemma ContactRoundTrip(c: Card, recType: Byte, recordId: Word32)
    requires c.Valid() && Fits(c)
    ensures Parse(Blank(recType, recordId), Built(c)) == Returned(c, recType, recordId) <==> WellFormed(c)
  {
    hide Takes, Parse, Wire, KnownBytes, Filled, KeptEmails, KeptCategories, KeptUnknowns, NoMembers, TrimNuls, IdField,
      Trimmed, CategoriesFit, StaysUnknown, Blank, TABLE;
    var d := Reread(c, recType, recordId);
    ParseKnown(c, recType, recordId);
    ParseUnknowns(c.unknowns, d);
    EmailsStay(c.emails);
    TrimOfText(c.firstName);
    TrimOfText(c.lastName);
    MembersStay(c);
    CategoriesStay(c.categories);
    UnknownsStay(c.unknowns);
    var id := [IdField(c.recordId)];
    if Parse(Blank(recType, recordId), Built(c)) == Returned(c, recType, recordId) {
      assert (id + KeptUnknowns(c.unknowns))[1..] == KeptUnknowns(c.unknowns);
      assert (id + c.unknowns)[1..] == c.unknowns;
    }
  }

  /** A contact that has only a company. */
  function CompanyCard(company: seq<Byte>, recordId: Word32): (c: Card)
    ensures c.Valid() && c.members[33] == company && c.firstName == [] && c.lastName == []
  {
    InTableMeans();
    assert 33 in MIDDLE_CODES;
    Blank(0, recordId).(members := NoMembers()[33 := company])
  }

  lemma CompanyFits(company: seq<Byte>, recordId: Word32)
    requires |company| < 0xFFFF && Trimmed(company)
    ensures Fits(CompanyCard(company, recordId)) && WellFormed(CompanyCard(company, recordId))
  {
    hide InTable, TABLE, MIDDLE_CODES, StaysUnknown;
    assert Digits(0) == [ZERO] && Digits(1) == [ZERO + 1];
    assert |ToBBString(NO_DATE)| == 8;
  }

  /** Such a contact is built, and read back with its company and no names. */
  lemma CompanyOnly(company: seq<Byte>, recordId: Word32)
    requires company != [] && |company| < 0xFFFF && Trimmed(company)
    ensures
      var c := CompanyCard(company, recordId);
      && Buildable(c)
      && var back := Parse(Blank(0, recordId), Built(c));
        && back.firstName == [] && back.lastName == [] && back.members == c.members
        && back.unknowns == [IdField(recordId)]
  {
    hide Parse, Built, Fits, WellFormed, InTable, TABLE;
    var c := CompanyCard(company, recordId);
    CompanyFits(company, recordId);
    ContactRoundTrip(c, 0, recordId);
    assert [IdField(recordId)] + c.unknowns == [IdField(recordId)];
  }

  // ---- The type codes of what is built ----

  predicate AllOfCode(fs: seq<Field>, code: Byte)
  {
    forall f :: f in fs ==> f.code == code
  }

  lemma {:induction false} AddressCodes(emails: seq<seq<Byte>>)
    ensures AllOfCode(EmailFields(emails), 1)
    decreases |emails|
  {
    if emails != [] {
      AddressCodes(emails[1..]);
    }
  }

  lemma {:induction false} LinkCodes(links: seq<GroupLink>)
    ensures AllOfCode(LinkFields(links), 52) && |LinkFields(links)| == |links|
    ensures forall f :: f in LinkFields(links) ==> |f.payload| == 6
    decreases |links|
  {
    if links != [] {
      LinkCodes(links[1..]);
    }
  }

  /** Names are stored under 32, addresses under 1, links under 52, categories under 59, birthday and anniversary under
      82 and 83, the flag for links under 44. */
  lemma FieldCodes(c: Card)
    ensures AllOfCode(FlagFields(c), 44) && AllOfCode(NameFields(c), 32) && AllOfCode(EmailFields(c.emails), 1)
    ensures AllOfCode(LinkFields(c.links), 52) && AllOfCode(CategoryFields(c), 59)
    ensures AllOfCode(DateFields(BIRTHDAY, c.birthday), 82) && AllOfCode(DateFields(ANNIVERSARY, c.anniversary), 83)
  {
    AddressCodes(c.emails);
    LinkCodes(c.links);
    hide EmailFields, LinkFields, Joined, ToBBString;
  }

  // ---- What the parser does not give back ----

  /** A contact with group links starts with the flag 'G', which the parser skips. */
  lemma GroupFlagIsFirst(c: Card)
    requires c.Valid()
    ensures c.links != [] ==> [1, 0, 44, 0x47] <= Built(c)
    ensures [1, 0, 44] <= Built(c) ==> c.links != []
  {
    hide MemberFields, LinkFields, CategoryFields, DateFields, EmailFields, InTable, TABLE;
    if c.links != [] {
      WireOfOne(Field(GROUP_FLAG, [0x47]));
      assert FieldBytes(Field(GROUP_FLAG, [0x47])) == [1, 0, 44, 0x47];
    } else {
      FirstCode(c);
    }
  }

  lemma FirstCode(c: Card)
    requires c.Valid() && c.links == []
    ensures |Built(c)| > 3 && Built(c)[2] != 44
  {
    hide MemberFields, LinkFields, CategoryFields, DateFields, EmailFields, InTable, TABLE, Le16;
    var first := if NameFields(c) != [] then NameFields(c)[0] else IdField(c.recordId);
    WireOfNothing();
    WireOfOne(IdField(c.recordId));
    assert Wire(FlagFields(c)) == [];
    assert FieldBytes(first)[2] == first.code != 44;
  }

  /** A date that cannot be read leaves the contact as it is, and so does a field that runs over the end. */
  lemma UnreadableField(c: Card, code: Byte, payload: seq<Byte>, rest: seq<Byte>)
    requires code == 82 || code == 83
    requires |payload| < 0x1_0000 && FromBBString(TrimNuls(payload)) == None
    ensures Parse(c, FieldBytes(Field(code, payload)) + rest) == Parse(c, rest)
  {
    hide Parse, FieldBytes, TrimNuls, FromBBString, InTable;
    ParseField(c, Field(code, payload), rest);
    SpecialCodes();
    assert (payload + rest)[..|payload|] == payload;
  }

  lemma OverrunningField(c: Card, s: seq<Byte>)
    requires |s| < 3 + Val16(s, 0)
    ensures Parse(c, s) == c
  {
  }

  // ---- What is too long for the format ----

  /** No text or payload is longer than the size of a field can say. */
  predicate Short(c: Card)
  {
    && (forall e :: e in c.emails ==> |e| <= 0xFFFF)
    && |c.firstName| <= 0xFFFF && |c.lastName| <= 0xFFFF
    && (forall code :: code in c.members ==> |c.members[code]| <= 0xFFFF)
    && (forall u :: u in c.unknowns ==> |u.payload| <= 0xFFFF)
  }

  lemma HandleKeepsShort(c: Card, code: Byte, size: nat, raw: seq<Byte>)
    requires Short(c) && size <= 0xFFFF && size <= |raw|
    ensures Short(Handle(c, code, size, raw))
  {
    hide InTable, TrimNuls, Tokens, FromBBString, Val32, Val16;
  }

  lemma {:induction false} ParseKeepsShort(c: Card, s: seq<Byte>)
    requires Short(c)
    ensures Short(Parse(c, s))
    decreases |s|
  {
    hide Handle, Short;
    if |s| > HEADER {
      var size := Val16(s, 0);
      if HEADER + size <= |s| {
        if size > 0 {
          HandleKeepsShort(c, s[2], size, s[HEADER..]);
        }
        ParseKeepsShort(Step(c, s), s[HEADER + size..]);
      }
    }
  }

  /** A contact with anything longer than that never comes back, although it is built without an error. */
  lemma TooLongIsLost(c: Card, recType: Byte, recordId: Word32)
    requires c.Valid() && !Short(c)
    ensures Parse(Blank(recType, recordId), Built(c)) != Returned(c, recType, recordId)
  {
    hide Parse, Built, InTable, TABLE;
    assert Short(Blank(recType, recordId));
    ParseKeepsShort(Blank(recType, recordId), Built(c));
    var back := Returned(c, recType, recordId);
    assert back.unknowns[1..] == c.unknowns && forall u :: u in c.unknowns ==> u in back.unknowns;
  }

  lemma ParseKnown(c: Card, recType: Byte, recordId: Word32)
    requires c.Valid() && Fits(c)
    ensures Parse(Blank(recType, recordId), Built(c)) == Parse(Reread(c, recType, recordId), Wire(c.unknowns))
  {
    hide Parse, Wire, KnownBytes, Reread, Blank, Fits;
    TakesKnown(c, recType, recordId);
  }
}
