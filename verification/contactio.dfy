/** The Contact class of r_contact.cc, whose parser fills members in place and whose builder appends to a
    buffer at an advancing offset. */
module ContactIo {
  import opened Bytes
  import opened Wrappers
  import opened DataBuffer
  import opened Categories
  import opened Dates
  import opened Fields
  import opened Contacts

  class Contact {
    var RecType: Byte
    var RecordId: Word32
    var EmailAddresses: seq<seq<Byte>>
    var FirstName: seq<Byte>
    var LastName: seq<Byte>
    var Members: map<Byte, seq<Byte>>
    var Birthday: Date
    var Anniversary: Date
    var Categories: seq<seq<Byte>>
    var GroupLinks: seq<GroupLink>
    var Unknowns: seq<Field>
    var m_FirstNameSeen: bool

    function Value(): Card
      reads this
    {
      Card(RecType, RecordId, EmailAddresses, FirstName, LastName, m_FirstNameSeen, Members,
           Birthday, Anniversary, Categories, GroupLinks, Unknowns)
    }

    ghost predicate Valid()
      reads this
    {
      Value().Valid()
    }

    constructor ()
      ensures Valid() && Value() == Blank(0, 0)
    {
      RecType, RecordId := 0, 0;
      EmailAddresses, FirstName, LastName, Members := [], [], [], NoMembers();
      Birthday, Anniversary := NO_DATE, NO_DATE;
      Categories, GroupLinks, Unknowns := [], [], [];
      m_FirstNameSeen := false;
    }

    /** Everything but the record id. */
    method Clear()
      modifies this
      ensures Valid() && Value() == Blank(0, old(RecordId))
    {
      RecType := 0;
      EmailAddresses, FirstName, LastName, Members := [], [], [], NoMembers();
      Birthday, Anniversary := NO_DATE, NO_DATE;
      Categories, GroupLinks, Unknowns := [], [], [];
      m_FirstNameSeen := false;
    }

    /** The scan of the type table. */
    method FindRow(code: Byte) returns (found: bool)
      ensures found == InTable(code)
    {
      var b := 0;
      while b < |TABLE|
        invariant b <= |TABLE|
        invariant code !in TABLE[..b]
      {
        if TABLE[b] == code {
          return true;
        }
        assert TABLE[..b + 1] == TABLE[..b] + [TABLE[b]];
        b := b + 1;
      }
      assert TABLE[..b] == TABLE;
      return false;
    }

    /** The special handling of fields that have no row. */
    method ParseSpecial(code: Byte, size: nat, raw: seq<Byte>)
      requires Valid() && !InTable(code) && size <= |raw|
      modifies this
      ensures Valid() && Value() == Handle(old(Value()), code, size, raw)
    {
      hide InTable, Tokens, TrimNuls, FromBBString, Val32, Val16;
      var s := ParseFieldString(raw, size);
      if code == EMAIL {
        EmailAddresses := EmailAddresses + [s];
      } else if code == NAME {
        if |FirstName| > 0 || m_FirstNameSeen {
          LastName := s;
          m_FirstNameSeen := false;
        } else {
          FirstName := s;
          m_FirstNameSeen := true;
        }
      } else if code == GROUP_LINK {
        GroupLinks := GroupLinks + [GroupLink(Val32(raw, 0), Val16(raw, 4))];
      } else if code == GROUP_FLAG {
      } else if code == CATEGORY {
        Categories := CategoryStr2List(s);
      } else if code == BIRTHDAY {
        match FromBBString(s)
        case Some(d) => Birthday := d;
        case None =>
      } else if code == ANNIVERSARY {
        match FromBBString(s)
        case Some(d) => Anniversary := d;
        case None =>
      } else {
        Unknowns := Unknowns + [Field(code, raw[..size])];
      }
    }

    /** Returns where the next field begins, which is beyond the end for a field that runs over it. */
    method ParseField(s: seq<Byte>, b: nat) returns (begin: nat)
      requires Valid() && b + HEADER < |s|
      modifies this
      ensures Valid() && Value() == Step(old(Value()), s[b..]) && begin == b + HEADER + Val16(s[b..], 0)
    {
      hide InTable, Handle, Val16;
      var rest := s[b..];
      var size := Val16(rest, 0);
      begin := b + HEADER + size;
      if begin > |s| || size == 0 {
        return;
      }
      var code, raw := rest[2], rest[HEADER..];
      var found := FindRow(code);
      if found {
        var text := ParseFieldString(raw, size);
        Members := Members[code := text];
        HandleMember(old(Value()), code, size, raw);
      } else {
        ParseSpecial(code, size, raw);
      }
    }

    /** The loop of ParseCommonFields over everything from the offset on. */
    method ParseFields(data: Data, offset: nat) returns (next: nat)
      requires Valid() && data.Valid()
      modifies this
      ensures Valid() && offset <= next
      ensures Value() == Parse(old(Value()), if offset <= |data.Contents()| then data.Contents()[offset..] else [])
    {
      hide Step;
      var s := data.Contents();
      next := offset;
      while next + HEADER < |s|
        invariant offset <= next && Valid()
        invariant Parse(Value(), if next <= |s| then s[next..] else [])
               == Parse(old(Value()), if offset <= |s| then s[offset..] else [])
        decreases |s| - next
      {
        ghost var rest := s[next..];
        var b := next;
        next := ParseField(s, b);
        if next <= |s| {
          assert rest[next - b..] == s[next..];
        }
      }
    }

    // ---- Building: each section appends its fields ----

    method BuildText(data: Data, ghost from: nat, size: nat, code: Byte, text: seq<Byte>) returns (next: nat)
      requires Holds(data, from, size)
      modifies data, data.m_data
      ensures Kept(data) && Holds(data, from, next) && size < next
      ensures Written(data, from, next) == old(Written(data, from, size)) + Wire([TextField(code, text)])
    {
      WireOfOne(TextField(code, text));
      next := BuildField(data, from, size, TextField(code, text));
    }

    method BuildNames(data: Data, ghost from: nat, size: nat) returns (next: nat)
      requires Holds(data, from, size)
      modifies data, data.m_data
      ensures Kept(data) && Holds(data, from, next) && size <= next
      ensures Written(data, from, next) == old(Written(data, from, size)) + Wire(NameFields(Value()))
    {
      hide Wire, Written;
      WireOfNothing();
      next := size;
      ghost var before := Written(data, from, size);
      ghost var fs: seq<Field> := [];
      if |FirstName| > 0 {
        next := BuildText(data, from, next, NAME, FirstName);
        fs := [TextField(NAME, FirstName)];
      }
      assert Written(data, from, next) == before + Wire(fs);
      if |LastName| > 0 {
        if |FirstName| == 0 {
          next := BuildText(data, from, next, NAME, []);
          fs := [TextField(NAME, [])];
        }
        assert Written(data, from, next) == before + Wire(fs);
        next := BuildText(data, from, next, NAME, LastName);
        WireOfConcat(fs, [TextField(NAME, LastName)]);
        fs := fs + [TextField(NAME, LastName)];
      }
      assert Written(data, from, next) == before + Wire(fs);
      assert fs == NameFields(Value());
    }

    method BuildEmails(data: Data, ghost from: nat, size: nat) returns (next: nat)
      requires Holds(data, from, size)
      modifies data, data.m_data
      ensures Kept(data) && Holds(data, from, next) && size <= next
      ensures Written(data, from, next) == old(Written(data, from, size)) + Wire(EmailFields(EmailAddresses))
    {
      hide Wire, Written, Holds, TextField;
      WireOfNothing();
      next := size;
      ghost var all := Written(data, from, size) + Wire(EmailFields(EmailAddresses));
      for i := 0 to |EmailAddresses|
        invariant Kept(data) && Holds(data, from, next) && size <= next
        invariant Written(data, from, next) + Wire(EmailFields(EmailAddresses[i..])) == all
      {
        var email := EmailAddresses[i];
        assert EmailAddresses[i..][1..] == EmailAddresses[i + 1..];
        ghost var later := EmailFields(EmailAddresses[i + 1..]);
        if |email| > 0 {
          next := BuildText(data, from, next, EMAIL, email);
          WireOfConcat([TextField(EMAIL, email)], later);
        } else {
          assert EmailFields(EmailAddresses[i..]) == later;
        }
      }
    }

    method BuildMembers(data: Data, ghost from: nat, size: nat) returns (next: nat)
      requires Valid() && Holds(data, from, size)
      modifies data, data.m_data
      ensures Kept(data) && Holds(data, from, next) && size <= next
      ensures Written(data, from, next) == old(Written(data, from, size)) + Wire(MemberFields(Members, TABLE))
    {
      hide Wire, Written, Holds, TextField;
      InTableMeans();
      hide TABLE, InTable;
      WireOfNothing();
      next := size;
      ghost var all := Written(data, from, size) + Wire(MemberFields(Members, TABLE));
      for b := 0 to |TABLE|
        invariant Kept(data) && Holds(data, from, next) && size <= next
        invariant Written(data, from, next) + Wire(MemberFields(Members, TABLE[b..])) == all
      {
        var code := TABLE[b];
        assert InTable(code) && TABLE[b..][1..] == TABLE[b + 1..];
        var text := Members[code];
        ghost var later := MemberFields(Members, TABLE[b + 1..]);
        if |text| > 0 {
          next := BuildText(data, from, next, code, text);
          WireOfConcat([TextField(code, text)], later);
        } else {
          assert MemberFields(Members, TABLE[b..]) == later;
        }
      }
    }

    method BuildLinks(data: Data, ghost from: nat, size: nat) returns (next: nat)
      requires Holds(data, from, size)
      modifies data, data.m_data
      ensures Kept(data) && Holds(data, from, next) && size <= next
      ensures Written(data, from, next) == old(Written(data, from, size)) + Wire(LinkFields(GroupLinks))
    {
      hide Wire, Written, Holds, Le32, Le16;
      WireOfNothing();
      next := size;
      ghost var all := Written(data, from, size) + Wire(LinkFields(GroupLinks));
      for i := 0 to |GroupLinks|
        invariant Kept(data) && Holds(data, from, next) && size <= next
        invariant Written(data, from, next) + Wire(LinkFields(GroupLinks[i..])) == all
      {
        assert GroupLinks[i..][1..] == GroupLinks[i + 1..];
        var f := Field(GROUP_LINK, Le32(GroupLinks[i].link) + Le16(GroupLinks[i].unknown));
        WireOfOne(f);
        WireOfConcat([f], LinkFields(GroupLinks[i + 1..]));
        next := BuildField(data, from, next, f);
      }
    }

    method BuildUnknowns(data: Data, ghost from: nat, size: nat) returns (next: nat)
      requires Holds(data, from, size)
      modifies data, data.m_data
      ensures Kept(data) && Holds(data, from, next) && size <= next
      ensures Written(data, from, next) == old(Written(data, from, size)) + Wire(Unknowns)
    {
      hide Written, Holds, FieldBytes;
      next := size;
      ghost var all := Written(data, from, size) + Wire(Unknowns);
      for i := 0 to |Unknowns|
        invariant Kept(data) && Holds(data, from, next) && size <= next
        invariant Written(data, from, next) + Wire(Unknowns[i..]) == all
      {
        assert Unknowns[i..][1..] == Unknowns[i + 1..];
        next := BuildField(data, from, next, Unknowns[i]);
      }
    }

    /** The group flag, the names and the record id. */
    method BuildHead(data: Data, ghost from: nat, size: nat) returns (next: nat)
      requires Holds(data, from, size)
      modifies data, data.m_data
      ensures Kept(data) && Holds(data, from, next) && size < next
      ensures Written(data, from, next)
           == old(Written(data, from, size))
              + (Wire(FlagFields(Value())) + Wire(NameFields(Value())) + Wire([IdField(RecordId)]))
    {
      hide Wire, Written, FieldBytes, NameFields, Le32;
      WireOfNothing();
      next := size;
      if |GroupLinks| > 0 {
        WireOfOne(Field(GROUP_FLAG, [0x47]));
        next := BuildField(data, from, next, Field(GROUP_FLAG, [0x47]));
      }
      next := BuildNames(data, from, next);
      WireOfOne(IdField(RecordId));
      next := BuildField(data, from, next, IdField(RecordId));
    }

    method BuildTail(data: Data, ghost from: nat, size: nat) returns (next: nat)
      requires Holds(data, from, size)
      modifies data, data.m_data
      ensures Kept(data) && Holds(data, from, next) && size <= next
      ensures Written(data, from, next)
           == old(Written(data, from, size))
              + (Wire(CategoryFields(Value())) + Wire(DateFields(BIRTHDAY, Birthday))
                 + Wire(DateFields(ANNIVERSARY, Anniversary)))
    {
      hide Wire, Written, TextField, ToBBString, Joined;
      WireOfNothing();
      next := size;
      if |Categories| > 0 {
        var store := CategoryList2Str(Categories);
        next := BuildText(data, from, next, CATEGORY, store);
      }
      if HasData(Birthday) {
        next := BuildText(data, from, next, BIRTHDAY, ToBBString(Birthday));
      }
      if HasData(Anniversary) {
        next := BuildText(data, from, next, ANNIVERSARY, ToBBString(Anniversary));
      }
    }

    method BuildAll(data: Data, from: nat) returns (next: nat)
      requires Valid() && data.Valid()
      modifies data, data.m_data
      ensures Kept(data) && Holds(data, from, next) && from < next
      ensures Written(data, from, next) == Built(Value())
    {
      hide Wire, Built, Written, FlagFields, NameFields, EmailFields, MemberFields, LinkFields, CategoryFields,
        DateFields, IdField, InTable, TABLE;
      NothingWritten(data, from);
      InTableMeans();
      BuiltInOrder(Value());
      next := BuildHead(data, from, from);
      next := BuildEmails(data, from, next);
      next := BuildMembers(data, from, next);
      next := BuildLinks(data, from, next);
      next := BuildTail(data, from, next);
      next := BuildUnknowns(data, from, next);
    }

    /** None is the exception for a contact with neither name nor company. */
    method BuildFields(data: Data, offset: nat) returns (r: Option<nat>)
      requires Valid() && data.Valid()
      modifies data, data.m_data
      ensures Kept(data) && data.Valid()
      ensures r.None? <==> !Buildable(Value())
      ensures r.None? <==> FirstName == [] && LastName == [] && (33 in Members ==> Members[33] == [])
      ensures r.None? ==> data.Contents() == []
      ensures r.Some? ==> |data.Contents()| == r.value >= offset && data.Contents()[offset..] == Built(Value())
    {
      hide Built, InTable;
      data.Zap();
      CompanyIsMember();
      if |FirstName| == 0 && |LastName| == 0 && |Members[COMPANY]| == 0 {
        return None;
      }
      var next := BuildAll(data, offset);
      data.ReleaseBuffer(next);
      return Some(next);
    }
  }

  lemma NothingWritten(data: Data, from: nat)
    requires data.Valid()
    ensures Holds(data, from, from) && Written(data, from, from) == []
  {
  }

  /** The sections as the builder groups them. */
  lemma BuiltInOrder(c: Card)
    requires c.Valid() && forall code :: code in TABLE ==> code in c.members
    ensures Built(c)
      == [] + (Wire(FlagFields(c)) + Wire(NameFields(c)) + Wire([IdField(c.recordId)])) + Wire(EmailFields(c.emails))
         + Wire(MemberFields(c.members, TABLE)) + Wire(LinkFields(c.links))
         + (Wire(CategoryFields(c)) + Wire(DateFields(BIRTHDAY, c.birthday))
            + Wire(DateFields(ANNIVERSARY, c.anniversary)))
         + Wire(c.unknowns)
  {
    hide Wire, FlagFields, NameFields, EmailFields, MemberFields, LinkFields, CategoryFields, DateFields, IdField,
      TABLE;
    var head := Wire(FlagFields(c)) + Wire(NameFields(c)) + Wire([IdField(c.recordId)]);
    assert [] + head == head;
    var front := head + Wire(EmailFields(c.emails)) + Wire(MemberFields(c.members, TABLE)) + Wire(LinkFields(c.links));
    Regroup(front, Wire(CategoryFields(c)), Wire(DateFields(BIRTHDAY, c.birthday)),
            Wire(DateFields(ANNIVERSARY, c.anniversary)));
  }

  lemma Regroup(s: seq<Byte>, a: seq<Byte>, b: seq<Byte>, c: seq<Byte>)
    ensures s + a + b + c == s + (a + b + c)
  {
  }

  lemma CompanyIsMember()
    ensures InTable(COMPANY)
  {
  }

  lemma HandleMember(c: Card, code: Byte, size: nat, raw: seq<Byte>)
    requires InTable(code) && size <= |raw|
    ensures Handle(c, code, size, raw) == c.(members := c.members[code := TrimNuls(raw[..size])])
  {
  }
}
