/** Packed .cod archives: the PKZIP writer and reader of cod.cc, and their callers in m_javaloader.cc. */
module Cod {
  import opened Bytes

  const LOCAL_SIG: seq<Byte> := [0x50, 0x4B, 0x03, 0x04]
  const DIRECTORY_SIG: seq<Byte> := [0x50, 0x4B, 0x01, 0x02]
  const END_SIG: seq<Byte> := [0x50, 0x4B, 0x05, 0x06]
  const LOCAL_SIZE := 30
  const ENTRY_SIZE := 46
  const END_SIZE := 22
  const MAX_CHUNK := 0x7FC - 4

  // ---- What is written ----

  /** The fields that a local header and a directory entry share: CRC, both sizes, name length. */
  function Common(crc: nat, size: nat, name: seq<Byte>): (f: seq<Byte>)
    ensures |f| == 14
  {
    Le32(crc) + Le32(size) + Le32(size) + Le16(|name|)
  }

  function LocalHeader(crc: nat, size: nat, name: seq<Byte>): (h: seq<Byte>)
    ensures |h| == LOCAL_SIZE + |name|
  {
    LOCAL_SIG + (Le16(10) + Zeros(8)) + Common(crc, size, name) + Le16(0) + name
  }

  function DirectoryEntry(crc: nat, size: nat, name: seq<Byte>, offset: nat): (e: seq<Byte>)
    ensures |e| == ENTRY_SIZE + |name|
  {
    DIRECTORY_SIG + (Le16(10) + Le16(10) + Zeros(8)) + Common(crc, size, name) + Zeros(12) + Le32(offset) + name
  }

  function EndRecord(count: nat, length: nat, offset: nat): (e: seq<Byte>)
    ensures |e| == END_SIZE
  {
    END_SIG + Zeros(4) + Le16(count) + Le16(count) + Le32(length) + Le32(offset) + Le16(0)
  }

  /** name.cod for the first module, name-1.cod for the second, and so on. */
  function FileName(name: seq<Byte>, k: nat): seq<Byte>
  {
    name + (if k == 0 then [] else [45] + Digits(k)) + [46, 99, 111, 100]
  }

  /** No two modules of an archive share a name, and each name starts with the archive's and ends in .cod. */
  lemma FileNamesDiffer(name: seq<Byte>, j: nat, k: nat)
    ensures FileName(name, j) == FileName(name, k) ==> j == k
    ensures name <= FileName(name, j) && FileName(name, j)[|FileName(name, j)| - 4..] == [0x2E, 0x63, 0x6F, 0x64]
    ensures FileName(name, 0) == name + [0x2E, 0x63, 0x6F, 0x64]
    ensures j > 0 ==> FileName(name, j) == name + [0x2D] + Digits(j) + [0x2E, 0x63, 0x6F, 0x64]
  {
    hide Digits;
    var a, b := FileName(name, j), FileName(name, k);
    if a == b {
      var p, q := a[|name|..|a| - 4], b[|name|..|b| - 4];
      assert p == if j == 0 then [] else [45] + Digits(j);
      assert q == if k == 0 then [] else [45] + Digits(k);
      if j > 0 && k > 0 {
        assert p[1..] == Digits(j) && q[1..] == Digits(k);
        DigitsDiffer(j, k);
      }
    }
  }

  /** An archive to be: module name, CRC function and modules. */
  datatype Plan = Plan(name: seq<Byte>, crc: seq<Byte> -> nat, modules: seq<seq<Byte>>)
  {
    function NameOf(k: nat): seq<Byte> { FileName(name, k) }

    function Header(k: nat): seq<Byte>
      requires k < |modules|
    {
      LocalHeader(crc(modules[k]), |modules[k]|, NameOf(k))
    }

    /** The first k modules with their headers. */
    function Locals(k: nat): seq<Byte>
      requires k <= |modules|
    {
      if k == 0 then [] else Locals(k - 1) + Header(k - 1) + modules[k - 1]
    }

    function Entry(base: nat, k: nat): seq<Byte>
      requires k < |modules|
    {
      DirectoryEntry(crc(modules[k]), |modules[k]|, NameOf(k), base + |Locals(k)|)
    }

    /** The directory entries of the first k modules of an archive that starts at base. */
    function Directory(base: nat, k: nat): seq<Byte>
      requires k <= |modules|
    {
      if k == 0 then [] else Directory(base, k - 1) + Entry(base, k - 1)
    }

    function Footer(base: nat): seq<Byte>
    {
      var n := |modules|;
      Directory(base, n) + EndRecord(n, |Directory(base, n)|, base + |Locals(n)|)
    }

    /** What is written by the time k modules are done. */
    function Body(k: nat): seq<Byte>
      requires k <= |modules|
    {
      if |modules| != 1 then Locals(k) else if k == 0 then [] else modules[0]
    }

    /** What the Save loop writes; a single module is written bare. */
    function Archive(base: nat): seq<Byte>
    {
      if |modules| == 1 then modules[0] else Locals(|modules|) + Footer(base)
    }
  }

  class OutStream {
    var bytes: seq<Byte>

    constructor (bytes: seq<Byte>)
      ensures this.bytes == bytes
    {
      this.bytes := bytes;
    }

    method Write(s: seq<Byte>)
      modifies this
      ensures bytes == old(bytes) + s
    {
      bytes := bytes + s;
    }
  }

  class CodFileBuilder {
    const m_module_name: seq<Byte>
    const m_module_count: nat
    const m_crc: seq<Byte> -> nat
    var m_current_module: nat
    var m_directory: seq<Byte>

    constructor (module_name: seq<Byte>, module_count: nat, crc: seq<Byte> -> nat)
      ensures m_module_name == module_name && m_module_count == module_count && m_crc == crc
      ensures m_current_module == 0 && m_directory == []
    {
      m_module_name, m_module_count, m_crc := module_name, module_count, crc;
      m_current_module, m_directory := 0, [];
    }

    /** The builder has written the first k modules of the plan to a stream that was base bytes long. */
    ghost predicate Wrote(plan: Plan, base: nat, k: nat)
      requires k <= |plan.modules|
      reads this
    {
      && plan.name == m_module_name && plan.crc == m_crc && m_module_count == |plan.modules|
      && if m_module_count == 1 then m_current_module == 0 && m_directory == []
         else m_current_module == k && m_directory == plan.Directory(base, k)
    }

    method WriteNextHeader(output: OutStream, module_buffer: seq<Byte>)
      modifies this, output
      ensures m_module_count == 1 ==>
        && output.bytes == old(output.bytes) && m_current_module == old(m_current_module)
        && m_directory == old(m_directory)
      ensures m_module_count != 1 ==>
        var name := FileName(m_module_name, old(m_current_module));
        && output.bytes == old(output.bytes) + LocalHeader(m_crc(module_buffer), |module_buffer|, name)
        && m_directory == old(m_directory)
             + DirectoryEntry(m_crc(module_buffer), |module_buffer|, name, |old(output.bytes)|)
        && m_current_module == old(m_current_module) + 1
    {
      if m_module_count == 1 {
        return;
      }
      var crc, size := m_crc(module_buffer), |module_buffer|;
      var file_name := FileName(m_module_name, m_current_module);
      var entry_offset := |output.bytes|;
      output.Write(LOCAL_SIG);
      output.Write(Le16(10) + Zeros(8) + Common(crc, size, file_name) + Le16(0));
      output.Write(file_name);
      assert output.bytes == old(output.bytes) + LocalHeader(crc, size, file_name);
      m_directory := m_directory + DirectoryEntry(crc, size, file_name, entry_offset);
      m_current_module := m_current_module + 1;
    }

    method WriteFooter(output: OutStream)
      modifies output
      ensures output.bytes == old(output.bytes) + if m_module_count == 1 then []
        else m_directory + EndRecord(m_current_module, |m_directory|, |old(output.bytes)|)
    {
      if m_module_count == 1 {
        return;
      }
      var end := EndRecord(m_current_module, |m_directory|, |output.bytes|);
      output.Write(m_directory);
      output.Write(end);
    }
  }

  /** One more module: its header and its bytes in the body, its entry in the directory. */
  lemma BodyGrows(plan: Plan, base: nat, k: nat)
    requires k < |plan.modules|
    ensures plan.Body(k + 1) == plan.Body(k) + (if |plan.modules| == 1 then [] else plan.Header(k)) + plan.modules[k]
    ensures plan.Directory(base, k + 1) == plan.Directory(base, k) + plan.Entry(base, k)
    ensures |plan.modules| != 1 ==> plan.Body(k) == plan.Locals(k)
  {
    hide DirectoryEntry, LocalHeader, FileName;
  }

  /** SaveData once the module is in its buffer. */
  method SaveModule(builder: CodFileBuilder, ghost plan: Plan, ghost before: seq<Byte>, ghost k: nat,
                    buffer: seq<Byte>, output: OutStream)
    requires k < |plan.modules| && buffer == plan.modules[k] && builder.Wrote(plan, |before|, k)
    requires output.bytes == before + plan.Body(k)
    modifies builder, output
    ensures builder.Wrote(plan, |before|, k + 1)
    ensures output.bytes == before + plan.Body(k + 1)
  {
    hide DirectoryEntry, LocalHeader, FileName, Plan.Body, Plan.Directory, Plan.Locals;
    BodyGrows(plan, |before|, k);
    ghost var header := if |plan.modules| == 1 then [] else plan.Header(k);
    ghost var body := plan.Body(k);
    builder.WriteNextHeader(output, buffer);
    assert output.bytes == before + body + header;
    output.Write(buffer);
    assert output.bytes == before + (body + header + buffer);
  }

  lemma NothingWritten(plan: Plan, base: nat)
    ensures plan.Body(0) == [] && plan.Directory(base, 0) == []
  {
  }

  /** The builder loop at the end of JavaLoader::Save. */
  method Save(plan: Plan, output: OutStream)
    modifies output
    ensures output.bytes == old(output.bytes) + plan.Archive(|old(output.bytes)|)
  {
    hide Plan.Body, Plan.Directory, Plan.Archive;
    ghost var before := output.bytes;
    var builder := new CodFileBuilder(plan.name, |plan.modules|, plan.crc);
    NothingWritten(plan, |before|);
    assert builder.Wrote(plan, |before|, 0);
    hide CodFileBuilder.Wrote;
    for k := 0 to |plan.modules|
      invariant builder.Wrote(plan, |before|, k)
      invariant output.bytes == before + plan.Body(k)
    {
      SaveModule(builder, plan, before, k, plan.modules[k], output);
    }
    FinishArchive(builder, plan, before, output);
  }

  method FinishArchive(builder: CodFileBuilder, ghost plan: Plan, ghost before: seq<Byte>, output: OutStream)
    requires builder.Wrote(plan, |before|, |plan.modules|)
    requires output.bytes == before + plan.Body(|plan.modules|)
    modifies output
    ensures output.bytes == before + plan.Archive(|before|)
  {
    hide Plan.Locals, Plan.Directory, EndRecord;
    builder.WriteFooter(output);
    ghost var n := |plan.modules|;
    assert n != 1 ==> output.bytes == before + (plan.Locals(n) + plan.Footer(|before|));
  }

  // ---- What is read ----

  datatype CodError = EofInSignature | EofInHeader | EofInSkip | UnknownSignature | ReadFailed | Refused

  datatype Sought = Size(size: nat, pos: nat) | SeekError(error: CodError)

  /** SeekNextCod on a stream of these bytes at this position. */
  function Seek(data: seq<Byte>, pos: nat): (r: Sought)
    ensures r.Size? && r.size > 0 ==>
      r.pos <= |data| && (pos < r.pos || (r.pos == 0 && r.size == |data| % 0x1_0000_0000))
  {
    if pos >= |data| then Size(0, pos)
    else if pos + 4 > |data| then SeekError(EofInSignature)
    else
      var signature := data[pos..pos + 4];
      if signature[..2] == LOCAL_SIG[..2] then
        if signature == LOCAL_SIG then
          if pos + LOCAL_SIZE > |data| then SeekError(EofInHeader)
          else
            var skip := Val16(data, pos + 26) + Val16(data, pos + 28);
            if pos + LOCAL_SIZE + skip > |data| then SeekError(EofInSkip)
            else Size(Val32(data, pos + 18), pos + LOCAL_SIZE + skip)
        else Size(0, pos + 4)
      else if signature[..2] == [0xDE, 0xC0] then Size(Low32(|data|), 0)
      else SeekError(UnknownSignature)
  }

  /** What the reader makes of each kind of bytes at its position. */
  lemma SeekByBytes(data: seq<Byte>, pos: nat)
    ensures
      var r := Seek(data, pos);
      if pos >= |data| then r == Size(0, pos)
      else if pos + 4 > |data| then r == SeekError(EofInSignature)
      else if data[pos] == 0x50 && data[pos + 1] == 0x4B then
        if data[pos + 2] != 3 || data[pos + 3] != 4 then r == Size(0, pos + 4)
        else if pos + 30 > |data| then r == SeekError(EofInHeader)
        else
          var at := pos + 30 + Val16(data, pos + 26) + Val16(data, pos + 28);
          r == if at > |data| then SeekError(EofInSkip) else Size(Val32(data, pos + 18), at)
      else if data[pos] == 0xDE && data[pos + 1] == 0xC0 then r == Size(|data| % 0x1_0000_0000, 0)
      else r == SeekError(UnknownSignature)
  {
    hide Val16, Val32;
    if pos + 4 <= |data| {
      var s := data[pos..pos + 4];
      assert s == [data[pos], data[pos + 1], data[pos + 2], data[pos + 3]];
      assert s[..2] == [data[pos], data[pos + 1]] && LOCAL_SIG[..2] == [0x50, 0x4B];
    }
  }

  datatype Loaded = Loaded(modules: seq<seq<Byte>>, error: CodResult)
  datatype CodResult = Done | Threw(error: CodError)

  /** The modules LoadApp sends from a position on. */
  function Load(data: seq<Byte>, pos: nat): Loaded
    requires |data| < TWO_32
    decreases |data| - pos
  {
    match Seek(data, pos)
    case SeekError(e) => Loaded([], Threw(e))
    case Size(size, at) =>
      if size == 0 then Loaded([], Done)
      else if at + size > |data| then Loaded([], Threw(ReadFailed))
      else if at <= pos then Loaded([data], Done)
      else
        var later := Load(data, at + size);
        Loaded([data[at..at + size]] + later.modules, later.error)
  }

  /** A module as SendStream sends it. */
  function Chunks(m: seq<Byte>): seq<seq<Byte>>
  {
    if m == [] then []
    else if |m| <= MAX_CHUNK then [m]
    else [m[..MAX_CHUNK]] + Chunks(m[MAX_CHUNK..])
  }

  /** The chunks are full but for the last, and put together they are the module. */
  lemma {:induction false} ChunksMakeTheModule(m: seq<Byte>)
    ensures Flatten(Chunks(m)) == m
    ensures forall i :: 0 <= i < |Chunks(m)| ==> 0 < |Chunks(m)[i]| <= 2040
    ensures forall i :: 0 <= i < |Chunks(m)| - 1 ==> |Chunks(m)[i]| == 2040
    decreases |m|
  {
    if m != [] {
      if |m| <= MAX_CHUNK {
        assert Flatten([m][1..]) == [];
      } else {
        ChunksMakeTheModule(m[MAX_CHUNK..]);
        assert Chunks(m)[1..] == Chunks(m[MAX_CHUNK..]);
        assert forall i :: 1 <= i < |Chunks(m)| ==> Chunks(m)[i] == Chunks(m[MAX_CHUNK..])[i - 1];
      }
    }
  }

  /** What the device is told for one module: its size, then its chunks. */
  datatype Message = CodSize(size: nat) | PutData(chunk: seq<Byte>)

  function Puts(chunks: seq<seq<Byte>>): seq<Message>
  {
    seq(|chunks|, i requires 0 <= i < |chunks| => PutData(chunks[i]))
  }

  function Messages(modules: seq<seq<Byte>>): seq<Message>
  {
    if modules == [] then [] else [CodSize(|modules[0]|)] + Puts(Chunks(modules[0])) + Messages(modules[1..])
  }

  class InStream {
    const data: seq<Byte>
    var pos: nat

    constructor (data: seq<Byte>)
      ensures this.data == data && pos == 0
    {
      this.data, pos := data, 0;
    }
  }

  /** A device answers each message, knowing all that it was sent; anything else than an acknowledgement ends
      the sending. */
  type Answers = seq<Message> -> bool

  datatype Delivery = Delivery(sent: seq<Message>, refused: bool)

  /** Sending messages one by one, until one is refused. */
  function Deliver(accepts: Answers, sent: seq<Message>, messages: seq<Message>): (d: Delivery)
    ensures sent <= d.sent <= sent + messages && (!d.refused ==> d.sent == sent + messages)
    decreases |messages|
  {
    if messages == [] then Delivery(sent, false)
    else
      var now := sent + [messages[0]];
      if accepts(now) then Deliver(accepts, now, messages[1..]) else Delivery(now, true)
  }

  lemma {:induction false} DeliverConcat(accepts: Answers, sent: seq<Message>, a: seq<Message>, b: seq<Message>)
    ensures
      var d := Deliver(accepts, sent, a);
      Deliver(accepts, sent, a + b) == if d.refused then d else Deliver(accepts, d.sent, b)
    decreases |a|
  {
    if a == [] {
      assert a + b == b;
    } else {
      assert (a + b)[0] == a[0] && (a + b)[1..] == a[1..] + b;
      DeliverConcat(accepts, sent + [a[0]], a[1..], b);
    }
  }

  lemma DeliverOne(accepts: Answers, sent: seq<Message>, m: Message, rest: seq<Message>)
    ensures Deliver(accepts, sent, [m] + rest)
      == if accepts(sent + [m]) then Deliver(accepts, sent + [m], rest) else Delivery(sent + [m], true)
  {
    assert ([m] + rest)[1..] == rest;
  }

  lemma DeliverNothing(accepts: Answers, sent: seq<Message>)
    ensures Deliver(accepts, sent, []) == Delivery(sent, false)
  {
  }

  class JavaLoader {
    const accepts: Answers
    var sent: seq<Message>

    constructor (accepts: Answers)
      ensures this.accepts == accepts && sent == []
    {
      this.accepts, sent := accepts, [];
    }

    /** Socket::Packet, and the test for an acknowledgement behind it. */
    method Packet(m: Message) returns (ok: bool)
      modifies this
      ensures sent == old(sent) + [m] && ok == accepts(sent)
    {
      sent := sent + [m];
      ok := accepts(sent);
    }

    method SendStream(input: InStream, module_size: nat) returns (r: CodResult)
      requires input.pos <= |input.data|
      modifies this, input
      ensures old(input.pos) + module_size > |input.data| ==> r == Threw(ReadFailed) || r == Threw(Refused)
      ensures old(input.pos) + module_size <= |input.data| ==>
        var m := input.data[old(input.pos)..old(input.pos) + module_size];
        var d := Deliver(accepts, old(sent), [CodSize(module_size)] + Puts(Chunks(m)));
        && sent == d.sent && r == (if d.refused then Threw(Refused) else Done)
        && (r.Done? ==> input.pos == old(input.pos) + module_size)
    {
      hide Chunks, Puts, Deliver;
      ghost var end := input.pos + module_size;
      ghost var fits := end <= |input.data|;
      ghost var puts := if fits then PutsOf(input.data, input.pos, end) else [];
      ghost var all := Deliver(accepts, sent, [CodSize(module_size)] + puts);
      DeliverOne(accepts, sent, CodSize(module_size), puts);
      var remaining: nat := module_size;
      var ok := Packet(CodSize(module_size));
      if !ok {
        return Threw(Refused);
      }
      while remaining > 0
        invariant input.pos <= |input.data| && input.pos + remaining == end
        invariant fits ==> Deliver(accepts, sent, PutsOf(input.data, input.pos, end)) == all
      {
        var size := if remaining < MAX_CHUNK then remaining else MAX_CHUNK;
        if input.pos + size > |input.data| {
          return Threw(ReadFailed);
        }
        var buffer := input.data[input.pos..input.pos + size];
        if fits {
          NextPut(input.data, input.pos, end);
          DeliverOne(accepts, sent, PutData(buffer), PutsOf(input.data, input.pos + size, end));
        }
        input.pos := input.pos + size;
        ok := Packet(PutData(buffer));
        if !ok {
          return Threw(Refused);
        }
        remaining := remaining - size;
      }
      NoPuts(input.data, end);
      DeliverNothing(accepts, sent);
      return Done;
    }

    /** Every module the reader finds is sent, up to the first message that the device refuses. */
    method LoadApp(input: InStream) returns (r: CodResult)
      requires |input.data| < TWO_32
      modifies this, input
      ensures
        var load := Load(input.data, old(input.pos));
        var d := Deliver(accepts, old(sent), Messages(load.modules));
        && (d.refused ==> r == Threw(Refused) && sent == d.sent)
        && (!d.refused && load.error.Done? ==> r == Done && sent == d.sent)
        && (!d.refused && load.error.Threw? ==>
              r == load.error || (load.error == Threw(ReadFailed) && r == Threw(Refused)))
    {
      hide Seek, Messages, Load, Puts, Chunks, Deliver;
      ghost var load := Load(input.data, input.pos);
      ghost var all := Deliver(accepts, sent, Messages(load.modules));
      var wrapped := false;
      while true
        invariant Load(input.data, input.pos).error == load.error
        invariant Deliver(accepts, sent, Messages(Load(input.data, input.pos).modules)) == all
        invariant wrapped ==> input.pos == |input.data|
        decreases |input.data| - input.pos, !wrapped
      {
        var s := Seek(input.data, input.pos);
        LoadNext(input.data, input.pos);
        DeliverNothing(accepts, sent);
        if s.SeekError? {
          return Threw(s.error);
        }
        if s.size == 0 {
          return Done;
        }
        ghost var fits := s.pos + s.size <= |input.data|;
        if fits {
          DeliverConcat(accepts, sent, [CodSize(s.size)] + PutsOf(input.data, s.pos, s.pos + s.size),
                        Messages(Load(input.data, s.pos + s.size).modules));
        }
        wrapped := s.pos <= input.pos;
        input.pos := s.pos;
        r := SendStream(input, s.size);
        if r.Threw? {
          return;
        }
      }
    }
  }

  /** What is still to be sent of the module that ends at end. */
  function PutsOf(data: seq<Byte>, pos: nat, end: nat): seq<Message>
    requires pos <= end <= |data|
  {
    Puts(Chunks(data[pos..end]))
  }

  lemma NextPut(data: seq<Byte>, pos: nat, end: nat)
    requires pos < end <= |data|
    ensures var size := if end - pos < MAX_CHUNK then end - pos else MAX_CHUNK;
      PutsOf(data, pos, end) == [PutData(data[pos..pos + size])] + PutsOf(data, pos + size, end)
  {
    var m := data[pos..end];
    if |m| <= MAX_CHUNK {
      assert data[end..end] == [] && m == data[pos..pos + |m|];
    } else {
      assert m[..MAX_CHUNK] == data[pos..pos + MAX_CHUNK] && m[MAX_CHUNK..] == data[pos + MAX_CHUNK..end];
      assert Chunks(m)[1..] == Chunks(m[MAX_CHUNK..]);
    }
  }

  lemma NoPuts(data: seq<Byte>, end: nat)
    ensures end <= |data| ==> PutsOf(data, end, end) == []
  {
  }

  /** The module at hand, then what the stream holds after it. */
  lemma LoadNext(data: seq<Byte>, pos: nat)
    requires |data| < TWO_32
    ensures var s := Seek(data, pos); var load := Load(data, pos);
      match s
      case SeekError(e) => load.error == Threw(e) && Messages(load.modules) == []
      case Size(size, at) =>
        if size == 0 then load.error == Done && Messages(load.modules) == []
        else if at + size > |data| then load.error == Threw(ReadFailed) && Messages(load.modules) == []
        else
          && pos < |data| && at <= |data| && (at <= pos ==> at == 0 && size == |data|)
          && load.error == Load(data, at + size).error
          && Messages(load.modules)
             == [CodSize(size)] + PutsOf(data, at, at + size) + Messages(Load(data, at + size).modules)
    ensures Seek(data, pos).Size? && Seek(data, pos).size > 0 ==> Seek(data, pos).pos <= |data|
  {
    var s := Seek(data, pos);
    if s.Size? && s.size > 0 && s.pos + s.size <= |data| {
      assert Load(data, |data|) == Loaded([], Done);
      var m := data[s.pos..s.pos + s.size];
      assert s.pos <= pos ==> m == data;
      assert Load(data, pos).modules == [m] + Load(data, s.pos + s.size).modules;
      assert Load(data, pos).modules[1..] == Load(data, s.pos + s.size).modules;
    }
  }

  // ---- Reading back what was written ----

  /** Every stored name length is its true length. */
  predicate NamesFit(plan: Plan)
  {
    forall k :: 0 <= k < |plan.modules| ==> |plan.NameOf(k)| < TWO_16
  }

  /** The fields two kinds of header share, read back from wherever they were stored. */
  lemma CommonFields(before: seq<Byte>, crc: nat, size: nat, name: seq<Byte>, after: seq<Byte>)
    ensures var s, p := before + Common(crc, size, name) + after, |before|;
      && Val32(s, p) == Low32(crc) && Val32(s, p + 4) == Low32(size) && Val32(s, p + 8) == Low32(size)
      && Val16(s, p + 12) == Low16(|name|)
  {
    var a, b, c, d := Le32(crc), Le32(size), Le32(size), Le16(|name|);
    var s := before + Common(crc, size, name) + after;
    Val32OfLe32(before, crc, b + c + d + after);
    assert s == before + a + (b + c + d + after);
    Val32OfLe32(before + a, size, c + d + after);
    assert s == (before + a) + b + (c + d + after);
    Val32OfLe32(before + a + b, size, d + after);
    assert s == (before + a + b) + c + (d + after);
    Val16OfLe16(before + a + b + c, |name|, after);
    assert s == (before + a + b + c) + d + after;
  }

  /** In s, a local header at h gives this CRC, size and name. */
  predicate HeaderAt(s: seq<Byte>, h: nat, crc: nat, size: nat, name: seq<Byte>)
  {
    && h + LOCAL_SIZE + |name| <= |s| && s[h..h + 4] == [0x50, 0x4B, 3, 4]
    && s[h + LOCAL_SIZE..h + LOCAL_SIZE + |name|] == name
    && Val32(s, h + 14) == Low32(crc) && Val32(s, h + 18) == Val32(s, h + 22) == Low32(size)
    && Val16(s, h + 26) == Low16(|name|) && Val16(s, h + 28) == 0
    && RestOfHeader(s[h + 4..h + 14])
  }

  /** Version 1.0, no flags, stored without compression, no date. */
  predicate RestOfHeader(s: seq<Byte>)
  {
    s == [10, 0, 0, 0, 0, 0, 0, 0, 0, 0]
  }

  /** The same behind the version that made the entry, and nothing in the fields between name length and offset. */
  predicate RestOfEntry(s: seq<Byte>, t: seq<Byte>)
  {
    s == [10, 0, 10, 0, 0, 0, 0, 0, 0, 0, 0, 0] && t == Zeros(12)
  }

  /** In s, a directory entry at e gives this CRC, size and name, and points at this offset. */
  predicate EntryAt(s: seq<Byte>, e: nat, crc: nat, size: nat, name: seq<Byte>, offset: nat)
  {
    && e + ENTRY_SIZE + |name| <= |s| && s[e..e + 4] == [0x50, 0x4B, 1, 2]
    && s[e + ENTRY_SIZE..e + ENTRY_SIZE + |name|] == name
    && Val32(s, e + 16) == Low32(crc) && Val32(s, e + 20) == Val32(s, e + 24) == Low32(size)
    && Val16(s, e + 28) == Low16(|name|) && Val32(s, e + 42) == Low32(offset)
    && RestOfEntry(s[e + 4..e + 16], s[e + 30..e + 42])
  }

  /** A local header says what it was built from, wherever it stands. */
  lemma LocalFields(before: seq<Byte>, crc: nat, size: nat, name: seq<Byte>, after: seq<Byte>)
    ensures HeaderAt(before + LocalHeader(crc, size, name) + after, |before|, crc, size, name)
  {
    var s := before + LocalHeader(crc, size, name) + after;
    var start := LOCAL_SIG + (Le16(10) + Zeros(8));
    hide RestOfHeader;
    CommonFields(before + start, crc, size, name, Le16(0) + name + after);
    assert s == (before + start) + Common(crc, size, name) + (Le16(0) + name + after);
    var head := before + start + Common(crc, size, name);
    Val16OfLe16(head, 0, name + after);
    assert s == head + Le16(0) + (name + after);
    HeaderConstants(before, crc, size, name, after);
  }

  lemma HeaderConstants(before: seq<Byte>, crc: nat, size: nat, name: seq<Byte>, after: seq<Byte>)
    ensures
      var s, p := before + LocalHeader(crc, size, name) + after, |before|;
      s[p..p + 4] == LOCAL_SIG && RestOfHeader(s[p + 4..p + 14])
  {
    hide Common;
    var s, fixed := before + LocalHeader(crc, size, name) + after, Le16(10) + Zeros(8);
    assert fixed == [10, 0, 0, 0, 0, 0, 0, 0, 0, 0];
    assert s[|before|..|before| + 4] == LOCAL_SIG && s[|before| + 4..|before| + 14] == fixed;
  }

  /** A directory entry likewise, with its offset field. */
  lemma EntryFields(before: seq<Byte>, crc: nat, size: nat, name: seq<Byte>, offset: nat, after: seq<Byte>)
    ensures EntryAt(before + DirectoryEntry(crc, size, name, offset) + after, |before|, crc, size, name, offset)
  {
    var s := before + DirectoryEntry(crc, size, name, offset) + after;
    var start := DIRECTORY_SIG + (Le16(10) + Le16(10) + Zeros(8));
    hide RestOfEntry;
    CommonFields(before + start, crc, size, name, Zeros(12) + Le32(offset) + name + after);
    assert s == (before + start) + Common(crc, size, name) + (Zeros(12) + Le32(offset) + name + after);
    var head := before + start + Common(crc, size, name) + Zeros(12);
    Val32OfLe32(head, offset, name + after);
    assert s == head + Le32(offset) + (name + after);
    EntryConstants(before, crc, size, name, offset, after);
  }

  lemma EntryConstants(before: seq<Byte>, crc: nat, size: nat, name: seq<Byte>, offset: nat, after: seq<Byte>)
    ensures
      var s, p := before + DirectoryEntry(crc, size, name, offset) + after, |before|;
      s[p..p + 4] == DIRECTORY_SIG && RestOfEntry(s[p + 4..p + 16], s[p + 30..p + 42])
  {
    hide Common, Le32;
    var s, fixed := before + DirectoryEntry(crc, size, name, offset) + after, Le16(10) + Le16(10) + Zeros(8);
    assert fixed == [10, 0, 10, 0, 0, 0, 0, 0, 0, 0, 0, 0];
    assert s[|before|..|before| + 4] == DIRECTORY_SIG && s[|before| + 4..|before| + 16] == fixed;
    assert s[|before| + 30..|before| + 42] == Zeros(12);
  }

  lemma EndFields(before: seq<Byte>, count: nat, length: nat, offset: nat)
    ensures var s, p := before + EndRecord(count, length, offset), |before|;
      && s[p..p + 4] == [0x50, 0x4B, 5, 6] && Val16(s, p + 8) == Low16(count) && Val16(s, p + 10) == Low16(count)
      && Val32(s, p + 12) == Low32(length) && Val32(s, p + 16) == Low32(offset)
      && s[p + 4..p + 8] == [0, 0, 0, 0] && Val16(s, p + 20) == 0
  {
    var s := before + EndRecord(count, length, offset);
    var a := before + END_SIG + Zeros(4);
    Val16OfLe16(a, count, Le16(count) + Le32(length) + Le32(offset) + Le16(0));
    assert s == a + Le16(count) + (Le16(count) + Le32(length) + Le32(offset) + Le16(0));
    Val16OfLe16(a + Le16(count), count, Le32(length) + Le32(offset) + Le16(0));
    assert s == (a + Le16(count)) + Le16(count) + (Le32(length) + Le32(offset) + Le16(0));
    Val32OfLe32(a + Le16(count) + Le16(count), length, Le32(offset) + Le16(0));
    assert s == (a + Le16(count) + Le16(count)) + Le32(length) + (Le32(offset) + Le16(0));
    Val32OfLe32(a + Le16(count) + Le16(count) + Le32(length), offset, Le16(0));
    assert s == (a + Le16(count) + Le16(count) + Le32(length)) + Le32(offset) + Le16(0);
    assert s[|before|..|before| + 4] == END_SIG;
    assert s[|before| + 4..|before| + 8] == Zeros(4);
  }

  /** What follows the first k modules in an archive. */
  function Tail(plan: Plan, base: nat, k: nat): seq<Byte>
    requires k <= |plan.modules|
    decreases |plan.modules| - k
  {
    if k == |plan.modules| then plan.Footer(base)
    else plan.Header(k) + plan.modules[k] + Tail(plan, base, k + 1)
  }

  lemma LocalsStep(plan: Plan, k: nat)
    requires k < |plan.modules|
    ensures plan.Locals(k + 1) == plan.Locals(k) + plan.Header(k) + plan.modules[k]
  {
  }

  lemma {:induction false} LocalsThenTail(plan: Plan, base: nat, k: nat)
    requires k <= |plan.modules|
    ensures plan.Locals(k) + Tail(plan, base, k) == plan.Locals(|plan.modules|) + plan.Footer(base)
    decreases |plan.modules| - k
  {
    hide Plan.Locals, Plan.Header, Plan.Footer;
    if k < |plan.modules| {
      LocalsThenTail(plan, base, k + 1);
      LocalsStep(plan, k);
      var a, h, m, t := plan.Locals(k), plan.Header(k), plan.modules[k], Tail(plan, base, k + 1);
      assert a + (h + m + t) == a + h + m + t;
    }
  }

  /** At the directory the reader stops. */
  lemma FooterStops(before: seq<Byte>, plan: Plan, base: nat)
    ensures Seek(before + plan.Footer(base), |before|).Size? && Seek(before + plan.Footer(base), |before|).size == 0
  {
    var s, p := before + plan.Footer(base), |before|;
    FooterStart(plan, base);
    assert s[p..p + 4] == plan.Footer(base)[..4];
    assert s[p..p + 4][1] != LOCAL_SIG[3];
  }

  lemma {:induction false} DirectoryStart(plan: Plan, base: nat, k: nat)
    requires 0 < k <= |plan.modules|
    ensures |plan.Directory(base, k)| >= 4 && plan.Directory(base, k)[..4] == DIRECTORY_SIG
  {
    if k == 1 {
      assert plan.Directory(base, 0) == [];
      assert plan.Entry(base, 0)[..4] == DIRECTORY_SIG;
    } else {
      DirectoryStart(plan, base, k - 1);
    }
  }

  lemma FooterStart(plan: Plan, base: nat)
    ensures |plan.Footer(base)| >= 4
    ensures plan.Footer(base)[..4] == if plan.modules == [] then END_SIG else DIRECTORY_SIG
  {
    if plan.modules != [] {
      DirectoryStart(plan, base, |plan.modules|);
    }
  }

  /** The modules before the first empty one, where the reader stops. */
  function UpToEmpty(modules: seq<seq<Byte>>): seq<seq<Byte>>
  {
    if modules == [] || modules[0] == [] then [] else [modules[0]] + UpToEmpty(modules[1..])
  }

  /** The reader finds the next module of an archive just where its header says. */
  lemma SeekFindsModule(before: seq<Byte>, crc: nat, m: seq<Byte>, name: seq<Byte>, after: seq<Byte>)
    requires |name| < TWO_16 && |m| < TWO_32
    ensures var s, at := before + LocalHeader(crc, |m|, name) + m + after, |before| + LOCAL_SIZE + |name|;
      Seek(s, |before|) == Size(|m|, at) && s[at..at + |m|] == m
  {
    hide LocalHeader, Val16, Val32;
    var s := before + LocalHeader(crc, |m|, name) + m + after;
    LocalFields(before, crc, |m|, name, m + after);
    assert s == before + LocalHeader(crc, |m|, name) + (m + after);
  }

  lemma LoadOne(data: seq<Byte>, pos: nat, size: nat, at: nat)
    requires |data| < TWO_32 && Seek(data, pos) == Size(size, at) && pos < at && at + size <= |data|
    ensures Load(data, pos) == if size == 0 then Loaded([], Done)
      else Loaded([data[at..at + size]] + Load(data, at + size).modules, Load(data, at + size).error)
  {
    hide Seek;
  }

  lemma LoadStops(data: seq<Byte>, pos: nat)
    requires |data| < TWO_32 && Seek(data, pos).Size? && Seek(data, pos).size == 0
    ensures Load(data, pos) == Loaded([], Done)
  {
    hide Seek;
  }

  lemma {:induction false} LoadFrom(plan: Plan, k: nat)
    requires k <= |plan.modules| && NamesFit(plan)
    requires |plan.Locals(k) + Tail(plan, 0, k)| < TWO_32
    ensures Load(plan.Locals(k) + Tail(plan, 0, k), |plan.Locals(k)|) == Loaded(UpToEmpty(plan.modules[k..]), Done)
    decreases |plan.modules| - k
  {
    hide Seek, Load, Plan.Locals, Plan.Footer, LocalHeader;
    var before, s := plan.Locals(k), plan.Locals(k) + Tail(plan, 0, k);
    if k == |plan.modules| {
      FooterStops(before, plan, 0);
      LoadStops(s, |before|);
    } else {
      var m, tail, name := plan.modules[k], Tail(plan, 0, k + 1), plan.NameOf(k);
      assert s == before + plan.Header(k) + m + tail;
      SeekFindsModule(before, plan.crc(m), m, name, tail);
      LoadOne(s, |before|, |m|, |before| + LOCAL_SIZE + |name|);
      if m != [] {
        LocalsStep(plan, k);
        LoadFrom(plan, k + 1);
        assert plan.modules[k..][1..] == plan.modules[k + 1..];
      }
    }
  }

  /** Reading an archive back gives its modules in order, up to the first empty one. */
  lemma LoadReadsArchive(plan: Plan)
    requires |plan.modules| != 1 && NamesFit(plan) && |plan.Archive(0)| < TWO_32
    ensures Load(plan.Archive(0), 0) == Loaded(UpToEmpty(plan.modules), Done)
  {
    LocalsThenTail(plan, 0, 0);
    assert plan.Locals(0) + Tail(plan, 0, 0) == Tail(plan, 0, 0);
    LoadFrom(plan, 0);
    assert plan.modules[0..] == plan.modules;
  }

  lemma {:induction false} UpToEmptyIsAll(modules: seq<seq<Byte>>)
    ensures UpToEmpty(modules) == modules <==> forall m :: m in modules ==> m != []
    ensures |UpToEmpty(modules)| <= |modules|
    decreases |modules|
  {
    if modules != [] {
      assert modules == [modules[0]] + modules[1..];
      assert forall m :: m in modules <==> m == modules[0] || m in modules[1..];
      if modules[0] != [] {
        UpToEmptyIsAll(modules[1..]);
        assert UpToEmpty(modules)[1..] == UpToEmpty(modules[1..]);
      } else {
        assert modules[0] in modules;
      }
    }
  }

  /** A bare module is taken for one just when it carries the signature of a .cod file. */
  predicate IsBareCod(m: seq<Byte>)
  {
    |m| >= 4 && m[..2] == [0xDE, 0xC0]
  }

  lemma SeekAtStart(m: seq<Byte>)
    requires |m| < TWO_32
    ensures IsBareCod(m) ==> |m| > 0 && Seek(m, 0) == Size(|m|, 0)
    ensures !IsBareCod(m) && Seek(m, 0).Size? && Seek(m, 0).size > 0 ==> Seek(m, 0).pos > 0
  {
    if |m| >= 4 {
      assert m[0..4][..2] == m[..2];
      assert LOCAL_SIG[..2][0] == 0x50;
      assert [0xDE, 0xC0][0] == 0xDE;
    }
  }

  lemma BareModule(m: seq<Byte>)
    requires |m| < TWO_32
    ensures Load(m, 0) == Loaded([m], Done) <==> IsBareCod(m)
  {
    hide Seek, IsBareCod;
    SeekAtStart(m);
    var s := Seek(m, 0);
    if s.Size? && s.size > 0 && s.pos > 0 && s.pos + s.size <= |m| {
      assert Load(m, 0).modules[0] == m[s.pos..s.pos + s.size];
      assert |Load(m, 0).modules[0]| < |m|;
    }
  }

  /** The round trip holds exactly when no module is empty and a lone module carries the .cod signature. */
  lemma ArchiveRoundTrip(plan: Plan)
    requires NamesFit(plan) && |plan.Archive(0)| < TWO_32
    ensures Load(plan.Archive(0), 0) == Loaded(plan.modules, Done) <==>
      if |plan.modules| == 1 then IsBareCod(plan.modules[0]) else forall m :: m in plan.modules ==> m != []
  {
    if |plan.modules| == 1 {
      BareModule(plan.modules[0]);
      assert plan.modules == [plan.modules[0]];
    } else {
      LoadReadsArchive(plan);
      UpToEmptyIsAll(plan.modules);
    }
  }

  // ---- The central directory ----

  lemma DirectoryStep(plan: Plan, base: nat, k: nat)
    requires k < |plan.modules|
    ensures plan.Directory(base, k + 1) == plan.Directory(base, k) + plan.Entry(base, k)
  {
  }

  /** The entries after entry k of the first n. */
  function Later(plan: Plan, base: nat, k: nat, n: nat): seq<Byte>
    requires k <= n <= |plan.modules|
    decreases n - k
  {
    if k == n then [] else plan.Entry(base, k) + Later(plan, base, k + 1, n)
  }

  lemma {:induction false} DirectorySplits(plan: Plan, base: nat, k: nat, n: nat)
    requires k <= n <= |plan.modules|
    ensures plan.Directory(base, n) == plan.Directory(base, k) + Later(plan, base, k, n)
    decreases n - k
  {
    hide Plan.Directory, Plan.Entry;
    if k < n {
      DirectorySplits(plan, base, k + 1, n);
      DirectoryStep(plan, base, k);
      var d, e, l := plan.Directory(base, k), plan.Entry(base, k), Later(plan, base, k + 1, n);
      assert d + e + l == d + (e + l);
    }
  }

  lemma HeaderInArchive(plan: Plan, k: nat)
    requires |plan.modules| != 1 && k < |plan.modules|
    ensures var s, h, m, name := plan.Archive(0), |plan.Locals(k)|, plan.modules[k], plan.NameOf(k);
      HeaderAt(s, h, plan.crc(m), |m|, name) && m <= s[h + LOCAL_SIZE + |name|..]
  {
    hide Plan.Locals, HeaderAt, LocalHeader;
    var s, m, name := plan.Archive(0), plan.modules[k], plan.NameOf(k);
    var l, tail := plan.Locals(k), Tail(plan, 0, k + 1);
    LocalsThenTail(plan, 0, k);
    assert s == l + plan.Header(k) + (m + tail);
    LocalFields(l, plan.crc(m), |m|, name, m + tail);
    PrefixHasRoom(s, l, plan.crc(m), |m|, name, m + tail);
  }

  lemma PrefixHasRoom(s: seq<Byte>, l: seq<Byte>, crc: nat, size: nat, name: seq<Byte>, after: seq<Byte>)
    requires s == l + LocalHeader(crc, size, name) + after
    ensures |l| + LOCAL_SIZE + |name| <= |s| && s[|l| + LOCAL_SIZE + |name|..] == after
  {
  }

  /** Every directory entry points at its module's local header, where the same CRC, sizes and name stand,
      and the module follows. */
  lemma EntryMatchesHeader(plan: Plan, k: nat)
    requires |plan.modules| != 1 && k < |plan.modules|
    ensures var s, n, m, name := plan.Archive(0), |plan.modules|, plan.modules[k], plan.NameOf(k);
      var h, e := |plan.Locals(k)|, |plan.Locals(n)| + |plan.Directory(0, k)|;
      && EntryAt(s, e, plan.crc(m), |m|, name, h)
      && HeaderAt(s, h, plan.crc(m), |m|, name) && m <= s[h + LOCAL_SIZE + |name|..]
  {
    hide Plan.Locals, Plan.Directory, EntryAt, HeaderAt, DirectoryEntry;
    HeaderInArchive(plan, k);
    var s, n, m, name := plan.Archive(0), |plan.modules|, plan.modules[k], plan.NameOf(k);
    var locals, d := plan.Locals(n), plan.Directory(0, k);
    DirectorySplits(plan, 0, k, n);
    var rest := Later(plan, 0, k + 1, n) + EndRecord(n, |plan.Directory(0, n)|, |locals|);
    assert s == (locals + d) + plan.Entry(0, k) + rest;
    EntryFields(locals + d, plan.crc(m), |m|, name, |plan.Locals(k)|, rest);
  }

  /** In s, the last record counts the entries of a directory that lies from d to that record. */
  predicate EndAgrees(s: seq<Byte>, d: nat, directory: seq<Byte>, count: nat)
  {
    var p := d + |directory|;
    && |s| == p + END_SIZE && s[d..p] == directory && s[p..p + 4] == [0x50, 0x4B, 5, 6]
    && Val16(s, p + 8) == Val16(s, p + 10) == Low16(count)
    && Val32(s, p + 12) == Low32(|directory|) && Val32(s, p + 16) == Low32(d)
    && s[p + 4..p + 8] == [0, 0, 0, 0] && Val16(s, p + 20) == 0
  }

  /** The end record counts the entries and says where the directory is and how long. */
  lemma EndRecordIsTrue(plan: Plan)
    requires |plan.modules| != 1
    ensures EndAgrees(plan.Archive(0), |plan.Locals(|plan.modules|)|, plan.Directory(0, |plan.modules|), |plan.modules|)
  {
    hide Plan.Locals, Plan.Directory, Val16, Val32, EndRecord;
    var s, n := plan.Archive(0), |plan.modules|;
    var locals, directory := plan.Locals(n), plan.Directory(0, n);
    EndFields(locals + directory, n, |directory|, |locals|);
    assert s == locals + directory + EndRecord(n, |directory|, |locals|);
  }
}
