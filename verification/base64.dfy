/** base64.cc: an encoder and a decoder that both write through the same line-folding output. */
module Base64 {
  import opened Bytes

  const LINELEN := 72
  const PAD: Byte := 0x3D
  const INVALID: Byte := 0x80
  const EOF := -1

  // ---- Folding ----

  /** A newline and a space before every byte that would be the 73rd of its line. */
  function Fold(s: seq<Byte>, linelength: nat): seq<Byte>
    decreases |s|
  {
    if s == [] then []
    else if linelength >= LINELEN then [NEWLINE, SPACE, s[0]] + Fold(s[1..], 1)
    else [s[0]] + Fold(s[1..], linelength + 1)
  }

  class Output {
    var insert: seq<Byte>
    var linelength: nat

    constructor ()
      ensures insert == [] && linelength == 0
    {
      insert, linelength := [], 0;
    }

    /** Writes c; rest is what is still to be written. */
    method Put(c: Byte, ghost rest: seq<Byte>)
      modifies this
      ensures insert + Fold(rest, linelength) == old(insert + Fold([c] + rest, linelength))
    {
      assert ([c] + rest)[1..] == rest;
      if linelength >= LINELEN {
        insert := insert + [NEWLINE] + [SPACE];
        linelength := 0;
      }
      insert := insert + [c];
      linelength := linelength + 1;
    }
  }

  // ---- Input: a signed char 0xFF is -1, which reads as the end of the input ----

  function BeforeFF(s: seq<Byte>): (r: seq<Byte>)
    ensures r <= s && 0xFF !in r && (r == s <==> 0xFF !in s)
  {
    if s == [] || s[0] == 0xFF then [] else [s[0]] + BeforeFF(s[1..])
  }

  function Signed(b: Byte): (c: int)
    ensures c == EOF <==> b == 0xFF
  {
    var n: int := b;
    if n < 0x80 then n else n - 0x100
  }

  class Input {
    const s: seq<Byte>
    var begin: nat

    constructor (s: seq<Byte>)
      ensures this.s == s && begin == 0
    {
      this.s, begin := s, 0;
    }

    /** Everything that can still be read. */
    function Rest(): seq<Byte>
      requires begin <= |s|
      reads this
    {
      BeforeFF(s[begin..])
    }

    method Next() returns (c: int)
      requires begin <= |s|
      modifies this
      ensures old(begin) <= begin <= |s|
      ensures old(Rest()) == [] ==> c == EOF
      ensures old(Rest()) != [] ==>
        && c == Signed(old(Rest())[0])
        && Rest() == old(Rest())[1..] && begin == old(begin) + 1
    {
      if begin == |s| {
        return EOF;
      }
      c := Signed(s[begin]);
      assert s[begin..][1..] == s[begin + 1..];
      begin := begin + 1;
    }
  }

  // ---- Encoding ----

  function Symbol(v: nat): (b: Byte)
    requires v < 64
    ensures 0x20 < b < 0x7F && b != PAD
  {
    if v < 26 then 0x41 + v
    else if v < 52 then 0x61 + (v - 26)
    else if v < 62 then 0x30 + (v - 52)
    else if v == 62 then 0x2B
    else 0x2F
  }

  /** Three bytes as four symbols; padded says how many bytes are really there. */
  function Group(a: Byte, b: Byte, c: Byte, n: nat): (g: seq<Byte>)
    ensures |g| == 4
  {
    [Symbol(a / 4), Symbol(a % 4 * 16 + b / 16),
     if n < 2 then PAD else Symbol(b % 16 * 4 + c / 64),
     if n < 3 then PAD else Symbol(c % 64)]
  }

  /** The four symbols of three bytes are their 24 bits, six by six; a missing byte counts as 0. */
  lemma GroupIsNumber(a: Byte, b: Byte, c: Byte, n: nat)
    returns (v0: nat, v1: nat, v2: nat, v3: nat)
    ensures v0 < 64 && v1 < 64 && v2 < 64 && v3 < 64
    ensures 0x1_0000 * a + 0x100 * b + c == 0x4_0000 * v0 + 0x1000 * v1 + 0x40 * v2 + v3
    ensures Group(a, b, c, n)
      == [Symbol(v0), Symbol(v1), if n < 2 then 0x3D else Symbol(v2), if n < 3 then 0x3D else Symbol(v3)]
  {
    hide Symbol;
    v0, v1, v2, v3 := a / 4, a % 4 * 16 + b / 16, b % 16 * 4 + c / 64, c % 64;
  }

  /** Upper case, lower case, digits, plus and slash. */
  lemma Alphabet(v: nat)
    requires v < 64
    ensures v < 26 ==> Symbol(v) == 'A' as int + v
    ensures 26 <= v < 52 ==> Symbol(v) == 'a' as int + (v - 26)
    ensures 52 <= v < 62 ==> Symbol(v) == '0' as int + (v - 52)
    ensures Symbol(62) == '+' as int && Symbol(63) == '/' as int
  {
  }

  function Groups(s: seq<Byte>): seq<Byte>
    decreases |s|
  {
    if s == [] then []
    else if |s| == 1 then Group(s[0], 0, 0, 1)
    else if |s| == 2 then Group(s[0], s[1], 0, 2)
    else Group(s[0], s[1], s[2], 3) + Groups(s[3..])
  }

  function Encoded(s: seq<Byte>): seq<Byte>
  {
    Fold(Groups(BeforeFF(s)), 0)
  }

  method FillSymbols(dtable: array<Byte>)
    requires dtable.Length == 256
    modifies dtable
    ensures forall v :: 0 <= v < 64 ==> dtable[v] == Symbol(v)
  {
    hide Symbol;
    for i := 0 to 26
      invariant forall v :: 0 <= v < i ==> dtable[v] == 0x41 + v
      invariant forall v :: 26 <= v < 26 + i ==> dtable[v] == 0x61 + (v - 26)
    {
      dtable[i] := 0x41 + i;
      dtable[26 + i] := 0x61 + i;
    }
    for i := 0 to 10
      invariant forall v :: 0 <= v < 26 ==> dtable[v] == 0x41 + v
      invariant forall v :: 26 <= v < 52 ==> dtable[v] == 0x61 + (v - 26)
      invariant forall v :: 52 <= v < 52 + i ==> dtable[v] == 0x30 + (v - 52)
    {
      dtable[52 + i] := 0x30 + i;
    }
    dtable[62] := 0x2B;
    dtable[63] := 0x2F;
    forall v | 0 <= v < 64
      ensures dtable[v] == Symbol(v)
    {
      Symbols(v);
    }
  }

  lemma Symbols(v: nat)
    requires v < 64
    ensures v < 26 ==> Symbol(v) == 0x41 + v
    ensures 26 <= v < 52 ==> Symbol(v) == 0x61 + (v - 26)
    ensures 52 <= v < 62 ==> Symbol(v) == 0x30 + (v - 52)
    ensures Symbol(62) == 0x2B && Symbol(63) == 0x2F
  {
  }

  /** Up to three bytes; fewer only at the end of the input. */
  method ReadGroup(inchar: Input) returns (igroup: seq<Byte>, n: nat, hiteof: bool)
    requires inchar.begin <= |inchar.s|
    modifies inchar
    ensures old(inchar.begin) <= inchar.begin <= |inchar.s| && |igroup| == 3
    ensures !hiteof ==> inchar.begin > old(inchar.begin)
    ensures
      var all := old(inchar.Rest());
      && n == (if |all| < 3 then |all| else 3) && (hiteof <==> |all| < 3)
      && (forall k :: 0 <= k < 3 ==> igroup[k] == if k < n then all[k] else 0)
      && (!hiteof ==> inchar.Rest() == all[3..])
  {
    ghost var all := inchar.Rest();
    igroup, n, hiteof := [0, 0, 0], 0, false;
    while n < 3
      invariant n <= 3 && n <= |all| && !hiteof
      invariant inchar.begin == old(inchar.begin) + n <= |inchar.s| && inchar.Rest() == all[n..]
      invariant |igroup| == 3 && forall k :: 0 <= k < 3 ==> igroup[k] == if k < n then all[k] else 0
    {
      NoEof(inchar.s[inchar.begin..]);
      var c := inchar.Next();
      if c == EOF {
        return igroup, n, true;
      }
      igroup := igroup[n := if c < 0 then c + 0x100 else c];
      assert all[n..][1..] == all[n + 1..];
      n := n + 1;
    }
  }

  method WriteGroup(ochar: Output, g: seq<Byte>, ghost rest: seq<Byte>)
    requires |g| == 4
    modifies ochar
    ensures ochar.insert + Fold(rest, ochar.linelength) == old(ochar.insert + Fold(g + rest, ochar.linelength))
  {
    hide Fold;
    ghost var all := ochar.insert + Fold(g + rest, ochar.linelength);
    assert g[0..] == g;
    for i := 0 to 4
      invariant ochar.insert + Fold(g[i..] + rest, ochar.linelength) == all
    {
      assert g[i..] + rest == [g[i]] + (g[i + 1..] + rest);
      ochar.Put(g[i], g[i + 1..] + rest);
    }
    assert g[4..] + rest == rest;
  }

  method EncodeInto(inchar: Input, ochar: Output, dtable: array<Byte>)
    requires inchar.begin == 0 && ochar.insert == [] && ochar.linelength == 0 && dtable.Length == 256
    modifies inchar, ochar, dtable
    ensures ochar.insert == Encoded(inchar.s)
  {
    hide Fold, BeforeFF, Group;
    FillSymbols(dtable);
    assert inchar.s[0..] == inchar.s;
    var hiteof := false;
    while !hiteof
      invariant inchar.begin <= |inchar.s|
      invariant forall v :: 0 <= v < 64 ==> dtable[v] == Symbol(v)
      invariant !hiteof ==> ochar.insert + Fold(Groups(inchar.Rest()), ochar.linelength) == Encoded(inchar.s)
      invariant hiteof ==> ochar.insert == Encoded(inchar.s)
      decreases !hiteof, |inchar.s| - inchar.begin
    {
      ghost var todo := inchar.Rest();
      var igroup: seq<Byte>, n: nat;
      igroup, n, hiteof := ReadGroup(inchar);
      FoldNothing(ochar.linelength);
      if n > 0 {
        var ogroup := EncodeGroup(igroup, n, dtable);
        ghost var later := if hiteof then [] else Groups(inchar.Rest());
        GroupsStep(todo, n, ogroup, later);
        WriteGroup(ochar, ogroup, later);
        FoldNothing(ochar.linelength);
      }
    }
  }

  lemma FoldNothing(linelength: nat)
    ensures Fold([], linelength) == []
  {
  }

  lemma GroupsStep(s: seq<Byte>, n: nat, g: seq<Byte>, later: seq<Byte>)
    requires s != [] && n == if |s| < 3 then |s| else 3
    requires g == Group(s[0], if n > 1 then s[1] else 0, if n > 2 then s[2] else 0, n)
    requires later == if |s| < 3 then [] else Groups(s[3..])
    ensures Groups(s) == g + later
  {
    hide Group;
  }

  method EncodeGroup(igroup: seq<Byte>, n: nat, dtable: array<Byte>) returns (ogroup: seq<Byte>)
    requires |igroup| == 3 && n > 0 && dtable.Length == 256
    requires forall v :: 0 <= v < 64 ==> dtable[v] == Symbol(v)
    ensures ogroup == Group(igroup[0], igroup[1], igroup[2], n)
  {
    hide Symbol;
    ogroup := [dtable[igroup[0] / 4], dtable[igroup[0] % 4 * 16 + igroup[1] / 16],
               dtable[igroup[1] % 16 * 4 + igroup[2] / 64], dtable[igroup[2] % 64]];
    if n < 3 {
      ogroup := ogroup[3 := PAD];
      if n < 2 {
        ogroup := ogroup[2 := PAD];
      }
    }
  }

  // ---- Decoding ----

  /** White space, control characters and negative chars are skipped. */
  predicate Significant(b: Byte)
  {
    0x20 < b < 0x80
  }

  function Sig(s: seq<Byte>): (r: seq<Byte>)
    ensures forall i :: 0 <= i < |r| ==> Significant(r[i])
  {
    if s == [] then [] else if Significant(s[0]) then [s[0]] + Sig(s[1..]) else Sig(s[1..])
  }

  /** What dtable holds for a character. */
  function SymbolValue(c: Byte): Byte
  {
    if 0x41 <= c <= 0x5A then c - 0x41
    else if 0x61 <= c <= 0x7A then 26 + (c - 0x61)
    else if 0x30 <= c <= 0x39 then 52 + (c - 0x30)
    else if c == 0x2B then 62
    else if c == 0x2F then 63
    else if c == PAD then 0
    else INVALID
  }

  predicate LegalGroup(g: seq<Byte>)
  {
    |g| == 4 && forall k :: 0 <= k < 4 ==> SymbolValue(g[k]) != INVALID
  }

  /** The bytes of one group of four: one or two of them when it is padded. */
  function GroupBytes(g: seq<Byte>): (r: seq<Byte>)
    requires LegalGroup(g)
    ensures 1 <= |r| <= 3
  {
    var b0, b1, b2, b3 := SymbolValue(g[0]), SymbolValue(g[1]), SymbolValue(g[2]), SymbolValue(g[3]);
    [b0 * 4 + b1 / 16]
    + (if g[2] == PAD then [] else [b1 % 16 * 16 + b2 / 4])
    + if g[2] == PAD || g[3] == PAD then [] else [b2 % 4 * 64 + b3]
  }

  datatype Decoding = Decoding(bytes: seq<Byte>, ok: bool)

  function DecodeStream(t: seq<Byte>): Decoding
    decreases |t|
  {
    if |t| < 4 || !LegalGroup(t[..4]) then Decoding([], false)
    else
      var g := GroupBytes(t[..4]);
      if |g| < 3 then Decoding(g, true)
      else
        var r := DecodeStream(t[4..]);
        r.(bytes := g + r.bytes)
  }

  function Decoded(s: seq<Byte>): Decoding
  {
    var r := DecodeStream(Sig(BeforeFF(s)));
    r.(bytes := Fold(r.bytes, 0))
  }

  method FillValues(dtable: array<Byte>)
    requires dtable.Length == 256
    modifies dtable
    ensures forall c :: 0 <= c < 255 ==> dtable[c] == SymbolValue(c)
  {
    for i := 0 to 255
      invariant forall c :: 0 <= c < i ==> dtable[c] == INVALID
    {
      dtable[i] := INVALID;
    }
    for i := 0x41 to 0x5B
      invariant forall c :: 0 <= c < 255 ==> dtable[c] == if 0x41 <= c < i then SymbolValue(c) else INVALID
    {
      dtable[i] := i - 0x41;
    }
    for i := 0x61 to 0x7B
      invariant forall c :: 0 <= c < 255 ==> dtable[c] == if 0x41 <= c < i then SymbolValue(c) else INVALID
    {
      dtable[i] := 26 + (i - 0x61);
    }
    for i := 0x30 to 0x3A
      invariant forall c :: 0 <= c < 255 ==> dtable[c] == if 0x30 <= c < i || 0x40 < c then SymbolValue(c) else INVALID
    {
      dtable[i] := 52 + (i - 0x30);
    }
    dtable[0x2B] := 62;
    dtable[0x2F] := 63;
    dtable[PAD] := 0;
  }

  /** INSIG: the next significant character or EOF. */
  method NextSignificant(inchar: Input) returns (c: int)
    requires inchar.begin <= |inchar.s|
    modifies inchar
    ensures old(inchar.begin) <= inchar.begin <= |inchar.s|
    ensures
      var all := old(Sig(inchar.Rest()));
      if all == [] then c == EOF
      else c == all[0] && Sig(inchar.Rest()) == all[1..] && inchar.begin > old(inchar.begin)
  {
    hide BeforeFF;
    while true
      invariant old(inchar.begin) <= inchar.begin <= |inchar.s|
      invariant Sig(inchar.Rest()) == old(Sig(inchar.Rest()))
      decreases |inchar.s| - inchar.begin
    {
      NoEof(inchar.s[inchar.begin..]);
      c := inchar.Next();
      if c == EOF || c > 0x20 {
        return;
      }
    }
  }

  lemma NoEof(s: seq<Byte>)
    ensures BeforeFF(s) != [] ==> BeforeFF(s)[0] != 0xFF
  {
  }

  /** Four significant characters, all of them legal, or failure. */
  method ReadFour(inchar: Input, dtable: array<Byte>) returns (a: seq<Byte>, b: seq<Byte>, ok: bool)
    requires inchar.begin <= |inchar.s| && dtable.Length == 256
    requires forall c :: 0 <= c < 255 ==> dtable[c] == SymbolValue(c)
    modifies inchar
    ensures old(inchar.begin) <= inchar.begin <= |inchar.s|
    ensures ok ==> inchar.begin > old(inchar.begin)
    ensures
      var all := old(Sig(inchar.Rest()));
      && (ok <==> |all| >= 4 && LegalGroup(all[..4]))
      && (ok ==> a == all[..4] && |b| == 4 && Sig(inchar.Rest()) == all[4..])
      && (ok ==> forall k :: 0 <= k < 4 ==> b[k] == SymbolValue(a[k]))
  {
    hide Sig, SymbolValue;
    ghost var all := Sig(inchar.Rest());
    a, b, ok := [], [], true;
    for i := 0 to 4
      invariant old(inchar.begin) <= inchar.begin <= |inchar.s| && (i > 0 ==> inchar.begin > old(inchar.begin))
      invariant i <= |all| && a == all[..i] && |b| == i && Sig(inchar.Rest()) == all[i..]
      invariant forall k :: 0 <= k < i ==> b[k] == SymbolValue(a[k]) != INVALID
    {
      var c := NextSignificant(inchar);
      if c == EOF {
        ok := false;
        return;
      }
      assert c == all[i] && Significant(all[i]);
      if dtable[c] == INVALID {
        assert |all| >= 4 ==> all[..4][i] == all[i];
        ok := false;
        return;
      }
      a, b := a + [c], b + [dtable[c]];
      assert all[i..][1..] == all[i + 1..];
    }
    assert forall k :: 0 <= k < 4 ==> all[..4][k] == a[k];
  }

  method DecodeInto(inchar: Input, ochar: Output, dtable: array<Byte>) returns (ok: bool)
    requires inchar.begin == 0 && ochar.insert == [] && ochar.linelength == 0 && dtable.Length == 256
    modifies inchar, ochar, dtable
    ensures Decoding(ochar.insert, ok) == Decoded(inchar.s)
  {
    hide Fold, BeforeFF, Sig, GroupBytes;
    FillValues(dtable);
    assert inchar.s[0..] == inchar.s;
    while true
      invariant inchar.begin <= |inchar.s|
      invariant forall c :: 0 <= c < 255 ==> dtable[c] == SymbolValue(c)
      invariant
        var r := DecodeStream(Sig(inchar.Rest()));
        Decoding(ochar.insert + Fold(r.bytes, ochar.linelength), r.ok) == Decoded(inchar.s)
      decreases |inchar.s| - inchar.begin
    {
      FoldNothing(ochar.linelength);
      var a, b, legal := ReadFour(inchar, dtable);
      if !legal {
        return false;
      }
      var o := [b[0] * 4 + b[1] / 16, b[1] % 16 * 16 + b[2] / 4, b[2] % 4 * 64 + b[3]];
      var i := if a[2] == PAD then 1 else if a[3] == PAD then 2 else 3;
      BytesOf(a, b, o, i);
      ghost var later := if i < 3 then [] else DecodeStream(Sig(inchar.Rest())).bytes;
      assert i < 3 ==> o[..i] + later == o[..i];
      WriteBytes(ochar, o[..i], later);
      if i < 3 {
        FoldNothing(ochar.linelength);
        return true;
      }
    }
  }

  lemma BytesOf(a: seq<Byte>, b: seq<Byte>, o: seq<Byte>, i: nat)
    requires LegalGroup(a) && |b| == 4 && forall k :: 0 <= k < 4 ==> b[k] == SymbolValue(a[k])
    requires o == [b[0] * 4 + b[1] / 16, b[1] % 16 * 16 + b[2] / 4, b[2] % 4 * 64 + b[3]]
    requires i == if a[2] == PAD then 1 else if a[3] == PAD then 2 else 3
    ensures GroupBytes(a) == o[..i]
  {
    hide SymbolValue;
  }

  method WriteBytes(ochar: Output, g: seq<Byte>, ghost rest: seq<Byte>)
    modifies ochar
    ensures ochar.insert + Fold(rest, ochar.linelength) == old(ochar.insert + Fold(g + rest, ochar.linelength))
  {
    hide Fold;
    ghost var all := ochar.insert + Fold(g + rest, ochar.linelength);
    assert g[0..] == g;
    for i := 0 to |g|
      invariant ochar.insert + Fold(g[i..] + rest, ochar.linelength) == all
    {
      assert g[i..] + rest == [g[i]] + (g[i + 1..] + rest);
      ochar.Put(g[i], g[i + 1..] + rest);
    }
    assert g[|g|..] + rest == rest;
  }

  // ---- The in-memory interface ----

  method Encode(input: seq<Byte>) returns (out: seq<Byte>)
    ensures out == Encoded(input)
  {
    var inchar := new Input(input);
    var ochar := new Output();
    var dtable := new Byte[256];
    EncodeInto(inchar, ochar, dtable);
    out := ochar.insert;
  }

  method Decode(input: seq<Byte>) returns (out: seq<Byte>, ok: bool)
    ensures Decoding(out, ok) == Decoded(input)
  {
    var inchar := new Input(input);
    var ochar := new Output();
    var dtable := new Byte[256];
    ok := DecodeInto(inchar, ochar, dtable);
    out := ochar.insert;
  }

  // ---- What decoding makes of an encoding ----

  lemma ValueOfSymbol(v: nat)
    requires v < 64
    ensures SymbolValue(Symbol(v)) == v
  {
  }

  lemma ShiftsUndone(a: Byte, b: Byte, c: Byte)
    ensures a / 4 * 4 + (a % 4 * 16 + b / 16) / 16 == a
    ensures (a % 4 * 16 + b / 16) % 16 * 16 + (b % 16 * 4 + c / 64) / 4 == b
    ensures (b % 16 * 4 + c / 64) % 4 * 64 + c % 64 == c
  {
    assert (a % 4 * 16 + b / 16) / 16 == a % 4;
    assert (a % 4 * 16 + b / 16) % 16 == b / 16;
    assert (b % 16 * 4 + c / 64) / 4 == b % 16;
    assert (b % 16 * 4 + c / 64) % 4 == c / 64;
  }

  lemma GroupUndone(a: Byte, b: Byte, c: Byte, n: nat)
    requires 1 <= n <= 3 && (n < 2 ==> b == 0) && (n < 3 ==> c == 0)
    ensures LegalGroup(Group(a, b, c, n)) && GroupBytes(Group(a, b, c, n)) == [a, b, c][..n]
    ensures forall k :: 0 <= k < 4 ==> Significant(Group(a, b, c, n)[k])
  {
    hide Symbol, SymbolValue;
    var v0, v1, v2, v3 := a / 4, a % 4 * 16 + b / 16, b % 16 * 4 + c / 64, c % 64;
    ValueOfSymbol(v0);
    ValueOfSymbol(v1);
    ValueOfSymbol(v2);
    ValueOfSymbol(v3);
    ValueOfPad();
    ShiftsUndone(a, b, c);
  }

  lemma ValueOfPad()
    ensures SymbolValue(PAD) == 0
  {
  }

  lemma {:induction false} GroupsUndone(s: seq<Byte>)
    ensures DecodeStream(Groups(s)) == Decoding(s, |s| % 3 != 0)
    ensures forall k :: 0 <= k < |Groups(s)| ==> Significant(Groups(s)[k])
    decreases |s|
  {
    hide Group, GroupBytes, LegalGroup, Significant;
    if s != [] {
      var n := if |s| < 3 then |s| else 3;
      var b, c := if n > 1 then s[1] else 0, if n > 2 then s[2] else 0;
      var g := Group(s[0], b, c, n);
      GroupUndone(s[0], b, c, n);
      assert [s[0], b, c][..n] == s[..n];
      if |s| < 3 {
        assert Groups(s) == g && g[..4] == g && s[..n] == s;
      } else {
        GroupsUndone(s[3..]);
        assert Groups(s) == g + Groups(s[3..]);
        assert Groups(s)[..4] == g && Groups(s)[4..] == Groups(s[3..]);
        assert s[..3] + s[3..] == s;
      }
    }
  }

  lemma FirstIsSymbol(s: seq<Byte>)
    ensures Groups(s) != [] ==> Groups(s)[0] != 0x3A
  {
    if s != [] {
      NoColon(s[0] / 4);
    }
  }

  lemma NoColon(v: nat)
    requires v < 64
    ensures Symbol(v) != 0x3A
  {
  }

  /** The reader skips what folding inserts. */
  lemma {:induction false} SigOfFold(s: seq<Byte>, linelength: nat)
    requires forall k :: 0 <= k < |s| ==> Significant(s[k])
    ensures Sig(Fold(s, linelength)) == s && BeforeFF(Fold(s, linelength)) == Fold(s, linelength)
    decreases |s|
  {
    hide Fold, Sig, BeforeFF, Significant;
    FoldStep(s, linelength);
    if s != [] {
      var next := if linelength >= LINELEN then 1 else linelength + 1;
      var rest := Fold(s[1..], next);
      SigOfFold(s[1..], next);
      assert Significant(s[0]) && [s[0]] + s[1..] == s;
      NotFF(s[0]);
      SigOfCons(s[0], rest);
      SigOfCons(SPACE, [s[0]] + rest);
      SigOfCons(NEWLINE, [SPACE] + ([s[0]] + rest));
    }
  }

  lemma NotFF(b: Byte)
    requires Significant(b)
    ensures b != 0xFF
  {
  }

  lemma FoldStep(s: seq<Byte>, linelength: nat)
    ensures if s == [] then Fold(s, linelength) == [] && Sig([]) == [] && BeforeFF([]) == []
            else if linelength >= LINELEN then
              Fold(s, linelength) == [NEWLINE] + ([SPACE] + ([s[0]] + Fold(s[1..], 1)))
            else Fold(s, linelength) == [s[0]] + Fold(s[1..], linelength + 1)
  {
  }

  lemma SigOfCons(b: Byte, s: seq<Byte>)
    requires b != 0xFF
    ensures Sig([b] + s) == (if Significant(b) then [b] else []) + Sig(s) && BeforeFF([b] + s) == [b] + BeforeFF(s)
    ensures !Significant(SPACE) && !Significant(NEWLINE)
  {
    assert ([b] + s)[1..] == s;
  }

  /** Decoding folds its output too: what comes back is what stands before the first 0xFF, folded. It
      reports success exactly when there was padding. */
  lemma DecodeOfEncode(s: seq<Byte>)
    ensures Decoded(Encoded(s)) == Decoding(Fold(BeforeFF(s), 0), |BeforeFF(s)| % 3 != 0)
  {
    hide Fold, Sig, Groups, DecodeStream;
    var x := BeforeFF(s);
    hide BeforeFF;
    GroupsUndone(x);
    SigOfFold(Groups(x), 0);
  }

  lemma {:induction false} FoldGrows(s: seq<Byte>, linelength: nat)
    requires linelength <= LINELEN
    ensures |Fold(s, linelength)| >= |s|
    ensures Fold(s, linelength) == s <==> |s| + linelength <= LINELEN || s == []
    ensures |s| + linelength > LINELEN && s != [] ==> |Fold(s, linelength)| > |s|
    decreases |s|
  {
    if s != [] {
      if linelength == LINELEN {
        FoldGrows(s[1..], 1);
      } else {
        FoldGrows(s[1..], linelength + 1);
      }
    }
  }

  /** Folding adds nothing but line breaks and spaces. */
  lemma {:induction false} FoldAddsNo(b: Byte, s: seq<Byte>, linelength: nat)
    requires b !in s && b != NEWLINE && b != SPACE
    ensures b !in Fold(s, linelength)
    decreases |s|
  {
    if s != [] {
      FoldAddsNo(b, s[1..], if linelength >= LINELEN then 1 else linelength + 1);
    }
  }

  /** Encoding and decoding give the same bytes back exactly when there are at most 72 and none is 0xFF. */
  lemma Base64RoundTrip(s: seq<Byte>)
    ensures Decoded(Encoded(s)).bytes == s <==> |s| <= 72 && 0xFF !in s
  {
    hide Fold;
    DecodeOfEncode(s);
    FoldGrows(BeforeFF(s), 0);
    FoldAddsNo(0xFF, BeforeFF(s), 0);
  }
}
