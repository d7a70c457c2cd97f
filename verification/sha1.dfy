/** The Secure Hash Algorithm as FIPS 180-1 defines it. */
module Sha1Spec {
  import opened Bytes

  type Word = bv32

  datatype Registers = Registers(a: Word, b: Word, c: Word, d: Word, e: Word)

  const INITIAL := Registers(0x67452301, 0xefcdab89, 0x98badcfe, 0x10325476, 0xc3d2e1f0)

  function RotateBy1(x: Word): Word { (x << 1) | (x >> 31) }
  function RotateBy5(x: Word): Word { (x << 5) | (x >> 27) }
  function RotateBy30(x: Word): Word { (x << 30) | (x >> 2) }

  /** The logical functions of section 5. */
  function F(t: nat, b: Word, c: Word, d: Word): Word
  {
    if t < 20 then (b & c) | (!b & d)
    else if t < 40 then b ^ c ^ d
    else if t < 60 then (b & c) | (b & d) | (c & d)
    else b ^ c ^ d
  }

  /** The constants of section 6. */
  function K(t: nat): Word
  {
    if t < 20 then 0x5a827999 else if t < 40 then 0x6ed9eba1 else if t < 60 then 0x8f1bbcdc else 0xca62c1d6
  }

  /** Word t of the message schedule of a block, section 7 steps (a) and (b). */
  function Schedule(block: seq<Word>, t: nat): Word
    requires |block| == 16
  {
    if t < 16 then block[t]
    else RotateBy1(Schedule(block, t - 3) ^ Schedule(block, t - 8) ^ Schedule(block, t - 14) ^ Schedule(block, t - 16))
  }

  /** Addition modulo 2^32. */
  function Plus(x: Word, y: Word): Word { x + y }

  function Sum(x: Word, f: Word, e: Word, w: Word, k: Word): Word { x + f + e + w + k }

  /** One pass of section 7 step (d). */
  function Round(r: Registers, t: nat, w: Word): Registers
  {
    Registers(Sum(RotateBy5(r.a), F(t, r.b, r.c, r.d), r.e, w, K(t)), r.a, RotateBy30(r.b), r.c, r.d)
  }

  function Rounds(r: Registers, block: seq<Word>, t: nat): Registers
    requires |block| == 16
  {
    if t == 0 then r else Round(Rounds(r, block, t - 1), t - 1, Schedule(block, t - 1))
  }

  function AddRegisters(h: Registers, r: Registers): Registers
  {
    Registers(Plus(h.a, r.a), Plus(h.b, r.b), Plus(h.c, r.c), Plus(h.d, r.d), Plus(h.e, r.e))
  }

  /** Section 7 steps (c) to (e) for one block. */
  function Compress(h: Registers, block: seq<Word>): Registers
    requires |block| == 16
  {
    AddRegisters(h, Rounds(h, block, 80))
  }

  function ByteWord(b: Byte): (w: Word)
    ensures w <= 0xff
  {
    (b as bv8) as Word
  }

  function Push(w: Word, x: Word): Word { (w << 8) | x }

  /** Up to four bytes as a word, most significant first. */
  function Pack(bytes: seq<Byte>): Word
  {
    if bytes == [] then 0 else Push(Pack(bytes[..|bytes| - 1]), ByteWord(bytes[|bytes| - 1]))
  }

  function Block(m: seq<Byte>, n: nat): (block: seq<Word>)
    requires 64 * n + 64 <= |m|
    ensures |block| == 16
  {
    seq(16, i requires 0 <= i < 16 => Pack(m[64 * n + 4 * i..64 * n + 4 * i + 4]))
  }

  /** The registers after the first n blocks of m. */
  function HashBlocks(m: seq<Byte>, n: nat): Registers
    requires 64 * n <= |m|
  {
    if n == 0 then INITIAL else Compress(HashBlocks(m, n - 1), Block(m, n - 1))
  }

  /** How many zero bytes put the length field at the end of a block. */
  function ZeroCount(length: nat): (k: nat)
    ensures k < 64 && (length + 1 + k) % 64 == 56
  {
    (55 - length) % 64
  }

  /** A 32-bit count as four bytes, most significant first. */
  function BigEndian32(n: nat): (s: seq<Byte>)
    ensures |s| == 4
  {
    [n / 0x100_0000 % 0x100, n / 0x1_0000 % 0x100, n / 0x100 % 0x100, n % 0x100]
  }

  /** Section 4; the length counts bits, and 64 of its bits are kept. */
  function Pad(m: seq<Byte>): (p: seq<Byte>)
  {
    var bits := 8 * |m|;
    m + [0x80] + Zeros(ZeroCount(|m|))
      + (BigEndian32(bits / 0x1_0000_0000 % 0x1_0000_0000) + BigEndian32(bits % 0x1_0000_0000))
  }

  lemma EightMore(n: nat)
    requires n % 64 == 56
    ensures (n + 8) % 64 == 0
  {
  }

  lemma PaddingFillsBlocks(m: seq<Byte>)
    ensures |Pad(m)| % 64 == 0 && m < Pad(m) && Pad(m)[|m|] == 0x80
  {
    EightMore(|m| + 1 + ZeroCount(|m|));
  }

  function WordByte(w: Word, i: nat): Byte
    requires i < 4
  {
    var shifted := if i == 0 then w >> 24 else if i == 1 then w >> 16 else if i == 2 then w >> 8 else w;
    ((shifted & 0xff) as bv8) as int
  }

  function Register(r: Registers, i: nat): Word
    requires i < 5
  {
    match i
    case 0 => r.a
    case 1 => r.b
    case 2 => r.c
    case 3 => r.d
    case 4 => r.e
  }

  function DigestOf(r: Registers): (d: seq<Byte>)
    ensures |d| == 20
  {
    seq(20, i requires 0 <= i < 20 => WordByte(Register(r, i / 4), i % 4))
  }

  function Digest(m: seq<Byte>): (d: seq<Byte>)
    ensures |d| == 20
  {
    var p := Pad(m);
    DigestOf(HashBlocks(p, |p| / 64))
  }

  /** Later bytes do not change the blocks already hashed. */
  lemma {:induction false} HashBlocksOfPrefix(m: seq<Byte>, more: seq<Byte>, n: nat)
    requires 64 * n <= |m|
    ensures HashBlocks(m + more, n) == HashBlocks(m, n)
  {
    if n > 0 {
      HashBlocksOfPrefix(m, more, n - 1);
      forall i | 0 <= i < 16
        ensures (m + more)[64 * (n - 1) + 4 * i..64 * (n - 1) + 4 * i + 4]
             == m[64 * (n - 1) + 4 * i..64 * (n - 1) + 4 * i + 4]
      {
      }
      assert Block(m + more, n - 1) == Block(m, n - 1);
    }
  }
}

/** The streaming, in-place implementation of sha1.cc. */
module Sha1 {
  import opened Bytes
  import opened Sha1Spec

  /** The bytes of w that r shifts by one byte have filled. */
  function Filled(w: Word, r: nat): Word
    requires r < 4
  {
    if r == 0 then 0 else if r == 1 then w & 0xff else if r == 2 then w & 0xffff else w & 0xffffff
  }

  lemma ShiftMasked(w: Word, x: Word)
    requires x <= 0xff
    ensures ((w << 8) | x) & 0xff == (0 << 8) | x
    ensures ((w << 8) | x) & 0xffff == ((w & 0xff) << 8) | x
    ensures ((w << 8) | x) & 0xffffff == ((w & 0xffff) << 8) | x
    ensures (w << 8) | x == ((w & 0xffffff) << 8) | x
  {
  }

  lemma PushMasked0(w: Word, x: Word)
    requires x <= 0xff
    ensures Filled(Push(w, x), 1) == Push(Filled(w, 0), x)
  {
    ShiftMasked(w, x);
  }

  lemma PushMasked1(w: Word, x: Word)
    requires x <= 0xff
    ensures Filled(Push(w, x), 2) == Push(Filled(w, 1), x)
  {
    ShiftMasked(w, x);
  }

  lemma PushMasked2(w: Word, x: Word)
    requires x <= 0xff
    ensures Filled(Push(w, x), 3) == Push(Filled(w, 2), x)
  {
    ShiftMasked(w, x);
  }

  lemma PushMasked3(w: Word, x: Word)
    requires x <= 0xff
    ensures Push(w, x) == Push(Filled(w, 3), x)
  {
    ShiftMasked(w, x);
  }

  lemma NothingFilled(w: Word)
    ensures Filled(w, 0) == Pack([])
  {
  }

  /** Four shifts push every left-over bit out of a word. */
  lemma PushKeepsFilled(w: Word, r: nat, x: Word)
    requires r < 4 && x <= 0xff
    ensures (if r < 3 then Filled(Push(w, x), r + 1) else Push(w, x)) == Push(Filled(w, r), x)
  {
    hide Push, Filled;
    PushMasked0(w, x);
    PushMasked1(w, x);
    PushMasked2(w, x);
    PushMasked3(w, x);
  }

  /** The forms of the logical functions that the four round loops use. */
  function Choose(b: Word, c: Word, d: Word): Word { ((c ^ d) & b) ^ d }
  function Parity(b: Word, c: Word, d: Word): Word { b ^ c ^ d }
  function Majority(b: Word, c: Word, d: Word): Word { (b & c) | (d & (b | c)) }

  lemma LogicalForms(b: Word, c: Word, d: Word)
    ensures ((c ^ d) & b) ^ d == (b & c) | (!b & d)
    ensures (b & c) | (d & (b | c)) == (b & c) | (b & d) | (c & d)
  {
  }

  lemma ChooseIsF(t: nat, b: Word, c: Word, d: Word)
    requires t < 20
    ensures Choose(b, c, d) == F(t, b, c, d)
  {
    LogicalForms(b, c, d);
  }

  lemma MajorityIsF(t: nat, b: Word, c: Word, d: Word)
    requires 40 <= t < 60
    ensures Majority(b, c, d) == F(t, b, c, d)
  {
    LogicalForms(b, c, d);
  }

  lemma PackSnoc(bytes: seq<Byte>, b: Byte)
    ensures Pack(bytes + [b]) == Push(Pack(bytes), ByteWord(b))
  {
    assert (bytes + [b])[..|bytes|] == bytes;
  }

  /** The words of a block that has received tail; what is above its bytes is left over. */
  ghost predicate WordsHold(ws: seq<Word>, tail: seq<Byte>)
  {
    && |ws| == 16 && |tail| < 64
    && (forall i :: 0 <= i < |tail| / 4 ==> ws[i] == Pack(tail[4 * i..4 * i + 4]))
    && Filled(ws[|tail| / 4], |tail| % 4) == Pack(tail[|tail| - |tail| % 4..])
  }

  /** Pushing one byte keeps the words right, and completes the block after 64. */
  lemma PushKeepsWords(ws: seq<Word>, tail: seq<Byte>, b: Byte)
    requires WordsHold(ws, tail)
    ensures var k := |tail| / 4; var ws' := ws[k := Push(ws[k], ByteWord(b))];
      if |tail| < 63 then WordsHold(ws', tail + [b]) else ws' == Block(tail + [b], 0)
  {
    hide Filled, Push, Pack, ByteWord;
    var k, r := |tail| / 4, |tail| % 4;
    var ws', tail' := ws[k := Push(ws[k], ByteWord(b))], tail + [b];
    PushKeepsFilled(ws[k], r, ByteWord(b));
    PackSnoc(tail[4 * k..], b);
    assert tail'[4 * k..] == tail[4 * k..] + [b];
    forall i | 0 <= i < k
      ensures ws'[i] == Pack(tail'[4 * i..4 * i + 4])
    {
      assert tail'[4 * i..4 * i + 4] == tail[4 * i..4 * i + 4];
    }
    if r == 3 {
      assert tail'[4 * k..4 * k + 4] == tail'[4 * k..];
      if k < 15 {
        NothingFilled(ws'[k + 1]);
        assert tail'[|tail'|..] == [];
      }
      assert |tail'| / 4 == k + 1 && |tail'| % 4 == 0;
    } else {
      assert |tail'| / 4 == k && |tail'| % 4 == r + 1;
    }
  }

  lemma HashBlocksUnfold(m: seq<Byte>, n: nat)
    requires 64 * n <= |m|
    ensures HashBlocks(m, n) == if n == 0 then INITIAL else Compress(HashBlocks(m, n - 1), Block(m, n - 1))
  {
  }

  lemma NoWordsYet(ws: seq<Word>)
    requires |ws| == 16
    ensures WordsHold(ws, [])
  {
  }

  lemma BlockOfTail(m: seq<Byte>, n: nat)
    requires 64 * n + 64 <= |m|
    ensures Block(m, n) == Block(m[64 * n..], 0)
  {
    forall i | 0 <= i < 16
      ensures Block(m, n)[i] == Block(m[64 * n..], 0)[i]
    {
      assert m[64 * n..][4 * i..4 * i + 4] == m[64 * n + 4 * i..64 * n + 4 * i + 4];
    }
  }

  lemma LowAndHigh(bits: nat)
    ensures var lo := (bits % 0x1_0000_0000 + 8) % 0x1_0000_0000;
      && lo == (bits + 8) % 0x1_0000_0000
      && (bits / 0x1_0000_0000 % 0x1_0000_0000 + if lo < 8 then 1 else 0) % 0x1_0000_0000
         == (bits + 8) / 0x1_0000_0000 % 0x1_0000_0000
  {
    var q, r := bits / 0x1_0000_0000, bits % 0x1_0000_0000;
    if r + 8 < 0x1_0000_0000 {
      assert (bits + 8) / 0x1_0000_0000 == q;
    } else {
      assert (bits + 8) / 0x1_0000_0000 == q + 1;
    }
  }

  lemma SameRemainder(start: nat, zeros: nat, count: nat)
    requires zeros <= count < 64 && (start + zeros) % 64 == 56 && (start + count) % 64 == 56
    ensures zeros == count
  {
  }

  function TopByte(w: Word): Byte { ((w >> 24) as bv8) as int }

  function DropTop(w: Word): Word { w << 8 }

  /** A word after n of its bytes have been shifted out. */
  function ShiftedOut(w: Word, n: nat): Word
  {
    if n == 0 then w else if n == 1 then w << 8 else if n == 2 then w << 16 else if n == 3 then w << 24 else 0
  }

  /** How many bytes of register k the output loop has taken after i turns. */
  function Taken(i: nat, k: nat): nat
  {
    if i <= 4 * k then 0 else if i < 4 * k + 4 then i - 4 * k else 4
  }

  lemma ShiftOut0(w: Word)
    ensures TopByte(ShiftedOut(w, 0)) == WordByte(w, 0)
    ensures DropTop(ShiftedOut(w, 0)) == ShiftedOut(w, 1)
  {
    ShiftBits(w);
  }

  lemma ShiftOut1(w: Word)
    ensures TopByte(ShiftedOut(w, 1)) == WordByte(w, 1)
    ensures DropTop(ShiftedOut(w, 1)) == ShiftedOut(w, 2)
  {
    ShiftBits(w);
  }

  lemma ShiftOut2(w: Word)
    ensures TopByte(ShiftedOut(w, 2)) == WordByte(w, 2)
    ensures DropTop(ShiftedOut(w, 2)) == ShiftedOut(w, 3)
  {
    ShiftBits(w);
  }

  lemma ShiftOut3(w: Word)
    ensures TopByte(ShiftedOut(w, 3)) == WordByte(w, 3)
    ensures DropTop(ShiftedOut(w, 3)) == ShiftedOut(w, 4)
  {
    ShiftBits(w);
  }

  lemma ShiftOut(w: Word, n: nat)
    requires n < 4
    ensures TopByte(ShiftedOut(w, n)) == WordByte(w, n)
    ensures DropTop(ShiftedOut(w, n)) == ShiftedOut(w, n + 1)
  {
    hide ShiftedOut, TopByte, DropTop, WordByte;
    ShiftOut0(w);
    ShiftOut1(w);
    ShiftOut2(w);
    ShiftOut3(w);
  }

  lemma TakenStep(i: nat)
    requires i < 20
    ensures Taken(i, i / 4) == i % 4 && Taken(i + 1, i / 4) == i % 4 + 1
    ensures forall k :: 0 <= k < 5 && k != i / 4 ==> Taken(i + 1, k) == Taken(i, k)
  {
  }

  lemma NothingShifted(hs: seq<Word>)
    requires |hs| == 5
    ensures var r := Registers(hs[0], hs[1], hs[2], hs[3], hs[4]);
      forall k :: 0 <= k < 5 ==> hs[k] == ShiftedOut(Register(r, k), Taken(0, k))
  {
  }

  lemma ShiftBits(w: Word)
    ensures w >> 24 == (w >> 24) & 0xff
    ensures (w << 8) >> 24 == (w >> 16) & 0xff && (w << 8) << 8 == w << 16
    ensures (w << 16) >> 24 == (w >> 8) & 0xff && (w << 16) << 8 == w << 24
    ensures (w << 24) >> 24 == w & 0xff && (w << 24) << 8 == 0
  {
  }

  lemma FirstWords(block: seq<Word>)
    requires |block| == 16
    ensures forall t :: 0 <= t < 16 ==> Schedule(block, t) == block[t]
  {
  }

  lemma NextWord(block: seq<Word>, t: nat)
    requires |block| == 16 && t >= 16
    ensures Schedule(block, t) == RotateBy1(
      Schedule(block, t - 3) ^ Schedule(block, t - 8) ^ Schedule(block, t - 14) ^ Schedule(block, t - 16))
  {
    hide RotateBy1;
  }

  lemma DigestAt(r: Registers, j: nat)
    requires j < 20
    ensures DigestOf(r)[j] == WordByte(Register(r, j / 4), j % 4)
  {
    hide WordByte, Register;
  }

  class ShaCtx {
    const H: array<Word>
    const W: array<Word>
    var lenW: nat
    var sizeHi: nat
    var sizeLo: nat
    /** Everything fed in since Init. */
    ghost var Fed: seq<Byte>

    ghost predicate Shape()
    {
      H.Length == 5 && W.Length == 80 && H != W
    }

    ghost function Regs(): Registers
      requires Shape()
      reads H
    {
      Registers(H[0], H[1], H[2], H[3], H[4])
    }

    /** The two size words together count the bits fed in, modulo 2^64. */
    ghost predicate SizeHolds()
      reads this`sizeLo, this`sizeHi, this`Fed
    {
      && sizeLo == 8 * |Fed| % 0x1_0000_0000
      && sizeHi == 8 * |Fed| / 0x1_0000_0000 % 0x1_0000_0000
    }

    ghost predicate Valid()
      reads this, H, W
    {
      && Shape()
      && lenW == |Fed| % 64
      && Regs() == HashBlocks(Fed, |Fed| / 64)
      && WordsHold(W[..16], Fed[|Fed| - lenW..])
      && SizeHolds()
    }

    constructor ()
      ensures Shape() && fresh(H) && fresh(W)
    {
      H, W := new Word[5], new Word[80];
    }

    method ClearSchedule()
      requires Shape()
      modifies W
    {
      for i := 0 to 80 {
        W[i] := 0;
      }
    }

    method SetInitial()
      requires Shape()
      modifies H
      ensures Regs() == HashBlocks([], 0)
    {
      H[0], H[1], H[2], H[3], H[4] := 0x67452301, 0xefcdab89, 0x98badcfe, 0x10325476, 0xc3d2e1f0;
    }

    method Init()
      requires Shape()
      modifies this, H, W
      ensures Valid() && Fed == []
    {
      hide WordsHold, HashBlocks, INITIAL;
      lenW, sizeHi, sizeLo := 0, 0, 0;
      SetInitial();
      ClearSchedule();
      Fed := [];
      NoWordsYet(W[..16]);
      assert Fed[|Fed| - lenW..] == [] && |Fed| / 64 == 0;
      assert Regs() == HashBlocks([], 0);
      assert SizeHolds();
    }

    method ExtendSchedule()
      requires Shape()
      modifies W
      ensures W[..16] == old(W[..16])
      ensures forall t :: 0 <= t < 80 ==> W[t] == Schedule(old(W[..16]), t)
    {
      hide Schedule, RotateBy1;
      ghost var block := W[..16];
      FirstWords(block);
      for t := 16 to 80
        invariant W[..16] == block
        invariant forall i :: 0 <= i < t ==> W[i] == Schedule(block, i)
      {
        NextWord(block, t);
        W[t] := RotateBy1(W[t - 3] ^ W[t - 8] ^ W[t - 14] ^ W[t - 16]);
      }
    }

    /** The four round loops; h and block name what A to E and W start from. */
    method RunRounds(ghost h: Registers, ghost block: seq<Word>) returns (a: Word, b: Word, c: Word, d: Word, e: Word)
      requires Shape() && h == Regs() && |block| == 16
      requires forall t :: 0 <= t < 80 ==> W[t] == Schedule(block, t)
      ensures Registers(a, b, c, d, e) == Rounds(h, block, 80)
    {
      a, b, c, d, e := H[0], H[1], H[2], H[3], H[4];
      for t := 0 to 20
        invariant Registers(a, b, c, d, e) == Rounds(h, block, t)
      {
        ChooseIsF(t, b, c, d);
        var temp := Sum(RotateBy5(a), Choose(b, c, d), e, W[t], 0x5a827999);
        e, d, c, b, a := d, c, RotateBy30(b), a, temp;
      }
      for t := 20 to 40
        invariant Registers(a, b, c, d, e) == Rounds(h, block, t)
      {
        var temp := Sum(RotateBy5(a), Parity(b, c, d), e, W[t], 0x6ed9eba1);
        e, d, c, b, a := d, c, RotateBy30(b), a, temp;
      }
      for t := 40 to 60
        invariant Registers(a, b, c, d, e) == Rounds(h, block, t)
      {
        MajorityIsF(t, b, c, d);
        var temp := Sum(RotateBy5(a), Majority(b, c, d), e, W[t], 0x8f1bbcdc);
        e, d, c, b, a := d, c, RotateBy30(b), a, temp;
      }
      for t := 60 to 80
        invariant Registers(a, b, c, d, e) == Rounds(h, block, t)
      {
        var temp := Sum(RotateBy5(a), Parity(b, c, d), e, W[t], 0xca62c1d6);
        e, d, c, b, a := d, c, RotateBy30(b), a, temp;
      }
    }

    method HashBlock()
      requires Shape()
      modifies H, W
      ensures Regs() == Compress(old(Regs()), old(W[..16]))
      ensures W[..16] == old(W[..16])
    {
      ghost var h, block := Regs(), W[..16];
      ExtendSchedule();
      var a, b, c, d, e := RunRounds(h, block);
      H[0], H[1], H[2], H[3], H[4] := Plus(H[0], a), Plus(H[1], b), Plus(H[2], c), Plus(H[3], d), Plus(H[4], e);
    }

    /** Shifts one byte into its word; the last byte of a block completes the words. */
    method PushByte(b: Byte)
      requires Valid()
      modifies this`lenW, this`sizeLo, this`sizeHi, this`Fed, W
      ensures Shape() && SizeHolds() && Fed == old(Fed) + [b] && lenW == old(lenW) + 1
      ensures var n := |old(Fed)| / 64;
        && |Fed| == 64 * n + lenW && Regs() == HashBlocks(Fed, n)
        && if lenW < 64 then WordsHold(W[..16], Fed[64 * n..]) else W[..16] == Block(Fed[64 * n..], 0)
    {
      hide WordsHold, HashBlocks, Block, Push, ByteWord, SizeHolds;
      ghost var n, tail, ws := |Fed| / 64, Fed[|Fed| - lenW..], W[..16];
      PushKeepsWords(ws, tail, b);
      HashBlocksOfPrefix(Fed, [b], n);
      W[lenW / 4] := Push(W[lenW / 4], ByteWord(b));
      assert W[..16] == ws[lenW / 4 := Push(ws[lenW / 4], ByteWord(b))];
      AddToSize(b);
      assert Fed[64 * n..] == tail + [b];
      lenW := lenW + 1;
    }

    /** One turn of the loop in SHA1_Update. */
    method AddByte(b: Byte)
      requires Valid()
      modifies this, H, W
      ensures Valid() && Fed == old(Fed) + [b]
    {
      hide WordsHold, HashBlocks, Block, SizeHolds;
      ghost var n := |Fed| / 64;
      PushByte(b);
      if lenW % 64 == 0 {
        BlockOfTail(Fed, n);
        CompleteBlock(n);
        assert |Fed| / 64 == n + 1 && Fed[|Fed|..] == [];
      }
    }

    /** The size words count eight more bits. */
    method AddToSize(ghost b: Byte)
      requires SizeHolds()
      modifies this`sizeLo, this`sizeHi, this`Fed
      ensures SizeHolds() && Fed == old(Fed) + [b]
    {
      LowAndHigh(8 * |Fed|);
      sizeLo := (sizeLo + 8) % 0x1_0000_0000;
      sizeHi := (sizeHi + if sizeLo < 8 then 1 else 0) % 0x1_0000_0000;
      Fed := Fed + [b];
    }

    method CompleteBlock(ghost n: nat)
      requires Shape() && |Fed| == 64 * n + 64
      requires W[..16] == Block(Fed, n) && Regs() == HashBlocks(Fed, n)
      modifies this`lenW, H, W
      ensures lenW == 0 && Regs() == HashBlocks(Fed, n + 1) && WordsHold(W[..16], [])
    {
      hide WordsHold, HashBlocks, Block;
      HashBlocksUnfold(Fed, n + 1);
      HashBlock();
      lenW := 0;
      NoWordsYet(W[..16]);
    }

    method Update(dataIn: seq<Byte>)
      requires Valid()
      modifies this, H, W
      ensures Valid() && Fed == old(Fed) + dataIn
    {
      hide WordsHold, HashBlocks;
      for i := 0 to |dataIn|
        invariant Valid() && Fed == old(Fed) + dataIn[..i]
      {
        AddByte(dataIn[i]);
        assert dataIn[..i + 1] == dataIn[..i] + [dataIn[i]];
      }
    }

    /** Adds the padding of section 4. */
    method AddPadding()
      requires Valid()
      modifies this, H, W
      ensures Valid() && Fed == Pad(old(Fed))
    {
      hide WordsHold, HashBlocks;
      ghost var m := Fed;
      var padlen := BigEndian32(sizeHi) + BigEndian32(sizeLo);
      Update([0x80]);
      ghost var zeros := 0;
      while lenW != 56
        invariant Valid() && zeros <= ZeroCount(|m|)
        invariant Fed == m + [0x80] + Zeros(zeros)
        decreases ZeroCount(|m|) - zeros
      {
        assert |Fed| == |m| + 1 + zeros;
        Update([0]);
        assert Zeros(zeros + 1) == Zeros(zeros) + [0];
        zeros := zeros + 1;
      }
      SameRemainder(|m| + 1, zeros, ZeroCount(|m|));
      Update(padlen);
    }

    /** Writes the digest, shifting each register out byte by byte. */
    method Output(hashout: array<Byte>)
      requires Shape() && hashout.Length == 20
      modifies H, hashout
      ensures hashout[..] == DigestOf(old(Regs()))
    {
      hide ShiftedOut, TopByte, WordByte, DropTop, Register, Taken, DigestOf;
      ghost var r := Regs();
      NothingShifted(H[..]);
      assert forall k :: 0 <= k < 5 ==> H[k] == H[..][k];
      for i := 0 to 20
        invariant forall k :: 0 <= k < 5 ==> H[k] == ShiftedOut(Register(r, k), Taken(i, k))
        invariant forall j :: 0 <= j < i ==> hashout[j] == DigestOf(r)[j]
      {
        ShiftOut(Register(r, i / 4), i % 4);
        TakenStep(i);
        DigestAt(r, i);
        hashout[i] := TopByte(H[i / 4]);
        H[i / 4] := DropTop(H[i / 4]);
      }
    }

    /** Leaves the digest of everything fed in, and a context ready for the next message. */
    method Final(hashout: array<Byte>)
      requires Valid() && hashout.Length == 20
      modifies this, H, W, hashout
      ensures hashout[..] == Digest(old(Fed)) && Valid() && Fed == []
    {
      hide WordsHold, HashBlocks, Pad, DigestOf;
      AddPadding();
      Output(hashout);
      Init();
    }
  }

  method SHA1(dataIn: seq<Byte>, hashout: array<Byte>)
    requires hashout.Length == 20
    modifies hashout
    ensures hashout[..] == Digest(dataIn)
  {
    hide WordsHold, HashBlocks, Pad, DigestOf, Digest;
    var ctx := new ShaCtx();
    ctx.Init();
    ctx.Update(dataIn);
    assert ctx.Fed == dataIn;
    ctx.Final(hashout);
  }

  /** However a message is cut into updates, the digest is that of the whole message. */
  method DigestOfParts(parts: seq<seq<Byte>>, hashout: array<Byte>)
    requires hashout.Length == 20
    modifies hashout
    ensures hashout[..] == Digest(Flatten(parts))
  {
    hide ShaCtx.Valid, Digest, Flatten;
    var ctx := new ShaCtx();
    ctx.Init();
    assert parts[0..] == parts;
    for k := 0 to |parts|
      invariant ctx.Valid() && fresh(ctx) && fresh(ctx.H) && fresh(ctx.W)
      invariant ctx.Fed + Flatten(parts[k..]) == Flatten(parts)
    {
      FlattenFrom(parts, k);
      ghost var fed, rest := ctx.Fed, Flatten(parts[k + 1..]);
      ctx.Update(parts[k]);
      assert fed + (parts[k] + rest) == ctx.Fed + rest;
    }
    FlattenFrom(parts, |parts|);
    assert ctx.Fed + [] == ctx.Fed;
    ctx.Final(hashout);
  }
}
