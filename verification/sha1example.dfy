/** The first example of FIPS 180-1, appendix A: the words, the registers after each round, and the digest of abc. */
module Sha1Example {
  import opened Bytes
  import opened Sha1Spec

  const ABC: seq<Byte> := [0x61, 0x62, 0x63]

  /** The one block that the padded message is. */
  const BLOCK: seq<Word> := [0x61626380, 0, 0, 0, 0, 0, 0, 0, 0, 0, 0, 0, 0, 0, 0, 0x18]

  function W(t: nat): Word { Schedule(BLOCK, t) }

  function After(t: nat): Registers { Rounds(INITIAL, BLOCK, t) }

  lemma Next(t: nat)
    requires t >= 16
    ensures W(t) == RotateBy1(W(t - 3) ^ W(t - 8) ^ W(t - 14) ^ W(t - 16))
  {
    hide BLOCK, RotateBy1;
  }

  lemma Words0()
    ensures W(0) == 0x61626380 && W(15) == 0x18 && forall t :: 1 <= t < 15 ==> W(t) == 0
  {
    hide RotateBy1;
  }

  lemma Words16()
    ensures W(16) == 0xC2C4C700 && W(17) == 0x00000000 && W(18) == 0x00000030 && W(19) == 0x85898E01
    ensures W(20) == 0x00000000 && W(21) == 0x00000060 && W(22) == 0x0B131C03 && W(23) == 0x00000030
    ensures W(24) == 0x85898EC1 && W(25) == 0x16263806 && W(26) == 0x00000000 && W(27) == 0x00000180
    ensures W(28) == 0x2C4C700C && W(29) == 0x000000F0 && W(30) == 0x93AFB507 && W(31) == 0x5898E048
  {
    hide W, BLOCK;
    Words0();
    Next(16); Next(17); Next(18); Next(19);
    Next(20); Next(21); Next(22); Next(23);
    Next(24); Next(25); Next(26); Next(27);
    Next(28); Next(29); Next(30); Next(31);
  }

  lemma Words32()
    ensures W(32) == 0x8E9A9202 && W(33) == 0x00000600 && W(34) == 0xB131C0F0 && W(35) == 0x16263BC6
    ensures W(36) == 0x4EBED41E && W(37) == 0x626380A1 && W(38) == 0x16263806 && W(39) == 0x000018C0
    ensures W(40) == 0xD2E138C4 && W(41) == 0x00000F00 && W(42) == 0x3AFB5079 && W(43) == 0x898E04E5
    ensures W(44) == 0xE2BA3C2B && W(45) == 0x000060C0 && W(46) == 0x053A37CD && W(47) == 0x74458547
  {
    hide W, BLOCK;
    Words16();
    Next(32); Next(33); Next(34); Next(35);
    Next(36); Next(37); Next(38); Next(39);
    Next(40); Next(41); Next(42); Next(43);
    Next(44); Next(45); Next(46); Next(47);
  }

  lemma Words48()
    ensures W(48) == 0xDA9415ED && W(49) == 0x26380A16 && W(50) == 0x626383A1 && W(51) == 0x4EBF54DE
    ensures W(52) == 0x3835B44B && W(53) == 0x0000F600 && W(54) == 0x1E84C7A3 && W(55) == 0x98E04D98
    ensures W(56) == 0x651D16A0 && W(57) == 0x62658CA1 && W(58) == 0x458544D6 && W(59) == 0x44584CB7
    ensures W(60) == 0x7BA06619 && W(61) == 0x6380AEA2 && W(62) == 0x0AE55269 && W(63) == 0x627B49A1
  {
    hide W, BLOCK;
    Words32();
    Next(48); Next(49); Next(50); Next(51);
    Next(52); Next(53); Next(54); Next(55);
    Next(56); Next(57); Next(58); Next(59);
    Next(60); Next(61); Next(62); Next(63);
  }

  lemma Words64()
    ensures W(64) == 0x7CD45C9D && W(65) == 0x000F0000 && W(66) == 0xFB50753A && W(67) == 0xEC6765E8
    ensures W(68) == 0xBA3C2BE2 && W(69) == 0x0060C000 && W(70) == 0x3A37CD05 && W(71) == 0x458546F4
    ensures W(72) == 0xB8599DD6 && W(73) == 0x380A1A26 && W(74) == 0x01E02203 && W(75) == 0xE7CC3456
    ensures W(76) == 0xE6E60B69 && W(77) == 0x00F60A00 && W(78) == 0x5795EF4F && W(79) == 0x822E0879
  {
    hide W, BLOCK;
    Words48();
    Next(64); Next(65); Next(66); Next(67);
    Next(68); Next(69); Next(70); Next(71);
    Next(72); Next(73); Next(74); Next(75);
    Next(76); Next(77); Next(78); Next(79);
  }

  lemma Turn(t: nat, w: Word, r: Registers)
    requires W(t) == w && Round(After(t), t, w) == r
    ensures After(t + 1) == r
  {
    hide BLOCK, Round, Schedule, INITIAL;
  }

  lemma Rounds0()
    ensures After(0) == Registers(0x67452301, 0xEFCDAB89, 0x98BADCFE, 0x10325476, 0xC3D2E1F0)
  {
    hide BLOCK;
  }

  lemma Rounds20()
    ensures After(20) == Registers(0xFD9E1D7D, 0xDC64901D, 0x20AA99CA, 0xD3A49608, 0xC82F758B)
  {
    hide W, After, BLOCK;
    Rounds0();
    Words0();
    Words16();
    Turn(0, 0x61626380, Registers(0x0116FC33, 0x67452301, 0x7BF36AE2, 0x98BADCFE, 0x10325476));
    Turn(1, 0x00000000, Registers(0x8990536D, 0x0116FC33, 0x59D148C0, 0x7BF36AE2, 0x98BADCFE));
    Turn(2, 0x00000000, Registers(0xA1390F08, 0x8990536D, 0xC045BF0C, 0x59D148C0, 0x7BF36AE2));
    Turn(3, 0x00000000, Registers(0xCDD8E11B, 0xA1390F08, 0x626414DB, 0xC045BF0C, 0x59D148C0));
    Turn(4, 0x00000000, Registers(0xCFD499DE, 0xCDD8E11B, 0x284E43C2, 0x626414DB, 0xC045BF0C));
    Turn(5, 0x00000000, Registers(0x3FC7CA40, 0xCFD499DE, 0xF3763846, 0x284E43C2, 0x626414DB));
    Turn(6, 0x00000000, Registers(0x993E30C1, 0x3FC7CA40, 0xB3F52677, 0xF3763846, 0x284E43C2));
    Turn(7, 0x00000000, Registers(0x9E8C07D4, 0x993E30C1, 0x0FF1F290, 0xB3F52677, 0xF3763846));
    Turn(8, 0x00000000, Registers(0x4B6AE328, 0x9E8C07D4, 0x664F8C30, 0x0FF1F290, 0xB3F52677));
    Turn(9, 0x00000000, Registers(0x8351F929, 0x4B6AE328, 0x27A301F5, 0x664F8C30, 0x0FF1F290));
    Turn(10, 0x00000000, Registers(0xFBDA9E89, 0x8351F929, 0x12DAB8CA, 0x27A301F5, 0x664F8C30));
    Turn(11, 0x00000000, Registers(0x63188FE4, 0xFBDA9E89, 0x60D47E4A, 0x12DAB8CA, 0x27A301F5));
    Turn(12, 0x00000000, Registers(0x4607B664, 0x63188FE4, 0x7EF6A7A2, 0x60D47E4A, 0x12DAB8CA));
    Turn(13, 0x00000000, Registers(0x9128F695, 0x4607B664, 0x18C623F9, 0x7EF6A7A2, 0x60D47E4A));
    Turn(14, 0x00000000, Registers(0x196BEE77, 0x9128F695, 0x1181ED99, 0x18C623F9, 0x7EF6A7A2));
    Turn(15, 0x00000018, Registers(0x20BDD62F, 0x196BEE77, 0x644A3DA5, 0x1181ED99, 0x18C623F9));
    Turn(16, 0xC2C4C700, Registers(0x4E925823, 0x20BDD62F, 0xC65AFB9D, 0x644A3DA5, 0x1181ED99));
    Turn(17, 0x00000000, Registers(0x82AA6728, 0x4E925823, 0xC82F758B, 0xC65AFB9D, 0x644A3DA5));
    Turn(18, 0x00000030, Registers(0xDC64901D, 0x82AA6728, 0xD3A49608, 0xC82F758B, 0xC65AFB9D));
    Turn(19, 0x85898E01, Registers(0xFD9E1D7D, 0xDC64901D, 0x20AA99CA, 0xD3A49608, 0xC82F758B));
  }

  lemma Rounds40()
    ensures After(40) == Registers(0x32DE1CBA, 0x4C986405, 0xF718E5CF, 0x03D447F6, 0xF72EEC32)
  {
    hide W, After, BLOCK;
    Rounds20();
    Words16();
    Words32();
    Turn(20, 0x00000000, Registers(0x1A37B0CA, 0xFD9E1D7D, 0x77192407, 0x20AA99CA, 0xD3A49608));
    Turn(21, 0x00000060, Registers(0x33A23BFC, 0x1A37B0CA, 0x7F67875F, 0x77192407, 0x20AA99CA));
    Turn(22, 0x0B131C03, Registers(0x21283486, 0x33A23BFC, 0x868DEC32, 0x7F67875F, 0x77192407));
    Turn(23, 0x00000030, Registers(0xD541F12D, 0x21283486, 0x0CE88EFF, 0x868DEC32, 0x7F67875F));
    Turn(24, 0x85898EC1, Registers(0xC7567DC6, 0xD541F12D, 0x884A0D21, 0x0CE88EFF, 0x868DEC32));
    Turn(25, 0x16263806, Registers(0x48413BA4, 0xC7567DC6, 0x75507C4B, 0x884A0D21, 0x0CE88EFF));
    Turn(26, 0x00000000, Registers(0xBE35FBD5, 0x48413BA4, 0xB1D59F71, 0x75507C4B, 0x884A0D21));
    Turn(27, 0x00000180, Registers(0x4AA84D97, 0xBE35FBD5, 0x12104EE9, 0xB1D59F71, 0x75507C4B));
    Turn(28, 0x2C4C700C, Registers(0x8370B52E, 0x4AA84D97, 0x6F8D7EF5, 0x12104EE9, 0xB1D59F71));
    Turn(29, 0x000000F0, Registers(0xC5FBAF5D, 0x8370B52E, 0xD2AA1365, 0x6F8D7EF5, 0x12104EE9));
    Turn(30, 0x93AFB507, Registers(0x1267B407, 0xC5FBAF5D, 0xA0DC2D4B, 0xD2AA1365, 0x6F8D7EF5));
    Turn(31, 0x5898E048, Registers(0x3B845D33, 0x1267B407, 0x717EEBD7, 0xA0DC2D4B, 0xD2AA1365));
    Turn(32, 0x8E9A9202, Registers(0x046FAA0A, 0x3B845D33, 0xC499ED01, 0x717EEBD7, 0xA0DC2D4B));
    Turn(33, 0x00000600, Registers(0x2C0EBC11, 0x046FAA0A, 0xCEE1174C, 0xC499ED01, 0x717EEBD7));
    Turn(34, 0xB131C0F0, Registers(0x21796AD4, 0x2C0EBC11, 0x811BEA82, 0xCEE1174C, 0xC499ED01));
    Turn(35, 0x16263BC6, Registers(0xDCBBB0CB, 0x21796AD4, 0x4B03AF04, 0x811BEA82, 0xCEE1174C));
    Turn(36, 0x4EBED41E, Registers(0x0F511FD8, 0xDCBBB0CB, 0x085E5AB5, 0x4B03AF04, 0x811BEA82));
    Turn(37, 0x626380A1, Registers(0xDC63973F, 0x0F511FD8, 0xF72EEC32, 0x085E5AB5, 0x4B03AF04));
    Turn(38, 0x16263806, Registers(0x4C986405, 0xDC63973F, 0x03D447F6, 0xF72EEC32, 0x085E5AB5));
    Turn(39, 0x000018C0, Registers(0x32DE1CBA, 0x4C986405, 0xF718E5CF, 0x03D447F6, 0xF72EEC32));
  }

  lemma Rounds60()
    ensures After(60) == Registers(0x3F52DE5A, 0x09D785FD, 0x3498BFD4, 0xF211824F, 0xD79915AB)
  {
    hide W, After, BLOCK;
    Rounds40();
    Words32();
    Words48();
    Turn(40, 0xD2E138C4, Registers(0xFC87DEDF, 0x32DE1CBA, 0x53261901, 0xF718E5CF, 0x03D447F6));
    Turn(41, 0x00000F00, Registers(0x970A0D5C, 0xFC87DEDF, 0x8CB7872E, 0x53261901, 0xF718E5CF));
    Turn(42, 0x3AFB5079, Registers(0x7F193DC5, 0x970A0D5C, 0xFF21F7B7, 0x8CB7872E, 0x53261901));
    Turn(43, 0x898E04E5, Registers(0xEE1B1AAF, 0x7F193DC5, 0x25C28357, 0xFF21F7B7, 0x8CB7872E));
    Turn(44, 0xE2BA3C2B, Registers(0x40F28E09, 0xEE1B1AAF, 0x5FC64F71, 0x25C28357, 0xFF21F7B7));
    Turn(45, 0x000060C0, Registers(0x1C51E1F2, 0x40F28E09, 0xFB86C6AB, 0x5FC64F71, 0x25C28357));
    Turn(46, 0x053A37CD, Registers(0xA01B846C, 0x1C51E1F2, 0x503CA382, 0xFB86C6AB, 0x5FC64F71));
    Turn(47, 0x74458547, Registers(0xBEAD02CA, 0xA01B846C, 0x8714787C, 0x503CA382, 0xFB86C6AB));
    Turn(48, 0xDA9415ED, Registers(0xBAF39337, 0xBEAD02CA, 0x2806E11B, 0x8714787C, 0x503CA382));
    Turn(49, 0x26380A16, Registers(0x120731C5, 0xBAF39337, 0xAFAB40B2, 0x2806E11B, 0x8714787C));
    Turn(50, 0x626383A1, Registers(0x641DB2CE, 0x120731C5, 0xEEBCE4CD, 0xAFAB40B2, 0x2806E11B));
    Turn(51, 0x4EBF54DE, Registers(0x3847AD66, 0x641DB2CE, 0x4481CC71, 0xEEBCE4CD, 0xAFAB40B2));
    Turn(52, 0x3835B44B, Registers(0xE490436D, 0x3847AD66, 0x99076CB3, 0x4481CC71, 0xEEBCE4CD));
    Turn(53, 0x0000F600, Registers(0x27E9F1D8, 0xE490436D, 0x8E11EB59, 0x99076CB3, 0x4481CC71));
    Turn(54, 0x1E84C7A3, Registers(0x7B71F76D, 0x27E9F1D8, 0x792410DB, 0x8E11EB59, 0x99076CB3));
    Turn(55, 0x98E04D98, Registers(0x5E6456AF, 0x7B71F76D, 0x09FA7C76, 0x792410DB, 0x8E11EB59));
    Turn(56, 0x651D16A0, Registers(0xC846093F, 0x5E6456AF, 0x5EDC7DDB, 0x09FA7C76, 0x792410DB));
    Turn(57, 0x62658CA1, Registers(0xD262FF50, 0xC846093F, 0xD79915AB, 0x5EDC7DDB, 0x09FA7C76));
    Turn(58, 0x458544D6, Registers(0x09D785FD, 0xD262FF50, 0xF211824F, 0xD79915AB, 0x5EDC7DDB));
    Turn(59, 0x44584CB7, Registers(0x3F52DE5A, 0x09D785FD, 0x3498BFD4, 0xF211824F, 0xD79915AB));
  }

  lemma Rounds80()
    ensures After(80) == Registers(0x42541B35, 0x5738D5E1, 0x21834873, 0x681E6DF6, 0xD8FDF6AD)
  {
    hide W, After, BLOCK;
    Rounds60();
    Words48();
    Words64();
    Turn(60, 0x7BA06619, Registers(0xD756C147, 0x3F52DE5A, 0x4275E17F, 0x3498BFD4, 0xF211824F));
    Turn(61, 0x6380AEA2, Registers(0x548C9CB2, 0xD756C147, 0x8FD4B796, 0x4275E17F, 0x3498BFD4));
    Turn(62, 0x0AE55269, Registers(0xB66C020B, 0x548C9CB2, 0xF5D5B051, 0x8FD4B796, 0x4275E17F));
    Turn(63, 0x627B49A1, Registers(0x6B61C9E1, 0xB66C020B, 0x9523272C, 0xF5D5B051, 0x8FD4B796));
    Turn(64, 0x7CD45C9D, Registers(0x19DFA7AC, 0x6B61C9E1, 0xED9B0082, 0x9523272C, 0xF5D5B051));
    Turn(65, 0x000F0000, Registers(0x101655F9, 0x19DFA7AC, 0x5AD87278, 0xED9B0082, 0x9523272C));
    Turn(66, 0xFB50753A, Registers(0x0C3DF2B4, 0x101655F9, 0x0677E9EB, 0x5AD87278, 0xED9B0082));
    Turn(67, 0xEC6765E8, Registers(0x78DD4D2B, 0x0C3DF2B4, 0x4405957E, 0x0677E9EB, 0x5AD87278));
    Turn(68, 0xBA3C2BE2, Registers(0x497093C0, 0x78DD4D2B, 0x030F7CAD, 0x4405957E, 0x0677E9EB));
    Turn(69, 0x0060C000, Registers(0x3F2588C2, 0x497093C0, 0xDE37534A, 0x030F7CAD, 0x4405957E));
    Turn(70, 0x3A37CD05, Registers(0xC199F8C7, 0x3F2588C2, 0x125C24F0, 0xDE37534A, 0x030F7CAD));
    Turn(71, 0x458546F4, Registers(0x39859DE7, 0xC199F8C7, 0x8FC96230, 0x125C24F0, 0xDE37534A));
    Turn(72, 0xB8599DD6, Registers(0xEDB42DE4, 0x39859DE7, 0xF0667E31, 0x8FC96230, 0x125C24F0));
    Turn(73, 0x380A1A26, Registers(0x11793F6F, 0xEDB42DE4, 0xCE616779, 0xF0667E31, 0x8FC96230));
    Turn(74, 0x01E02203, Registers(0x5EE76897, 0x11793F6F, 0x3B6D0B79, 0xCE616779, 0xF0667E31));
    Turn(75, 0xE7CC3456, Registers(0x63F7DAB7, 0x5EE76897, 0xC45E4FDB, 0x3B6D0B79, 0xCE616779));
    Turn(76, 0xE6E60B69, Registers(0xA079B7D9, 0x63F7DAB7, 0xD7B9DA25, 0xC45E4FDB, 0x3B6D0B79));
    Turn(77, 0x00F60A00, Registers(0x860D21CC, 0xA079B7D9, 0xD8FDF6AD, 0xD7B9DA25, 0xC45E4FDB));
    Turn(78, 0x5795EF4F, Registers(0x5738D5E1, 0x860D21CC, 0x681E6DF6, 0xD8FDF6AD, 0xD7B9DA25));
    Turn(79, 0x822E0879, Registers(0x42541B35, 0x5738D5E1, 0x21834873, 0x681E6DF6, 0xD8FDF6AD));
  }

  lemma PackFour(a: Byte, b: Byte, c: Byte, d: Byte)
    ensures Pack([a, b, c, d]) == Push(Push(Push(Push(0, ByteWord(a)), ByteWord(b)), ByteWord(c)), ByteWord(d))
  {
    hide Push, ByteWord;
    assert [a, b, c, d][..3] == [a, b, c] && [a, b, c][..2] == [a, b] && [a, b][..1] == [a] && [a][..0] == [];
    assert Pack([a]) == Push(0, ByteWord(a)) && Pack([a, b]) == Push(Pack([a]), ByteWord(b));
    assert Pack([a, b, c]) == Push(Pack([a, b]), ByteWord(c));
  }

  lemma Words4()
    ensures Pack([0x61, 0x62, 0x63, 0x80]) == 0x61626380 && Pack([0, 0, 0, 0]) == 0 && Pack([0, 0, 0, 0x18]) == 0x18
  {
    hide Pack;
    PackFour(0x61, 0x62, 0x63, 0x80);
    PackFour(0, 0, 0, 0);
    PackFour(0, 0, 0, 0x18);
  }

  /** Three letters, a bit, and the length in bits. */
  lemma PaddedAbc()
    ensures |Pad(ABC)| == 64 && Block(Pad(ABC), 0) == BLOCK
  {
    hide Pack;
    var p := Pad(ABC);
    assert p == ABC + [0x80] + Zeros(52) + [0, 0, 0, 0, 0, 0, 0, 24];
    assert p[0..4] == [0x61, 0x62, 0x63, 0x80] && p[60..64] == [0, 0, 0, 0x18];
    Words4();
    forall i | 1 <= i < 15
      ensures Pack(p[0 + 4 * i..0 + 4 * i + 4]) == 0
    {
      assert p[4 * i..4 * i + 4] == [0, 0, 0, 0];
    }
    assert Block(p, 0)[0] == 0x61626380 && Block(p, 0)[15] == 0x18;
  }

  /** The registers after the block. */
  lemma RegistersOfAbc()
    ensures HashBlocks(Pad(ABC), 1) == Registers(0xA9993E36, 0x4706816A, 0xBA3E2571, 0x7850C26C, 0x9CD0D89D)
  {
    hide Block, Pad, Rounds, BLOCK;
    PaddedAbc();
    Rounds80();
  }

  /** The digest that the standard prints. */
  lemma DigestOfAbc()
    ensures Digest(ABC)[0..4] == [0xA9, 0x99, 0x3E, 0x36]
    ensures Digest(ABC)[4..8] == [0x47, 0x06, 0x81, 0x6A]
    ensures Digest(ABC)[8..12] == [0xBA, 0x3E, 0x25, 0x71]
    ensures Digest(ABC)[12..16] == [0x78, 0x50, 0xC2, 0x6C]
    ensures Digest(ABC)[16..20] == [0x9C, 0xD0, 0xD8, 0x9D]
  {
    hide HashBlocks, Pad;
    PaddedAbc();
    RegistersOfAbc();
  }
}
