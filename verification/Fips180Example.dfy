/** Appendix A of FIPS PUB 180-1: the message "abc", whose words, registers and digest the standard lists.
    Every constant, function and rotation of the standard takes part in it. */
module Fips180Example {

  import opened Bytes
  import opened Fips180

  /** "abc". */
  const ABC: seq<Octet> := [0x61, 0x62, 0x63]

  /** Sixteen words of the schedule. */
  predicate Row(w: seq<Word>, at: nat,
      w0: Word, w1: Word, w2: Word, w3: Word, w4: Word, w5: Word, w6: Word, w7: Word,
      w8: Word, w9: Word, w10: Word, w11: Word, w12: Word, w13: Word, w14: Word, w15: Word)
  {
    && at + 16 <= |w|
    && w[at] == w0 && w[at + 1] == w1 && w[at + 2] == w2 && w[at + 3] == w3
    && w[at + 4] == w4 && w[at + 5] == w5 && w[at + 6] == w6 && w[at + 7] == w7
    && w[at + 8] == w8 && w[at + 9] == w9 && w[at + 10] == w10 && w[at + 11] == w11
    && w[at + 12] == w12 && w[at + 13] == w13 && w[at + 14] == w14 && w[at + 15] == w15
  }

  lemma ShiftsFrom16()
    ensures S(1, Xor(0x00000000, 0x00000000, 0x00000000, 0x61626380)) == 0xC2C4C700
    ensures S(1, Xor(0x00000000, 0x00000000, 0x00000000, 0x00000000)) == 0x00000000
    ensures S(1, Xor(0x00000018, 0x00000000, 0x00000000, 0x00000000)) == 0x00000030
    ensures S(1, Xor(0xC2C4C700, 0x00000000, 0x00000000, 0x00000000)) == 0x85898E01
    ensures S(1, Xor(0x00000000, 0x00000000, 0x00000000, 0x00000000)) == 0x00000000
    ensures S(1, Xor(0x00000030, 0x00000000, 0x00000000, 0x00000000)) == 0x00000060
    ensures S(1, Xor(0x85898E01, 0x00000000, 0x00000000, 0x00000000)) == 0x0B131C03
    ensures S(1, Xor(0x00000000, 0x00000018, 0x00000000, 0x00000000)) == 0x00000030
    ensures S(1, Xor(0x00000060, 0xC2C4C700, 0x00000000, 0x00000000)) == 0x85898EC1
    ensures S(1, Xor(0x0B131C03, 0x00000000, 0x00000000, 0x00000000)) == 0x16263806
    ensures S(1, Xor(0x00000030, 0x00000030, 0x00000000, 0x00000000)) == 0x00000000
    ensures S(1, Xor(0x85898EC1, 0x85898E01, 0x00000000, 0x00000000)) == 0x00000180
    ensures S(1, Xor(0x16263806, 0x00000000, 0x00000000, 0x00000000)) == 0x2C4C700C
    ensures S(1, Xor(0x00000000, 0x00000060, 0x00000018, 0x00000000)) == 0x000000F0
    ensures S(1, Xor(0x00000180, 0x0B131C03, 0xC2C4C700, 0x00000000)) == 0x93AFB507
    ensures S(1, Xor(0x2C4C700C, 0x00000030, 0x00000000, 0x00000018)) == 0x5898E048
  {
  }

  lemma WordsFrom16(block: seq<Octet>, w: seq<Word>)
    requires |block| == 64 && |w| == 80 && IsSchedule(block, w)
    requires Row(w, 0,
          0x61626380, 0x00000000, 0x00000000, 0x00000000, 0x00000000, 0x00000000, 0x00000000, 0x00000000,
          0x00000000, 0x00000000, 0x00000000, 0x00000000, 0x00000000, 0x00000000, 0x00000000, 0x00000018)
    ensures Row(w, 16,
          0xC2C4C700, 0x00000000, 0x00000030, 0x85898E01, 0x00000000, 0x00000060, 0x0B131C03, 0x00000030,
          0x85898EC1, 0x16263806, 0x00000000, 0x00000180, 0x2C4C700C, 0x000000F0, 0x93AFB507, 0x5898E048)
  {
    hide S, Xor;
    ShiftsFrom16();
    assert IsNext(block, w, 16) && IsNext(block, w, 17) && IsNext(block, w, 18) && IsNext(block, w, 19) && IsNext(block, w, 20);
    assert IsNext(block, w, 21) && IsNext(block, w, 22) && IsNext(block, w, 23) && IsNext(block, w, 24) && IsNext(block, w, 25);
    assert IsNext(block, w, 26) && IsNext(block, w, 27) && IsNext(block, w, 28) && IsNext(block, w, 29) && IsNext(block, w, 30) && IsNext(block, w, 31);
  }

  lemma ShiftsFrom32()
    ensures S(1, Xor(0x000000F0, 0x85898EC1, 0x00000030, 0xC2C4C700)) == 0x8E9A9202
    ensures S(1, Xor(0x93AFB507, 0x16263806, 0x85898E01, 0x00000000)) == 0x00000600
    ensures S(1, Xor(0x5898E048, 0x00000000, 0x00000000, 0x00000030)) == 0xB131C0F0
    ensures S(1, Xor(0x8E9A9202, 0x00000180, 0x00000060, 0x85898E01)) == 0x16263BC6
    ensures S(1, Xor(0x00000600, 0x2C4C700C, 0x0B131C03, 0x00000000)) == 0x4EBED41E
    ensures S(1, Xor(0xB131C0F0, 0x000000F0, 0x00000030, 0x00000060)) == 0x626380A1
    ensures S(1, Xor(0x16263BC6, 0x93AFB507, 0x85898EC1, 0x0B131C03)) == 0x16263806
    ensures S(1, Xor(0x4EBED41E, 0x5898E048, 0x16263806, 0x00000030)) == 0x000018C0
    ensures S(1, Xor(0x626380A1, 0x8E9A9202, 0x00000000, 0x85898EC1)) == 0xD2E138C4
    ensures S(1, Xor(0x16263806, 0x00000600, 0x00000180, 0x16263806)) == 0x00000F00
    ensures S(1, Xor(0x000018C0, 0xB131C0F0, 0x2C4C700C, 0x00000000)) == 0x3AFB5079
    ensures S(1, Xor(0xD2E138C4, 0x16263BC6, 0x000000F0, 0x00000180)) == 0x898E04E5
    ensures S(1, Xor(0x00000F00, 0x4EBED41E, 0x93AFB507, 0x2C4C700C)) == 0xE2BA3C2B
    ensures S(1, Xor(0x3AFB5079, 0x626380A1, 0x5898E048, 0x000000F0)) == 0x000060C0
    ensures S(1, Xor(0x898E04E5, 0x16263806, 0x8E9A9202, 0x93AFB507)) == 0x053A37CD
    ensures S(1, Xor(0xE2BA3C2B, 0x000018C0, 0x00000600, 0x5898E048)) == 0x74458547
  {
  }

  lemma WordsFrom32(block: seq<Octet>, w: seq<Word>)
    requires |block| == 64 && |w| == 80 && IsSchedule(block, w)
    requires Row(w, 16,
          0xC2C4C700, 0x00000000, 0x00000030, 0x85898E01, 0x00000000, 0x00000060, 0x0B131C03, 0x00000030,
          0x85898EC1, 0x16263806, 0x00000000, 0x00000180, 0x2C4C700C, 0x000000F0, 0x93AFB507, 0x5898E048)
    ensures Row(w, 32,
          0x8E9A9202, 0x00000600, 0xB131C0F0, 0x16263BC6, 0x4EBED41E, 0x626380A1, 0x16263806, 0x000018C0,
          0xD2E138C4, 0x00000F00, 0x3AFB5079, 0x898E04E5, 0xE2BA3C2B, 0x000060C0, 0x053A37CD, 0x74458547)
  {
    hide S, Xor;
    ShiftsFrom32();
    assert IsNext(block, w, 32) && IsNext(block, w, 33) && IsNext(block, w, 34) && IsNext(block, w, 35) && IsNext(block, w, 36);
    assert IsNext(block, w, 37) && IsNext(block, w, 38) && IsNext(block, w, 39) && IsNext(block, w, 40) && IsNext(block, w, 41);
    assert IsNext(block, w, 42) && IsNext(block, w, 43) && IsNext(block, w, 44) && IsNext(block, w, 45) && IsNext(block, w, 46) && IsNext(block, w, 47);
  }

  lemma ShiftsFrom48()
    ensures S(1, Xor(0x000060C0, 0xD2E138C4, 0xB131C0F0, 0x8E9A9202)) == 0xDA9415ED
    ensures S(1, Xor(0x053A37CD, 0x00000F00, 0x16263BC6, 0x00000600)) == 0x26380A16
    ensures S(1, Xor(0x74458547, 0x3AFB5079, 0x4EBED41E, 0xB131C0F0)) == 0x626383A1
    ensures S(1, Xor(0xDA9415ED, 0x898E04E5, 0x626380A1, 0x16263BC6)) == 0x4EBF54DE
    ensures S(1, Xor(0x26380A16, 0xE2BA3C2B, 0x16263806, 0x4EBED41E)) == 0x3835B44B
    ensures S(1, Xor(0x626383A1, 0x000060C0, 0x000018C0, 0x626380A1)) == 0x0000F600
    ensures S(1, Xor(0x4EBF54DE, 0x053A37CD, 0xD2E138C4, 0x16263806)) == 0x1E84C7A3
    ensures S(1, Xor(0x3835B44B, 0x74458547, 0x00000F00, 0x000018C0)) == 0x98E04D98
    ensures S(1, Xor(0x0000F600, 0xDA9415ED, 0x3AFB5079, 0xD2E138C4)) == 0x651D16A0
    ensures S(1, Xor(0x1E84C7A3, 0x26380A16, 0x898E04E5, 0x00000F00)) == 0x62658CA1
    ensures S(1, Xor(0x98E04D98, 0x626383A1, 0xE2BA3C2B, 0x3AFB5079)) == 0x458544D6
    ensures S(1, Xor(0x651D16A0, 0x4EBF54DE, 0x000060C0, 0x898E04E5)) == 0x44584CB7
    ensures S(1, Xor(0x62658CA1, 0x3835B44B, 0x053A37CD, 0xE2BA3C2B)) == 0x7BA06619
    ensures S(1, Xor(0x458544D6, 0x0000F600, 0x74458547, 0x000060C0)) == 0x6380AEA2
    ensures S(1, Xor(0x44584CB7, 0x1E84C7A3, 0xDA9415ED, 0x053A37CD)) == 0x0AE55269
    ensures S(1, Xor(0x7BA06619, 0x98E04D98, 0x26380A16, 0x74458547)) == 0x627B49A1
  {
  }

  lemma WordsFrom48(block: seq<Octet>, w: seq<Word>)
    requires |block| == 64 && |w| == 80 && IsSchedule(block, w)
    requires Row(w, 32,
          0x8E9A9202, 0x00000600, 0xB131C0F0, 0x16263BC6, 0x4EBED41E, 0x626380A1, 0x16263806, 0x000018C0,
          0xD2E138C4, 0x00000F00, 0x3AFB5079, 0x898E04E5, 0xE2BA3C2B, 0x000060C0, 0x053A37CD, 0x74458547)
    ensures Row(w, 48,
          0xDA9415ED, 0x26380A16, 0x626383A1, 0x4EBF54DE, 0x3835B44B, 0x0000F600, 0x1E84C7A3, 0x98E04D98,
          0x651D16A0, 0x62658CA1, 0x458544D6, 0x44584CB7, 0x7BA06619, 0x6380AEA2, 0x0AE55269, 0x627B49A1)
  {
    hide S, Xor;
    ShiftsFrom48();
    assert IsNext(block, w, 48) && IsNext(block, w, 49) && IsNext(block, w, 50) && IsNext(block, w, 51) && IsNext(block, w, 52);
    assert IsNext(block, w, 53) && IsNext(block, w, 54) && IsNext(block, w, 55) && IsNext(block, w, 56) && IsNext(block, w, 57);
    assert IsNext(block, w, 58) && IsNext(block, w, 59) && IsNext(block, w, 60) && IsNext(block, w, 61) && IsNext(block, w, 62) && IsNext(block, w, 63);
  }

  lemma ShiftsFrom64()
    ensures S(1, Xor(0x6380AEA2, 0x651D16A0, 0x626383A1, 0xDA9415ED)) == 0x7CD45C9D
    ensures S(1, Xor(0x0AE55269, 0x62658CA1, 0x4EBF54DE, 0x26380A16)) == 0x000F0000
    ensures S(1, Xor(0x627B49A1, 0x458544D6, 0x3835B44B, 0x626383A1)) == 0xFB50753A
    ensures S(1, Xor(0x7CD45C9D, 0x44584CB7, 0x0000F600, 0x4EBF54DE)) == 0xEC6765E8
    ensures S(1, Xor(0x000F0000, 0x7BA06619, 0x1E84C7A3, 0x3835B44B)) == 0xBA3C2BE2
    ensures S(1, Xor(0xFB50753A, 0x6380AEA2, 0x98E04D98, 0x0000F600)) == 0x0060C000
    ensures S(1, Xor(0xEC6765E8, 0x0AE55269, 0x651D16A0, 0x1E84C7A3)) == 0x3A37CD05
    ensures S(1, Xor(0xBA3C2BE2, 0x627B49A1, 0x62658CA1, 0x98E04D98)) == 0x458546F4
    ensures S(1, Xor(0x0060C000, 0x7CD45C9D, 0x458544D6, 0x651D16A0)) == 0xB8599DD6
    ensures S(1, Xor(0x3A37CD05, 0x000F0000, 0x44584CB7, 0x62658CA1)) == 0x380A1A26
    ensures S(1, Xor(0x458546F4, 0xFB50753A, 0x7BA06619, 0x458544D6)) == 0x01E02203
    ensures S(1, Xor(0xB8599DD6, 0xEC6765E8, 0x6380AEA2, 0x44584CB7)) == 0xE7CC3456
    ensures S(1, Xor(0x380A1A26, 0xBA3C2BE2, 0x0AE55269, 0x7BA06619)) == 0xE6E60B69
    ensures S(1, Xor(0x01E02203, 0x0060C000, 0x627B49A1, 0x6380AEA2)) == 0x00F60A00
    ensures S(1, Xor(0xE7CC3456, 0x3A37CD05, 0x7CD45C9D, 0x0AE55269)) == 0x5795EF4F
    ensures S(1, Xor(0xE6E60B69, 0x458546F4, 0x000F0000, 0x627B49A1)) == 0x822E0879
  {
  }

  lemma WordsFrom64(block: seq<Octet>, w: seq<Word>)
    requires |block| == 64 && |w| == 80 && IsSchedule(block, w)
    requires Row(w, 48,
          0xDA9415ED, 0x26380A16, 0x626383A1, 0x4EBF54DE, 0x3835B44B, 0x0000F600, 0x1E84C7A3, 0x98E04D98,
          0x651D16A0, 0x62658CA1, 0x458544D6, 0x44584CB7, 0x7BA06619, 0x6380AEA2, 0x0AE55269, 0x627B49A1)
    ensures Row(w, 64,
          0x7CD45C9D, 0x000F0000, 0xFB50753A, 0xEC6765E8, 0xBA3C2BE2, 0x0060C000, 0x3A37CD05, 0x458546F4,
          0xB8599DD6, 0x380A1A26, 0x01E02203, 0xE7CC3456, 0xE6E60B69, 0x00F60A00, 0x5795EF4F, 0x822E0879)
  {
    hide S, Xor;
    ShiftsFrom64();
    assert IsNext(block, w, 64) && IsNext(block, w, 65) && IsNext(block, w, 66) && IsNext(block, w, 67) && IsNext(block, w, 68);
    assert IsNext(block, w, 69) && IsNext(block, w, 70) && IsNext(block, w, 71) && IsNext(block, w, 72) && IsNext(block, w, 73);
    assert IsNext(block, w, 74) && IsNext(block, w, 75) && IsNext(block, w, 76) && IsNext(block, w, 77) && IsNext(block, w, 78) && IsNext(block, w, 79);
  }

  lemma RegistersFrom0(w: seq<Word>)
    requires |w| == 80 && Rounds(w, 0, INITIAL) == INITIAL
    requires w[0] == 0x61626380 && w[1] == 0x00000000 && w[2] == 0x00000000 && w[3] == 0x00000000
    requires w[4] == 0x00000000 && w[5] == 0x00000000 && w[6] == 0x00000000 && w[7] == 0x00000000
    ensures Rounds(w, 8, INITIAL) == Hash(0x9E8C07D4, 0x993E30C1, 0x0FF1F290, 0xB3F52677, 0xF3763846)
  {
    assert Rounds(w, 1, INITIAL) == Hash(0x0116FC33, 0x67452301, 0x7BF36AE2, 0x98BADCFE, 0x10325476);
    assert Rounds(w, 2, INITIAL) == Hash(0x8990536D, 0x0116FC33, 0x59D148C0, 0x7BF36AE2, 0x98BADCFE);
    assert Rounds(w, 3, INITIAL) == Hash(0xA1390F08, 0x8990536D, 0xC045BF0C, 0x59D148C0, 0x7BF36AE2);
    assert Rounds(w, 4, INITIAL) == Hash(0xCDD8E11B, 0xA1390F08, 0x626414DB, 0xC045BF0C, 0x59D148C0);
    assert Rounds(w, 5, INITIAL) == Hash(0xCFD499DE, 0xCDD8E11B, 0x284E43C2, 0x626414DB, 0xC045BF0C);
    assert Rounds(w, 6, INITIAL) == Hash(0x3FC7CA40, 0xCFD499DE, 0xF3763846, 0x284E43C2, 0x626414DB);
    assert Rounds(w, 7, INITIAL) == Hash(0x993E30C1, 0x3FC7CA40, 0xB3F52677, 0xF3763846, 0x284E43C2);
  }

  lemma RegistersFrom8(w: seq<Word>)
    requires |w| == 80 && Rounds(w, 8, INITIAL) == Hash(0x9E8C07D4, 0x993E30C1, 0x0FF1F290, 0xB3F52677, 0xF3763846)
    requires w[8] == 0x00000000 && w[9] == 0x00000000 && w[10] == 0x00000000 && w[11] == 0x00000000
    requires w[12] == 0x00000000 && w[13] == 0x00000000 && w[14] == 0x00000000 && w[15] == 0x00000018
    ensures Rounds(w, 16, INITIAL) == Hash(0x20BDD62F, 0x196BEE77, 0x644A3DA5, 0x1181ED99, 0x18C623F9)
  {
    assert Rounds(w, 9, INITIAL) == Hash(0x4B6AE328, 0x9E8C07D4, 0x664F8C30, 0x0FF1F290, 0xB3F52677);
    assert Rounds(w, 10, INITIAL) == Hash(0x8351F929, 0x4B6AE328, 0x27A301F5, 0x664F8C30, 0x0FF1F290);
    assert Rounds(w, 11, INITIAL) == Hash(0xFBDA9E89, 0x8351F929, 0x12DAB8CA, 0x27A301F5, 0x664F8C30);
    assert Rounds(w, 12, INITIAL) == Hash(0x63188FE4, 0xFBDA9E89, 0x60D47E4A, 0x12DAB8CA, 0x27A301F5);
    assert Rounds(w, 13, INITIAL) == Hash(0x4607B664, 0x63188FE4, 0x7EF6A7A2, 0x60D47E4A, 0x12DAB8CA);
    assert Rounds(w, 14, INITIAL) == Hash(0x9128F695, 0x4607B664, 0x18C623F9, 0x7EF6A7A2, 0x60D47E4A);
    assert Rounds(w, 15, INITIAL) == Hash(0x196BEE77, 0x9128F695, 0x1181ED99, 0x18C623F9, 0x7EF6A7A2);
  }

  lemma RegistersFrom16(w: seq<Word>)
    requires |w| == 80 && Rounds(w, 16, INITIAL) == Hash(0x20BDD62F, 0x196BEE77, 0x644A3DA5, 0x1181ED99, 0x18C623F9)
    requires w[16] == 0xC2C4C700 && w[17] == 0x00000000 && w[18] == 0x00000030 && w[19] == 0x85898E01
    requires w[20] == 0x00000000 && w[21] == 0x00000060 && w[22] == 0x0B131C03 && w[23] == 0x00000030
    ensures Rounds(w, 24, INITIAL) == Hash(0xD541F12D, 0x21283486, 0x0CE88EFF, 0x868DEC32, 0x7F67875F)
  {
    assert Rounds(w, 17, INITIAL) == Hash(0x4E925823, 0x20BDD62F, 0xC65AFB9D, 0x644A3DA5, 0x1181ED99);
    assert Rounds(w, 18, INITIAL) == Hash(0x82AA6728, 0x4E925823, 0xC82F758B, 0xC65AFB9D, 0x644A3DA5);
    assert Rounds(w, 19, INITIAL) == Hash(0xDC64901D, 0x82AA6728, 0xD3A49608, 0xC82F758B, 0xC65AFB9D);
    assert Rounds(w, 20, INITIAL) == Hash(0xFD9E1D7D, 0xDC64901D, 0x20AA99CA, 0xD3A49608, 0xC82F758B);
    assert Rounds(w, 21, INITIAL) == Hash(0x1A37B0CA, 0xFD9E1D7D, 0x77192407, 0x20AA99CA, 0xD3A49608);
    assert Rounds(w, 22, INITIAL) == Hash(0x33A23BFC, 0x1A37B0CA, 0x7F67875F, 0x77192407, 0x20AA99CA);
    assert Rounds(w, 23, INITIAL) == Hash(0x21283486, 0x33A23BFC, 0x868DEC32, 0x7F67875F, 0x77192407);
  }

  lemma RegistersFrom24(w: seq<Word>)
    requires |w| == 80 && Rounds(w, 24, INITIAL) == Hash(0xD541F12D, 0x21283486, 0x0CE88EFF, 0x868DEC32, 0x7F67875F)
    requires w[24] == 0x85898EC1 && w[25] == 0x16263806 && w[26] == 0x00000000 && w[27] == 0x00000180
    requires w[28] == 0x2C4C700C && w[29] == 0x000000F0 && w[30] == 0x93AFB507 && w[31] == 0x5898E048
    ensures Rounds(w, 32, INITIAL) == Hash(0x3B845D33, 0x1267B407, 0x717EEBD7, 0xA0DC2D4B, 0xD2AA1365)
  {
    assert Rounds(w, 25, INITIAL) == Hash(0xC7567DC6, 0xD541F12D, 0x884A0D21, 0x0CE88EFF, 0x868DEC32);
    assert Rounds(w, 26, INITIAL) == Hash(0x48413BA4, 0xC7567DC6, 0x75507C4B, 0x884A0D21, 0x0CE88EFF);
    assert Rounds(w, 27, INITIAL) == Hash(0xBE35FBD5, 0x48413BA4, 0xB1D59F71, 0x75507C4B, 0x884A0D21);
    assert Rounds(w, 28, INITIAL) == Hash(0x4AA84D97, 0xBE35FBD5, 0x12104EE9, 0xB1D59F71, 0x75507C4B);
    assert Rounds(w, 29, INITIAL) == Hash(0x8370B52E, 0x4AA84D97, 0x6F8D7EF5, 0x12104EE9, 0xB1D59F71);
    assert Rounds(w, 30, INITIAL) == Hash(0xC5FBAF5D, 0x8370B52E, 0xD2AA1365, 0x6F8D7EF5, 0x12104EE9);
    assert Rounds(w, 31, INITIAL) == Hash(0x1267B407, 0xC5FBAF5D, 0xA0DC2D4B, 0xD2AA1365, 0x6F8D7EF5);
  }

  lemma RegistersFrom32(w: seq<Word>)
    requires |w| == 80 && Rounds(w, 32, INITIAL) == Hash(0x3B845D33, 0x1267B407, 0x717EEBD7, 0xA0DC2D4B, 0xD2AA1365)
    requires w[32] == 0x8E9A9202 && w[33] == 0x00000600 && w[34] == 0xB131C0F0 && w[35] == 0x16263BC6
    requires w[36] == 0x4EBED41E && w[37] == 0x626380A1 && w[38] == 0x16263806 && w[39] == 0x000018C0
    ensures Rounds(w, 40, INITIAL) == Hash(0x32DE1CBA, 0x4C986405, 0xF718E5CF, 0x03D447F6, 0xF72EEC32)
  {
    assert Rounds(w, 33, INITIAL) == Hash(0x046FAA0A, 0x3B845D33, 0xC499ED01, 0x717EEBD7, 0xA0DC2D4B);
    assert Rounds(w, 34, INITIAL) == Hash(0x2C0EBC11, 0x046FAA0A, 0xCEE1174C, 0xC499ED01, 0x717EEBD7);
    assert Rounds(w, 35, INITIAL) == Hash(0x21796AD4, 0x2C0EBC11, 0x811BEA82, 0xCEE1174C, 0xC499ED01);
    assert Rounds(w, 36, INITIAL) == Hash(0xDCBBB0CB, 0x21796AD4, 0x4B03AF04, 0x811BEA82, 0xCEE1174C);
    assert Rounds(w, 37, INITIAL) == Hash(0x0F511FD8, 0xDCBBB0CB, 0x085E5AB5, 0x4B03AF04, 0x811BEA82);
    assert Rounds(w, 38, INITIAL) == Hash(0xDC63973F, 0x0F511FD8, 0xF72EEC32, 0x085E5AB5, 0x4B03AF04);
    assert Rounds(w, 39, INITIAL) == Hash(0x4C986405, 0xDC63973F, 0x03D447F6, 0xF72EEC32, 0x085E5AB5);
  }

  lemma RegistersFrom40(w: seq<Word>)
    requires |w| == 80 && Rounds(w, 40, INITIAL) == Hash(0x32DE1CBA, 0x4C986405, 0xF718E5CF, 0x03D447F6, 0xF72EEC32)
    requires w[40] == 0xD2E138C4 && w[41] == 0x00000F00 && w[42] == 0x3AFB5079 && w[43] == 0x898E04E5
    requires w[44] == 0xE2BA3C2B && w[45] == 0x000060C0 && w[46] == 0x053A37CD && w[47] == 0x74458547
    ensures Rounds(w, 48, INITIAL) == Hash(0xBEAD02CA, 0xA01B846C, 0x8714787C, 0x503CA382, 0xFB86C6AB)
  {
    assert Rounds(w, 41, INITIAL) == Hash(0xFC87DEDF, 0x32DE1CBA, 0x53261901, 0xF718E5CF, 0x03D447F6);
    assert Rounds(w, 42, INITIAL) == Hash(0x970A0D5C, 0xFC87DEDF, 0x8CB7872E, 0x53261901, 0xF718E5CF);
    assert Rounds(w, 43, INITIAL) == Hash(0x7F193DC5, 0x970A0D5C, 0xFF21F7B7, 0x8CB7872E, 0x53261901);
    assert Rounds(w, 44, INITIAL) == Hash(0xEE1B1AAF, 0x7F193DC5, 0x25C28357, 0xFF21F7B7, 0x8CB7872E);
    assert Rounds(w, 45, INITIAL) == Hash(0x40F28E09, 0xEE1B1AAF, 0x5FC64F71, 0x25C28357, 0xFF21F7B7);
    assert Rounds(w, 46, INITIAL) == Hash(0x1C51E1F2, 0x40F28E09, 0xFB86C6AB, 0x5FC64F71, 0x25C28357);
    assert Rounds(w, 47, INITIAL) == Hash(0xA01B846C, 0x1C51E1F2, 0x503CA382, 0xFB86C6AB, 0x5FC64F71);
  }

  lemma RegistersFrom48(w: seq<Word>)
    requires |w| == 80 && Rounds(w, 48, INITIAL) == Hash(0xBEAD02CA, 0xA01B846C, 0x8714787C, 0x503CA382, 0xFB86C6AB)
    requires w[48] == 0xDA9415ED && w[49] == 0x26380A16 && w[50] == 0x626383A1 && w[51] == 0x4EBF54DE
    requires w[52] == 0x3835B44B && w[53] == 0x0000F600 && w[54] == 0x1E84C7A3 && w[55] == 0x98E04D98
    ensures Rounds(w, 56, INITIAL) == Hash(0x5E6456AF, 0x7B71F76D, 0x09FA7C76, 0x792410DB, 0x8E11EB59)
  {
    assert Rounds(w, 49, INITIAL) == Hash(0xBAF39337, 0xBEAD02CA, 0x2806E11B, 0x8714787C, 0x503CA382);
    assert Rounds(w, 50, INITIAL) == Hash(0x120731C5, 0xBAF39337, 0xAFAB40B2, 0x2806E11B, 0x8714787C);
    assert Rounds(w, 51, INITIAL) == Hash(0x641DB2CE, 0x120731C5, 0xEEBCE4CD, 0xAFAB40B2, 0x2806E11B);
    assert Rounds(w, 52, INITIAL) == Hash(0x3847AD66, 0x641DB2CE, 0x4481CC71, 0xEEBCE4CD, 0xAFAB40B2);
    assert Rounds(w, 53, INITIAL) == Hash(0xE490436D, 0x3847AD66, 0x99076CB3, 0x4481CC71, 0xEEBCE4CD);
    assert Rounds(w, 54, INITIAL) == Hash(0x27E9F1D8, 0xE490436D, 0x8E11EB59, 0x99076CB3, 0x4481CC71);
    assert Rounds(w, 55, INITIAL) == Hash(0x7B71F76D, 0x27E9F1D8, 0x792410DB, 0x8E11EB59, 0x99076CB3);
  }

  lemma RegistersFrom56(w: seq<Word>)
    requires |w| == 80 && Rounds(w, 56, INITIAL) == Hash(0x5E6456AF, 0x7B71F76D, 0x09FA7C76, 0x792410DB, 0x8E11EB59)
    requires w[56] == 0x651D16A0 && w[57] == 0x62658CA1 && w[58] == 0x458544D6 && w[59] == 0x44584CB7
    requires w[60] == 0x7BA06619 && w[61] == 0x6380AEA2 && w[62] == 0x0AE55269 && w[63] == 0x627B49A1
    ensures Rounds(w, 64, INITIAL) == Hash(0x6B61C9E1, 0xB66C020B, 0x9523272C, 0xF5D5B051, 0x8FD4B796)
  {
    assert Rounds(w, 57, INITIAL) == Hash(0xC846093F, 0x5E6456AF, 0x5EDC7DDB, 0x09FA7C76, 0x792410DB);
    assert Rounds(w, 58, INITIAL) == Hash(0xD262FF50, 0xC846093F, 0xD79915AB, 0x5EDC7DDB, 0x09FA7C76);
    assert Rounds(w, 59, INITIAL) == Hash(0x09D785FD, 0xD262FF50, 0xF211824F, 0xD79915AB, 0x5EDC7DDB);
    assert Rounds(w, 60, INITIAL) == Hash(0x3F52DE5A, 0x09D785FD, 0x3498BFD4, 0xF211824F, 0xD79915AB);
    assert Rounds(w, 61, INITIAL) == Hash(0xD756C147, 0x3F52DE5A, 0x4275E17F, 0x3498BFD4, 0xF211824F);
    assert Rounds(w, 62, INITIAL) == Hash(0x548C9CB2, 0xD756C147, 0x8FD4B796, 0x4275E17F, 0x3498BFD4);
    assert Rounds(w, 63, INITIAL) == Hash(0xB66C020B, 0x548C9CB2, 0xF5D5B051, 0x8FD4B796, 0x4275E17F);
  }

  lemma RegistersFrom64(w: seq<Word>)
    requires |w| == 80 && Rounds(w, 64, INITIAL) == Hash(0x6B61C9E1, 0xB66C020B, 0x9523272C, 0xF5D5B051, 0x8FD4B796)
    requires w[64] == 0x7CD45C9D && w[65] == 0x000F0000 && w[66] == 0xFB50753A && w[67] == 0xEC6765E8
    requires w[68] == 0xBA3C2BE2 && w[69] == 0x0060C000 && w[70] == 0x3A37CD05 && w[71] == 0x458546F4
    ensures Rounds(w, 72, INITIAL) == Hash(0x39859DE7, 0xC199F8C7, 0x8FC96230, 0x125C24F0, 0xDE37534A)
  {
    assert Rounds(w, 65, INITIAL) == Hash(0x19DFA7AC, 0x6B61C9E1, 0xED9B0082, 0x9523272C, 0xF5D5B051);
    assert Rounds(w, 66, INITIAL) == Hash(0x101655F9, 0x19DFA7AC, 0x5AD87278, 0xED9B0082, 0x9523272C);
    assert Rounds(w, 67, INITIAL) == Hash(0x0C3DF2B4, 0x101655F9, 0x0677E9EB, 0x5AD87278, 0xED9B0082);
    assert Rounds(w, 68, INITIAL) == Hash(0x78DD4D2B, 0x0C3DF2B4, 0x4405957E, 0x0677E9EB, 0x5AD87278);
    assert Rounds(w, 69, INITIAL) == Hash(0x497093C0, 0x78DD4D2B, 0x030F7CAD, 0x4405957E, 0x0677E9EB);
    assert Rounds(w, 70, INITIAL) == Hash(0x3F2588C2, 0x497093C0, 0xDE37534A, 0x030F7CAD, 0x4405957E);
    assert Rounds(w, 71, INITIAL) == Hash(0xC199F8C7, 0x3F2588C2, 0x125C24F0, 0xDE37534A, 0x030F7CAD);
  }

  lemma RegistersFrom72(w: seq<Word>)
    requires |w| == 80 && Rounds(w, 72, INITIAL) == Hash(0x39859DE7, 0xC199F8C7, 0x8FC96230, 0x125C24F0, 0xDE37534A)
    requires w[72] == 0xB8599DD6 && w[73] == 0x380A1A26 && w[74] == 0x01E02203 && w[75] == 0xE7CC3456
    requires w[76] == 0xE6E60B69 && w[77] == 0x00F60A00 && w[78] == 0x5795EF4F && w[79] == 0x822E0879
    ensures Rounds(w, 80, INITIAL) == Hash(0x42541B35, 0x5738D5E1, 0x21834873, 0x681E6DF6, 0xD8FDF6AD)
  {
    assert Rounds(w, 73, INITIAL) == Hash(0xEDB42DE4, 0x39859DE7, 0xF0667E31, 0x8FC96230, 0x125C24F0);
    assert Rounds(w, 74, INITIAL) == Hash(0x11793F6F, 0xEDB42DE4, 0xCE616779, 0xF0667E31, 0x8FC96230);
    assert Rounds(w, 75, INITIAL) == Hash(0x5EE76897, 0x11793F6F, 0x3B6D0B79, 0xCE616779, 0xF0667E31);
    assert Rounds(w, 76, INITIAL) == Hash(0x63F7DAB7, 0x5EE76897, 0xC45E4FDB, 0x3B6D0B79, 0xCE616779);
    assert Rounds(w, 77, INITIAL) == Hash(0xA079B7D9, 0x63F7DAB7, 0xD7B9DA25, 0xC45E4FDB, 0x3B6D0B79);
    assert Rounds(w, 78, INITIAL) == Hash(0x860D21CC, 0xA079B7D9, 0xD8FDF6AD, 0xD7B9DA25, 0xC45E4FDB);
    assert Rounds(w, 79, INITIAL) == Hash(0x5738D5E1, 0x860D21CC, 0x681E6DF6, 0xD8FDF6AD, 0xD7B9DA25);
  }


  lemma Joined(z: seq<Octet>, l: seq<Octet>)
    requires |z| == 52 && |l| == 8 && (forall i :: 0 <= i < 52 ==> z[i] == 0)
    requires (forall i :: 0 <= i < 7 ==> l[i] == 0) && l[7] == 24
    ensures var p := ABC + ([0x80] + z + l);
            && |p| == 64 && p[0] == 0x61 && p[1] == 0x62 && p[2] == 0x63 && p[3] == 0x80
            && p[63] == 24 && forall i :: 4 <= i < 63 ==> p[i] == 0
  {
  }

  /** Three octets are 24 bits. */
  lemma LengthOfAbc()
    ensures var l := BitLength(ABC); l[7] == 24 && forall i :: 0 <= i < 7 ==> l[i] == 0
  {
    assert 8 * |ABC| == 24;
    assert OctetsOf(0) == [0, 0, 0, 0] && OctetsOf(24) == [0, 0, 0, 24];
    hide OctetsOf;
  }

  /** The one block of the padded message. */
  lemma BlockOfAbc()
    ensures |Pad(ABC)| == 64 && Pad(ABC)[0] == 0x61 && Pad(ABC)[1] == 0x62 && Pad(ABC)[2] == 0x63 && Pad(ABC)[3] == 0x80
    ensures Pad(ABC)[63] == 24 && forall i :: 4 <= i < 63 ==> Pad(ABC)[i] == 0
  {
    hide BitLength;
    assert ZeroCount(|ABC|) == 52;
    LengthOfAbc();
    Joined(Repeat<Octet>(0, 52), BitLength(ABC));
  }

  lemma FirstWords(block: seq<Octet>, w: seq<Word>)
    requires |block| == 64 && |w| == 80 && IsSchedule(block, w)
    requires block[0] == 0x61 && block[1] == 0x62 && block[2] == 0x63 && block[3] == 0x80
    requires block[63] == 24 && forall i :: 4 <= i < 63 ==> block[i] == 0
    ensures Row(w, 0,
          0x61626380, 0x00000000, 0x00000000, 0x00000000, 0x00000000, 0x00000000, 0x00000000, 0x00000000,
          0x00000000, 0x00000000, 0x00000000, 0x00000000, 0x00000000, 0x00000000, 0x00000000, 0x00000018)
  {
    assert IsNext(block, w, 0) && IsNext(block, w, 1) && IsNext(block, w, 2) && IsNext(block, w, 3) && IsNext(block, w, 4);
    assert IsNext(block, w, 5) && IsNext(block, w, 6) && IsNext(block, w, 7) && IsNext(block, w, 8) && IsNext(block, w, 9);
    assert IsNext(block, w, 10) && IsNext(block, w, 11) && IsNext(block, w, 12) && IsNext(block, w, 13) && IsNext(block, w, 14) && IsNext(block, w, 15);
    assert WordOf(0x61, 0x62, 0x63, 0x80) == 0x61626380 && WordOf(0, 0, 0, 0) == 0 && WordOf(0, 0, 0, 24) == 24;
  }

  lemma WordsOfAbc(block: seq<Octet>, w: seq<Word>)
    requires |block| == 64 && |w| == 80 && IsSchedule(block, w) && block == Pad(ABC)
    ensures Row(w, 0,
          0x61626380, 0x00000000, 0x00000000, 0x00000000, 0x00000000, 0x00000000, 0x00000000, 0x00000000,
          0x00000000, 0x00000000, 0x00000000, 0x00000000, 0x00000000, 0x00000000, 0x00000000, 0x00000018)
    ensures Row(w, 16,
          0xC2C4C700, 0x00000000, 0x00000030, 0x85898E01, 0x00000000, 0x00000060, 0x0B131C03, 0x00000030,
          0x85898EC1, 0x16263806, 0x00000000, 0x00000180, 0x2C4C700C, 0x000000F0, 0x93AFB507, 0x5898E048)
    ensures Row(w, 32,
          0x8E9A9202, 0x00000600, 0xB131C0F0, 0x16263BC6, 0x4EBED41E, 0x626380A1, 0x16263806, 0x000018C0,
          0xD2E138C4, 0x00000F00, 0x3AFB5079, 0x898E04E5, 0xE2BA3C2B, 0x000060C0, 0x053A37CD, 0x74458547)
    ensures Row(w, 48,
          0xDA9415ED, 0x26380A16, 0x626383A1, 0x4EBF54DE, 0x3835B44B, 0x0000F600, 0x1E84C7A3, 0x98E04D98,
          0x651D16A0, 0x62658CA1, 0x458544D6, 0x44584CB7, 0x7BA06619, 0x6380AEA2, 0x0AE55269, 0x627B49A1)
    ensures Row(w, 64,
          0x7CD45C9D, 0x000F0000, 0xFB50753A, 0xEC6765E8, 0xBA3C2BE2, 0x0060C000, 0x3A37CD05, 0x458546F4,
          0xB8599DD6, 0x380A1A26, 0x01E02203, 0xE7CC3456, 0xE6E60B69, 0x00F60A00, 0x5795EF4F, 0x822E0879)
  {
    hide Pad, IsSchedule, Row;
    BlockOfAbc();
    FirstWords(block, w);
    WordsFrom16(block, w);
    WordsFrom32(block, w);
    WordsFrom48(block, w);
    WordsFrom64(block, w);
  }

  lemma RegistersOfAbc(w: seq<Word>)
    requires |w| == 80
    requires Row(w, 0,
          0x61626380, 0x00000000, 0x00000000, 0x00000000, 0x00000000, 0x00000000, 0x00000000, 0x00000000,
          0x00000000, 0x00000000, 0x00000000, 0x00000000, 0x00000000, 0x00000000, 0x00000000, 0x00000018)
    requires Row(w, 16,
          0xC2C4C700, 0x00000000, 0x00000030, 0x85898E01, 0x00000000, 0x00000060, 0x0B131C03, 0x00000030,
          0x85898EC1, 0x16263806, 0x00000000, 0x00000180, 0x2C4C700C, 0x000000F0, 0x93AFB507, 0x5898E048)
    requires Row(w, 32,
          0x8E9A9202, 0x00000600, 0xB131C0F0, 0x16263BC6, 0x4EBED41E, 0x626380A1, 0x16263806, 0x000018C0,
          0xD2E138C4, 0x00000F00, 0x3AFB5079, 0x898E04E5, 0xE2BA3C2B, 0x000060C0, 0x053A37CD, 0x74458547)
    requires Row(w, 48,
          0xDA9415ED, 0x26380A16, 0x626383A1, 0x4EBF54DE, 0x3835B44B, 0x0000F600, 0x1E84C7A3, 0x98E04D98,
          0x651D16A0, 0x62658CA1, 0x458544D6, 0x44584CB7, 0x7BA06619, 0x6380AEA2, 0x0AE55269, 0x627B49A1)
    requires Row(w, 64,
          0x7CD45C9D, 0x000F0000, 0xFB50753A, 0xEC6765E8, 0xBA3C2BE2, 0x0060C000, 0x3A37CD05, 0x458546F4,
          0xB8599DD6, 0x380A1A26, 0x01E02203, 0xE7CC3456, 0xE6E60B69, 0x00F60A00, 0x5795EF4F, 0x822E0879)
    ensures Rounds(w, 80, INITIAL) == Hash(0x42541B35, 0x5738D5E1, 0x21834873, 0x681E6DF6, 0xD8FDF6AD)
  {
    hide Rounds, Round, S, F, K, Plus;
    NoRounds(w);
    RegistersFrom0(w);
    RegistersFrom8(w);
    RegistersFrom16(w);
    RegistersFrom24(w);
    RegistersFrom32(w);
    RegistersFrom40(w);
    RegistersFrom48(w);
    RegistersFrom56(w);
    RegistersFrom64(w);
    RegistersFrom72(w);
  }

  lemma NoRounds(w: seq<Word>)
    ensures Rounds(w, 0, INITIAL) == INITIAL
  {
  }

  lemma ScheduleIsOne(block: seq<Octet>)
    requires |block| == 64
    ensures IsSchedule(block, Schedule(block))
  {
  }

  /** The digest that the standard gives for "abc". */
  lemma DigestOfAbc()
    ensures Digest(ABC) == Hash(0xA9993E36, 0x4706816A, 0xBA3E2571, 0x7850C26C, 0x9CD0D89D)
  {
    var block := Pad(ABC);
    hide Pad, IsSchedule, Row, Schedule, Rounds, W;
    BlockOfAbc();
    var w := Schedule(block);
    ScheduleIsOne(block);
    WordsOfAbc(block, w);
    RegistersOfAbc(w);
    assert block[..0] == [] && block[0..] == block;
  }
}
