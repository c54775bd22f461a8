/** The squarings behind the period of x: one word at a time. */
module CrcPowers {
  import opened CrcPeriod
  import opened CrcSquares

  lemma S1(f: bv32 -> bv32) requires IsSquare(f) ensures f(0x000002) == 0x000004 { assert Asked(0x000002); }
  lemma S2(f: bv32 -> bv32) requires IsSquare(f) ensures f(0x000004) == 0x000010 { assert Asked(0x000004); }
  lemma S4(f: bv32 -> bv32) requires IsSquare(f) ensures f(0x000010) == 0x000100 { assert Asked(0x000010); }
  lemma S5(f: bv32 -> bv32) requires IsSquare(f) ensures f(0x000020) == 0x000400 { assert Asked(0x000020); }
  lemma S8(f: bv32 -> bv32) requires IsSquare(f) ensures f(0x000100) == 0x010000 { assert Asked(0x000100); }
  lemma S10(f: bv32 -> bv32) requires IsSquare(f) ensures f(0x000400) == 0x100000 { assert Asked(0x000400); }
  lemma S11(f: bv32 -> bv32) requires IsSquare(f) ensures f(0x000800) == 0x400000 { assert Asked(0x000800); }
  lemma S16(f: bv32 -> bv32) requires IsSquare(f) ensures f(0x010000) == 0x668f48 { assert Asked(0x010000); }
  lemma S21(f: bv32 -> bv32) requires IsSquare(f) ensures f(0x200000) == 0x86f251 { assert Asked(0x200000); }
  lemma S23(f: bv32 -> bv32) requires IsSquare(f) ensures f(0x800000) == 0xcea429 { assert Asked(0x800000); }
  lemma S32(f: bv32 -> bv32) requires IsSquare(f) ensures f(0x668f48) == 0x36eb3d { assert Asked(0x668f48); }
  lemma S43(f: bv32 -> bv32) requires IsSquare(f) ensures f(0x8ba859) == 0x3f5f83 { assert Asked(0x8ba859); }
  lemma S64(f: bv32 -> bv32) requires IsSquare(f) ensures f(0x36eb3d) == 0x6243da { assert Asked(0x36eb3d); }
  lemma S87(f: bv32 -> bv32) requires IsSquare(f) ensures f(0x7ebf06) == 0xe109ef { assert Asked(0x7ebf06); }
  lemma S128(f: bv32 -> bv32) requires IsSquare(f) ensures f(0x6243da) == 0xcb800e { assert Asked(0x6243da); }
  lemma S174(f: bv32 -> bv32) requires IsSquare(f) ensures f(0xe109ef) == 0xfe912c { assert Asked(0xe109ef); }
  lemma S256(f: bv32 -> bv32) requires IsSquare(f) ensures f(0xcb800e) == 0x7db43e { assert Asked(0xcb800e); }
  lemma S348(f: bv32 -> bv32) requires IsSquare(f) ensures f(0xfe912c) == 0xe84f63 { assert Asked(0xfe912c); }
  lemma S512(f: bv32 -> bv32) requires IsSquare(f) ensures f(0x7db43e) == 0xdef23c { assert Asked(0x7db43e); }
  lemma S697(f: bv32 -> bv32) requires IsSquare(f) ensures f(0x56d23d) == 0x2107d8 { assert Asked(0x56d23d); }
  lemma S1024(f: bv32 -> bv32) requires IsSquare(f) ensures f(0xdef23c) == 0x3d145a { assert Asked(0xdef23c); }
  lemma S1394(f: bv32 -> bv32) requires IsSquare(f) ensures f(0x2107d8) == 0xf52c59 { assert Asked(0x2107d8); }
  lemma S2048(f: bv32 -> bv32) requires IsSquare(f) ensures f(0x3d145a) == 0xc5bf56 { assert Asked(0x3d145a); }
  lemma S2788(f: bv32 -> bv32) requires IsSquare(f) ensures f(0xf52c59) == 0x8efc62 { assert Asked(0xf52c59); }
  lemma S4096(f: bv32 -> bv32) requires IsSquare(f) ensures f(0xc5bf56) == 0x11e898 { assert Asked(0xc5bf56); }
  lemma S5577(f: bv32 -> bv32) requires IsSquare(f) ensures f(0x9bb43f) == 0x6a0ebb { assert Asked(0x9bb43f); }
  lemma S8192(f: bv32 -> bv32) requires IsSquare(f) ensures f(0x11e898) == 0xeacc65 { assert Asked(0x11e898); }
  lemma S11155(f: bv32 -> bv32) requires IsSquare(f) ensures f(0xd41d76) == 0x7a2f34 { assert Asked(0xd41d76); }
  lemma S16384(f: bv32 -> bv32) requires IsSquare(f) ensures f(0xeacc65) == 0x0893eb { assert Asked(0xeacc65); }
  lemma S22310(f: bv32 -> bv32) requires IsSquare(f) ensures f(0x7a2f34) == 0x0f24ae { assert Asked(0x7a2f34); }
  lemma S32768(f: bv32 -> bv32) requires IsSquare(f) ensures f(0x0893eb) == 0xdbea27 { assert Asked(0x0893eb); }
  lemma S44620(f: bv32 -> bv32) requires IsSquare(f) ensures f(0x0f24ae) == 0xc9ca01 { assert Asked(0x0f24ae); }
  lemma S65536(f: bv32 -> bv32) requires IsSquare(f) ensures f(0xdbea27) == 0xec11c0 { assert Asked(0xdbea27); }
  lemma S89240(f: bv32 -> bv32) requires IsSquare(f) ensures f(0xc9ca01) == 0xe08b39 { assert Asked(0xc9ca01); }
  lemma S131072(f: bv32 -> bv32) requires IsSquare(f) ensures f(0xec11c0) == 0x6ec0ed { assert Asked(0xec11c0); }
  lemma S262144(f: bv32 -> bv32) requires IsSquare(f) ensures f(0x6ec0ed) == 0xe7b0ee { assert Asked(0x6ec0ed); }
  lemma S524288(f: bv32 -> bv32) requires IsSquare(f) ensures f(0xe7b0ee) == 0xde2e52 { assert Asked(0xe7b0ee); }
  lemma S1048576(f: bv32 -> bv32) requires IsSquare(f) ensures f(0xde2e52) == 0x37a1ae { assert Asked(0xde2e52); }
  lemma S2097152(f: bv32 -> bv32) requires IsSquare(f) ensures f(0x37a1ae) == 0x85c31e { assert Asked(0x37a1ae); }
  lemma S4194304(f: bv32 -> bv32) requires IsSquare(f) ensures f(0x85c31e) == 0x000002 { assert Asked(0x85c31e); }

  /** p relates words to exponents: squaring doubles the exponent, doubling adds one. */
  ghost predicate Climbs(f: bv32 -> bv32, p: (bv32, nat) -> bool) {
    && (forall w: bv32, n: nat {:trigger f(w), p(w, n)} :: p(w, n) ==> p(f(w), 2 * n))
    && (forall w: bv32, n: nat {:trigger TimesWord(w), p(w, n)} :: p(w, n) ==> p(TimesWord(w), n + 1))
  }

  lemma Reach8388608(f: bv32 -> bv32, p: (bv32, nat) -> bool)
    requires IsSquare(f) && Climbs(f, p) && p(2, 1)
    ensures p(0x000002, 8388608)
  {
    S1(f);
    assert p(0x000004, 2);
    S2(f);
    assert p(0x000010, 4);
    S4(f);
    assert p(0x000100, 8);
    S8(f);
    assert p(0x010000, 16);
    S16(f);
    assert p(0x668f48, 32);
    S32(f);
    assert p(0x36eb3d, 64);
    S64(f);
    assert p(0x6243da, 128);
    S128(f);
    assert p(0xcb800e, 256);
    S256(f);
    assert p(0x7db43e, 512);
    S512(f);
    assert p(0xdef23c, 1024);
    S1024(f);
    assert p(0x3d145a, 2048);
    S2048(f);
    assert p(0xc5bf56, 4096);
    S4096(f);
    assert p(0x11e898, 8192);
    S8192(f);
    assert p(0xeacc65, 16384);
    S16384(f);
    assert p(0x0893eb, 32768);
    S32768(f);
    assert p(0xdbea27, 65536);
    S65536(f);
    assert p(0xec11c0, 131072);
    S131072(f);
    assert p(0x6ec0ed, 262144);
    S262144(f);
    assert p(0xe7b0ee, 524288);
    S524288(f);
    assert p(0xde2e52, 1048576);
    S1048576(f);
    assert p(0x37a1ae, 2097152);
    S2097152(f);
    assert p(0x85c31e, 4194304);
    S4194304(f);
    assert p(0x000002, 8388608);
  }

  lemma Reach47(f: bv32 -> bv32, p: (bv32, nat) -> bool)
    requires IsSquare(f) && Climbs(f, p) && p(2, 1)
    ensures p(0x1b04a9, 47)
  {
    S1(f);
    assert p(0x000004, 2);
    S2(f);
    assert p(0x000010, 4);
    assert TimesWord(0x000010) == 0x000020 && p(0x000020, 5);
    S5(f);
    assert p(0x000400, 10);
    assert TimesWord(0x000400) == 0x000800 && p(0x000800, 11);
    S11(f);
    assert p(0x400000, 22);
    assert TimesWord(0x400000) == 0x800000 && p(0x800000, 23);
    S23(f);
    assert p(0xcea429, 46);
    assert TimesWord(0xcea429) == 0x1b04a9 && p(0x1b04a9, 47);
  }

  lemma Reach178481(f: bv32 -> bv32, p: (bv32, nat) -> bool)
    requires IsSquare(f) && Climbs(f, p) && p(2, 1)
    ensures p(0x475a89, 178481)
  {
    S1(f);
    assert p(0x000004, 2);
    S2(f);
    assert p(0x000010, 4);
    assert TimesWord(0x000010) == 0x000020 && p(0x000020, 5);
    S5(f);
    assert p(0x000400, 10);
    S10(f);
    assert p(0x100000, 20);
    assert TimesWord(0x100000) == 0x200000 && p(0x200000, 21);
    S21(f);
    assert p(0x86f251, 42);
    assert TimesWord(0x86f251) == 0x8ba859 && p(0x8ba859, 43);
    S43(f);
    assert p(0x3f5f83, 86);
    assert TimesWord(0x3f5f83) == 0x7ebf06 && p(0x7ebf06, 87);
    S87(f);
    assert p(0xe109ef, 174);
    S174(f);
    assert p(0xfe912c, 348);
    S348(f);
    assert p(0xe84f63, 696);
    assert TimesWord(0xe84f63) == 0x56d23d && p(0x56d23d, 697);
    S697(f);
    assert p(0x2107d8, 1394);
    S1394(f);
    assert p(0xf52c59, 2788);
    S2788(f);
    assert p(0x8efc62, 5576);
    assert TimesWord(0x8efc62) == 0x9bb43f && p(0x9bb43f, 5577);
    S5577(f);
    assert p(0x6a0ebb, 11154);
    assert TimesWord(0x6a0ebb) == 0xd41d76 && p(0xd41d76, 11155);
    S11155(f);
    assert p(0x7a2f34, 22310);
    S22310(f);
    assert p(0x0f24ae, 44620);
    S44620(f);
    assert p(0xc9ca01, 89240);
    S89240(f);
    assert p(0xe08b39, 178480);
    assert TimesWord(0xe08b39) == 0x475a89 && p(0x475a89, 178481);
  }
}
