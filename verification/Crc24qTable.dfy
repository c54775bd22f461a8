/** The CRC-24Q lookup table, sixteen entries to a row. */
module Crc24qTable {
  import opened DoublingTable

  datatype Cell = W(w: bv32)

  function Row0(j: nat): Cell
    requires j < 16
  {
    match j
    case 0 => W(0x00000000) case 1 => W(0x01864CFB) case 2 => W(0x028AD50D) case 3 => W(0x030C99F6)
    case 4 => W(0x0493E6E1) case 5 => W(0x0515AA1A) case 6 => W(0x061933EC) case 7 => W(0x079F7F17)
    case 8 => W(0x08A18139) case 9 => W(0x0927CDC2) case 10 => W(0x0A2B5434) case 11 => W(0x0BAD18CF)
    case 12 => W(0x0C3267D8) case 13 => W(0x0DB42B23) case 14 => W(0x0EB8B2D5) case _ => W(0x0F3EFE2E)
  }

  function Row1(j: nat): Cell
    requires j < 16
  {
    match j
    case 0 => W(0x10C54E89) case 1 => W(0x11430272) case 2 => W(0x124F9B84) case 3 => W(0x13C9D77F)
    case 4 => W(0x1456A868) case 5 => W(0x15D0E493) case 6 => W(0x16DC7D65) case 7 => W(0x175A319E)
    case 8 => W(0x1864CFB0) case 9 => W(0x19E2834B) case 10 => W(0x1AEE1ABD) case 11 => W(0x1B685646)
    case 12 => W(0x1CF72951) case 13 => W(0x1D7165AA) case 14 => W(0x1E7DFC5C) case _ => W(0x1FFBB0A7)
  }

  function Row2(j: nat): Cell
    requires j < 16
  {
    match j
    case 0 => W(0x200CD1E9) case 1 => W(0x218A9D12) case 2 => W(0x228604E4) case 3 => W(0x2300481F)
    case 4 => W(0x249F3708) case 5 => W(0x25197BF3) case 6 => W(0x2615E205) case 7 => W(0x2793AEFE)
    case 8 => W(0x28AD50D0) case 9 => W(0x292B1C2B) case 10 => W(0x2A2785DD) case 11 => W(0x2BA1C926)
    case 12 => W(0x2C3EB631) case 13 => W(0x2DB8FACA) case 14 => W(0x2EB4633C) case _ => W(0x2F322FC7)
  }

  function Row3(j: nat): Cell
    requires j < 16
  {
    match j
    case 0 => W(0x30C99F60) case 1 => W(0x314FD39B) case 2 => W(0x32434A6D) case 3 => W(0x33C50696)
    case 4 => W(0x345A7981) case 5 => W(0x35DC357A) case 6 => W(0x36D0AC8C) case 7 => W(0x3756E077)
    case 8 => W(0x38681E59) case 9 => W(0x39EE52A2) case 10 => W(0x3AE2CB54) case 11 => W(0x3B6487AF)
    case 12 => W(0x3CFBF8B8) case 13 => W(0x3D7DB443) case 14 => W(0x3E712DB5) case _ => W(0x3FF7614E)
  }

  function Row4(j: nat): Cell
    requires j < 16
  {
    match j
    case 0 => W(0x4019A3D2) case 1 => W(0x419FEF29) case 2 => W(0x429376DF) case 3 => W(0x43153A24)
    case 4 => W(0x448A4533) case 5 => W(0x450C09C8) case 6 => W(0x4600903E) case 7 => W(0x4786DCC5)
    case 8 => W(0x48B822EB) case 9 => W(0x493E6E10) case 10 => W(0x4A32F7E6) case 11 => W(0x4BB4BB1D)
    case 12 => W(0x4C2BC40A) case 13 => W(0x4DAD88F1) case 14 => W(0x4EA11107) case _ => W(0x4F275DFC)
  }

  function Row5(j: nat): Cell
    requires j < 16
  {
    match j
    case 0 => W(0x50DCED5B) case 1 => W(0x515AA1A0) case 2 => W(0x52563856) case 3 => W(0x53D074AD)
    case 4 => W(0x544F0BBA) case 5 => W(0x55C94741) case 6 => W(0x56C5DEB7) case 7 => W(0x5743924C)
    case 8 => W(0x587D6C62) case 9 => W(0x59FB2099) case 10 => W(0x5AF7B96F) case 11 => W(0x5B71F594)
    case 12 => W(0x5CEE8A83) case 13 => W(0x5D68C678) case 14 => W(0x5E645F8E) case _ => W(0x5FE21375)
  }

  function Row6(j: nat): Cell
    requires j < 16
  {
    match j
    case 0 => W(0x6015723B) case 1 => W(0x61933EC0) case 2 => W(0x629FA736) case 3 => W(0x6319EBCD)
    case 4 => W(0x648694DA) case 5 => W(0x6500D821) case 6 => W(0x660C41D7) case 7 => W(0x678A0D2C)
    case 8 => W(0x68B4F302) case 9 => W(0x6932BFF9) case 10 => W(0x6A3E260F) case 11 => W(0x6BB86AF4)
    case 12 => W(0x6C2715E3) case 13 => W(0x6DA15918) case 14 => W(0x6EADC0EE) case _ => W(0x6F2B8C15)
  }

  function Row7(j: nat): Cell
    requires j < 16
  {
    match j
    case 0 => W(0x70D03CB2) case 1 => W(0x71567049) case 2 => W(0x725AE9BF) case 3 => W(0x73DCA544)
    case 4 => W(0x7443DA53) case 5 => W(0x75C596A8) case 6 => W(0x76C90F5E) case 7 => W(0x774F43A5)
    case 8 => W(0x7871BD8B) case 9 => W(0x79F7F170) case 10 => W(0x7AFB6886) case 11 => W(0x7B7D247D)
    case 12 => W(0x7CE25B6A) case 13 => W(0x7D641791) case 14 => W(0x7E688E67) case _ => W(0x7FEEC29C)
  }

  function Row8(j: nat): Cell
    requires j < 16
  {
    match j
    case 0 => W(0x803347A4) case 1 => W(0x81B50B5F) case 2 => W(0x82B992A9) case 3 => W(0x833FDE52)
    case 4 => W(0x84A0A145) case 5 => W(0x8526EDBE) case 6 => W(0x862A7448) case 7 => W(0x87AC38B3)
    case 8 => W(0x8892C69D) case 9 => W(0x89148A66) case 10 => W(0x8A181390) case 11 => W(0x8B9E5F6B)
    case 12 => W(0x8C01207C) case 13 => W(0x8D876C87) case 14 => W(0x8E8BF571) case _ => W(0x8F0DB98A)
  }

  function Row9(j: nat): Cell
    requires j < 16
  {
    match j
    case 0 => W(0x90F6092D) case 1 => W(0x917045D6) case 2 => W(0x927CDC20) case 3 => W(0x93FA90DB)
    case 4 => W(0x9465EFCC) case 5 => W(0x95E3A337) case 6 => W(0x96EF3AC1) case 7 => W(0x9769763A)
    case 8 => W(0x98578814) case 9 => W(0x99D1C4EF) case 10 => W(0x9ADD5D19) case 11 => W(0x9B5B11E2)
    case 12 => W(0x9CC46EF5) case 13 => W(0x9D42220E) case 14 => W(0x9E4EBBF8) case _ => W(0x9FC8F703)
  }

  function RowA(j: nat): Cell
    requires j < 16
  {
    match j
    case 0 => W(0xA03F964D) case 1 => W(0xA1B9DAB6) case 2 => W(0xA2B54340) case 3 => W(0xA3330FBB)
    case 4 => W(0xA4AC70AC) case 5 => W(0xA52A3C57) case 6 => W(0xA626A5A1) case 7 => W(0xA7A0E95A)
    case 8 => W(0xA89E1774) case 9 => W(0xA9185B8F) case 10 => W(0xAA14C279) case 11 => W(0xAB928E82)
    case 12 => W(0xAC0DF195) case 13 => W(0xAD8BBD6E) case 14 => W(0xAE872498) case _ => W(0xAF016863)
  }

  function RowB(j: nat): Cell
    requires j < 16
  {
    match j
    case 0 => W(0xB0FAD8C4) case 1 => W(0xB17C943F) case 2 => W(0xB2700DC9) case 3 => W(0xB3F64132)
    case 4 => W(0xB4693E25) case 5 => W(0xB5EF72DE) case 6 => W(0xB6E3EB28) case 7 => W(0xB765A7D3)
    case 8 => W(0xB85B59FD) case 9 => W(0xB9DD1506) case 10 => W(0xBAD18CF0) case 11 => W(0xBB57C00B)
    case 12 => W(0xBCC8BF1C) case 13 => W(0xBD4EF3E7) case 14 => W(0xBE426A11) case _ => W(0xBFC426EA)
  }

  function RowC(j: nat): Cell
    requires j < 16
  {
    match j
    case 0 => W(0xC02AE476) case 1 => W(0xC1ACA88D) case 2 => W(0xC2A0317B) case 3 => W(0xC3267D80)
    case 4 => W(0xC4B90297) case 5 => W(0xC53F4E6C) case 6 => W(0xC633D79A) case 7 => W(0xC7B59B61)
    case 8 => W(0xC88B654F) case 9 => W(0xC90D29B4) case 10 => W(0xCA01B042) case 11 => W(0xCB87FCB9)
    case 12 => W(0xCC1883AE) case 13 => W(0xCD9ECF55) case 14 => W(0xCE9256A3) case _ => W(0xCF141A58)
  }

  function RowD(j: nat): Cell
    requires j < 16
  {
    match j
    case 0 => W(0xD0EFAAFF) case 1 => W(0xD169E604) case 2 => W(0xD2657FF2) case 3 => W(0xD3E33309)
    case 4 => W(0xD47C4C1E) case 5 => W(0xD5FA00E5) case 6 => W(0xD6F69913) case 7 => W(0xD770D5E8)
    case 8 => W(0xD84E2BC6) case 9 => W(0xD9C8673D) case 10 => W(0xDAC4FECB) case 11 => W(0xDB42B230)
    case 12 => W(0xDCDDCD27) case 13 => W(0xDD5B81DC) case 14 => W(0xDE57182A) case _ => W(0xDFD154D1)
  }

  function RowE(j: nat): Cell
    requires j < 16
  {
    match j
    case 0 => W(0xE026359F) case 1 => W(0xE1A07964) case 2 => W(0xE2ACE092) case 3 => W(0xE32AAC69)
    case 4 => W(0xE4B5D37E) case 5 => W(0xE5339F85) case 6 => W(0xE63F0673) case 7 => W(0xE7B94A88)
    case 8 => W(0xE887B4A6) case 9 => W(0xE901F85D) case 10 => W(0xEA0D61AB) case 11 => W(0xEB8B2D50)
    case 12 => W(0xEC145247) case 13 => W(0xED921EBC) case 14 => W(0xEE9E874A) case _ => W(0xEF18CBB1)
  }

  function RowF(j: nat): Cell
    requires j < 16
  {
    match j
    case 0 => W(0xF0E37B16) case 1 => W(0xF16537ED) case 2 => W(0xF269AE1B) case 3 => W(0xF3EFE2E0)
    case 4 => W(0xF4709DF7) case 5 => W(0xF5F6D10C) case 6 => W(0xF6FA48FA) case 7 => W(0xF77C0401)
    case 8 => W(0xF842FA2F) case 9 => W(0xF9C4B6D4) case 10 => W(0xFAC82F22) case 11 => W(0xFB4E63D9)
    case 12 => W(0xFCD11CCE) case 13 => W(0xFD575035) case 14 => W(0xFE5BC9C3) case _ => W(0xFFDD8538)
  }

  function Entry(k: nat, j: nat): Cell
    requires k < 16 && j < 16
  {
    match k
    case 0 => Row0(j) case 1 => Row1(j) case 2 => Row2(j) case 3 => Row3(j)
    case 4 => Row4(j) case 5 => Row5(j) case 6 => Row6(j) case 7 => Row7(j)
    case 8 => Row8(j) case 9 => Row9(j) case 10 => RowA(j) case 11 => RowB(j)
    case 12 => RowC(j) case 13 => RowD(j) case 14 => RowE(j) case _ => RowF(j)
  }

  function Table(n: nat): bv32
    requires n < 256
  {
    Entry(n / 16, n % 16).w
  }

  // Every row is the first row shifted by its own first entry.
  lemma Row1Xor(j: nat) requires j < 16 ensures Row1(j).w == Row0(j).w ^ Row1(0).w {}
  lemma Row2Xor(j: nat) requires j < 16 ensures Row2(j).w == Row0(j).w ^ Row2(0).w {}
  lemma Row3Xor(j: nat) requires j < 16 ensures Row3(j).w == Row0(j).w ^ Row3(0).w {}
  lemma Row4Xor(j: nat) requires j < 16 ensures Row4(j).w == Row0(j).w ^ Row4(0).w {}
  lemma Row5Xor(j: nat) requires j < 16 ensures Row5(j).w == Row0(j).w ^ Row5(0).w {}
  lemma Row6Xor(j: nat) requires j < 16 ensures Row6(j).w == Row0(j).w ^ Row6(0).w {}
  lemma Row7Xor(j: nat) requires j < 16 ensures Row7(j).w == Row0(j).w ^ Row7(0).w {}
  lemma Row8Xor(j: nat) requires j < 16 ensures Row8(j).w == Row0(j).w ^ Row8(0).w {}
  lemma Row9Xor(j: nat) requires j < 16 ensures Row9(j).w == Row0(j).w ^ Row9(0).w {}
  lemma RowAXor(j: nat) requires j < 16 ensures RowA(j).w == Row0(j).w ^ RowA(0).w {}
  lemma RowBXor(j: nat) requires j < 16 ensures RowB(j).w == Row0(j).w ^ RowB(0).w {}
  lemma RowCXor(j: nat) requires j < 16 ensures RowC(j).w == Row0(j).w ^ RowC(0).w {}
  lemma RowDXor(j: nat) requires j < 16 ensures RowD(j).w == Row0(j).w ^ RowD(0).w {}
  lemma RowEXor(j: nat) requires j < 16 ensures RowE(j).w == Row0(j).w ^ RowE(0).w {}
  lemma RowFXor(j: nat) requires j < 16 ensures RowF(j).w == Row0(j).w ^ RowF(0).w {}

  lemma EntryXor(k: nat, j: nat)
    requires k < 16 && j < 16
    ensures Entry(k, j).w == Entry(0, j).w ^ Entry(k, 0).w
  {
    match k
    case 0 =>  case 1 => Row1Xor(j); case 2 => Row2Xor(j); case 3 => Row3Xor(j);
    case 4 => Row4Xor(j); case 5 => Row5Xor(j); case 6 => Row6Xor(j); case 7 => Row7Xor(j);
    case 8 => Row8Xor(j); case 9 => Row9Xor(j); case 10 => RowAXor(j); case 11 => RowBXor(j);
    case 12 => RowCXor(j); case 13 => RowDXor(j); case 14 => RowEXor(j); case _ => RowFXor(j);
  }

  lemma TableSplit(n: nat, m: nat, k: nat, j: nat)
    requires n < 256 && m < 256 && k < 16 && j < 16
    requires n / 16 == k && n % 16 == j && m / 16 == k && m % 16 == 0
    ensures Table(n) == Table(j) ^ Table(m)
  {
    EntryXor(k, j);
  }

  lemma TablePowers()
    ensures Table(0) == 0
    ensures Table(1) == 0x01864CFB
    ensures Table(2) == 0x028AD50D
    ensures Table(4) == 0x0493E6E1
    ensures Table(8) == 0x08A18139
    ensures Table(16) == 0x10C54E89
    ensures Table(32) == 0x200CD1E9
    ensures Table(64) == 0x4019A3D2
    ensures Table(128) == 0x803347A4
  {
  }

  lemma Row0Sum(p: nat, q: nat)
    requires p in {2, 4, 8} && q < p
    ensures Row0(p + q).w == Row0(q).w ^ Row0(p).w
  {
  }

  lemma Column0Sum(p: nat, q: nat)
    requires p in {2, 4, 8} && q < p
    ensures Entry(p + q, 0).w == Entry(q, 0).w ^ Entry(p, 0).w
  {
  }

  lemma FirstRow(n: nat)
    requires n < 16
    ensures Table(n) == Row0(n).w
  {
  }

  lemma LowSum(p: nat, q: nat)
    requires p in {2, 4, 8} && q < p
    ensures Table(p + q) == Table(q) ^ Table(p)
  {
    FirstRow(p);
    FirstRow(q);
    FirstRow(p + q);
    Row0Sum(p, q);
  }

  lemma HighSplit(n: nat, m: nat, l: nat, p: nat, q: nat)
    requires p in {2, 4, 8} && q < p && n < 256 && m < 256 && l < 256
    requires n / 16 == p + q && n % 16 == 0 && m / 16 == p && m % 16 == 0 && l / 16 == q && l % 16 == 0
    ensures Table(n) == Table(l) ^ Table(m)
  {
    Column0Sum(p, q);
  }

  lemma HighSum(p: nat, q: nat)
    requires p in {2, 4, 8} && q < p
    ensures Table(16 * (p + q)) == Table(16 * q) ^ Table(16 * p)
  {
    HighSplit(16 * (p + q), 16 * p, 16 * q, p, q);
  }

  const CRCPOLY: bv32 := 0x1864CFB

  /** The table generator takes the generator off again when doubling brings out x^24. */
  function Reduced(w: bv32): bv32 {
    if w & 0x1000000 != 0 then w ^ CRCPOLY else w
  }

  const CRC24: Algebra<bv32> :=
    Algebra(0, CRCPOLY, (h: bv32) => Reduced(h << 1), (v: bv32, w: bv32) => v ^ w)

  /** The table in memory. */
  const CRC24Q: seq<bv32> := seq(256, n requires 0 <= n < 256 => Table(n))

  lemma LiteralSplit(k: nat, j: nat)
    requires k < 16 && j < 16
    ensures SplitAt(CRC24, CRC24Q, k, j)
  {
    TableSplit(16 * k + j, 16 * k, k, j);
  }

  lemma LiteralLow(p: nat, q: nat)
    requires p in {2, 4, 8} && q < p
    ensures SumAt(CRC24, CRC24Q, p, q)
  {
    LowSum(p, q);
  }

  lemma LiteralHigh(p: nat, q: nat)
    requires p in {1, 2, 4, 8} && q < p
    ensures HighAt(CRC24, CRC24Q, p, q)
  {
    TablePowers();
    if p > 1 {
      HighSum(p, q);
    }
  }

  lemma XorAssociates(x: bv32, y: bv32, z: bv32)
    ensures CRC24.plus(x, CRC24.plus(y, z)) == CRC24.plus(CRC24.plus(x, y), z)
  {
  }

  lemma LiteralHighSum(r: nat, k: nat, j: nat)
    requires r in {1, 2, 4, 8} && k < r && j < 16
    ensures SumAt(CRC24, CRC24Q, 16 * r, 16 * k + j)
  {
    LiteralSplit(r + k, j);
    LiteralSplit(k, j);
    LiteralHigh(r, k);
    XorAssociates(CRC24Q[j], CRC24Q[16 * k], CRC24Q[16 * r]);
    SumFromNibbles(CRC24, CRC24Q, r, k, j);
  }

  /** Every entry is the sum of the entries of its index's bits. */
  lemma LiteralSum(p: nat, q: nat)
    requires p in POWERS && 1 < p && q < p
    ensures SumAt(CRC24, CRC24Q, p, q)
  {
    if p < 16 {
      LiteralLow(p, q);
    } else {
      LiteralHighSum(p / 16, q / 16, q % 16);
    }
  }

  lemma LiteralDouble(p: nat)
    requires p in POWERS && p < 128
    ensures DoubleAt(CRC24, CRC24Q, p)
  {
    TablePowers();
  }

  /** The literal table is the one the table generator builds. */
  lemma LiteralIsTable()
    ensures IsTable(CRC24, CRC24Q)
  {
    TablePowers();
    forall p | p in POWERS && 2 * p < 256
      ensures DoubleAt(CRC24, CRC24Q, p)
    {
      LiteralDouble(p);
    }
    forall p, q | p in POWERS && 1 < p < 256 && 0 <= q < p
      ensures SumAt(CRC24, CRC24Q, p, q)
    {
      LiteralSum(p, q);
    }
  }

  lemma LiteralIsUnique(t: seq<bv32>)
    requires IsTable(CRC24, t)
    ensures t == CRC24Q
  {
    LiteralIsTable();
    TableIsUnique(CRC24, t, CRC24Q);
  }

  lemma XorZero(h: bv32)
    ensures CRC24.plus(CRC24.zero, h) == h
  {
  }

  ghost predicate IsShifted(s: seq<bv32>, t: seq<bv32>, i: nat, h: bv32) {
    && |t| == |s| && 2 * i <= |s|
    && forall k :: 0 <= k < i ==> t[k] == s[k] && t[i + k] == s[k] ^ h
  }

  /** The inner loop of crc_init. */
  method Extend(table: array<bv32>, i: nat, h: bv32)
    requires 2 * i <= table.Length
    modifies table
    ensures IsShifted(old(table[..]), table[..], i, h)
  {
    var j := 0;
    while j < i
      invariant 0 <= j <= i
      invariant forall k :: 0 <= k < i ==> table[k] == old(table[k])
      invariant forall k :: 0 <= k < j ==> table[i + k] == old(table[k]) ^ h
    {
      table[i + j] := table[j] ^ h;
      j := j + 1;
    }
  }

  lemma BuiltFurther(s: seq<bv32>, t: seq<bv32>, i: nat, g: bv32, h: bv32)
    requires IsPrefix(CRC24, s, i) && i in POWERS && 1 < i && s[i / 2] == g && h == CRC24.twice(g)
    requires IsShifted(s, t, i, h)
    ensures IsPrefix(CRC24, t, 2 * i) && t[i] == h && 2 * i in POWERS + {256}
  {
    XorZero(h);
    assert IsExtension(CRC24, s, t, i, h);
    PrefixStep(CRC24, s, t, i, h);
  }

  /** One pass of the outer loop of crc_init. */
  method Round(table: array<bv32>, i: nat, h: bv32) returns (h': bv32)
    requires IsPrefix(CRC24, table[..], i) && i in POWERS && 1 < i && table[..][i / 2] == h
    modifies table
    ensures IsPrefix(CRC24, table[..], 2 * i) && table[..][i] == h'
  {
    h' := Reduced(h << 1);
    assert h' == CRC24.twice(h);
    ghost var s := table[..];
    Extend(table, i, h');
    BuiltFurther(s, table[..], i, h, h');
  }

  lemma Started(t: seq<bv32>)
    requires |t| == 256 && t[0] == 0 && t[1] == CRCPOLY
    ensures IsPrefix(CRC24, t, 2)
  {
  }

  /** crc_init rebuilds exactly the literal table. */
  method CrcInit(table: array<bv32>)
    requires table.Length == 256
    modifies table
    ensures table[..] == CRC24Q
  {
    var h := CRCPOLY;
    table[0] := 0;
    table[1] := h;
    ghost var t := table[..];
    Started(t);
    var i := 2;
    while i < 256
      invariant t == table[..] && IsPrefix(CRC24, t, i)
      invariant i == 256 || (i in POWERS && 1 < i && t[i / 2] == h)
      decreases 256 - i
    {
      h := Round(table, i, h);
      t := table[..];
      i := i * 2;
    }
    LiteralIsUnique(t);
  }
}
