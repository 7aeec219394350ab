/** The four Huffman tables that the JPEG writer has as literals: every symbol has the canonical code of the list that is
    printed for the decoder (section K.3 of ITU-T T.81). */
module JpegTables {
  import opened Basics

  /** An entry of a table that is written in rows of sixteen; rows may end early. */
  predicate At(rows: seq<seq<nat>>, i: nat, v: nat)
  {
    i / 16 < |rows| && i % 16 < |rows[i / 16]| && rows[i / 16][i % 16] == v
  }

  /** The lengths n and n + 1: what comes first with n + 1 bits follows from the counts. */
  predicate Follows(counts: seq<nat>, firsts: seq<nat>, starts: seq<nat>, n: nat)
  {
    1 <= n < 16 == |counts| == |firsts| == |starts| &&
    firsts[n] == firsts[n - 1] + counts[n - 1] && starts[n] == 2 * (starts[n - 1] + counts[n - 1])
  }

  /** A table: how many codes there are of each length, the place of the first one in the order of the codes and that code,
      the symbols in that order, and for each symbol its code and its length. */
  datatype Table = Table(counts: seq<nat>, firsts: seq<nat>, starts: seq<nat>, symbols: seq<seq<Byte>>, codes: seq<seq<nat>>,
                         sizes: seq<seq<nat>>)

  /** The code c of n bits belongs to place s. */
  predicate InLevel(counts: seq<nat>, firsts: seq<nat>, starts: seq<nat>, s: nat, c: nat, n: nat)
  {
    1 <= n <= 16 == |counts| == |firsts| == |starts| &&
    starts[n - 1] <= c < starts[n - 1] + counts[n - 1] && s == firsts[n - 1] + (c - starts[n - 1])
  }

  // ---------- brightness, first coefficients ----------

  const LUM_DC_COUNTS: seq<nat> := [0, 1, 5, 1, 1, 1, 1, 1, 1, 0, 0, 0, 0, 0, 0, 0]
  const LUM_DC_FIRSTS: seq<nat> := [0, 0, 1, 6, 7, 8, 9, 10, 11, 12, 12, 12, 12, 12, 12, 12]
  const LUM_DC_STARTS: seq<nat> := [0, 0, 2, 14, 30, 62, 126, 254, 510, 1022, 2044, 4088, 8176, 16352, 32704, 65408]

  const LUM_DC_SYMBOLS: seq<seq<Byte>> := [
    [0x00, 0x01, 0x02, 0x03, 0x04, 0x05, 0x06, 0x07, 0x08, 0x09, 0x0a, 0x0b]]

  const LUM_DC_CODES: seq<seq<nat>> := [
    [0, 2, 3, 4, 5, 6, 14, 30, 62, 126, 254, 510]]

  const LUM_DC_SIZES: seq<seq<nat>> := [
    [2, 3, 3, 3, 3, 3, 4, 5, 6, 7, 8, 9]]

  const LUM_DC := Table(LUM_DC_COUNTS, LUM_DC_FIRSTS, LUM_DC_STARTS, LUM_DC_SYMBOLS, LUM_DC_CODES, LUM_DC_SIZES)

  predicate LumDcFollows(n: nat)
  {
    Follows(LUM_DC_COUNTS, LUM_DC_FIRSTS, LUM_DC_STARTS, n)
  }

  lemma LumDcLowLevels()
    ensures LumDcFollows(1) && LumDcFollows(2) && LumDcFollows(3) && LumDcFollows(4) && LumDcFollows(5)
  {
  }

  lemma LumDcMiddleLevels()
    ensures LumDcFollows(6) && LumDcFollows(7) && LumDcFollows(8) && LumDcFollows(9) && LumDcFollows(10)
  {
  }

  lemma LumDcHighLevels()
    ensures LumDcFollows(11) && LumDcFollows(12) && LumDcFollows(13) && LumDcFollows(14) && LumDcFollows(15)
  {
  }

  lemma LumDcEndLevels()
    ensures LUM_DC_FIRSTS[0] == LUM_DC_STARTS[0] == 0 && LUM_DC_STARTS[15] + LUM_DC_COUNTS[15] <= 0x1_0000
    ensures LUM_DC_FIRSTS[15] + LUM_DC_COUNTS[15] < 256
  {
  }

  lemma LumDcLevels()
    ensures forall n :: 1 <= n < 16 ==> LumDcFollows(n)
  {
    hide LumDcFollows;
    LumDcLowLevels();
    LumDcMiddleLevels();
    LumDcHighLevels();
  }

  predicate LumDcSits(s: nat, rs: nat, c: nat, n: nat)
  {
    At(LUM_DC_SYMBOLS, s, rs) && At(LUM_DC_CODES, rs, c) && At(LUM_DC_SIZES, rs, n) &&
    InLevel(LUM_DC_COUNTS, LUM_DC_FIRSTS, LUM_DC_STARTS, s, c, n)
  }

  ghost predicate LumDcHas(rs: nat)
  {
    exists s, c, n :: LumDcSits(s, rs, c, n)
  }

  lemma LumDcSmall()
    ensures LumDcSits(0, 0, 0, 2) && LumDcSits(1, 1, 2, 3) && LumDcSits(2, 2, 3, 3)
    ensures LumDcSits(3, 3, 4, 3) && LumDcSits(4, 4, 5, 3) && LumDcSits(5, 5, 6, 3)
  {
  }

  lemma LumDcLarge()
    ensures LumDcSits(6, 6, 14, 4) && LumDcSits(7, 7, 30, 5) && LumDcSits(8, 8, 62, 6)
    ensures LumDcSits(9, 9, 126, 7) && LumDcSits(10, 10, 254, 8) && LumDcSits(11, 11, 510, 9)
  {
  }

  lemma LumDcAll()
    ensures forall size :: 0 <= size <= 11 ==> LumDcHas(size)
  {
    hide LumDcSits;
    LumDcSmall();
    LumDcLarge();
  }

  // ---------- brightness, other coefficients ----------

  const LUM_AC_COUNTS: seq<nat> := [0, 2, 1, 3, 3, 2, 4, 3, 5, 5, 4, 4, 0, 0, 1, 125]
  const LUM_AC_FIRSTS: seq<nat> := [0, 0, 2, 3, 6, 9, 11, 15, 18, 23, 28, 32, 36, 36, 36, 37]
  const LUM_AC_STARTS: seq<nat> := [0, 0, 4, 10, 26, 58, 120, 248, 502, 1014, 2038, 4084, 8176, 16352, 32704, 65410]

  const LUM_AC_SYMBOLS: seq<seq<Byte>> := [
    [0x01, 0x02, 0x03, 0x00, 0x04, 0x11, 0x05, 0x12, 0x21, 0x31, 0x41, 0x06, 0x13, 0x51, 0x61, 0x07],
    [0x22, 0x71, 0x14, 0x32, 0x81, 0x91, 0xa1, 0x08, 0x23, 0x42, 0xb1, 0xc1, 0x15, 0x52, 0xd1, 0xf0],
    [0x24, 0x33, 0x62, 0x72, 0x82, 0x09, 0x0a, 0x16, 0x17, 0x18, 0x19, 0x1a, 0x25, 0x26, 0x27, 0x28],
    [0x29, 0x2a, 0x34, 0x35, 0x36, 0x37, 0x38, 0x39, 0x3a, 0x43, 0x44, 0x45, 0x46, 0x47, 0x48, 0x49],
    [0x4a, 0x53, 0x54, 0x55, 0x56, 0x57, 0x58, 0x59, 0x5a, 0x63, 0x64, 0x65, 0x66, 0x67, 0x68, 0x69],
    [0x6a, 0x73, 0x74, 0x75, 0x76, 0x77, 0x78, 0x79, 0x7a, 0x83, 0x84, 0x85, 0x86, 0x87, 0x88, 0x89],
    [0x8a, 0x92, 0x93, 0x94, 0x95, 0x96, 0x97, 0x98, 0x99, 0x9a, 0xa2, 0xa3, 0xa4, 0xa5, 0xa6, 0xa7],
    [0xa8, 0xa9, 0xaa, 0xb2, 0xb3, 0xb4, 0xb5, 0xb6, 0xb7, 0xb8, 0xb9, 0xba, 0xc2, 0xc3, 0xc4, 0xc5],
    [0xc6, 0xc7, 0xc8, 0xc9, 0xca, 0xd2, 0xd3, 0xd4, 0xd5, 0xd6, 0xd7, 0xd8, 0xd9, 0xda, 0xe1, 0xe2],
    [0xe3, 0xe4, 0xe5, 0xe6, 0xe7, 0xe8, 0xe9, 0xea, 0xf1, 0xf2, 0xf3, 0xf4, 0xf5, 0xf6, 0xf7, 0xf8],
    [0xf9, 0xfa]]

  const LUM_AC_CODES: seq<seq<nat>> := [
    [10, 0, 1, 4, 11, 26, 120, 248, 1014, 65410, 65411],
    [0, 12, 27, 121, 502, 2038, 65412, 65413, 65414, 65415, 65416],
    [0, 28, 249, 1015, 4084, 65417, 65418, 65419, 65420, 65421, 65422],
    [0, 58, 503, 4085, 65423, 65424, 65425, 65426, 65427, 65428, 65429],
    [0, 59, 1016, 65430, 65431, 65432, 65433, 65434, 65435, 65436, 65437],
    [0, 122, 2039, 65438, 65439, 65440, 65441, 65442, 65443, 65444, 65445],
    [0, 123, 4086, 65446, 65447, 65448, 65449, 65450, 65451, 65452, 65453],
    [0, 250, 4087, 65454, 65455, 65456, 65457, 65458, 65459, 65460, 65461],
    [0, 504, 32704, 65462, 65463, 65464, 65465, 65466, 65467, 65468, 65469],
    [0, 505, 65470, 65471, 65472, 65473, 65474, 65475, 65476, 65477, 65478],
    [0, 506, 65479, 65480, 65481, 65482, 65483, 65484, 65485, 65486, 65487],
    [0, 1017, 65488, 65489, 65490, 65491, 65492, 65493, 65494, 65495, 65496],
    [0, 1018, 65497, 65498, 65499, 65500, 65501, 65502, 65503, 65504, 65505],
    [0, 2040, 65506, 65507, 65508, 65509, 65510, 65511, 65512, 65513, 65514],
    [0, 65515, 65516, 65517, 65518, 65519, 65520, 65521, 65522, 65523, 65524],
    [2041, 65525, 65526, 65527, 65528, 65529, 65530, 65531, 65532, 65533, 65534]]

  const LUM_AC_SIZES: seq<seq<nat>> := [
    [4, 2, 2, 3, 4, 5, 7, 8, 10, 16, 16],
    [0, 4, 5, 7, 9, 11, 16, 16, 16, 16, 16],
    [0, 5, 8, 10, 12, 16, 16, 16, 16, 16, 16],
    [0, 6, 9, 12, 16, 16, 16, 16, 16, 16, 16],
    [0, 6, 10, 16, 16, 16, 16, 16, 16, 16, 16],
    [0, 7, 11, 16, 16, 16, 16, 16, 16, 16, 16],
    [0, 7, 12, 16, 16, 16, 16, 16, 16, 16, 16],
    [0, 8, 12, 16, 16, 16, 16, 16, 16, 16, 16],
    [0, 9, 15, 16, 16, 16, 16, 16, 16, 16, 16],
    [0, 9, 16, 16, 16, 16, 16, 16, 16, 16, 16],
    [0, 9, 16, 16, 16, 16, 16, 16, 16, 16, 16],
    [0, 10, 16, 16, 16, 16, 16, 16, 16, 16, 16],
    [0, 10, 16, 16, 16, 16, 16, 16, 16, 16, 16],
    [0, 11, 16, 16, 16, 16, 16, 16, 16, 16, 16],
    [0, 16, 16, 16, 16, 16, 16, 16, 16, 16, 16],
    [11, 16, 16, 16, 16, 16, 16, 16, 16, 16, 16]]

  const LUM_AC := Table(LUM_AC_COUNTS, LUM_AC_FIRSTS, LUM_AC_STARTS, LUM_AC_SYMBOLS, LUM_AC_CODES, LUM_AC_SIZES)

  predicate LumAcFollows(n: nat)
  {
    Follows(LUM_AC_COUNTS, LUM_AC_FIRSTS, LUM_AC_STARTS, n)
  }

  lemma LumAcLowLevels()
    ensures LumAcFollows(1) && LumAcFollows(2) && LumAcFollows(3) && LumAcFollows(4) && LumAcFollows(5)
  {
  }

  lemma LumAcMiddleLevels()
    ensures LumAcFollows(6) && LumAcFollows(7) && LumAcFollows(8) && LumAcFollows(9) && LumAcFollows(10)
  {
  }

  lemma LumAcHighLevels()
    ensures LumAcFollows(11) && LumAcFollows(12) && LumAcFollows(13) && LumAcFollows(14) && LumAcFollows(15)
  {
  }

  lemma LumAcEndLevels()
    ensures LUM_AC_FIRSTS[0] == LUM_AC_STARTS[0] == 0 && LUM_AC_STARTS[15] + LUM_AC_COUNTS[15] <= 0x1_0000
    ensures LUM_AC_FIRSTS[15] + LUM_AC_COUNTS[15] < 256
  {
  }

  lemma LumAcLevels()
    ensures forall n :: 1 <= n < 16 ==> LumAcFollows(n)
  {
    hide LumAcFollows;
    LumAcLowLevels();
    LumAcMiddleLevels();
    LumAcHighLevels();
  }

  predicate LumAcSits(s: nat, rs: nat, c: nat, n: nat)
  {
    At(LUM_AC_SYMBOLS, s, rs) && At(LUM_AC_CODES, rs, c) && At(LUM_AC_SIZES, rs, n) &&
    InLevel(LUM_AC_COUNTS, LUM_AC_FIRSTS, LUM_AC_STARTS, s, c, n)
  }

  ghost predicate LumAcHas(rs: nat)
  {
    exists s, c, n :: LumAcSits(s, rs, c, n)
  }

  lemma LumAcEnds()
    ensures LumAcSits(3, 0x00, 10, 4) && LumAcSits(31, 0xf0, 2041, 11)
  {
  }

  lemma LumAcRun0()
    ensures LumAcSits(0, 0x01, 0, 2) && LumAcSits(1, 0x02, 1, 2) && LumAcSits(2, 0x03, 4, 3)
    ensures LumAcSits(4, 0x04, 11, 4) && LumAcSits(6, 0x05, 26, 5) && LumAcSits(11, 0x06, 120, 7)
    ensures LumAcSits(15, 0x07, 248, 8) && LumAcSits(23, 0x08, 1014, 10) && LumAcSits(37, 0x09, 65410, 16)
    ensures LumAcSits(38, 0x0a, 65411, 16)
  {
  }

  lemma LumAcRun1()
    ensures LumAcSits(5, 0x11, 12, 4) && LumAcSits(7, 0x12, 27, 5) && LumAcSits(12, 0x13, 121, 7)
    ensures LumAcSits(18, 0x14, 502, 9) && LumAcSits(28, 0x15, 2038, 11) && LumAcSits(39, 0x16, 65412, 16)
    ensures LumAcSits(40, 0x17, 65413, 16) && LumAcSits(41, 0x18, 65414, 16) && LumAcSits(42, 0x19, 65415, 16)
    ensures LumAcSits(43, 0x1a, 65416, 16)
  {
  }

  lemma LumAcRun2()
    ensures LumAcSits(8, 0x21, 28, 5) && LumAcSits(16, 0x22, 249, 8) && LumAcSits(24, 0x23, 1015, 10)
    ensures LumAcSits(32, 0x24, 4084, 12) && LumAcSits(44, 0x25, 65417, 16) && LumAcSits(45, 0x26, 65418, 16)
    ensures LumAcSits(46, 0x27, 65419, 16) && LumAcSits(47, 0x28, 65420, 16) && LumAcSits(48, 0x29, 65421, 16)
    ensures LumAcSits(49, 0x2a, 65422, 16)
  {
  }

  lemma LumAcRun3()
    ensures LumAcSits(9, 0x31, 58, 6) && LumAcSits(19, 0x32, 503, 9) && LumAcSits(33, 0x33, 4085, 12)
    ensures LumAcSits(50, 0x34, 65423, 16) && LumAcSits(51, 0x35, 65424, 16) && LumAcSits(52, 0x36, 65425, 16)
    ensures LumAcSits(53, 0x37, 65426, 16) && LumAcSits(54, 0x38, 65427, 16) && LumAcSits(55, 0x39, 65428, 16)
    ensures LumAcSits(56, 0x3a, 65429, 16)
  {
  }

  lemma LumAcRun4()
    ensures LumAcSits(10, 0x41, 59, 6) && LumAcSits(25, 0x42, 1016, 10) && LumAcSits(57, 0x43, 65430, 16)
    ensures LumAcSits(58, 0x44, 65431, 16) && LumAcSits(59, 0x45, 65432, 16) && LumAcSits(60, 0x46, 65433, 16)
    ensures LumAcSits(61, 0x47, 65434, 16) && LumAcSits(62, 0x48, 65435, 16) && LumAcSits(63, 0x49, 65436, 16)
    ensures LumAcSits(64, 0x4a, 65437, 16)
  {
  }

  lemma LumAcRun5()
    ensures LumAcSits(13, 0x51, 122, 7) && LumAcSits(29, 0x52, 2039, 11) && LumAcSits(65, 0x53, 65438, 16)
    ensures LumAcSits(66, 0x54, 65439, 16) && LumAcSits(67, 0x55, 65440, 16) && LumAcSits(68, 0x56, 65441, 16)
    ensures LumAcSits(69, 0x57, 65442, 16) && LumAcSits(70, 0x58, 65443, 16) && LumAcSits(71, 0x59, 65444, 16)
    ensures LumAcSits(72, 0x5a, 65445, 16)
  {
  }

  lemma LumAcRun6()
    ensures LumAcSits(14, 0x61, 123, 7) && LumAcSits(34, 0x62, 4086, 12) && LumAcSits(73, 0x63, 65446, 16)
    ensures LumAcSits(74, 0x64, 65447, 16) && LumAcSits(75, 0x65, 65448, 16) && LumAcSits(76, 0x66, 65449, 16)
    ensures LumAcSits(77, 0x67, 65450, 16) && LumAcSits(78, 0x68, 65451, 16) && LumAcSits(79, 0x69, 65452, 16)
    ensures LumAcSits(80, 0x6a, 65453, 16)
  {
  }

  lemma LumAcRun7()
    ensures LumAcSits(17, 0x71, 250, 8) && LumAcSits(35, 0x72, 4087, 12) && LumAcSits(81, 0x73, 65454, 16)
    ensures LumAcSits(82, 0x74, 65455, 16) && LumAcSits(83, 0x75, 65456, 16) && LumAcSits(84, 0x76, 65457, 16)
    ensures LumAcSits(85, 0x77, 65458, 16) && LumAcSits(86, 0x78, 65459, 16) && LumAcSits(87, 0x79, 65460, 16)
    ensures LumAcSits(88, 0x7a, 65461, 16)
  {
  }

  lemma LumAcRun8()
    ensures LumAcSits(20, 0x81, 504, 9) && LumAcSits(36, 0x82, 32704, 15) && LumAcSits(89, 0x83, 65462, 16)
    ensures LumAcSits(90, 0x84, 65463, 16) && LumAcSits(91, 0x85, 65464, 16) && LumAcSits(92, 0x86, 65465, 16)
    ensures LumAcSits(93, 0x87, 65466, 16) && LumAcSits(94, 0x88, 65467, 16) && LumAcSits(95, 0x89, 65468, 16)
    ensures LumAcSits(96, 0x8a, 65469, 16)
  {
  }

  lemma LumAcRun9()
    ensures LumAcSits(21, 0x91, 505, 9) && LumAcSits(97, 0x92, 65470, 16) && LumAcSits(98, 0x93, 65471, 16)
    ensures LumAcSits(99, 0x94, 65472, 16) && LumAcSits(100, 0x95, 65473, 16) && LumAcSits(101, 0x96, 65474, 16)
    ensures LumAcSits(102, 0x97, 65475, 16) && LumAcSits(103, 0x98, 65476, 16) && LumAcSits(104, 0x99, 65477, 16)
    ensures LumAcSits(105, 0x9a, 65478, 16)
  {
  }

  lemma LumAcRun10()
    ensures LumAcSits(22, 0xa1, 506, 9) && LumAcSits(106, 0xa2, 65479, 16) && LumAcSits(107, 0xa3, 65480, 16)
    ensures LumAcSits(108, 0xa4, 65481, 16) && LumAcSits(109, 0xa5, 65482, 16) && LumAcSits(110, 0xa6, 65483, 16)
    ensures LumAcSits(111, 0xa7, 65484, 16) && LumAcSits(112, 0xa8, 65485, 16) && LumAcSits(113, 0xa9, 65486, 16)
    ensures LumAcSits(114, 0xaa, 65487, 16)
  {
  }

  lemma LumAcRun11()
    ensures LumAcSits(26, 0xb1, 1017, 10) && LumAcSits(115, 0xb2, 65488, 16) && LumAcSits(116, 0xb3, 65489, 16)
    ensures LumAcSits(117, 0xb4, 65490, 16) && LumAcSits(118, 0xb5, 65491, 16) && LumAcSits(119, 0xb6, 65492, 16)
    ensures LumAcSits(120, 0xb7, 65493, 16) && LumAcSits(121, 0xb8, 65494, 16) && LumAcSits(122, 0xb9, 65495, 16)
    ensures LumAcSits(123, 0xba, 65496, 16)
  {
  }

  lemma LumAcRun12()
    ensures LumAcSits(27, 0xc1, 1018, 10) && LumAcSits(124, 0xc2, 65497, 16) && LumAcSits(125, 0xc3, 65498, 16)
    ensures LumAcSits(126, 0xc4, 65499, 16) && LumAcSits(127, 0xc5, 65500, 16) && LumAcSits(128, 0xc6, 65501, 16)
    ensures LumAcSits(129, 0xc7, 65502, 16) && LumAcSits(130, 0xc8, 65503, 16) && LumAcSits(131, 0xc9, 65504, 16)
    ensures LumAcSits(132, 0xca, 65505, 16)
  {
  }

  lemma LumAcRun13()
    ensures LumAcSits(30, 0xd1, 2040, 11) && LumAcSits(133, 0xd2, 65506, 16) && LumAcSits(134, 0xd3, 65507, 16)
    ensures LumAcSits(135, 0xd4, 65508, 16) && LumAcSits(136, 0xd5, 65509, 16) && LumAcSits(137, 0xd6, 65510, 16)
    ensures LumAcSits(138, 0xd7, 65511, 16) && LumAcSits(139, 0xd8, 65512, 16) && LumAcSits(140, 0xd9, 65513, 16)
    ensures LumAcSits(141, 0xda, 65514, 16)
  {
  }

  lemma LumAcRun14()
    ensures LumAcSits(142, 0xe1, 65515, 16) && LumAcSits(143, 0xe2, 65516, 16) && LumAcSits(144, 0xe3, 65517, 16)
    ensures LumAcSits(145, 0xe4, 65518, 16) && LumAcSits(146, 0xe5, 65519, 16) && LumAcSits(147, 0xe6, 65520, 16)
    ensures LumAcSits(148, 0xe7, 65521, 16) && LumAcSits(149, 0xe8, 65522, 16) && LumAcSits(150, 0xe9, 65523, 16)
    ensures LumAcSits(151, 0xea, 65524, 16)
  {
  }

  lemma LumAcRun15()
    ensures LumAcSits(152, 0xf1, 65525, 16) && LumAcSits(153, 0xf2, 65526, 16) && LumAcSits(154, 0xf3, 65527, 16)
    ensures LumAcSits(155, 0xf4, 65528, 16) && LumAcSits(156, 0xf5, 65529, 16) && LumAcSits(157, 0xf6, 65530, 16)
    ensures LumAcSits(158, 0xf7, 65531, 16) && LumAcSits(159, 0xf8, 65532, 16) && LumAcSits(160, 0xf9, 65533, 16)
    ensures LumAcSits(161, 0xfa, 65534, 16)
  {
  }

  lemma LumAcQuarter0()
    ensures forall rs :: 0x00 <= rs < 0x40 && (rs % 16 == 0 ==> rs == 0 || rs == 0xf0) && rs % 16 <= 10 ==> LumAcHas(rs)
  {
    hide LumAcSits;
    LumAcEnds(); LumAcRun0(); LumAcRun1(); LumAcRun2(); LumAcRun3();
  }

  lemma LumAcQuarter1()
    ensures forall rs :: 0x40 <= rs < 0x80 && (rs % 16 == 0 ==> rs == 0 || rs == 0xf0) && rs % 16 <= 10 ==> LumAcHas(rs)
  {
    hide LumAcSits;
    LumAcEnds(); LumAcRun4(); LumAcRun5(); LumAcRun6(); LumAcRun7();
  }

  lemma LumAcQuarter2()
    ensures forall rs :: 0x80 <= rs < 0xc0 && (rs % 16 == 0 ==> rs == 0 || rs == 0xf0) && rs % 16 <= 10 ==> LumAcHas(rs)
  {
    hide LumAcSits;
    LumAcEnds(); LumAcRun8(); LumAcRun9(); LumAcRun10(); LumAcRun11();
  }

  lemma LumAcQuarter3()
    ensures forall rs :: 0xc0 <= rs < 0x100 && (rs % 16 == 0 ==> rs == 0 || rs == 0xf0) && rs % 16 <= 10 ==> LumAcHas(rs)
  {
    hide LumAcSits;
    LumAcEnds(); LumAcRun12(); LumAcRun13(); LumAcRun14(); LumAcRun15();
  }

  lemma LumAcAll()
    ensures forall rs :: 0 <= rs < 256 && (rs % 16 == 0 ==> rs == 0 || rs == 0xf0) && rs % 16 <= 10 ==> LumAcHas(rs)
  {
    hide LumAcHas;
    LumAcQuarter0(); LumAcQuarter1(); LumAcQuarter2(); LumAcQuarter3();
  }

  // ---------- colour, first coefficients ----------

  const CHROM_DC_COUNTS: seq<nat> := [0, 3, 1, 1, 1, 1, 1, 1, 1, 1, 1, 0, 0, 0, 0, 0]
  const CHROM_DC_FIRSTS: seq<nat> := [0, 0, 3, 4, 5, 6, 7, 8, 9, 10, 11, 12, 12, 12, 12, 12]
  const CHROM_DC_STARTS: seq<nat> := [0, 0, 6, 14, 30, 62, 126, 254, 510, 1022, 2046, 4094, 8188, 16376, 32752, 65504]

  const CHROM_DC_SYMBOLS: seq<seq<Byte>> := [
    [0x00, 0x01, 0x02, 0x03, 0x04, 0x05, 0x06, 0x07, 0x08, 0x09, 0x0a, 0x0b]]

  const CHROM_DC_CODES: seq<seq<nat>> := [
    [0, 1, 2, 6, 14, 30, 62, 126, 254, 510, 1022, 2046]]

  const CHROM_DC_SIZES: seq<seq<nat>> := [
    [2, 2, 2, 3, 4, 5, 6, 7, 8, 9, 10, 11]]

  const CHROM_DC := Table(CHROM_DC_COUNTS, CHROM_DC_FIRSTS, CHROM_DC_STARTS, CHROM_DC_SYMBOLS, CHROM_DC_CODES, CHROM_DC_SIZES)

  predicate ChromDcFollows(n: nat)
  {
    Follows(CHROM_DC_COUNTS, CHROM_DC_FIRSTS, CHROM_DC_STARTS, n)
  }

  lemma ChromDcLowLevels()
    ensures ChromDcFollows(1) && ChromDcFollows(2) && ChromDcFollows(3) && ChromDcFollows(4) && ChromDcFollows(5)
  {
  }

  lemma ChromDcMiddleLevels()
    ensures ChromDcFollows(6) && ChromDcFollows(7) && ChromDcFollows(8) && ChromDcFollows(9) && ChromDcFollows(10)
  {
  }

  lemma ChromDcHighLevels()
    ensures ChromDcFollows(11) && ChromDcFollows(12) && ChromDcFollows(13) && ChromDcFollows(14) && ChromDcFollows(15)
  {
  }

  lemma ChromDcEndLevels()
    ensures CHROM_DC_FIRSTS[0] == CHROM_DC_STARTS[0] == 0 && CHROM_DC_STARTS[15] + CHROM_DC_COUNTS[15] <= 0x1_0000
    ensures CHROM_DC_FIRSTS[15] + CHROM_DC_COUNTS[15] < 256
  {
  }

  lemma ChromDcLevels()
    ensures forall n :: 1 <= n < 16 ==> ChromDcFollows(n)
  {
    hide ChromDcFollows;
    ChromDcLowLevels();
    ChromDcMiddleLevels();
    ChromDcHighLevels();
  }

  predicate ChromDcSits(s: nat, rs: nat, c: nat, n: nat)
  {
    At(CHROM_DC_SYMBOLS, s, rs) && At(CHROM_DC_CODES, rs, c) && At(CHROM_DC_SIZES, rs, n) &&
    InLevel(CHROM_DC_COUNTS, CHROM_DC_FIRSTS, CHROM_DC_STARTS, s, c, n)
  }

  ghost predicate ChromDcHas(rs: nat)
  {
    exists s, c, n :: ChromDcSits(s, rs, c, n)
  }

  lemma ChromDcSmall()
    ensures ChromDcSits(0, 0, 0, 2) && ChromDcSits(1, 1, 1, 2) && ChromDcSits(2, 2, 2, 2)
    ensures ChromDcSits(3, 3, 6, 3) && ChromDcSits(4, 4, 14, 4) && ChromDcSits(5, 5, 30, 5)
  {
  }

  lemma ChromDcLarge()
    ensures ChromDcSits(6, 6, 62, 6) && ChromDcSits(7, 7, 126, 7) && ChromDcSits(8, 8, 254, 8)
    ensures ChromDcSits(9, 9, 510, 9) && ChromDcSits(10, 10, 1022, 10) && ChromDcSits(11, 11, 2046, 11)
  {
  }

  lemma ChromDcAll()
    ensures forall size :: 0 <= size <= 11 ==> ChromDcHas(size)
  {
    hide ChromDcSits;
    ChromDcSmall();
    ChromDcLarge();
  }

  // ---------- colour, other coefficients ----------

  const CHROM_AC_COUNTS: seq<nat> := [0, 2, 1, 2, 4, 4, 3, 4, 7, 5, 4, 4, 0, 1, 2, 119]
  const CHROM_AC_FIRSTS: seq<nat> := [0, 0, 2, 3, 5, 9, 13, 16, 20, 27, 32, 36, 40, 40, 41, 43]
  const CHROM_AC_STARTS: seq<nat> := [0, 0, 4, 10, 24, 56, 120, 246, 500, 1014, 2038, 4084, 8176, 16352, 32706, 65416]

  const CHROM_AC_SYMBOLS: seq<seq<Byte>> := [
    [0x00, 0x01, 0x02, 0x03, 0x11, 0x04, 0x05, 0x21, 0x31, 0x06, 0x12, 0x41, 0x51, 0x07, 0x61, 0x71],
    [0x13, 0x22, 0x32, 0x81, 0x08, 0x14, 0x42, 0x91, 0xa1, 0xb1, 0xc1, 0x09, 0x23, 0x33, 0x52, 0xf0],
    [0x15, 0x62, 0x72, 0xd1, 0x0a, 0x16, 0x24, 0x34, 0xe1, 0x25, 0xf1, 0x17, 0x18, 0x19, 0x1a, 0x26],
    [0x27, 0x28, 0x29, 0x2a, 0x35, 0x36, 0x37, 0x38, 0x39, 0x3a, 0x43, 0x44, 0x45, 0x46, 0x47, 0x48],
    [0x49, 0x4a, 0x53, 0x54, 0x55, 0x56, 0x57, 0x58, 0x59, 0x5a, 0x63, 0x64, 0x65, 0x66, 0x67, 0x68],
    [0x69, 0x6a, 0x73, 0x74, 0x75, 0x76, 0x77, 0x78, 0x79, 0x7a, 0x82, 0x83, 0x84, 0x85, 0x86, 0x87],
    [0x88, 0x89, 0x8a, 0x92, 0x93, 0x94, 0x95, 0x96, 0x97, 0x98, 0x99, 0x9a, 0xa2, 0xa3, 0xa4, 0xa5],
    [0xa6, 0xa7, 0xa8, 0xa9, 0xaa, 0xb2, 0xb3, 0xb4, 0xb5, 0xb6, 0xb7, 0xb8, 0xb9, 0xba, 0xc2, 0xc3],
    [0xc4, 0xc5, 0xc6, 0xc7, 0xc8, 0xc9, 0xca, 0xd2, 0xd3, 0xd4, 0xd5, 0xd6, 0xd7, 0xd8, 0xd9, 0xda],
    [0xe2, 0xe3, 0xe4, 0xe5, 0xe6, 0xe7, 0xe8, 0xe9, 0xea, 0xf2, 0xf3, 0xf4, 0xf5, 0xf6, 0xf7, 0xf8],
    [0xf9, 0xfa]]

  const CHROM_AC_CODES: seq<seq<nat>> := [
    [0, 1, 4, 10, 24, 25, 56, 120, 500, 1014, 4084],
    [0, 11, 57, 246, 501, 2038, 4085, 65416, 65417, 65418, 65419],
    [0, 26, 247, 1015, 4086, 32706, 65420, 65421, 65422, 65423, 65424],
    [0, 27, 248, 1016, 4087, 65425, 65426, 65427, 65428, 65429, 65430],
    [0, 58, 502, 65431, 65432, 65433, 65434, 65435, 65436, 65437, 65438],
    [0, 59, 1017, 65439, 65440, 65441, 65442, 65443, 65444, 65445, 65446],
    [0, 121, 2039, 65447, 65448, 65449, 65450, 65451, 65452, 65453, 65454],
    [0, 122, 2040, 65455, 65456, 65457, 65458, 65459, 65460, 65461, 65462],
    [0, 249, 65463, 65464, 65465, 65466, 65467, 65468, 65469, 65470, 65471],
    [0, 503, 65472, 65473, 65474, 65475, 65476, 65477, 65478, 65479, 65480],
    [0, 504, 65481, 65482, 65483, 65484, 65485, 65486, 65487, 65488, 65489],
    [0, 505, 65490, 65491, 65492, 65493, 65494, 65495, 65496, 65497, 65498],
    [0, 506, 65499, 65500, 65501, 65502, 65503, 65504, 65505, 65506, 65507],
    [0, 2041, 65508, 65509, 65510, 65511, 65512, 65513, 65514, 65515, 65516],
    [0, 16352, 65517, 65518, 65519, 65520, 65521, 65522, 65523, 65524, 65525],
    [1018, 32707, 65526, 65527, 65528, 65529, 65530, 65531, 65532, 65533, 65534]]

  const CHROM_AC_SIZES: seq<seq<nat>> := [
    [2, 2, 3, 4, 5, 5, 6, 7, 9, 10, 12],
    [0, 4, 6, 8, 9, 11, 12, 16, 16, 16, 16],
    [0, 5, 8, 10, 12, 15, 16, 16, 16, 16, 16],
    [0, 5, 8, 10, 12, 16, 16, 16, 16, 16, 16],
    [0, 6, 9, 16, 16, 16, 16, 16, 16, 16, 16],
    [0, 6, 10, 16, 16, 16, 16, 16, 16, 16, 16],
    [0, 7, 11, 16, 16, 16, 16, 16, 16, 16, 16],
    [0, 7, 11, 16, 16, 16, 16, 16, 16, 16, 16],
    [0, 8, 16, 16, 16, 16, 16, 16, 16, 16, 16],
    [0, 9, 16, 16, 16, 16, 16, 16, 16, 16, 16],
    [0, 9, 16, 16, 16, 16, 16, 16, 16, 16, 16],
    [0, 9, 16, 16, 16, 16, 16, 16, 16, 16, 16],
    [0, 9, 16, 16, 16, 16, 16, 16, 16, 16, 16],
    [0, 11, 16, 16, 16, 16, 16, 16, 16, 16, 16],
    [0, 14, 16, 16, 16, 16, 16, 16, 16, 16, 16],
    [10, 15, 16, 16, 16, 16, 16, 16, 16, 16, 16]]

  const CHROM_AC := Table(CHROM_AC_COUNTS, CHROM_AC_FIRSTS, CHROM_AC_STARTS, CHROM_AC_SYMBOLS, CHROM_AC_CODES, CHROM_AC_SIZES)

  predicate ChromAcFollows(n: nat)
  {
    Follows(CHROM_AC_COUNTS, CHROM_AC_FIRSTS, CHROM_AC_STARTS, n)
  }

  lemma ChromAcLowLevels()
    ensures ChromAcFollows(1) && ChromAcFollows(2) && ChromAcFollows(3) && ChromAcFollows(4) && ChromAcFollows(5)
  {
  }

  lemma ChromAcMiddleLevels()
    ensures ChromAcFollows(6) && ChromAcFollows(7) && ChromAcFollows(8) && ChromAcFollows(9) && ChromAcFollows(10)
  {
  }

  lemma ChromAcHighLevels()
    ensures ChromAcFollows(11) && ChromAcFollows(12) && ChromAcFollows(13) && ChromAcFollows(14) && ChromAcFollows(15)
  {
  }

  lemma ChromAcEndLevels()
    ensures CHROM_AC_FIRSTS[0] == CHROM_AC_STARTS[0] == 0 && CHROM_AC_STARTS[15] + CHROM_AC_COUNTS[15] <= 0x1_0000
    ensures CHROM_AC_FIRSTS[15] + CHROM_AC_COUNTS[15] < 256
  {
  }

  lemma ChromAcLevels()
    ensures forall n :: 1 <= n < 16 ==> ChromAcFollows(n)
  {
    hide ChromAcFollows;
    ChromAcLowLevels();
    ChromAcMiddleLevels();
    ChromAcHighLevels();
  }

  predicate ChromAcSits(s: nat, rs: nat, c: nat, n: nat)
  {
    At(CHROM_AC_SYMBOLS, s, rs) && At(CHROM_AC_CODES, rs, c) && At(CHROM_AC_SIZES, rs, n) &&
    InLevel(CHROM_AC_COUNTS, CHROM_AC_FIRSTS, CHROM_AC_STARTS, s, c, n)
  }

  ghost predicate ChromAcHas(rs: nat)
  {
    exists s, c, n :: ChromAcSits(s, rs, c, n)
  }

  lemma ChromAcEnds()
    ensures ChromAcSits(0, 0x00, 0, 2) && ChromAcSits(31, 0xf0, 1018, 10)
  {
  }

  lemma ChromAcRun0()
    ensures ChromAcSits(1, 0x01, 1, 2) && ChromAcSits(2, 0x02, 4, 3) && ChromAcSits(3, 0x03, 10, 4)
    ensures ChromAcSits(5, 0x04, 24, 5) && ChromAcSits(6, 0x05, 25, 5) && ChromAcSits(9, 0x06, 56, 6)
    ensures ChromAcSits(13, 0x07, 120, 7) && ChromAcSits(20, 0x08, 500, 9) && ChromAcSits(27, 0x09, 1014, 10)
    ensures ChromAcSits(36, 0x0a, 4084, 12)
  {
  }

  lemma ChromAcRun1()
    ensures ChromAcSits(4, 0x11, 11, 4) && ChromAcSits(10, 0x12, 57, 6) && ChromAcSits(16, 0x13, 246, 8)
    ensures ChromAcSits(21, 0x14, 501, 9) && ChromAcSits(32, 0x15, 2038, 11) && ChromAcSits(37, 0x16, 4085, 12)
    ensures ChromAcSits(43, 0x17, 65416, 16) && ChromAcSits(44, 0x18, 65417, 16) && ChromAcSits(45, 0x19, 65418, 16)
    ensures ChromAcSits(46, 0x1a, 65419, 16)
  {
  }

  lemma ChromAcRun2()
    ensures ChromAcSits(7, 0x21, 26, 5) && ChromAcSits(17, 0x22, 247, 8) && ChromAcSits(28, 0x23, 1015, 10)
    ensures ChromAcSits(38, 0x24, 4086, 12) && ChromAcSits(41, 0x25, 32706, 15) && ChromAcSits(47, 0x26, 65420, 16)
    ensures ChromAcSits(48, 0x27, 65421, 16) && ChromAcSits(49, 0x28, 65422, 16) && ChromAcSits(50, 0x29, 65423, 16)
    ensures ChromAcSits(51, 0x2a, 65424, 16)
  {
  }

  lemma ChromAcRun3()
    ensures ChromAcSits(8, 0x31, 27, 5) && ChromAcSits(18, 0x32, 248, 8) && ChromAcSits(29, 0x33, 1016, 10)
    ensures ChromAcSits(39, 0x34, 4087, 12) && ChromAcSits(52, 0x35, 65425, 16) && ChromAcSits(53, 0x36, 65426, 16)
    ensures ChromAcSits(54, 0x37, 65427, 16) && ChromAcSits(55, 0x38, 65428, 16) && ChromAcSits(56, 0x39, 65429, 16)
    ensures ChromAcSits(57, 0x3a, 65430, 16)
  {
  }

  lemma ChromAcRun4()
    ensures ChromAcSits(11, 0x41, 58, 6) && ChromAcSits(22, 0x42, 502, 9) && ChromAcSits(58, 0x43, 65431, 16)
    ensures ChromAcSits(59, 0x44, 65432, 16) && ChromAcSits(60, 0x45, 65433, 16) && ChromAcSits(61, 0x46, 65434, 16)
    ensures ChromAcSits(62, 0x47, 65435, 16) && ChromAcSits(63, 0x48, 65436, 16) && ChromAcSits(64, 0x49, 65437, 16)
    ensures ChromAcSits(65, 0x4a, 65438, 16)
  {
  }

  lemma ChromAcRun5()
    ensures ChromAcSits(12, 0x51, 59, 6) && ChromAcSits(30, 0x52, 1017, 10) && ChromAcSits(66, 0x53, 65439, 16)
    ensures ChromAcSits(67, 0x54, 65440, 16) && ChromAcSits(68, 0x55, 65441, 16) && ChromAcSits(69, 0x56, 65442, 16)
    ensures ChromAcSits(70, 0x57, 65443, 16) && ChromAcSits(71, 0x58, 65444, 16) && ChromAcSits(72, 0x59, 65445, 16)
    ensures ChromAcSits(73, 0x5a, 65446, 16)
  {
  }

  lemma ChromAcRun6()
    ensures ChromAcSits(14, 0x61, 121, 7) && ChromAcSits(33, 0x62, 2039, 11) && ChromAcSits(74, 0x63, 65447, 16)
    ensures ChromAcSits(75, 0x64, 65448, 16) && ChromAcSits(76, 0x65, 65449, 16) && ChromAcSits(77, 0x66, 65450, 16)
    ensures ChromAcSits(78, 0x67, 65451, 16) && ChromAcSits(79, 0x68, 65452, 16) && ChromAcSits(80, 0x69, 65453, 16)
    ensures ChromAcSits(81, 0x6a, 65454, 16)
  {
  }

  lemma ChromAcRun7()
    ensures ChromAcSits(15, 0x71, 122, 7) && ChromAcSits(34, 0x72, 2040, 11) && ChromAcSits(82, 0x73, 65455, 16)
    ensures ChromAcSits(83, 0x74, 65456, 16) && ChromAcSits(84, 0x75, 65457, 16) && ChromAcSits(85, 0x76, 65458, 16)
    ensures ChromAcSits(86, 0x77, 65459, 16) && ChromAcSits(87, 0x78, 65460, 16) && ChromAcSits(88, 0x79, 65461, 16)
    ensures ChromAcSits(89, 0x7a, 65462, 16)
  {
  }

  lemma ChromAcRun8()
    ensures ChromAcSits(19, 0x81, 249, 8) && ChromAcSits(90, 0x82, 65463, 16) && ChromAcSits(91, 0x83, 65464, 16)
    ensures ChromAcSits(92, 0x84, 65465, 16) && ChromAcSits(93, 0x85, 65466, 16) && ChromAcSits(94, 0x86, 65467, 16)
    ensures ChromAcSits(95, 0x87, 65468, 16) && ChromAcSits(96, 0x88, 65469, 16) && ChromAcSits(97, 0x89, 65470, 16)
    ensures ChromAcSits(98, 0x8a, 65471, 16)
  {
  }

  lemma ChromAcRun9()
    ensures ChromAcSits(23, 0x91, 503, 9) && ChromAcSits(99, 0x92, 65472, 16) && ChromAcSits(100, 0x93, 65473, 16)
    ensures ChromAcSits(101, 0x94, 65474, 16) && ChromAcSits(102, 0x95, 65475, 16) && ChromAcSits(103, 0x96, 65476, 16)
    ensures ChromAcSits(104, 0x97, 65477, 16) && ChromAcSits(105, 0x98, 65478, 16) && ChromAcSits(106, 0x99, 65479, 16)
    ensures ChromAcSits(107, 0x9a, 65480, 16)
  {
  }

  lemma ChromAcRun10()
    ensures ChromAcSits(24, 0xa1, 504, 9) && ChromAcSits(108, 0xa2, 65481, 16) && ChromAcSits(109, 0xa3, 65482, 16)
    ensures ChromAcSits(110, 0xa4, 65483, 16) && ChromAcSits(111, 0xa5, 65484, 16) && ChromAcSits(112, 0xa6, 65485, 16)
    ensures ChromAcSits(113, 0xa7, 65486, 16) && ChromAcSits(114, 0xa8, 65487, 16) && ChromAcSits(115, 0xa9, 65488, 16)
    ensures ChromAcSits(116, 0xaa, 65489, 16)
  {
  }

  lemma ChromAcRun11()
    ensures ChromAcSits(25, 0xb1, 505, 9) && ChromAcSits(117, 0xb2, 65490, 16) && ChromAcSits(118, 0xb3, 65491, 16)
    ensures ChromAcSits(119, 0xb4, 65492, 16) && ChromAcSits(120, 0xb5, 65493, 16) && ChromAcSits(121, 0xb6, 65494, 16)
    ensures ChromAcSits(122, 0xb7, 65495, 16) && ChromAcSits(123, 0xb8, 65496, 16) && ChromAcSits(124, 0xb9, 65497, 16)
    ensures ChromAcSits(125, 0xba, 65498, 16)
  {
  }

  lemma ChromAcRun12()
    ensures ChromAcSits(26, 0xc1, 506, 9) && ChromAcSits(126, 0xc2, 65499, 16) && ChromAcSits(127, 0xc3, 65500, 16)
    ensures ChromAcSits(128, 0xc4, 65501, 16) && ChromAcSits(129, 0xc5, 65502, 16) && ChromAcSits(130, 0xc6, 65503, 16)
    ensures ChromAcSits(131, 0xc7, 65504, 16) && ChromAcSits(132, 0xc8, 65505, 16) && ChromAcSits(133, 0xc9, 65506, 16)
    ensures ChromAcSits(134, 0xca, 65507, 16)
  {
  }

  lemma ChromAcRun13()
    ensures ChromAcSits(35, 0xd1, 2041, 11) && ChromAcSits(135, 0xd2, 65508, 16) && ChromAcSits(136, 0xd3, 65509, 16)
    ensures ChromAcSits(137, 0xd4, 65510, 16) && ChromAcSits(138, 0xd5, 65511, 16) && ChromAcSits(139, 0xd6, 65512, 16)
    ensures ChromAcSits(140, 0xd7, 65513, 16) && ChromAcSits(141, 0xd8, 65514, 16) && ChromAcSits(142, 0xd9, 65515, 16)
    ensures ChromAcSits(143, 0xda, 65516, 16)
  {
  }

  lemma ChromAcRun14()
    ensures ChromAcSits(40, 0xe1, 16352, 14) && ChromAcSits(144, 0xe2, 65517, 16) && ChromAcSits(145, 0xe3, 65518, 16)
    ensures ChromAcSits(146, 0xe4, 65519, 16) && ChromAcSits(147, 0xe5, 65520, 16) && ChromAcSits(148, 0xe6, 65521, 16)
    ensures ChromAcSits(149, 0xe7, 65522, 16) && ChromAcSits(150, 0xe8, 65523, 16) && ChromAcSits(151, 0xe9, 65524, 16)
    ensures ChromAcSits(152, 0xea, 65525, 16)
  {
  }

  lemma ChromAcRun15()
    ensures ChromAcSits(42, 0xf1, 32707, 15) && ChromAcSits(153, 0xf2, 65526, 16) && ChromAcSits(154, 0xf3, 65527, 16)
    ensures ChromAcSits(155, 0xf4, 65528, 16) && ChromAcSits(156, 0xf5, 65529, 16) && ChromAcSits(157, 0xf6, 65530, 16)
    ensures ChromAcSits(158, 0xf7, 65531, 16) && ChromAcSits(159, 0xf8, 65532, 16) && ChromAcSits(160, 0xf9, 65533, 16)
    ensures ChromAcSits(161, 0xfa, 65534, 16)
  {
  }

  lemma ChromAcQuarter0()
    ensures forall rs :: 0x00 <= rs < 0x40 && (rs % 16 == 0 ==> rs == 0 || rs == 0xf0) && rs % 16 <= 10 ==> ChromAcHas(rs)
  {
    hide ChromAcSits;
    ChromAcEnds(); ChromAcRun0(); ChromAcRun1(); ChromAcRun2(); ChromAcRun3();
  }

  lemma ChromAcQuarter1()
    ensures forall rs :: 0x40 <= rs < 0x80 && (rs % 16 == 0 ==> rs == 0 || rs == 0xf0) && rs % 16 <= 10 ==> ChromAcHas(rs)
  {
    hide ChromAcSits;
    ChromAcEnds(); ChromAcRun4(); ChromAcRun5(); ChromAcRun6(); ChromAcRun7();
  }

  lemma ChromAcQuarter2()
    ensures forall rs :: 0x80 <= rs < 0xc0 && (rs % 16 == 0 ==> rs == 0 || rs == 0xf0) && rs % 16 <= 10 ==> ChromAcHas(rs)
  {
    hide ChromAcSits;
    ChromAcEnds(); ChromAcRun8(); ChromAcRun9(); ChromAcRun10(); ChromAcRun11();
  }

  lemma ChromAcQuarter3()
    ensures forall rs :: 0xc0 <= rs < 0x100 && (rs % 16 == 0 ==> rs == 0 || rs == 0xf0) && rs % 16 <= 10 ==> ChromAcHas(rs)
  {
    hide ChromAcSits;
    ChromAcEnds(); ChromAcRun12(); ChromAcRun13(); ChromAcRun14(); ChromAcRun15();
  }

  lemma ChromAcAll()
    ensures forall rs :: 0 <= rs < 256 && (rs % 16 == 0 ==> rs == 0 || rs == 0xf0) && rs % 16 <= 10 ==> ChromAcHas(rs)
  {
    hide ChromAcHas;
    ChromAcQuarter0(); ChromAcQuarter1(); ChromAcQuarter2(); ChromAcQuarter3();
  }
}
