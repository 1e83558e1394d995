/** The tables of calchash tell short keys apart. */
module DbmKeys {
  import opened DbmHash

  /** What the low half byte of a key of one byte adds to its hash. */
  function First(i: int): int {
    match i
    case 0 => 512484956 case 1 => 848202262 case 2 => 136526485 case 3 => 268482334
    case 4 => 150283701 case 5 => 723806105 case 6 => 726162885 case 7 => 368090480
    case 8 => 46339214 case 9 => 532422221 case 10 => 342656921 case 11 => 1027376024
    case 12 => 1051365423 case 13 => 814336635 case 14 => 558084953 case 15 => 823714782
    case _ => 0
  }

  /** What its two half bytes together, which have the sum j modulo 16, add to it. */
  function Second(j: int): int {
    match j
    case 0 => 511513480 case 1 => 255393334 case 2 => 810970674 case 3 => 862002182
    case 4 => 170468307 case 5 => 1006935516 case 6 => 319825659 case 7 => 560879913
    case 8 => 512144378 case 9 => 474477855 case 10 => 342253795 case 11 => 228326062
    case 12 => 417934725 case 13 => 651519112 case 14 => 883626866 case 15 => 799060155
    case _ => 0
  }

  lemma HiIs(f: int)
    requires 0 <= f < 16
    ensures Hi(f) == 61 - 4 * f
  {
  }

  lemma FirstIs(i: int)
    requires 0 <= i < 16
    ensures Hl(61 - 4 * i) == First(i)
  {
    hide Hl, First;
    if i < 8 {
      FirstLow(i);
    } else {
      FirstHigh(i);
    }
  }

  lemma FirstLow(i: int)
    requires 0 <= i < 8
    ensures Hl(61 - 4 * i) == First(i)
  {
    match i {
      case 0 => assert Hltab(61) == 512484956;
      case 1 => assert Hltab(57) == 848202262;
      case 2 => assert Hltab(53) == 136526485;
      case 3 => assert Hltab(49) == 268482334;
      case 4 => assert Hltab(45) == 150283701;
      case 5 => assert Hltab(41) == 723806105;
      case 6 => assert Hltab(37) == 726162885;
      case 7 => assert Hltab(33) == 368090480;
    }
  }

  lemma FirstHigh(i: int)
    requires 8 <= i < 16
    ensures Hl(61 - 4 * i) == First(i)
  {
    match i {
      case 8 => assert Hltab(29) == 46339214;
      case 9 => assert Hltab(25) == 532422221;
      case 10 => assert Hltab(21) == 342656921;
      case 11 => assert Hltab(17) == 1027376024;
      case 12 => assert Hltab(13) == 1051365423;
      case 13 => assert Hltab(9) == 814336635;
      case 14 => assert Hltab(5) == 558084953;
      case 15 => assert Hltab(1) == 823714782;
    }
  }

  lemma SecondIs(j: int, h: int)
    requires 0 <= j < 16 && h % 64 == (122 - 4 * j) % 64
    ensures Hl(h) == Second(j)
  {
    match j {
      case 0 => assert Hltab(58) == 511513480;
      case 1 => assert Hltab(54) == 255393334;
      case 2 => assert Hltab(50) == 810970674;
      case 3 => assert Hltab(46) == 862002182;
      case 4 => assert Hltab(42) == 170468307;
      case 5 => assert Hltab(38) == 1006935516;
      case 6 => assert Hltab(34) == 319825659;
      case 7 => assert Hltab(30) == 560879913;
      case 8 => assert Hltab(26) == 512144378;
      case 9 => assert Hltab(22) == 474477855;
      case 10 => assert Hltab(18) == 342253795;
      case 11 => assert Hltab(14) == 228326062;
      case 12 => assert Hltab(10) == 417934725;
      case 13 => assert Hltab(6) == 651519112;
      case 14 => assert Hltab(2) == 883626866;
      case 15 => assert Hltab(62) == 799060155;
    }
  }

  /** The hash of a key of one byte. */
  lemma OneByte(c: int)
    requires 0 <= c < 256
    ensures Hash([c]) == First(c % 16) + Second((c % 16 + c / 16) % 16)
  {
    hide Hash, Hi, Hl, First, Second;
    var lo, hi := c % 16, c / 16;
    var j := (lo + hi) % 16;
    HiIs(lo);
    HiIs(hi);
    FirstIs(lo);
    SameSum(lo, hi);
    SecondIs(j, 122 - 4 * (lo + hi));
    Sizes(lo, j);
    HashOne(c);
    LowBits(c, 0);
    SmallSum(First(lo), Second(j));
  }

  lemma SameSum(lo: int, hi: int)
    requires 0 <= lo < 16 && 0 <= hi < 16
    ensures (122 - 4 * (lo + hi)) % 64 == (122 - 4 * ((lo + hi) % 16)) % 64
  {
  }

  lemma SmallSum(x: int, y: int)
    requires 0 <= x < 0x4000_0000 && 0 <= y < 0x4000_0000
    ensures (x % 0x1_0000_0000 + y) % 0x1_0000_0000 == x + y
  {
  }

  lemma HashOne(c: int)
    requires 0 <= c < 256
    ensures Hash([c]) == (Hl(Hi(c)) % 0x1_0000_0000 + Hl(Hi(c) + Hi(c / 16))) % 0x1_0000_0000
  {
    hide Hi, Hl;
    TwoHalves(c);
    LowBits(c, Hi(c));
    LowBits(c, Hi(c) % 0x1_0000 + Hi(c / 16));
    LowBits(c, Hi(c) + Hi(c / 16));
    SumLow(Hi(c), Hi(c / 16));
  }

  lemma SumLow(x: int, y: int)
    ensures (x % 0x1_0000 + y) % 0x1_0000 == (x + y) % 0x1_0000
  {
  }

  lemma TwoHalves(c: int)
    requires 0 <= c < 256
    ensures Hash([c]) == Nibble(Nibble(Sums(0, 0), c), c / 16).hashl
  {
    hide Nibble;
    assert HashPrefix([c], 0) == Sums(0, 0);
  }

  lemma Sizes(i: int, j: int)
    ensures 0 <= First(i) < 0x4000_0000 && 0 <= Second(j) < 0x4000_0000
  {
  }

  /** Which two half bytes, i with sum j, make a hash. */
  function Which(h: int): int {
    match h
    case 216807521 => 132 case 274665276 => 139 case 301732548 => 129 case 306994792 => 36 case 320752008 => 68
    case 364852547 => 43 case 366164873 => 134 case 378609763 => 75 case 388593009 => 138 case 391919819 => 33
    case 405677035 => 65 case 438950641 => 52 case 456352144 => 38 case 464273939 => 140 case 470109360 => 70
    case 478780280 => 42 case 492537496 => 74 case 496808396 => 59 case 513125228 => 164 case 520817069 => 137
    case 523875668 => 49 case 538558787 => 116 case 554461210 => 44 case 557852694 => 128 case 558483592 => 136
    case 568218426 => 76 case 570982983 => 171 case 588307993 => 54 case 596416542 => 123 case 598050255 => 161
    case 607219127 => 135 case 610736129 => 58 case 611004340 => 41 case 623483814 => 113 case 624761556 => 73
    case 648039965 => 32 case 648670863 => 40 case 661797181 => 64 case 662428079 => 72 case 662482580 => 166
    case 682953263 => 4 case 684910716 => 170 case 686417059 => 60 case 687916139 => 118 case 697406398 => 39
    case 697858326 => 141 case 702890528 => 148 case 710344275 => 122 case 711163614 => 71 case 728553260 => 228
    case 740811018 => 11 case 742960189 => 57 case 760591646 => 172 case 760748283 => 155 case 767878290 => 1
    case 779995814 => 48 case 780626712 => 56 case 786025205 => 124 case 786411015 => 235 case 787815555 => 145
    case 788045597 => 45 case 801802813 => 77 case 813478287 => 225 case 817134776 => 169 case 829362247 => 55
    case 832310615 => 6 case 842568335 => 121 case 845399369 => 143 case 852247880 => 150 case 854170401 => 160
    case 854738751 => 10 case 854801299 => 168 case 857309888 => 130 case 874676016 => 154 case 877910612 => 230
    case 879603960 => 112 case 880234858 => 120 case 894274412 => 84 case 896631192 => 100 case 900338748 => 234
    case 903536834 => 167 case 908341396 => 131 case 920001446 => 61 case 928970393 => 119 case 929966080 => 142
    case 930419681 => 12 case 935586640 => 47 case 947497159 => 34 case 949343856 => 79 case 950356946 => 156
    case 952132167 => 91 case 954488947 => 107 case 961254375 => 66 case 976019678 => 236 case 979199439 => 81
    case 981556219 => 97 case 984804942 => 212 case 986962811 => 9 case 994176033 => 173 case 994183089 => 244
    case 998528667 => 35 case 1006900076 => 153 case 1012285883 => 67 case 1018670569 => 20 case 1019609592 => 125
    case 1020153351 => 46 case 1023998436 => 0 case 1024629334 => 8 case 1032562808 => 233 case 1033910567 => 78
    case 1042662697 => 219 case 1043631764 => 86 case 1043935701 => 144 case 1044566599 => 152 case 1045988544 => 102
    case 1052040844 => 251 case 1053274730 => 133 case 1066059900 => 90 case 1067542489 => 63 case 1068416680 => 106
    case 1069598433 => 224 case 1069729969 => 209 case 1070229331 => 232 case 1073364869 => 7 case 1076528324 => 27
    case 1079108116 => 241 case 1079453008 => 50 case 1093302134 => 151 case 1103595596 => 17 case 1118964866 => 231
    case 1130484516 => 51 case 1134162294 => 214 case 1141717076 => 175 case 1141740830 => 92 case 1143462001 => 37
    case 1143540441 => 246 case 1144097610 => 108 case 1152109200 => 62 case 1153627595 => 162 case 1156590430 => 218
    case 1157219217 => 69 case 1164004068 => 13 case 1165968577 => 250 case 1167150635 => 127 case 1168027921 => 22
    case 1179061154 => 114 case 1183941333 => 157 case 1190456057 => 26 case 1197844331 => 180 case 1198283960 => 89
    case 1200640740 => 105 case 1204659103 => 163 case 1209604065 => 237 case 1221833730 => 196 case 1226283787 => 174
    case 1230092662 => 115 case 1232271360 => 220 case 1235319585 => 80 case 1235950483 => 88 case 1237676365 => 96
    case 1238307263 => 104 case 1241649507 => 252 case 1251717346 => 126 case 1255702086 => 187 case 1266136987 => 28
    case 1275417850 => 53 case 1279691485 => 203 case 1282769358 => 177 case 1284686018 => 87 case 1287042798 => 103
    case 1288814490 => 217 case 1298192637 => 249 case 1306758757 => 193 case 1311545111 => 15 case 1322680117 => 25
    case 1323455630 => 2 case 1325850115 => 208 case 1326481013 => 216 case 1331482376 => 159 case 1335228262 => 240
    case 1335859160 => 248 case 1343392895 => 146 case 1347201683 => 182 case 1349592437 => 165 case 1357145108 => 239
    case 1359715742 => 16 case 1360346640 => 24 case 1369055627 => 226 case 1369629819 => 186 case 1371191082 => 198
    case 1374487138 => 3 case 1375025996 => 117 case 1375216548 => 215 case 1375325217 => 93 case 1377681997 => 109
    case 1384594695 => 247 case 1393619218 => 202 case 1394424403 => 147 case 1396111822 => 14 case 1409082175 => 23
    case 1416049087 => 158 case 1420087135 => 227 case 1441711819 => 238 case 1445310749 => 188 case 1465855747 => 221
    case 1469300148 => 204 case 1475233894 => 253 case 1499721374 => 29 case 1501853879 => 185 case 1519420472 => 5
    case 1522866260 => 95 case 1525223040 => 111 case 1525843278 => 201 case 1534776779 => 82 case 1537133559 => 98
    case 1538889504 => 176 case 1539357737 => 149 case 1539520402 => 184 case 1562878903 => 192 case 1563509801 => 200
    case 1565020469 => 229 case 1585808287 => 83 case 1588165067 => 99 case 1588255937 => 183 case 1607432971 => 94
    case 1609789751 => 110 case 1612245336 => 199 case 1613396790 => 223 case 1622774937 => 255 case 1625307309 => 210
    case 1634685456 => 242 case 1647262417 => 31 case 1659172936 => 18 case 1676338817 => 211 case 1678895136 => 189
    case 1685716964 => 243 case 1697963501 => 222 case 1702884535 => 205 case 1707341648 => 254 case 1710204444 => 19
    case 1730741621 => 85 case 1731829128 => 30 case 1733098401 => 101 case 1821272151 => 213 case 1826436179 => 191
    case 1830650298 => 245 case 1838346698 => 178 case 1850425578 => 207 case 1855137778 => 21 case 1862336097 => 194
    case 1889378206 => 179 case 1911002890 => 190 case 1913367605 => 195 case 1934992289 => 206 case 2034311540 => 181
    case 2058300939 => 197
    case _ => -1
  }

  lemma Row0(j: int)
    requires 0 <= j < 16
    ensures Which(512484956 + Second(j)) == 0 + j
  {
    match j {
      case 0 => case 1 => case 2 => case 3 => case 4 => case 5 => case 6 => case 7 =>
      case 8 => case 9 => case 10 => case 11 => case 12 => case 13 => case 14 => case 15 =>
    }
  }

  lemma Row1(j: int)
    requires 0 <= j < 16
    ensures Which(848202262 + Second(j)) == 16 + j
  {
    match j {
      case 0 => case 1 => case 2 => case 3 => case 4 => case 5 => case 6 => case 7 =>
      case 8 => case 9 => case 10 => case 11 => case 12 => case 13 => case 14 => case 15 =>
    }
  }

  lemma Row2(j: int)
    requires 0 <= j < 16
    ensures Which(136526485 + Second(j)) == 32 + j
  {
    match j {
      case 0 => case 1 => case 2 => case 3 => case 4 => case 5 => case 6 => case 7 =>
      case 8 => case 9 => case 10 => case 11 => case 12 => case 13 => case 14 => case 15 =>
    }
  }

  lemma Row3(j: int)
    requires 0 <= j < 16
    ensures Which(268482334 + Second(j)) == 48 + j
  {
    match j {
      case 0 => case 1 => case 2 => case 3 => case 4 => case 5 => case 6 => case 7 =>
      case 8 => case 9 => case 10 => case 11 => case 12 => case 13 => case 14 => case 15 =>
    }
  }

  lemma Row4(j: int)
    requires 0 <= j < 16
    ensures Which(150283701 + Second(j)) == 64 + j
  {
    match j {
      case 0 => case 1 => case 2 => case 3 => case 4 => case 5 => case 6 => case 7 =>
      case 8 => case 9 => case 10 => case 11 => case 12 => case 13 => case 14 => case 15 =>
    }
  }

  lemma Row5(j: int)
    requires 0 <= j < 16
    ensures Which(723806105 + Second(j)) == 80 + j
  {
    match j {
      case 0 => case 1 => case 2 => case 3 => case 4 => case 5 => case 6 => case 7 =>
      case 8 => case 9 => case 10 => case 11 => case 12 => case 13 => case 14 => case 15 =>
    }
  }

  lemma Row6(j: int)
    requires 0 <= j < 16
    ensures Which(726162885 + Second(j)) == 96 + j
  {
    match j {
      case 0 => case 1 => case 2 => case 3 => case 4 => case 5 => case 6 => case 7 =>
      case 8 => case 9 => case 10 => case 11 => case 12 => case 13 => case 14 => case 15 =>
    }
  }

  lemma Row7(j: int)
    requires 0 <= j < 16
    ensures Which(368090480 + Second(j)) == 112 + j
  {
    match j {
      case 0 => case 1 => case 2 => case 3 => case 4 => case 5 => case 6 => case 7 =>
      case 8 => case 9 => case 10 => case 11 => case 12 => case 13 => case 14 => case 15 =>
    }
  }

  lemma Row8(j: int)
    requires 0 <= j < 16
    ensures Which(46339214 + Second(j)) == 128 + j
  {
    match j {
      case 0 => case 1 => case 2 => case 3 => case 4 => case 5 => case 6 => case 7 =>
      case 8 => case 9 => case 10 => case 11 => case 12 => case 13 => case 14 => case 15 =>
    }
  }

  lemma Row9(j: int)
    requires 0 <= j < 16
    ensures Which(532422221 + Second(j)) == 144 + j
  {
    match j {
      case 0 => case 1 => case 2 => case 3 => case 4 => case 5 => case 6 => case 7 =>
      case 8 => case 9 => case 10 => case 11 => case 12 => case 13 => case 14 => case 15 =>
    }
  }

  lemma Row10(j: int)
    requires 0 <= j < 16
    ensures Which(342656921 + Second(j)) == 160 + j
  {
    match j {
      case 0 => case 1 => case 2 => case 3 => case 4 => case 5 => case 6 => case 7 =>
      case 8 => case 9 => case 10 => case 11 => case 12 => case 13 => case 14 => case 15 =>
    }
  }

  lemma Row11(j: int)
    requires 0 <= j < 16
    ensures Which(1027376024 + Second(j)) == 176 + j
  {
    match j {
      case 0 => case 1 => case 2 => case 3 => case 4 => case 5 => case 6 => case 7 =>
      case 8 => case 9 => case 10 => case 11 => case 12 => case 13 => case 14 => case 15 =>
    }
  }

  lemma Row12(j: int)
    requires 0 <= j < 16
    ensures Which(1051365423 + Second(j)) == 192 + j
  {
    match j {
      case 0 => case 1 => case 2 => case 3 => case 4 => case 5 => case 6 => case 7 =>
      case 8 => case 9 => case 10 => case 11 => case 12 => case 13 => case 14 => case 15 =>
    }
  }

  lemma Row13(j: int)
    requires 0 <= j < 16
    ensures Which(814336635 + Second(j)) == 208 + j
  {
    match j {
      case 0 => case 1 => case 2 => case 3 => case 4 => case 5 => case 6 => case 7 =>
      case 8 => case 9 => case 10 => case 11 => case 12 => case 13 => case 14 => case 15 =>
    }
  }

  lemma Row14(j: int)
    requires 0 <= j < 16
    ensures Which(558084953 + Second(j)) == 224 + j
  {
    match j {
      case 0 => case 1 => case 2 => case 3 => case 4 => case 5 => case 6 => case 7 =>
      case 8 => case 9 => case 10 => case 11 => case 12 => case 13 => case 14 => case 15 =>
    }
  }

  lemma Row15(j: int)
    requires 0 <= j < 16
    ensures Which(823714782 + Second(j)) == 240 + j
  {
    match j {
      case 0 => case 1 => case 2 => case 3 => case 4 => case 5 => case 6 => case 7 =>
      case 8 => case 9 => case 10 => case 11 => case 12 => case 13 => case 14 => case 15 =>
    }
  }

  lemma WhichIs(i: int, j: int)
    requires 0 <= i < 16 && 0 <= j < 16
    ensures Which(First(i) + Second(j)) == 16 * i + j
  {
    hide Which, Second;
    match i {
      case 0 => Row0(j);
      case 1 => Row1(j);
      case 2 => Row2(j);
      case 3 => Row3(j);
      case 4 => Row4(j);
      case 5 => Row5(j);
      case 6 => Row6(j);
      case 7 => Row7(j);
      case 8 => Row8(j);
      case 9 => Row9(j);
      case 10 => Row10(j);
      case 11 => Row11(j);
      case 12 => Row12(j);
      case 13 => Row13(j);
      case 14 => Row14(j);
      case 15 => Row15(j);
    }
  }

  /** No two keys of one byte have the same hash. */
  lemma OneByteApart(c: int, d: int)
    requires 0 <= c < 256 && 0 <= d < 256 && Hash([c]) == Hash([d])
    ensures c == d
  {
    hide Hash, First, Second, Which;
    OneByte(c);
    OneByte(d);
    WhichIs(c % 16, (c % 16 + c / 16) % 16);
    WhichIs(d % 16, (d % 16 + d / 16) % 16);
    HalvesTell(c, d);
  }

  /** The low half byte and the sum of both tell a byte. */
  lemma HalvesTell(c: int, d: int)
    requires 0 <= c < 256 && 0 <= d < 256
    ensures 16 * (c % 16) + (c % 16 + c / 16) % 16 == 16 * (d % 16) + (d % 16 + d / 16) % 16 ==> c == d
  {
    var i, u, k, v := c % 16, c / 16, d % 16, d / 16;
    if 16 * i + (i + u) % 16 == 16 * k + (k + v) % 16 {
      PairTells(i, u, k, v);
    }
    assert c == 16 * u + i && d == 16 * v + k;
  }

  lemma PairTells(i: int, u: int, k: int, v: int)
    requires 0 <= i < 16 && 0 <= u < 16 && 0 <= k < 16 && 0 <= v < 16
    requires 16 * i + (i + u) % 16 == 16 * k + (k + v) % 16
    ensures i == k && u == v
  {
    SumWraps(i, u);
    SumWraps(k, v);
  }

  lemma SumWraps(i: int, u: int)
    requires 0 <= i < 16 && 0 <= u < 16
    ensures (i + u) % 16 == if i + u < 16 then i + u else i + u - 16
  {
  }
}
