/** The field of 256 elements with the exponent and logarithm tables of the source.

    Addition is exclusive or. Multiplication goes through the tables, and the main results are that
    it is carry-less multiplication modulo x^8 + x^4 + x^3 + x + 1, and that the operations satisfy
    all the laws of a field. */
module Gf256 {
  import opened Fields
  import opened Results
  import opened Bytes
  import opened Logarithms

  /** EXP[k][j] is the power 16 * k + j of the generator 0x03. */
  const EXP: seq<seq<nat>> := [
    [0x01, 0x03, 0x05, 0x0f, 0x11, 0x33, 0x55, 0xff, 0x1a, 0x2e, 0x72, 0x96, 0xa1, 0xf8, 0x13, 0x35],
    [0x5f, 0xe1, 0x38, 0x48, 0xd8, 0x73, 0x95, 0xa4, 0xf7, 0x02, 0x06, 0x0a, 0x1e, 0x22, 0x66, 0xaa],
    [0xe5, 0x34, 0x5c, 0xe4, 0x37, 0x59, 0xeb, 0x26, 0x6a, 0xbe, 0xd9, 0x70, 0x90, 0xab, 0xe6, 0x31],
    [0x53, 0xf5, 0x04, 0x0c, 0x14, 0x3c, 0x44, 0xcc, 0x4f, 0xd1, 0x68, 0xb8, 0xd3, 0x6e, 0xb2, 0xcd],
    [0x4c, 0xd4, 0x67, 0xa9, 0xe0, 0x3b, 0x4d, 0xd7, 0x62, 0xa6, 0xf1, 0x08, 0x18, 0x28, 0x78, 0x88],
    [0x83, 0x9e, 0xb9, 0xd0, 0x6b, 0xbd, 0xdc, 0x7f, 0x81, 0x98, 0xb3, 0xce, 0x49, 0xdb, 0x76, 0x9a],
    [0xb5, 0xc4, 0x57, 0xf9, 0x10, 0x30, 0x50, 0xf0, 0x0b, 0x1d, 0x27, 0x69, 0xbb, 0xd6, 0x61, 0xa3],
    [0xfe, 0x19, 0x2b, 0x7d, 0x87, 0x92, 0xad, 0xec, 0x2f, 0x71, 0x93, 0xae, 0xe9, 0x20, 0x60, 0xa0],
    [0xfb, 0x16, 0x3a, 0x4e, 0xd2, 0x6d, 0xb7, 0xc2, 0x5d, 0xe7, 0x32, 0x56, 0xfa, 0x15, 0x3f, 0x41],
    [0xc3, 0x5e, 0xe2, 0x3d, 0x47, 0xc9, 0x40, 0xc0, 0x5b, 0xed, 0x2c, 0x74, 0x9c, 0xbf, 0xda, 0x75],
    [0x9f, 0xba, 0xd5, 0x64, 0xac, 0xef, 0x2a, 0x7e, 0x82, 0x9d, 0xbc, 0xdf, 0x7a, 0x8e, 0x89, 0x80],
    [0x9b, 0xb6, 0xc1, 0x58, 0xe8, 0x23, 0x65, 0xaf, 0xea, 0x25, 0x6f, 0xb1, 0xc8, 0x43, 0xc5, 0x54],
    [0xfc, 0x1f, 0x21, 0x63, 0xa5, 0xf4, 0x07, 0x09, 0x1b, 0x2d, 0x77, 0x99, 0xb0, 0xcb, 0x46, 0xca],
    [0x45, 0xcf, 0x4a, 0xde, 0x79, 0x8b, 0x86, 0x91, 0xa8, 0xe3, 0x3e, 0x42, 0xc6, 0x51, 0xf3, 0x0e],
    [0x12, 0x36, 0x5a, 0xee, 0x29, 0x7b, 0x8d, 0x8c, 0x8f, 0x8a, 0x85, 0x94, 0xa7, 0xf2, 0x0d, 0x17],
    [0x39, 0x4b, 0xdd, 0x7c, 0x84, 0x97, 0xa2, 0xfd, 0x1c, 0x24, 0x6c, 0xb4, 0xc7, 0x52, 0xf6]
  ]

  /** LOG[k][j] is the logarithm of 16 * k + j + 1. */
  const LOG: seq<seq<nat>> := [
    [0x00, 0x19, 0x01, 0x32, 0x02, 0x1a, 0xc6, 0x4b, 0xc7, 0x1b, 0x68, 0x33, 0xee, 0xdf, 0x03, 0x64],
    [0x04, 0xe0, 0x0e, 0x34, 0x8d, 0x81, 0xef, 0x4c, 0x71, 0x08, 0xc8, 0xf8, 0x69, 0x1c, 0xc1, 0x7d],
    [0xc2, 0x1d, 0xb5, 0xf9, 0xb9, 0x27, 0x6a, 0x4d, 0xe4, 0xa6, 0x72, 0x9a, 0xc9, 0x09, 0x78, 0x65],
    [0x2f, 0x8a, 0x05, 0x21, 0x0f, 0xe1, 0x24, 0x12, 0xf0, 0x82, 0x45, 0x35, 0x93, 0xda, 0x8e, 0x96],
    [0x8f, 0xdb, 0xbd, 0x36, 0xd0, 0xce, 0x94, 0x13, 0x5c, 0xd2, 0xf1, 0x40, 0x46, 0x83, 0x38, 0x66],
    [0xdd, 0xfd, 0x30, 0xbf, 0x06, 0x8b, 0x62, 0xb3, 0x25, 0xe2, 0x98, 0x22, 0x88, 0x91, 0x10, 0x7e],
    [0x6e, 0x48, 0xc3, 0xa3, 0xb6, 0x1e, 0x42, 0x3a, 0x6b, 0x28, 0x54, 0xfa, 0x85, 0x3d, 0xba, 0x2b],
    [0x79, 0x0a, 0x15, 0x9b, 0x9f, 0x5e, 0xca, 0x4e, 0xd4, 0xac, 0xe5, 0xf3, 0x73, 0xa7, 0x57, 0xaf],
    [0x58, 0xa8, 0x50, 0xf4, 0xea, 0xd6, 0x74, 0x4f, 0xae, 0xe9, 0xd5, 0xe7, 0xe6, 0xad, 0xe8, 0x2c],
    [0xd7, 0x75, 0x7a, 0xeb, 0x16, 0x0b, 0xf5, 0x59, 0xcb, 0x5f, 0xb0, 0x9c, 0xa9, 0x51, 0xa0, 0x7f],
    [0x0c, 0xf6, 0x6f, 0x17, 0xc4, 0x49, 0xec, 0xd8, 0x43, 0x1f, 0x2d, 0xa4, 0x76, 0x7b, 0xb7, 0xcc],
    [0xbb, 0x3e, 0x5a, 0xfb, 0x60, 0xb1, 0x86, 0x3b, 0x52, 0xa1, 0x6c, 0xaa, 0x55, 0x29, 0x9d, 0x97],
    [0xb2, 0x87, 0x90, 0x61, 0xbe, 0xdc, 0xfc, 0xbc, 0x95, 0xcf, 0xcd, 0x37, 0x3f, 0x5b, 0xd1, 0x53],
    [0x39, 0x84, 0x3c, 0x41, 0xa2, 0x6d, 0x47, 0x14, 0x2a, 0x9e, 0x5d, 0x56, 0xf2, 0xd3, 0xab, 0x44],
    [0x11, 0x92, 0xd9, 0x23, 0x20, 0x2e, 0x89, 0xb4, 0x7c, 0xb8, 0x26, 0x77, 0x99, 0xe3, 0xa5, 0x67],
    [0x4a, 0xed, 0xde, 0xc5, 0x31, 0xfe, 0x18, 0x0d, 0x63, 0x8c, 0x80, 0xc0, 0xf7, 0x70, 0x07]
  ]

  lemma TableShape()
    ensures |EXP| == |LOG| == 16
    ensures forall k :: 0 <= k < 15 ==> |EXP[k]| == |LOG[k]| == 16
    ensures |EXP[15]| == |LOG[15]| == 15
  {
  }

  function ExpAt(i: nat): nat
    requires i < 255
  {
    TableShape();
    EXP[i / 16][i % 16]
  }

  function LogAt(i: nat): nat
    requires i < 255
  {
    TableShape();
    LOG[i / 16][i % 16]
  }

  function Add(a: bv8, b: bv8): bv8 { a ^ b }

  function Sub(a: bv8, b: bv8): bv8 { Add(a, b) }

  function Neg(a: bv8): bv8 { Sub(0, a) }

  // ----- The contents of the tables

  /** Multiplication by x modulo x^8 + x^4 + x^3 + x + 1 (section 4.2.1 of FIPS 197): 0x1b is
      subtracted when the highest bit falls out. */
  function XTime(a: bv8): bv8 { (a << 1) ^ (if a & 0x80 != 0 then 0x1b else 0) }

  /** Multiplication by the generator x + 1. */
  function Times3(a: bv8): bv8 { a ^ XTime(a) }

  function Next(i: nat): nat { if i == 254 then 0 else i + 1 }

  /** The power i is v, the logarithm of v is i, and the next power is w, which is 3 * v. */
  ghost predicate Link(i: nat, v: nat, w: nat) {
    && i < 255 && 0 < v < 256 && 0 < w < 256
    && ExpAt(i) == v
    && LogAt(v - 1) == i
    && ExpAt(Next(i)) == w
    && Times3(v as bv8) == w as bv8
  }

  lemma Links0(i: nat) returns (v: nat, w: nat)
    requires 0 <= i < 15
    ensures Link(i, v, w)
  {
    match i
    case 0 => v, w := 0x01, 0x03; case 1 => v, w := 0x03, 0x05; case 2 => v, w := 0x05, 0x0f;
    case 3 => v, w := 0x0f, 0x11; case 4 => v, w := 0x11, 0x33; case 5 => v, w := 0x33, 0x55;
    case 6 => v, w := 0x55, 0xff; case 7 => v, w := 0xff, 0x1a; case 8 => v, w := 0x1a, 0x2e;
    case 9 => v, w := 0x2e, 0x72; case 10 => v, w := 0x72, 0x96; case 11 => v, w := 0x96, 0xa1;
    case 12 => v, w := 0xa1, 0xf8; case 13 => v, w := 0xf8, 0x13; case 14 => v, w := 0x13, 0x35;
  }

  lemma Links1(i: nat) returns (v: nat, w: nat)
    requires 15 <= i < 30
    ensures Link(i, v, w)
  {
    match i
    case 15 => v, w := 0x35, 0x5f; case 16 => v, w := 0x5f, 0xe1; case 17 => v, w := 0xe1, 0x38;
    case 18 => v, w := 0x38, 0x48; case 19 => v, w := 0x48, 0xd8; case 20 => v, w := 0xd8, 0x73;
    case 21 => v, w := 0x73, 0x95; case 22 => v, w := 0x95, 0xa4; case 23 => v, w := 0xa4, 0xf7;
    case 24 => v, w := 0xf7, 0x02; case 25 => v, w := 0x02, 0x06; case 26 => v, w := 0x06, 0x0a;
    case 27 => v, w := 0x0a, 0x1e; case 28 => v, w := 0x1e, 0x22; case 29 => v, w := 0x22, 0x66;
  }

  lemma Links2(i: nat) returns (v: nat, w: nat)
    requires 30 <= i < 45
    ensures Link(i, v, w)
  {
    match i
    case 30 => v, w := 0x66, 0xaa; case 31 => v, w := 0xaa, 0xe5; case 32 => v, w := 0xe5, 0x34;
    case 33 => v, w := 0x34, 0x5c; case 34 => v, w := 0x5c, 0xe4; case 35 => v, w := 0xe4, 0x37;
    case 36 => v, w := 0x37, 0x59; case 37 => v, w := 0x59, 0xeb; case 38 => v, w := 0xeb, 0x26;
    case 39 => v, w := 0x26, 0x6a; case 40 => v, w := 0x6a, 0xbe; case 41 => v, w := 0xbe, 0xd9;
    case 42 => v, w := 0xd9, 0x70; case 43 => v, w := 0x70, 0x90; case 44 => v, w := 0x90, 0xab;
  }

  lemma Links3(i: nat) returns (v: nat, w: nat)
    requires 45 <= i < 60
    ensures Link(i, v, w)
  {
    match i
    case 45 => v, w := 0xab, 0xe6; case 46 => v, w := 0xe6, 0x31; case 47 => v, w := 0x31, 0x53;
    case 48 => v, w := 0x53, 0xf5; case 49 => v, w := 0xf5, 0x04; case 50 => v, w := 0x04, 0x0c;
    case 51 => v, w := 0x0c, 0x14; case 52 => v, w := 0x14, 0x3c; case 53 => v, w := 0x3c, 0x44;
    case 54 => v, w := 0x44, 0xcc; case 55 => v, w := 0xcc, 0x4f; case 56 => v, w := 0x4f, 0xd1;
    case 57 => v, w := 0xd1, 0x68; case 58 => v, w := 0x68, 0xb8; case 59 => v, w := 0xb8, 0xd3;
  }

  lemma Links4(i: nat) returns (v: nat, w: nat)
    requires 60 <= i < 75
    ensures Link(i, v, w)
  {
    match i
    case 60 => v, w := 0xd3, 0x6e; case 61 => v, w := 0x6e, 0xb2; case 62 => v, w := 0xb2, 0xcd;
    case 63 => v, w := 0xcd, 0x4c; case 64 => v, w := 0x4c, 0xd4; case 65 => v, w := 0xd4, 0x67;
    case 66 => v, w := 0x67, 0xa9; case 67 => v, w := 0xa9, 0xe0; case 68 => v, w := 0xe0, 0x3b;
    case 69 => v, w := 0x3b, 0x4d; case 70 => v, w := 0x4d, 0xd7; case 71 => v, w := 0xd7, 0x62;
    case 72 => v, w := 0x62, 0xa6; case 73 => v, w := 0xa6, 0xf1; case 74 => v, w := 0xf1, 0x08;
  }

  lemma Links5(i: nat) returns (v: nat, w: nat)
    requires 75 <= i < 90
    ensures Link(i, v, w)
  {
    match i
    case 75 => v, w := 0x08, 0x18; case 76 => v, w := 0x18, 0x28; case 77 => v, w := 0x28, 0x78;
    case 78 => v, w := 0x78, 0x88; case 79 => v, w := 0x88, 0x83; case 80 => v, w := 0x83, 0x9e;
    case 81 => v, w := 0x9e, 0xb9; case 82 => v, w := 0xb9, 0xd0; case 83 => v, w := 0xd0, 0x6b;
    case 84 => v, w := 0x6b, 0xbd; case 85 => v, w := 0xbd, 0xdc; case 86 => v, w := 0xdc, 0x7f;
    case 87 => v, w := 0x7f, 0x81; case 88 => v, w := 0x81, 0x98; case 89 => v, w := 0x98, 0xb3;
  }

  lemma Links6(i: nat) returns (v: nat, w: nat)
    requires 90 <= i < 105
    ensures Link(i, v, w)
  {
    match i
    case 90 => v, w := 0xb3, 0xce; case 91 => v, w := 0xce, 0x49; case 92 => v, w := 0x49, 0xdb;
    case 93 => v, w := 0xdb, 0x76; case 94 => v, w := 0x76, 0x9a; case 95 => v, w := 0x9a, 0xb5;
    case 96 => v, w := 0xb5, 0xc4; case 97 => v, w := 0xc4, 0x57; case 98 => v, w := 0x57, 0xf9;
    case 99 => v, w := 0xf9, 0x10; case 100 => v, w := 0x10, 0x30; case 101 => v, w := 0x30, 0x50;
    case 102 => v, w := 0x50, 0xf0; case 103 => v, w := 0xf0, 0x0b; case 104 => v, w := 0x0b, 0x1d;
  }

  lemma Links7(i: nat) returns (v: nat, w: nat)
    requires 105 <= i < 120
    ensures Link(i, v, w)
  {
    match i
    case 105 => v, w := 0x1d, 0x27; case 106 => v, w := 0x27, 0x69; case 107 => v, w := 0x69, 0xbb;
    case 108 => v, w := 0xbb, 0xd6; case 109 => v, w := 0xd6, 0x61; case 110 => v, w := 0x61, 0xa3;
    case 111 => v, w := 0xa3, 0xfe; case 112 => v, w := 0xfe, 0x19; case 113 => v, w := 0x19, 0x2b;
    case 114 => v, w := 0x2b, 0x7d; case 115 => v, w := 0x7d, 0x87; case 116 => v, w := 0x87, 0x92;
    case 117 => v, w := 0x92, 0xad; case 118 => v, w := 0xad, 0xec; case 119 => v, w := 0xec, 0x2f;
  }

  lemma Links8(i: nat) returns (v: nat, w: nat)
    requires 120 <= i < 135
    ensures Link(i, v, w)
  {
    match i
    case 120 => v, w := 0x2f, 0x71; case 121 => v, w := 0x71, 0x93; case 122 => v, w := 0x93, 0xae;
    case 123 => v, w := 0xae, 0xe9; case 124 => v, w := 0xe9, 0x20; case 125 => v, w := 0x20, 0x60;
    case 126 => v, w := 0x60, 0xa0; case 127 => v, w := 0xa0, 0xfb; case 128 => v, w := 0xfb, 0x16;
    case 129 => v, w := 0x16, 0x3a; case 130 => v, w := 0x3a, 0x4e; case 131 => v, w := 0x4e, 0xd2;
    case 132 => v, w := 0xd2, 0x6d; case 133 => v, w := 0x6d, 0xb7; case 134 => v, w := 0xb7, 0xc2;
  }

  lemma Links9(i: nat) returns (v: nat, w: nat)
    requires 135 <= i < 150
    ensures Link(i, v, w)
  {
    match i
    case 135 => v, w := 0xc2, 0x5d; case 136 => v, w := 0x5d, 0xe7; case 137 => v, w := 0xe7, 0x32;
    case 138 => v, w := 0x32, 0x56; case 139 => v, w := 0x56, 0xfa; case 140 => v, w := 0xfa, 0x15;
    case 141 => v, w := 0x15, 0x3f; case 142 => v, w := 0x3f, 0x41; case 143 => v, w := 0x41, 0xc3;
    case 144 => v, w := 0xc3, 0x5e; case 145 => v, w := 0x5e, 0xe2; case 146 => v, w := 0xe2, 0x3d;
    case 147 => v, w := 0x3d, 0x47; case 148 => v, w := 0x47, 0xc9; case 149 => v, w := 0xc9, 0x40;
  }

  lemma Links10(i: nat) returns (v: nat, w: nat)
    requires 150 <= i < 165
    ensures Link(i, v, w)
  {
    match i
    case 150 => v, w := 0x40, 0xc0; case 151 => v, w := 0xc0, 0x5b; case 152 => v, w := 0x5b, 0xed;
    case 153 => v, w := 0xed, 0x2c; case 154 => v, w := 0x2c, 0x74; case 155 => v, w := 0x74, 0x9c;
    case 156 => v, w := 0x9c, 0xbf; case 157 => v, w := 0xbf, 0xda; case 158 => v, w := 0xda, 0x75;
    case 159 => v, w := 0x75, 0x9f; case 160 => v, w := 0x9f, 0xba; case 161 => v, w := 0xba, 0xd5;
    case 162 => v, w := 0xd5, 0x64; case 163 => v, w := 0x64, 0xac; case 164 => v, w := 0xac, 0xef;
  }

  lemma Links11(i: nat) returns (v: nat, w: nat)
    requires 165 <= i < 180
    ensures Link(i, v, w)
  {
    match i
    case 165 => v, w := 0xef, 0x2a; case 166 => v, w := 0x2a, 0x7e; case 167 => v, w := 0x7e, 0x82;
    case 168 => v, w := 0x82, 0x9d; case 169 => v, w := 0x9d, 0xbc; case 170 => v, w := 0xbc, 0xdf;
    case 171 => v, w := 0xdf, 0x7a; case 172 => v, w := 0x7a, 0x8e; case 173 => v, w := 0x8e, 0x89;
    case 174 => v, w := 0x89, 0x80; case 175 => v, w := 0x80, 0x9b; case 176 => v, w := 0x9b, 0xb6;
    case 177 => v, w := 0xb6, 0xc1; case 178 => v, w := 0xc1, 0x58; case 179 => v, w := 0x58, 0xe8;
  }

  lemma Links12(i: nat) returns (v: nat, w: nat)
    requires 180 <= i < 195
    ensures Link(i, v, w)
  {
    match i
    case 180 => v, w := 0xe8, 0x23; case 181 => v, w := 0x23, 0x65; case 182 => v, w := 0x65, 0xaf;
    case 183 => v, w := 0xaf, 0xea; case 184 => v, w := 0xea, 0x25; case 185 => v, w := 0x25, 0x6f;
    case 186 => v, w := 0x6f, 0xb1; case 187 => v, w := 0xb1, 0xc8; case 188 => v, w := 0xc8, 0x43;
    case 189 => v, w := 0x43, 0xc5; case 190 => v, w := 0xc5, 0x54; case 191 => v, w := 0x54, 0xfc;
    case 192 => v, w := 0xfc, 0x1f; case 193 => v, w := 0x1f, 0x21; case 194 => v, w := 0x21, 0x63;
  }

  lemma Links13(i: nat) returns (v: nat, w: nat)
    requires 195 <= i < 210
    ensures Link(i, v, w)
  {
    match i
    case 195 => v, w := 0x63, 0xa5; case 196 => v, w := 0xa5, 0xf4; case 197 => v, w := 0xf4, 0x07;
    case 198 => v, w := 0x07, 0x09; case 199 => v, w := 0x09, 0x1b; case 200 => v, w := 0x1b, 0x2d;
    case 201 => v, w := 0x2d, 0x77; case 202 => v, w := 0x77, 0x99; case 203 => v, w := 0x99, 0xb0;
    case 204 => v, w := 0xb0, 0xcb; case 205 => v, w := 0xcb, 0x46; case 206 => v, w := 0x46, 0xca;
    case 207 => v, w := 0xca, 0x45; case 208 => v, w := 0x45, 0xcf; case 209 => v, w := 0xcf, 0x4a;
  }

  lemma Links14(i: nat) returns (v: nat, w: nat)
    requires 210 <= i < 225
    ensures Link(i, v, w)
  {
    match i
    case 210 => v, w := 0x4a, 0xde; case 211 => v, w := 0xde, 0x79; case 212 => v, w := 0x79, 0x8b;
    case 213 => v, w := 0x8b, 0x86; case 214 => v, w := 0x86, 0x91; case 215 => v, w := 0x91, 0xa8;
    case 216 => v, w := 0xa8, 0xe3; case 217 => v, w := 0xe3, 0x3e; case 218 => v, w := 0x3e, 0x42;
    case 219 => v, w := 0x42, 0xc6; case 220 => v, w := 0xc6, 0x51; case 221 => v, w := 0x51, 0xf3;
    case 222 => v, w := 0xf3, 0x0e; case 223 => v, w := 0x0e, 0x12; case 224 => v, w := 0x12, 0x36;
  }

  lemma Links15(i: nat) returns (v: nat, w: nat)
    requires 225 <= i < 240
    ensures Link(i, v, w)
  {
    match i
    case 225 => v, w := 0x36, 0x5a; case 226 => v, w := 0x5a, 0xee; case 227 => v, w := 0xee, 0x29;
    case 228 => v, w := 0x29, 0x7b; case 229 => v, w := 0x7b, 0x8d; case 230 => v, w := 0x8d, 0x8c;
    case 231 => v, w := 0x8c, 0x8f; case 232 => v, w := 0x8f, 0x8a; case 233 => v, w := 0x8a, 0x85;
    case 234 => v, w := 0x85, 0x94; case 235 => v, w := 0x94, 0xa7; case 236 => v, w := 0xa7, 0xf2;
    case 237 => v, w := 0xf2, 0x0d; case 238 => v, w := 0x0d, 0x17; case 239 => v, w := 0x17, 0x39;
  }

  lemma Links16(i: nat) returns (v: nat, w: nat)
    requires 240 <= i < 255
    ensures Link(i, v, w)
  {
    match i
    case 240 => v, w := 0x39, 0x4b; case 241 => v, w := 0x4b, 0xdd; case 242 => v, w := 0xdd, 0x7c;
    case 243 => v, w := 0x7c, 0x84; case 244 => v, w := 0x84, 0x97; case 245 => v, w := 0x97, 0xa2;
    case 246 => v, w := 0xa2, 0xfd; case 247 => v, w := 0xfd, 0x1c; case 248 => v, w := 0x1c, 0x24;
    case 249 => v, w := 0x24, 0x6c; case 250 => v, w := 0x6c, 0xb4; case 251 => v, w := 0xb4, 0xc7;
    case 252 => v, w := 0xc7, 0x52; case 253 => v, w := 0x52, 0xf6; case 254 => v, w := 0xf6, 0x01;
  }

  lemma TableLink(i: nat) returns (v: nat, w: nat)
    requires i < 255
    ensures Link(i, v, w)
  {
    match i / 15
    case 0 => v, w := Links0(i); case 1 => v, w := Links1(i); case 2 => v, w := Links2(i);
    case 3 => v, w := Links3(i); case 4 => v, w := Links4(i); case 5 => v, w := Links5(i);
    case 6 => v, w := Links6(i); case 7 => v, w := Links7(i); case 8 => v, w := Links8(i);
    case 9 => v, w := Links9(i); case 10 => v, w := Links10(i); case 11 => v, w := Links11(i);
    case 12 => v, w := Links12(i); case 13 => v, w := Links13(i); case 14 => v, w := Links14(i);
    case 15 => v, w := Links15(i); case 16 => v, w := Links16(i);
  }

  lemma TableEntry(i: nat)
    requires i < 255
    ensures 0 < ExpAt(i) < 256
    ensures LogAt(ExpAt(i) - 1) == i
  {
    var v, w := TableLink(i);
  }

  // ----- Multiplication by x is linear

  lemma XorSwap(a: bv8, b: bv8, c: bv8, d: bv8)
    ensures (a ^ b) ^ (c ^ d) == (a ^ c) ^ (b ^ d)
  {
  }

  ghost function XTimeByProduct(a: bv8): bv8 { (a << 1) ^ ((a >> 7) * 0x1b) }

  lemma XTimeAsProduct(a: bv8)
    ensures XTimeByProduct(a) == XTime(a)
  {
  }

  lemma XTimeByProductLinear(a: bv8, b: bv8)
    ensures XTimeByProduct(a ^ b) == XTimeByProduct(a) ^ XTimeByProduct(b)
  {
  }

  lemma XTimeLinear(a: bv8, b: bv8)
    ensures XTime(a ^ b) == XTime(a) ^ XTime(b)
  {
    XTimeAsProduct(a);
    XTimeAsProduct(b);
    XTimeAsProduct(a ^ b);
    XTimeByProductLinear(a, b);
  }

  /** Multiplication by the generator is linear. */
  lemma Times3Linear(a: bv8, b: bv8)
    ensures Times3(a ^ b) == Times3(a) ^ Times3(b)
  {
    calc {
      Times3(a ^ b);
      (a ^ b) ^ XTime(a ^ b);
      { XTimeLinear(a, b); }
      (a ^ b) ^ (XTime(a) ^ XTime(b));
      { XorSwap(a, b, XTime(a), XTime(b)); }
      (a ^ XTime(a)) ^ (b ^ XTime(b));
      Times3(a) ^ Times3(b);
    }
  }

  // ----- The tables as functions of bytes

  function AsByte(v: nat): bv8 { if v < 256 then v as bv8 else 0 }

  function AsNumber(x: bv8): nat { x as nat }

  function ExpNumber(i: nat): nat { if i < 255 then ExpAt(i) else 0 }

  function LogNumber(v: nat): nat { if 0 < v < 256 then LogAt(v - 1) else 0 }

  function Exp(i: nat): bv8 { AsByte(ExpNumber(i % 255)) }

  /** Entry x - 1 of the table; the source asserts that x is not zero. */
  function Log(x: bv8): nat { LogNumber(AsNumber(x)) }

  const TABLES: LogTables<bv8> := LogTables(0, i => Exp(i), x => Log(x))

  /** Sound tables whose powers are those of 0x03. */
  ghost predicate PowersOf3(t: LogTables<bv8>) {
    t.Sound() && t.zero == 0 && t.exp(0) == 1 && t.Steps(Times3)
  }

  lemma NumbersAreInverse()
    ensures forall i :: 0 <= i < 255 ==> 0 < ExpNumber(i) <= 255 && LogNumber(ExpNumber(i)) == i
  {
    forall i | 0 <= i < 255 ensures 0 < ExpNumber(i) <= 255 && LogNumber(ExpNumber(i)) == i {
      TableEntry(i);
    }
  }

  lemma ByteCoding()
    ensures forall x :: AsNumber(x) < 256 && AsByte(AsNumber(x)) == x
    ensures forall v: nat :: v < 256 ==> AsNumber(AsByte(v)) == v
  {
    forall v: nat | v < 256 ensures AsNumber(AsByte(v)) == v {
      ByteRoundTrip(v);
    }
  }

  lemma NumberSteps(i: nat)
    requires i < 255
    ensures AsByte(ExpNumber(Next(i))) == Times3(AsByte(ExpNumber(i)))
  {
    var v, w := TableLink(i);
  }

  lemma NextMod(n: nat)
    ensures (n + 1) % 255 == Next(n % 255)
  {
  }

  lemma ExpSteps(n: nat)
    ensures Exp(n + 1) == Times3(Exp(n))
  {
    NextMod(n);
    NumberSteps(n % 255);
  }

  lemma ExpZero()
    ensures Exp(0) == 1
  {
    assert EXP[0][0] == 1;
  }

  /** The tables of the source are inverse to each other and hold the powers of 0x03. */
  lemma TablesArePowersOf3()
    ensures PowersOf3(TABLES)
  {
    NumbersAreInverse();
    ByteCoding();
    SoundFromNumbers(TABLES, ExpNumber, LogNumber, AsByte, AsNumber);
    forall n: nat ensures TABLES.exp(n + 1) == Times3(TABLES.exp(n)) {
      ExpSteps(n);
    }
    ExpZero();
  }

  // ----- The field

  lemma Distributes(t: LogTables<bv8>, a: bv8, b: bv8, c: bv8)
    requires PowersOf3(t)
    ensures t.Mul(a, b ^ c) == t.Mul(a, b) ^ t.Mul(a, c)
  {
    forall x, y ensures LinearAt(Times3, Add, x, y) {
      Times3Linear(x, y);
    }
    t.Distributes(Add, Times3, a, b, c);
  }

  // ----- Carry-less multiplication

  lemma XorCancel(a: bv8, b: bv8)
    ensures (a ^ b) ^ a == b
  {
  }

  /** The product of the polynomials a and b over GF(2), reduced modulo x^8 + x^4 + x^3 + x + 1:
      the sum of a * x^i for the bits i of b (section 4.2.1 of FIPS 197). */
  function CarryLess(a: bv8, b: bv8): bv8
    decreases b as nat
  {
    if b == 0 then
      0
    else
      HalveLess(b);
      (if b & 1 == 1 then a else 0) ^ CarryLess(XTime(a), b >> 1)
  }

  lemma HalveLess(b: bv8)
    requires b != 0
    ensures (b >> 1) as nat < b as nat
  {
    assert b >> 1 < b;
  }

  lemma HalveSum(b: bv8)
    ensures b == (b & 1) ^ XTime(b >> 1)
  {
  }

  lemma LowBit(b: bv8)
    ensures b & 1 == 0 || b & 1 == 1
  {
  }

  lemma MulThree(t: LogTables<bv8>, a: bv8)
    requires PowersOf3(t)
    ensures t.Mul(a, 3) == Times3(a)
  {
    assert t.exp(0 + 1) == Times3(1) == 3;
    assert t.Power(1);
    t.MulIterates(Times3, a, 3);
    assert Iterate(Times3, 1, a) == Times3(Iterate(Times3, 0, a));
  }

  lemma MulTwo(t: LogTables<bv8>, a: bv8)
    requires PowersOf3(t)
    ensures t.Mul(a, 2) == XTime(a)
  {
    calc {
      t.Mul(a, 2);
      { assert 3 ^ 1 == 2 as bv8; Distributes(t, a, 3, 1); }
      t.Mul(a, 3) ^ t.Mul(a, 1);
      { t.MulOne(a); MulThree(t, a); }
      Times3(a) ^ a;
      { XorCancel(a, XTime(a)); }
      XTime(a);
    }
  }

  /** The lowest bit of b contributes a, the rest multiplies x * a. */
  lemma MulHalves(t: LogTables<bv8>, a: bv8, low: bv8, c: bv8)
    requires PowersOf3(t)
    ensures t.Mul(a, low ^ XTime(c)) == t.Mul(a, low) ^ t.Mul(XTime(a), c)
  {
    Distributes(t, a, low, XTime(c));
    MulTwo(t, c);
    t.MulComm(c, 2);
    t.MulAssoc(a, 2, c);
    MulTwo(t, a);
  }

  lemma MulBits(t: LogTables<bv8>, a: bv8, b: bv8)
    requires PowersOf3(t)
    ensures t.Mul(a, b) == (if b & 1 == 1 then a else 0) ^ t.Mul(XTime(a), b >> 1)
  {
    HalveSum(b);
    MulHalves(t, a, b & 1, b >> 1);
    LowBit(b);
    t.MulOne(a);
  }

  /** Table multiplication is carry-less multiplication modulo x^8 + x^4 + x^3 + x + 1. */
  lemma {:induction false} MulIsCarryLess(t: LogTables<bv8>, a: bv8, b: bv8)
    requires PowersOf3(t)
    ensures t.Mul(a, b) == CarryLess(a, b)
    decreases b as nat
  {
    if b != 0 {
      MulBits(t, a, b);
      HalveLess(b);
      MulIsCarryLess(t, XTime(a), b >> 1);
    }
  }

  /** The operations of GF256 as a field. */
  function FieldOf(t: LogTables<bv8>): Field<bv8> {
    Field(0, 1, Add, Neg, (a, b) => t.Mul(a, b), b => t.Inverse(b))
  }

  lemma XorLaws(a: bv8, b: bv8, c: bv8)
    ensures a ^ b == b ^ a
    ensures (a ^ b) ^ c == a ^ (b ^ c)
    ensures a ^ 0 == a
    ensures a ^ (0 ^ a) == 0
  {
  }

  lemma PowersOf3MakeField(t: LogTables<bv8>)
    requires PowersOf3(t)
    ensures FieldOf(t).IsField()
  {
    var f := FieldOf(t);
    forall a, b ensures f.AddComm(a, b) { XorLaws(a, b, 0); }
    forall a, b, c ensures f.AddAssoc(a, b, c) { XorLaws(a, b, c); }
    forall a ensures f.AddZero(a) { XorLaws(a, 0, 0); }
    forall a ensures f.AddNeg(a) { XorLaws(a, 0, 0); }
    forall a, b ensures f.MulComm(a, b) { t.MulComm(a, b); }
    forall a, b, c ensures f.MulAssoc(a, b, c) { t.MulAssoc(a, b, c); }
    forall a ensures f.MulOne(a) { t.MulOne(a); }
    forall a ensures f.MulInv(a) { if a != 0 { t.MulInverse(a); } }
    forall a, b, c ensures f.Distrib(a, b, c) { Distributes(t, a, b, c); }
  }

  /** Subtraction and division of the source are those of the field. */
  lemma SubAndDivAreTheFields(t: LogTables<bv8>, a: bv8, b: bv8)
    requires PowersOf3(t)
    ensures Sub(a, b) == FieldOf(t).Sub(a, b)
    ensures t.Div(a, b) == if b == FieldOf(t).zero then Err(InvalidInput) else Ok(FieldOf(t).mul(a, FieldOf(t).inv(b)))
  {
    assert a ^ b == a ^ (0 ^ b);
    t.DivIsMulInverse(a, b);
  }

  const GF256: Field<bv8> := FieldOf(TABLES)

  /** The operations of the source form a field. */
  lemma Gf256IsField()
    ensures GF256.IsField()
  {
    TablesArePowersOf3();
    PowersOf3MakeField(TABLES);
  }
}
