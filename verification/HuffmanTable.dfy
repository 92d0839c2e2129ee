/**
  The code table of library/http/include/http/hpack.h, and the proof that it meets what
  HuffmanCode.dfy asks of a table.  Appendix B of RFC 7541; row 6 carries the code of row 5
  instead of its own (line 313).
 */
module HuffmanTable {
  import opened Options
  import opened Bits
  import opened HuffmanCode

  // The source lines of the table, eight rows each.
  const LINE0 := [Code(0x1ff8, 13), Code(0x7fffd8, 23), Code(0xfffffe2, 28), Code(0xfffffe3, 28), Code(0xfffffe4, 28), Code(0xfffffe5, 28), Code(0xfffffe5, 28), Code(0xfffffe7, 28)]
  const LINE1 := [Code(0xfffffe8, 28), Code(0xffffea, 24), Code(0x3ffffffc, 30), Code(0xfffffe9, 28), Code(0xfffffea, 28), Code(0x3ffffffd, 30), Code(0xfffffeb, 28), Code(0xfffffec, 28)]
  const LINE2 := [Code(0xfffffed, 28), Code(0xfffffee, 28), Code(0xfffffef, 28), Code(0xffffff0, 28), Code(0xffffff1, 28), Code(0xffffff2, 28), Code(0x3ffffffe, 30), Code(0xffffff3, 28)]
  const LINE3 := [Code(0xffffff4, 28), Code(0xffffff5, 28), Code(0xffffff6, 28), Code(0xffffff7, 28), Code(0xffffff8, 28), Code(0xffffff9, 28), Code(0xffffffa, 28), Code(0xffffffb, 28)]
  const LINE4 := [Code(0x14, 6), Code(0x3f8, 10), Code(0x3f9, 10), Code(0xffa, 12), Code(0x1ff9, 13), Code(0x15, 6), Code(0xf8, 8), Code(0x7fa, 11)]
  const LINE5 := [Code(0x3fa, 10), Code(0x3fb, 10), Code(0xf9, 8), Code(0x7fb, 11), Code(0xfa, 8), Code(0x16, 6), Code(0x17, 6), Code(0x18, 6)]
  const LINE6 := [Code(0x0, 5), Code(0x1, 5), Code(0x2, 5), Code(0x19, 6), Code(0x1a, 6), Code(0x1b, 6), Code(0x1c, 6), Code(0x1d, 6)]
  const LINE7 := [Code(0x1e, 6), Code(0x1f, 6), Code(0x5c, 7), Code(0xfb, 8), Code(0x7ffc, 15), Code(0x20, 6), Code(0xffb, 12), Code(0x3fc, 10)]
  const LINE8 := [Code(0x1ffa, 13), Code(0x21, 6), Code(0x5d, 7), Code(0x5e, 7), Code(0x5f, 7), Code(0x60, 7), Code(0x61, 7), Code(0x62, 7)]
  const LINE9 := [Code(0x63, 7), Code(0x64, 7), Code(0x65, 7), Code(0x66, 7), Code(0x67, 7), Code(0x68, 7), Code(0x69, 7), Code(0x6a, 7)]
  const LINE10 := [Code(0x6b, 7), Code(0x6c, 7), Code(0x6d, 7), Code(0x6e, 7), Code(0x6f, 7), Code(0x70, 7), Code(0x71, 7), Code(0x72, 7)]
  const LINE11 := [Code(0xfc, 8), Code(0x73, 7), Code(0xfd, 8), Code(0x1ffb, 13), Code(0x7fff0, 19), Code(0x1ffc, 13), Code(0x3ffc, 14), Code(0x22, 6)]
  const LINE12 := [Code(0x7ffd, 15), Code(0x3, 5), Code(0x23, 6), Code(0x4, 5), Code(0x24, 6), Code(0x5, 5), Code(0x25, 6), Code(0x26, 6)]
  const LINE13 := [Code(0x27, 6), Code(0x6, 5), Code(0x74, 7), Code(0x75, 7), Code(0x28, 6), Code(0x29, 6), Code(0x2a, 6), Code(0x7, 5)]
  const LINE14 := [Code(0x2b, 6), Code(0x76, 7), Code(0x2c, 6), Code(0x8, 5), Code(0x9, 5), Code(0x2d, 6), Code(0x77, 7), Code(0x78, 7)]
  const LINE15 := [Code(0x79, 7), Code(0x7a, 7), Code(0x7b, 7), Code(0x7ffe, 15), Code(0x7fc, 11), Code(0x3ffd, 14), Code(0x1ffd, 13), Code(0xffffffc, 28)]
  const LINE16 := [Code(0xfffe6, 20), Code(0x3fffd2, 22), Code(0xfffe7, 20), Code(0xfffe8, 20), Code(0x3fffd3, 22), Code(0x3fffd4, 22), Code(0x3fffd5, 22), Code(0x7fffd9, 23)]
  const LINE17 := [Code(0x3fffd6, 22), Code(0x7fffda, 23), Code(0x7fffdb, 23), Code(0x7fffdc, 23), Code(0x7fffdd, 23), Code(0x7fffde, 23), Code(0xffffeb, 24), Code(0x7fffdf, 23)]
  const LINE18 := [Code(0xffffec, 24), Code(0xffffed, 24), Code(0x3fffd7, 22), Code(0x7fffe0, 23), Code(0xffffee, 24), Code(0x7fffe1, 23), Code(0x7fffe2, 23), Code(0x7fffe3, 23)]
  const LINE19 := [Code(0x7fffe4, 23), Code(0x1fffdc, 21), Code(0x3fffd8, 22), Code(0x7fffe5, 23), Code(0x3fffd9, 22), Code(0x7fffe6, 23), Code(0x7fffe7, 23), Code(0xffffef, 24)]
  const LINE20 := [Code(0x3fffda, 22), Code(0x1fffdd, 21), Code(0xfffe9, 20), Code(0x3fffdb, 22), Code(0x3fffdc, 22), Code(0x7fffe8, 23), Code(0x7fffe9, 23), Code(0x1fffde, 21)]
  const LINE21 := [Code(0x7fffea, 23), Code(0x3fffdd, 22), Code(0x3fffde, 22), Code(0xfffff0, 24), Code(0x1fffdf, 21), Code(0x3fffdf, 22), Code(0x7fffeb, 23), Code(0x7fffec, 23)]
  const LINE22 := [Code(0x1fffe0, 21), Code(0x1fffe1, 21), Code(0x3fffe0, 22), Code(0x1fffe2, 21), Code(0x7fffed, 23), Code(0x3fffe1, 22), Code(0x7fffee, 23), Code(0x7fffef, 23)]
  const LINE23 := [Code(0xfffea, 20), Code(0x3fffe2, 22), Code(0x3fffe3, 22), Code(0x3fffe4, 22), Code(0x7ffff0, 23), Code(0x3fffe5, 22), Code(0x3fffe6, 22), Code(0x7ffff1, 23)]
  const LINE24 := [Code(0x3ffffe0, 26), Code(0x3ffffe1, 26), Code(0xfffeb, 20), Code(0x7fff1, 19), Code(0x3fffe7, 22), Code(0x7ffff2, 23), Code(0x3fffe8, 22), Code(0x1ffffec, 25)]
  const LINE25 := [Code(0x3ffffe2, 26), Code(0x3ffffe3, 26), Code(0x3ffffe4, 26), Code(0x7ffffde, 27), Code(0x7ffffdf, 27), Code(0x3ffffe5, 26), Code(0xfffff1, 24), Code(0x1ffffed, 25)]
  const LINE26 := [Code(0x7fff2, 19), Code(0x1fffe3, 21), Code(0x3ffffe6, 26), Code(0x7ffffe0, 27), Code(0x7ffffe1, 27), Code(0x3ffffe7, 26), Code(0x7ffffe2, 27), Code(0xfffff2, 24)]
  const LINE27 := [Code(0x1fffe4, 21), Code(0x1fffe5, 21), Code(0x3ffffe8, 26), Code(0x3ffffe9, 26), Code(0xffffffd, 28), Code(0x7ffffe3, 27), Code(0x7ffffe4, 27), Code(0x7ffffe5, 27)]
  const LINE28 := [Code(0xfffec, 20), Code(0xfffff3, 24), Code(0xfffed, 20), Code(0x1fffe6, 21), Code(0x3fffe9, 22), Code(0x1fffe7, 21), Code(0x1fffe8, 21), Code(0x7ffff3, 23)]
  const LINE29 := [Code(0x3fffea, 22), Code(0x3fffeb, 22), Code(0x1ffffee, 25), Code(0x1ffffef, 25), Code(0xfffff4, 24), Code(0xfffff5, 24), Code(0x3ffffea, 26), Code(0x7ffff4, 23)]
  const LINE30 := [Code(0x3ffffeb, 26), Code(0x7ffffe6, 27), Code(0x3ffffec, 26), Code(0x3ffffed, 26), Code(0x7ffffe7, 27), Code(0x7ffffe8, 27), Code(0x7ffffe9, 27), Code(0x7ffffea, 27)]
  const LINE31 := [Code(0x7ffffeb, 27), Code(0xffffffe, 28), Code(0x7ffffec, 27), Code(0x7ffffed, 27), Code(0x7ffffee, 27), Code(0x7ffffef, 27), Code(0x7fffff0, 27), Code(0x3ffffee, 26)]
  const LINE32 := [Code(0x3fffffff, 30)]

  function Line(n: nat): (rows: seq<Code>)
    requires n <= 32
    ensures |rows| == if n < 32 then 8 else 1
  {
    match n
    case 0 => LINE0
    case 1 => LINE1
    case 2 => LINE2
    case 3 => LINE3
    case 4 => LINE4
    case 5 => LINE5
    case 6 => LINE6
    case 7 => LINE7
    case 8 => LINE8
    case 9 => LINE9
    case 10 => LINE10
    case 11 => LINE11
    case 12 => LINE12
    case 13 => LINE13
    case 14 => LINE14
    case 15 => LINE15
    case 16 => LINE16
    case 17 => LINE17
    case 18 => LINE18
    case 19 => LINE19
    case 20 => LINE20
    case 21 => LINE21
    case 22 => LINE22
    case 23 => LINE23
    case 24 => LINE24
    case 25 => LINE25
    case 26 => LINE26
    case 27 => LINE27
    case 28 => LINE28
    case 29 => LINE29
    case 30 => LINE30
    case 31 => LINE31
    case _ => LINE32
  }

  function Row(i: nat): Code
    requires i <= EOS
  {
    Line(i / 8)[i % 8]
  }

  function StaticHuffman(): (table: seq<Code>)
    ensures |table| == EOS + 1
    ensures forall i :: 0 <= i <= EOS ==> table[i] == Row(i)
  {
    seq(EOS + 1, i requires 0 <= i <= EOS => Row(i))
  }

  /** One more than the largest code of length n or shorter, counted at length n. */
  function Limit(n: nat): nat {
    match n
    case 5 => 0xa
    case 6 => 0x2e
    case 7 => 0x7c
    case 8 => 0xfe
    case 9 => 0x1fc
    case 10 => 0x3fd
    case 11 => 0x7fd
    case 12 => 0xffc
    case 13 => 0x1ffe
    case 14 => 0x3ffe
    case 15 => 0x7fff
    case 16 => 0xfffe
    case 17 => 0x1fffc
    case 18 => 0x3fff8
    case 19 => 0x7fff3
    case 20 => 0xfffee
    case 21 => 0x1fffe9
    case 22 => 0x3fffec
    case 23 => 0x7ffff5
    case 24 => 0xfffff6
    case 25 => 0x1fffff0
    case 26 => 0x3ffffef
    case 27 => 0x7fffff1
    case 28 => 0xfffffff
    case 29 => 0x1ffffffe
    case 30 => 0x40000000
    case _ => 0
  }

  // The rows of each code length in the order of their codes; for a shared code the later row.

  function Rows5(k: int): nat {
    match k case 0 => 48 case 1 => 49 case 2 => 50 case 3 => 97 case 4 => 99 case 5 => 101 case 6 => 105 case 7 => 111 case 8 => 115 case 9 => 116 case _ => 999
  }

  function Rows6(k: int): nat {
    match k case 0 => 32 case 1 => 37 case 2 => 45 case 3 => 46 case 4 => 47 case 5 => 51 case 6 => 52 case 7 => 53 case 8 => 54 case 9 => 55 case 10 => 56 case 11 => 57 case 12 => 61 case 13 => 65 case 14 => 95 case 15 => 98 case 16 => 100 case 17 => 102 case 18 => 103 case 19 => 104 case 20 => 108 case 21 => 109 case 22 => 110 case 23 => 112 case 24 => 114 case 25 => 117 case _ => 999
  }

  function Rows7(k: int): nat {
    match k case 0 => 58 case 1 => 66 case 2 => 67 case 3 => 68 case 4 => 69 case 5 => 70 case 6 => 71 case 7 => 72 case 8 => 73 case 9 => 74 case 10 => 75 case 11 => 76 case 12 => 77 case 13 => 78 case 14 => 79 case 15 => 80 case 16 => 81 case 17 => 82 case 18 => 83 case 19 => 84 case 20 => 85 case 21 => 86 case 22 => 87 case 23 => 89 case 24 => 106 case 25 => 107 case 26 => 113 case 27 => 118 case 28 => 119 case 29 => 120 case 30 => 121 case 31 => 122 case _ => 999
  }

  function Rows8(k: int): nat {
    match k case 0 => 38 case 1 => 42 case 2 => 44 case 3 => 59 case 4 => 88 case 5 => 90 case _ => 999
  }

  function Rows10(k: int): nat {
    match k case 0 => 33 case 1 => 34 case 2 => 40 case 3 => 41 case 4 => 63 case _ => 999
  }

  function Rows11(k: int): nat {
    match k case 0 => 39 case 1 => 43 case 2 => 124 case _ => 999
  }

  function Rows12(k: int): nat {
    match k case 0 => 35 case 1 => 62 case _ => 999
  }

  function Rows13(k: int): nat {
    match k case 0 => 0 case 1 => 36 case 2 => 64 case 3 => 91 case 4 => 93 case 5 => 126 case _ => 999
  }

  function Rows14(k: int): nat {
    match k case 0 => 94 case 1 => 125 case _ => 999
  }

  function Rows15(k: int): nat {
    match k case 0 => 60 case 1 => 96 case 2 => 123 case _ => 999
  }

  function Rows19(k: int): nat {
    match k case 0 => 92 case 1 => 195 case 2 => 208 case _ => 999
  }

  function Rows20(k: int): nat {
    match k case 0 => 128 case 1 => 130 case 2 => 131 case 3 => 162 case 4 => 184 case 5 => 194 case 6 => 224 case 7 => 226 case _ => 999
  }

  function Rows21(k: int): nat {
    match k case 0 => 153 case 1 => 161 case 2 => 167 case 3 => 172 case 4 => 176 case 5 => 177 case 6 => 179 case 7 => 209 case 8 => 216 case 9 => 217 case 10 => 227 case 11 => 229 case 12 => 230 case _ => 999
  }

  function Rows22(k: int): nat {
    match k case 0 => 129 case 1 => 132 case 2 => 133 case 3 => 134 case 4 => 136 case 5 => 146 case 6 => 154 case 7 => 156 case 8 => 160 case 9 => 163 case 10 => 164 case 11 => 169 case 12 => 170 case 13 => 173 case 14 => 178 case 15 => 181 case 16 => 185 case 17 => 186 case 18 => 187 case 19 => 189 case 20 => 190 case 21 => 196 case 22 => 198 case 23 => 228 case 24 => 232 case 25 => 233 case _ => 999
  }

  function Rows23(k: int): nat {
    match k case 0 => 1 case 1 => 135 case 2 => 137 case 3 => 138 case 4 => 139 case 5 => 140 case 6 => 141 case 7 => 143 case 8 => 147 case 9 => 149 case 10 => 150 case 11 => 151 case 12 => 152 case 13 => 155 case 14 => 157 case 15 => 158 case 16 => 165 case 17 => 166 case 18 => 168 case 19 => 174 case 20 => 175 case 21 => 180 case 22 => 182 case 23 => 183 case 24 => 188 case 25 => 191 case 26 => 197 case 27 => 231 case 28 => 239 case _ => 999
  }

  function Rows24(k: int): nat {
    match k case 0 => 9 case 1 => 142 case 2 => 144 case 3 => 145 case 4 => 148 case 5 => 159 case 6 => 171 case 7 => 206 case 8 => 215 case 9 => 225 case 10 => 236 case 11 => 237 case _ => 999
  }

  function Rows25(k: int): nat {
    match k case 0 => 199 case 1 => 207 case 2 => 234 case 3 => 235 case _ => 999
  }

  function Rows26(k: int): nat {
    match k case 0 => 192 case 1 => 193 case 2 => 200 case 3 => 201 case 4 => 202 case 5 => 205 case 6 => 210 case 7 => 213 case 8 => 218 case 9 => 219 case 10 => 238 case 11 => 240 case 12 => 242 case 13 => 243 case 14 => 255 case _ => 999
  }

  function Rows27(k: int): nat {
    match k case 0 => 203 case 1 => 204 case 2 => 211 case 3 => 212 case 4 => 214 case 5 => 221 case 6 => 222 case 7 => 223 case 8 => 241 case 9 => 244 case 10 => 245 case 11 => 246 case 12 => 247 case 13 => 248 case 14 => 250 case 15 => 251 case 16 => 252 case 17 => 253 case 18 => 254 case _ => 999
  }

  function Rows28(k: int): nat {
    match k case 0 => 2 case 1 => 3 case 2 => 4 case 3 => 6 case 4 => 0 case 5 => 7 case 6 => 8 case 7 => 11 case 8 => 12 case 9 => 14 case 10 => 15 case 11 => 16 case 12 => 17 case 13 => 18 case 14 => 19 case 15 => 20 case 16 => 21 case 17 => 23 case 18 => 24 case 19 => 25 case 20 => 26 case 21 => 27 case 22 => 28 case 23 => 29 case 24 => 30 case 25 => 31 case 26 => 127 case 27 => 220 case 28 => 249 case _ => 999
  }

  function Rows30(k: int): nat {
    match k case 0 => 10 case 1 => 13 case 2 => 22 case 3 => 256 case _ => 999
  }

  /** The row that holds the k-th code of length n. */
  function RowOfCode(n: nat, k: int): nat {
    match n
    case 5 => Rows5(k)
    case 6 => Rows6(k)
    case 7 => Rows7(k)
    case 8 => Rows8(k)
    case 10 => Rows10(k)
    case 11 => Rows11(k)
    case 12 => Rows12(k)
    case 13 => Rows13(k)
    case 14 => Rows14(k)
    case 15 => Rows15(k)
    case 19 => Rows19(k)
    case 20 => Rows20(k)
    case 21 => Rows21(k)
    case 22 => Rows22(k)
    case 23 => Rows23(k)
    case 24 => Rows24(k)
    case 25 => Rows25(k)
    case 26 => Rows26(k)
    case 27 => Rows27(k)
    case 28 => Rows28(k)
    case 30 => Rows30(k)
    case _ => 999
  }

  /** The row a code decodes to. */
  function Rep(i: nat): nat {
    if i == 5 then 6 else i
  }

  /** A row lies in the range of its length and is found there again. */
  predicate RowOk(r: Code, i: nat) {
    && 5 <= r.len <= 30
    && 2 * Limit(r.len - 1) <= r.code < Limit(r.len)
    && RowOfCode(r.len, r.code - 2 * Limit(r.len - 1)) == Rep(i)
  }

  lemma Line0Ok()
    ensures forall j: nat :: j < 8 ==> RowOk(LINE0[j], 0 + j)
  {
    assert RowOk(LINE0[0], 0) && RowOk(LINE0[1], 1) && RowOk(LINE0[2], 2) && RowOk(LINE0[3], 3);
    assert RowOk(LINE0[4], 4) && RowOk(LINE0[5], 5) && RowOk(LINE0[6], 6) && RowOk(LINE0[7], 7);
    hide *;
  }

  lemma Line1Ok()
    ensures forall j: nat :: j < 8 ==> RowOk(LINE1[j], 8 + j)
  {
    assert RowOk(LINE1[0], 8) && RowOk(LINE1[1], 9) && RowOk(LINE1[2], 10) && RowOk(LINE1[3], 11);
    assert RowOk(LINE1[4], 12) && RowOk(LINE1[5], 13) && RowOk(LINE1[6], 14) && RowOk(LINE1[7], 15);
    hide *;
  }

  lemma Line2Ok()
    ensures forall j: nat :: j < 8 ==> RowOk(LINE2[j], 16 + j)
  {
    assert RowOk(LINE2[0], 16) && RowOk(LINE2[1], 17) && RowOk(LINE2[2], 18) && RowOk(LINE2[3], 19);
    assert RowOk(LINE2[4], 20) && RowOk(LINE2[5], 21) && RowOk(LINE2[6], 22) && RowOk(LINE2[7], 23);
    hide *;
  }

  lemma Line3Ok()
    ensures forall j: nat :: j < 8 ==> RowOk(LINE3[j], 24 + j)
  {
    assert RowOk(LINE3[0], 24) && RowOk(LINE3[1], 25) && RowOk(LINE3[2], 26) && RowOk(LINE3[3], 27);
    assert RowOk(LINE3[4], 28) && RowOk(LINE3[5], 29) && RowOk(LINE3[6], 30) && RowOk(LINE3[7], 31);
    hide *;
  }

  lemma Line4Ok()
    ensures forall j: nat :: j < 8 ==> RowOk(LINE4[j], 32 + j)
  {
    assert RowOk(LINE4[0], 32) && RowOk(LINE4[1], 33) && RowOk(LINE4[2], 34) && RowOk(LINE4[3], 35);
    assert RowOk(LINE4[4], 36) && RowOk(LINE4[5], 37) && RowOk(LINE4[6], 38) && RowOk(LINE4[7], 39);
    hide *;
  }

  lemma Line5Ok()
    ensures forall j: nat :: j < 8 ==> RowOk(LINE5[j], 40 + j)
  {
    assert RowOk(LINE5[0], 40) && RowOk(LINE5[1], 41) && RowOk(LINE5[2], 42) && RowOk(LINE5[3], 43);
    assert RowOk(LINE5[4], 44) && RowOk(LINE5[5], 45) && RowOk(LINE5[6], 46) && RowOk(LINE5[7], 47);
    hide *;
  }

  lemma Line6Ok()
    ensures forall j: nat :: j < 8 ==> RowOk(LINE6[j], 48 + j)
  {
    assert RowOk(LINE6[0], 48) && RowOk(LINE6[1], 49) && RowOk(LINE6[2], 50) && RowOk(LINE6[3], 51);
    assert RowOk(LINE6[4], 52) && RowOk(LINE6[5], 53) && RowOk(LINE6[6], 54) && RowOk(LINE6[7], 55);
    hide *;
  }

  lemma Line7Ok()
    ensures forall j: nat :: j < 8 ==> RowOk(LINE7[j], 56 + j)
  {
    assert RowOk(LINE7[0], 56) && RowOk(LINE7[1], 57) && RowOk(LINE7[2], 58) && RowOk(LINE7[3], 59);
    assert RowOk(LINE7[4], 60) && RowOk(LINE7[5], 61) && RowOk(LINE7[6], 62) && RowOk(LINE7[7], 63);
    hide *;
  }

  lemma Line8Ok()
    ensures forall j: nat :: j < 8 ==> RowOk(LINE8[j], 64 + j)
  {
    assert RowOk(LINE8[0], 64) && RowOk(LINE8[1], 65) && RowOk(LINE8[2], 66) && RowOk(LINE8[3], 67);
    assert RowOk(LINE8[4], 68) && RowOk(LINE8[5], 69) && RowOk(LINE8[6], 70) && RowOk(LINE8[7], 71);
    hide *;
  }

  lemma Line9Ok()
    ensures forall j: nat :: j < 8 ==> RowOk(LINE9[j], 72 + j)
  {
    assert RowOk(LINE9[0], 72) && RowOk(LINE9[1], 73) && RowOk(LINE9[2], 74) && RowOk(LINE9[3], 75);
    assert RowOk(LINE9[4], 76) && RowOk(LINE9[5], 77) && RowOk(LINE9[6], 78) && RowOk(LINE9[7], 79);
    hide *;
  }

  lemma Line10Ok()
    ensures forall j: nat :: j < 8 ==> RowOk(LINE10[j], 80 + j)
  {
    assert RowOk(LINE10[0], 80) && RowOk(LINE10[1], 81) && RowOk(LINE10[2], 82) && RowOk(LINE10[3], 83);
    assert RowOk(LINE10[4], 84) && RowOk(LINE10[5], 85) && RowOk(LINE10[6], 86) && RowOk(LINE10[7], 87);
    hide *;
  }

  lemma Line11Ok()
    ensures forall j: nat :: j < 8 ==> RowOk(LINE11[j], 88 + j)
  {
    assert RowOk(LINE11[0], 88) && RowOk(LINE11[1], 89) && RowOk(LINE11[2], 90) && RowOk(LINE11[3], 91);
    assert RowOk(LINE11[4], 92) && RowOk(LINE11[5], 93) && RowOk(LINE11[6], 94) && RowOk(LINE11[7], 95);
    hide *;
  }

  lemma Line12Ok()
    ensures forall j: nat :: j < 8 ==> RowOk(LINE12[j], 96 + j)
  {
    assert RowOk(LINE12[0], 96);
    assert RowOk(LINE12[1], 97);
    assert RowOk(LINE12[2], 98);
    assert RowOk(LINE12[3], 99);
    assert RowOk(LINE12[4], 100);
    assert RowOk(LINE12[5], 101);
    assert RowOk(LINE12[6], 102);
    assert RowOk(LINE12[7], 103);
    hide *;
  }

  lemma Line13Ok()
    ensures forall j: nat :: j < 8 ==> RowOk(LINE13[j], 104 + j)
  {
    assert RowOk(LINE13[0], 104) && RowOk(LINE13[1], 105) && RowOk(LINE13[2], 106) && RowOk(LINE13[3], 107);
    assert RowOk(LINE13[4], 108) && RowOk(LINE13[5], 109) && RowOk(LINE13[6], 110) && RowOk(LINE13[7], 111);
    hide *;
  }

  lemma Line14Ok()
    ensures forall j: nat :: j < 8 ==> RowOk(LINE14[j], 112 + j)
  {
    assert RowOk(LINE14[0], 112) && RowOk(LINE14[1], 113) && RowOk(LINE14[2], 114) && RowOk(LINE14[3], 115);
    assert RowOk(LINE14[4], 116) && RowOk(LINE14[5], 117) && RowOk(LINE14[6], 118) && RowOk(LINE14[7], 119);
    hide *;
  }

  lemma Line15Ok()
    ensures forall j: nat :: j < 8 ==> RowOk(LINE15[j], 120 + j)
  {
    assert RowOk(LINE15[0], 120) && RowOk(LINE15[1], 121) && RowOk(LINE15[2], 122) && RowOk(LINE15[3], 123);
    assert RowOk(LINE15[4], 124) && RowOk(LINE15[5], 125) && RowOk(LINE15[6], 126) && RowOk(LINE15[7], 127);
    hide *;
  }

  lemma Line16Ok()
    ensures forall j: nat :: j < 8 ==> RowOk(LINE16[j], 128 + j)
  {
    assert RowOk(LINE16[0], 128) && RowOk(LINE16[1], 129) && RowOk(LINE16[2], 130) && RowOk(LINE16[3], 131);
    assert RowOk(LINE16[4], 132) && RowOk(LINE16[5], 133) && RowOk(LINE16[6], 134) && RowOk(LINE16[7], 135);
    hide *;
  }

  lemma Line17Ok()
    ensures forall j: nat :: j < 8 ==> RowOk(LINE17[j], 136 + j)
  {
    assert RowOk(LINE17[0], 136) && RowOk(LINE17[1], 137) && RowOk(LINE17[2], 138) && RowOk(LINE17[3], 139);
    assert RowOk(LINE17[4], 140) && RowOk(LINE17[5], 141) && RowOk(LINE17[6], 142) && RowOk(LINE17[7], 143);
    hide *;
  }

  lemma Line18Ok()
    ensures forall j: nat :: j < 8 ==> RowOk(LINE18[j], 144 + j)
  {
    assert RowOk(LINE18[0], 144) && RowOk(LINE18[1], 145) && RowOk(LINE18[2], 146) && RowOk(LINE18[3], 147);
    assert RowOk(LINE18[4], 148) && RowOk(LINE18[5], 149) && RowOk(LINE18[6], 150) && RowOk(LINE18[7], 151);
    hide *;
  }

  lemma Line19Ok()
    ensures forall j: nat :: j < 8 ==> RowOk(LINE19[j], 152 + j)
  {
    assert RowOk(LINE19[0], 152) && RowOk(LINE19[1], 153) && RowOk(LINE19[2], 154) && RowOk(LINE19[3], 155);
    assert RowOk(LINE19[4], 156) && RowOk(LINE19[5], 157) && RowOk(LINE19[6], 158) && RowOk(LINE19[7], 159);
    hide *;
  }

  lemma Line20Ok()
    ensures forall j: nat :: j < 8 ==> RowOk(LINE20[j], 160 + j)
  {
    assert RowOk(LINE20[0], 160) && RowOk(LINE20[1], 161) && RowOk(LINE20[2], 162) && RowOk(LINE20[3], 163);
    assert RowOk(LINE20[4], 164) && RowOk(LINE20[5], 165) && RowOk(LINE20[6], 166) && RowOk(LINE20[7], 167);
    hide *;
  }

  lemma Line21Ok()
    ensures forall j: nat :: j < 8 ==> RowOk(LINE21[j], 168 + j)
  {
    assert RowOk(LINE21[0], 168) && RowOk(LINE21[1], 169) && RowOk(LINE21[2], 170) && RowOk(LINE21[3], 171);
    assert RowOk(LINE21[4], 172) && RowOk(LINE21[5], 173) && RowOk(LINE21[6], 174) && RowOk(LINE21[7], 175);
    hide *;
  }

  lemma Line22Ok()
    ensures forall j: nat :: j < 8 ==> RowOk(LINE22[j], 176 + j)
  {
    assert RowOk(LINE22[0], 176) && RowOk(LINE22[1], 177) && RowOk(LINE22[2], 178) && RowOk(LINE22[3], 179);
    assert RowOk(LINE22[4], 180) && RowOk(LINE22[5], 181) && RowOk(LINE22[6], 182) && RowOk(LINE22[7], 183);
    hide *;
  }

  lemma Line23Ok()
    ensures forall j: nat :: j < 8 ==> RowOk(LINE23[j], 184 + j)
  {
    assert RowOk(LINE23[0], 184) && RowOk(LINE23[1], 185) && RowOk(LINE23[2], 186) && RowOk(LINE23[3], 187);
    assert RowOk(LINE23[4], 188) && RowOk(LINE23[5], 189) && RowOk(LINE23[6], 190) && RowOk(LINE23[7], 191);
    hide *;
  }

  lemma Line24Ok()
    ensures forall j: nat :: j < 8 ==> RowOk(LINE24[j], 192 + j)
  {
    assert RowOk(LINE24[0], 192) && RowOk(LINE24[1], 193) && RowOk(LINE24[2], 194) && RowOk(LINE24[3], 195);
    assert RowOk(LINE24[4], 196) && RowOk(LINE24[5], 197) && RowOk(LINE24[6], 198) && RowOk(LINE24[7], 199);
    hide *;
  }

  lemma Line25Ok()
    ensures forall j: nat :: j < 8 ==> RowOk(LINE25[j], 200 + j)
  {
    assert RowOk(LINE25[0], 200) && RowOk(LINE25[1], 201) && RowOk(LINE25[2], 202) && RowOk(LINE25[3], 203);
    assert RowOk(LINE25[4], 204) && RowOk(LINE25[5], 205) && RowOk(LINE25[6], 206) && RowOk(LINE25[7], 207);
    hide *;
  }

  lemma Line26Ok()
    ensures forall j: nat :: j < 8 ==> RowOk(LINE26[j], 208 + j)
  {
    assert RowOk(LINE26[0], 208) && RowOk(LINE26[1], 209) && RowOk(LINE26[2], 210) && RowOk(LINE26[3], 211);
    assert RowOk(LINE26[4], 212) && RowOk(LINE26[5], 213) && RowOk(LINE26[6], 214) && RowOk(LINE26[7], 215);
    hide *;
  }

  lemma Line27Ok()
    ensures forall j: nat :: j < 8 ==> RowOk(LINE27[j], 216 + j)
  {
    assert RowOk(LINE27[0], 216) && RowOk(LINE27[1], 217) && RowOk(LINE27[2], 218) && RowOk(LINE27[3], 219);
    assert RowOk(LINE27[4], 220) && RowOk(LINE27[5], 221) && RowOk(LINE27[6], 222) && RowOk(LINE27[7], 223);
    hide *;
  }

  lemma Line28Ok()
    ensures forall j: nat :: j < 8 ==> RowOk(LINE28[j], 224 + j)
  {
    assert RowOk(LINE28[0], 224) && RowOk(LINE28[1], 225) && RowOk(LINE28[2], 226) && RowOk(LINE28[3], 227);
    assert RowOk(LINE28[4], 228) && RowOk(LINE28[5], 229) && RowOk(LINE28[6], 230) && RowOk(LINE28[7], 231);
    hide *;
  }

  lemma Line29Ok()
    ensures forall j: nat :: j < 8 ==> RowOk(LINE29[j], 232 + j)
  {
    assert RowOk(LINE29[0], 232) && RowOk(LINE29[1], 233) && RowOk(LINE29[2], 234) && RowOk(LINE29[3], 235);
    assert RowOk(LINE29[4], 236) && RowOk(LINE29[5], 237) && RowOk(LINE29[6], 238) && RowOk(LINE29[7], 239);
    hide *;
  }

  lemma Line30Ok()
    ensures forall j: nat :: j < 8 ==> RowOk(LINE30[j], 240 + j)
  {
    assert RowOk(LINE30[0], 240) && RowOk(LINE30[1], 241) && RowOk(LINE30[2], 242) && RowOk(LINE30[3], 243);
    assert RowOk(LINE30[4], 244) && RowOk(LINE30[5], 245) && RowOk(LINE30[6], 246) && RowOk(LINE30[7], 247);
    hide *;
  }

  lemma Line31Ok()
    ensures forall j: nat :: j < 8 ==> RowOk(LINE31[j], 248 + j)
  {
    assert RowOk(LINE31[0], 248) && RowOk(LINE31[1], 249) && RowOk(LINE31[2], 250) && RowOk(LINE31[3], 251);
    assert RowOk(LINE31[4], 252) && RowOk(LINE31[5], 253) && RowOk(LINE31[6], 254) && RowOk(LINE31[7], 255);
    hide *;
  }

  lemma Line32Ok()
    ensures forall j: nat :: j < 1 ==> RowOk(LINE32[j], 256 + j)
  {
    assert RowOk(LINE32[0], 256);
  }

  lemma LineOk(n: nat, j: nat)
    requires n <= 32 && j < |Line(n)|
    ensures RowOk(Line(n)[j], 8 * n + j)
  {
    hide RowOk;
    match n
    case 0 => Line0Ok();
    case 1 => Line1Ok();
    case 2 => Line2Ok();
    case 3 => Line3Ok();
    case 4 => Line4Ok();
    case 5 => Line5Ok();
    case 6 => Line6Ok();
    case 7 => Line7Ok();
    case 8 => Line8Ok();
    case 9 => Line9Ok();
    case 10 => Line10Ok();
    case 11 => Line11Ok();
    case 12 => Line12Ok();
    case 13 => Line13Ok();
    case 14 => Line14Ok();
    case 15 => Line15Ok();
    case 16 => Line16Ok();
    case 17 => Line17Ok();
    case 18 => Line18Ok();
    case 19 => Line19Ok();
    case 20 => Line20Ok();
    case 21 => Line21Ok();
    case 22 => Line22Ok();
    case 23 => Line23Ok();
    case 24 => Line24Ok();
    case 25 => Line25Ok();
    case 26 => Line26Ok();
    case 27 => Line27Ok();
    case 28 => Line28Ok();
    case 29 => Line29Ok();
    case 30 => Line30Ok();
    case 31 => Line31Ok();
    case _ => Line32Ok();
  }

  lemma EveryRowOk(i: nat)
    requires i <= EOS
    ensures RowOk(Row(i), i)
  {
    LineOk(i / 8, i % 8);
  }

  // Codes of different lengths: a longer code starts where the shorter ones stop.

  lemma LimitGrows(n: nat)
    requires 5 <= n <= 30
    ensures 2 * Limit(n - 1) <= Limit(n)
  {
  }

  lemma {:induction false} LimitScaled(n: nat, k: nat)
    requires 4 <= n && n + k <= 30
    ensures Limit(n) * Pow2(k) <= Limit(n + k)
  {
    hide Limit;
    if k > 0 {
      LimitScaled(n, k - 1);
      LimitGrows(n + k);
      Double(Limit(n), Pow2(k - 1));
    }
  }

  lemma CodeSpace()
    ensures Pow2(30) == Limit(30)
  {
    Pow2Of30();
  }

  lemma LimitFits(n: nat)
    requires 4 <= n <= 30
    ensures Limit(n) <= Pow2(n)
  {
    CodeSpace();
    LimitScaled(n, 30 - n);
    Pow2Add(n, 30 - n);
    hide Limit;
    Cancel(Limit(n), Pow2(n), Pow2(30 - n));
  }

  /** The first m bits of a longer code number at least as high as all codes of length m or shorter end. */
  lemma {:induction false} LongerIsBeyond(m: nat, n: nat, c: nat)
    requires 4 <= m < n <= 30 && 2 * Limit(n - 1) <= c
    ensures Limit(m) <= c / Pow2(n - m)
    decreases n - m
  {
    hide Limit;
    if n == m + 1 {
      assert Pow2(1) == 2 * Pow2(0);
    } else {
      LimitGrows(n - 1);
      LongerIsBeyond(m, n - 1, c / 2);
      DivTwice(c, Pow2(n - 1 - m));
    }
  }

  /** Two good rows, one's bits beginning the other's, are the same row but for the shared code. */
  lemma GoodRowsPrefixFree(a: Code, i: nat, b: Code, j: nat)
    requires RowOk(a, i) && RowOk(b, j) && BitsOf(a.code, a.len) <= BitsOf(b.code, b.len)
    ensures a == b && Rep(i) == Rep(j)
  {
    hide Limit, RowOfCode, BitsOf, Pow2, Val, Rep;
    LimitFits(a.len);
    LimitFits(b.len);
    PrefixIsShift(a.code, a.len, b.code, b.len);
    if a.len < b.len {
      LongerIsBeyond(a.len, b.len, b.code);
    } else {
      Pow2Zero();
    }
  }

  lemma Pow2Zero()
    ensures Pow2(0) == 1
  {
  }

  lemma RowsPrefixFree(i: nat, j: nat)
    requires i <= EOS && j <= EOS
    requires CodeBits(StaticHuffman(), i) <= CodeBits(StaticHuffman(), j)
    ensures Row(i) == Row(j) && Rep(i) == Rep(j)
  {
    hide RowOk, Row, BitsOf;
    EveryRowOk(i);
    EveryRowOk(j);
    GoodRowsPrefixFree(Row(i), i, Row(j), j);
  }

  lemma RowFits(i: nat)
    requires i <= EOS
    ensures 1 <= Row(i).len && Row(i).code < Pow2(Row(i).len)
  {
    EveryRowOk(i);
    hide Limit, RowOfCode, Row;
    LimitFits(Row(i).len);
  }

  lemma EosRow()
    ensures Row(EOS) == Code(0x3fffffff, 30) && BitsOf(0x3fffffff, 30) == Ones(30)
  {
    assert Row(EOS) == LINE32[0] == Code(0x3fffffff, 30);
    hide Row, BitsOf, Val;
    CodeSpace();
    ValOnes(30);
    BitsOfVal(Ones(30));
  }

  lemma TableIsGood()
    ensures GoodTable(StaticHuffman())
  {
    hide Row, BitsOf, Pow2;
    var t := StaticHuffman();
    forall i | 0 <= i < |t| ensures 1 <= t[i].len && t[i].code < Pow2(t[i].len) {
      RowFits(i);
    }
    forall i, j | 0 <= i < |t| && 0 <= j < |t| && CodeBits(t, i) <= CodeBits(t, j)
      ensures CodeBits(t, i) == CodeBits(t, j)
    {
      RowsPrefixFree(i, j);
    }
    EosRow();
  }

  /** Byte 5 comes back as byte 6, every other byte as itself. */
  lemma TableCanon(c: Byte)
    ensures LastRow(StaticHuffman(), CodeBits(StaticHuffman(), c)) == Rep(c)
    ensures Canon(StaticHuffman(), c) == Rep(c)
  {
    hide Row, BitsOf;
    var t := StaticHuffman();
    var r := LastRow(t, CodeBits(t, c));
    RowsPrefixFree(c, r);
    SharedCode();
    assert CodeBits(t, 5) == CodeBits(t, 6);
  }

  lemma SharedCode()
    ensures Row(5) == Row(6)
  {
    assert Row(5) == LINE0[5] && Row(6) == LINE0[6];
  }

  /** The codec of the repository: a byte string survives encoding and decoding exactly when it has no byte 5. */
  lemma StaticRoundTripIff(tree: Tree, s: seq<Byte>, k: nat)
    requires IsTreeOf(tree, StaticHuffman()) && k < 8
    ensures Decode(tree, [], Encode(StaticHuffman(), s) + Ones(k)) == Some(s) <==> 5 !in s
  {
    TableIsGood();
    forall c: Byte ensures LastRow(StaticHuffman(), CodeBits(StaticHuffman(), c)) != EOS {
      TableCanon(c);
    }
    RoundTripIff(tree, StaticHuffman(), s, k);
    forall i | 0 <= i < |s| ensures Canon(StaticHuffman(), s[i]) == Rep(s[i]) {
      TableCanon(s[i]);
    }
  }
}
