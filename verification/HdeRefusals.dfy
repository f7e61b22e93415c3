/**
  What the tables of the length decoder refuse, listed instruction by instruction.
 */
module HdeRefusals {
  import opened Words
  import opened HdeTable
  import opened HdeFormat
  import opened HdeInstruction
  import opened HdeOpcodes
  import opened HdeLayout

  // ------------------------------------------------------- prefixes of two-byte opcodes

  /** The prefixes a two-byte opcode excludes; `NoPrefix` means that it needs one. */
  function Excluded(opcode: Byte): (r: set<Pre>) {
    if opcode == 0xd6 || opcode == 0xe6 then {NoPrefix}
    else if opcode == 0x16 || opcode == 0x5b || opcode == 0x6f || 0x7e <= opcode <= 0x7f then {F2}
    else if 0xba <= opcode <= 0xbf then {F3}
    else if 0x7c <= opcode <= 0x7d || opcode == 0xd0 then {NoPrefix, F3}
    else if 0x13 <= opcode <= 0x15 || opcode == 0x17 || 0x28 <= opcode <= 0x29 || opcode == 0x2b
       || 0x2e <= opcode <= 0x2f || opcode == 0x50 || 0x54 <= opcode <= 0x57 || 0x68 <= opcode <= 0x6b
       || opcode == 0x6e || 0x71 <= opcode <= 0x76 || 0xc4 <= opcode <= 0xc6 || 0xd1 <= opcode <= 0xd5
       || opcode == 0xd7 || 0xe0 <= opcode <= 0xe5 || opcode == 0xe7 || 0xf1 <= opcode <= 0xf7 then {F2, F3}
    else if 0x6c <= opcode <= 0x6d then {NoPrefix, F2, F3}
    else if 0x52 <= opcode <= 0x53 then {F2, P66}
    else if opcode == 0xf0 then {NoPrefix, F3, P66}
    else if opcode == 0x77 || opcode == 0xc3 then {F2, F3, P66}
    else {}
  }

  function MaskByte(v: int): (m: Byte) {
    if v == 0x48 then 1
    else if v == 0x4b || v == 0x56 || v == 0x5a || 0x62 <= v <= 0x63 then 2
    else if 0x66 <= v <= 0x69 then 4
    else if 0x60 <= v <= 0x61 || v == 0x6a then 5
    else if 0x44 <= v <= 0x47 || 0x49 <= v <= 0x4a || 0x4c <= v <= 0x4d || v == 0x4f || v == 0x59
       || 0x5c <= v <= 0x5e || 0x6b <= v <= 0x6d then 6
    else if 0x57 <= v <= 0x58 then 7
    else if 0x51 <= v <= 0x52 then 10
    else if v == 0x5b then 13
    else if v == 0x5f || v == 0x71 then 14
    else 0
  }

  lemma MaskLow(r: nat, c: nat)
    requires 7 <= r <= 8 && c < 15 && 0 <= 15 * r + c - 110
    ensures Rows18(r)[c] == MaskByte(0x40 + 15 * r + c - 110)
  {}

  lemma MaskHigh(r: nat, c: nat)
    requires r <= 1 && c < 15 && 15 * r + c <= 24
    ensures Rows27(r)[c] == MaskByte(0x59 + 15 * r + c)
  {}

  lemma MaskAt(v: nat)
    requires 0x40 <= v <= 0x71
    ensures At(PREFIXES + v) == MaskByte(v)
  {
    hide Rows18, Rows27, MaskByte;
    var r, c := (PREFIXES + v) / 15, (PREFIXES + v) % 15;
    if r < 27 {
      MaskLow(r - 18, c);
    } else {
      MaskHigh(r - 27, c);
    }
  }

  function ExcludedMask(opcode: Byte): (m: Byte) {
    if opcode == 0xd6 || opcode == 0xe6 then 1
    else if opcode == 0x16 || opcode == 0x5b || opcode == 0x6f || 0x7e <= opcode <= 0x7f then 2
    else if 0xba <= opcode <= 0xbf then 4
    else if 0x7c <= opcode <= 0x7d || opcode == 0xd0 then 5
    else if 0x13 <= opcode <= 0x15 || opcode == 0x17 || 0x28 <= opcode <= 0x29 || opcode == 0x2b
       || 0x2e <= opcode <= 0x2f || opcode == 0x50 || 0x54 <= opcode <= 0x57 || 0x68 <= opcode <= 0x6b
       || opcode == 0x6e || 0x71 <= opcode <= 0x76 || 0xc4 <= opcode <= 0xc6 || 0xd1 <= opcode <= 0xd5
       || opcode == 0xd7 || 0xe0 <= opcode <= 0xe5 || opcode == 0xe7 || 0xf1 <= opcode <= 0xf7 then 6
    else if 0x6c <= opcode <= 0x6d then 7
    else if 0x52 <= opcode <= 0x53 then 10
    else if opcode == 0xf0 then 13
    else if opcode == 0x77 || opcode == 0xc3 then 14
    else 0
  }

  lemma MaskOf0(opcode: Byte)
    requires 0x00 <= opcode <= 0x3f
    ensures 0x40 <= Lead(opcode / 4) <= 0x6e && MaskByte(Lead(opcode / 4) + opcode % 4) == ExcludedMask(opcode)
  {}

  lemma MaskOf1(opcode: Byte)
    requires 0x40 <= opcode <= 0x7f
    ensures 0x40 <= Lead(opcode / 4) <= 0x6e && MaskByte(Lead(opcode / 4) + opcode % 4) == ExcludedMask(opcode)
  {}

  lemma MaskOf2(opcode: Byte)
    requires 0x80 <= opcode <= 0xbf
    ensures 0x40 <= Lead(opcode / 4) <= 0x6e && MaskByte(Lead(opcode / 4) + opcode % 4) == ExcludedMask(opcode)
  {}

  lemma MaskOf3(opcode: Byte)
    requires 0xc0 <= opcode <= 0xff
    ensures 0x40 <= Lead(opcode / 4) <= 0x6e && MaskByte(Lead(opcode / 4) + opcode % 4) == ExcludedMask(opcode)
  {}

  lemma MaskOf(opcode: Byte)
    ensures 0x40 <= Lead(opcode / 4) <= 0x6e && MaskByte(Lead(opcode / 4) + opcode % 4) == ExcludedMask(opcode)
  {
    hide Lead, MaskByte, ExcludedMask;
    if opcode < 0x40 {
      MaskOf0(opcode);
    } else if opcode < 0x80 {
      MaskOf1(opcode);
    } else if opcode < 0xc0 {
      MaskOf2(opcode);
    } else {
      MaskOf3(opcode);
    }
  }

  lemma MaskMeets(opcode: Byte, pref: set<Pre>)
    ensures Meets(ExcludedMask(opcode), pref) <==> exists k :: k in Excluded(opcode) && k in pref
  {
    var m := ExcludedMask(opcode);
    MaskBits(m);
    ExcludedKinds(opcode);
    hide ExcludedMask, Excluded, Bit;
    if Meets(m, pref) {
      if NoPrefix in pref && Bit(m, 1) {
        assert NoPrefix in Excluded(opcode);
      } else if F2 in pref && Bit(m, 2) {
        assert F2 in Excluded(opcode);
      } else if F3 in pref && Bit(m, 4) {
        assert F3 in Excluded(opcode);
      } else {
        assert P66 in Excluded(opcode);
      }
    }
  }

  lemma MaskBits(m: Byte)
    requires m < 16
    ensures !Bit(m, 0x10) && !Bit(m, 0x20) && !Bit(m, 0x40)
  {}

  lemma ExcludedKinds(opcode: Byte)
    ensures ExcludedMask(opcode) < 16
    ensures var m, e := ExcludedMask(opcode), Excluded(opcode);
            && (Bit(m, 1) <==> NoPrefix in e) && (Bit(m, 2) <==> F2 in e) && (Bit(m, 4) <==> F3 in e)
            && (Bit(m, 8) <==> P66 in e) && P67 !in e && Lock !in e && Seg !in e
  {}

  /** A two-byte opcode is refused for its prefixes exactly if one of them is on its list. */
  lemma PrefixesRefused(opcode: Byte, pref: set<Pre>)
    ensures PrefixRefused(opcode, pref) <==> exists k :: k in Excluded(opcode) && k in pref
  {
    hide At, Lead, MaskByte, ExcludedMask, Excluded, Meets;
    PrefixMap(opcode / 4);
    LeadAt(opcode / 4);
    MaskOf(opcode);
    MaskAt(Lead(opcode / 4) + opcode % 4);
    MaskMeets(opcode, pref);
  }

  // -------------------------------------------------------- floating-point encodings

  /** The floating-point encodings that do not exist. */
  predicate FpuUndefined(opcode: Byte, mod: Byte, reg: Byte, rm: Byte) {
    if mod != 3 then
      || (opcode == 0xd9 && reg == 1) || (opcode == 0xdb && (reg == 4 || reg == 6)) || (opcode == 0xdd && reg == 5)
    else
      || (opcode == 0xd9 && ((reg == 2 && rm != 0) || (reg == 5 && rm == 7)))
      || (opcode == 0xd9 && reg == 4 && (rm == 2 || rm == 3 || rm >= 6))
      || (opcode == 0xda && (reg == 4 || (reg == 5 && rm != 1) || reg >= 6))
      || (opcode == 0xdb && ((reg == 4 && rm >= 5) || reg == 7))
      || (opcode == 0xdd && reg >= 6)
      || (opcode == 0xde && reg == 3 && rm != 1)
      || (opcode == 0xdf && ((reg == 4 && rm != 0) || reg == 7))
  }

  function FpuByte(i: int): (v: Byte) {
    if i == 0x109 then 0x01
    else if i == 0x101 then 0x04
    else if i == 0x118 then 0x07
    else if i == 0xff then 0x0a
    else if i == 0x108 then 0x33
    else if i == 0xfd then 0x40
    else if i == 0x106 || i == 0x138 then 0x7f
    else if i == 0x111 || i == 0x12f then 0xbf
    else if i == 0x110 || 0x112 <= i <= 0x113 || i == 0x11b || 0x12a <= i <= 0x12b || i == 0x13b then 0xff
    else 0
  }

  lemma FpuLow(r: nat, c: nat)
    requires 7 <= r <= 8 && c < 15 && 118 <= 15 * r + c
    ensures Rows9(r)[c] == FpuByte(135 + 15 * r + c)
  {}

  lemma FpuHigh(r: nat, c: nat)
    requires r <= 3 && c < 15 && 15 * r + c <= 45
    ensures Rows18(r)[c] == FpuByte(270 + 15 * r + c)
  {}

  lemma FpuAt(i: nat)
    requires FPU_REG <= i < PREFIXES
    ensures At(i) == FpuByte(i)
  {
    hide Rows9, Rows18, FpuByte;
    if i < 270 {
      FpuLow(i / 15 - 9, i % 15);
    } else {
      FpuHigh(i / 15 - 18, i % 15);
    }
  }

  lemma TopBits(n: Byte)
    requires n < 8
    ensures !TopBit(0, n) && TopBit(0xff, n)
    ensures (TopBit(0x7f, n) <==> n != 0) && (TopBit(0x33, n) <==> n == 2 || n == 3 || n >= 6)
    ensures TopBit(0x01, n) <==> n == 7
    ensures (TopBit(0xbf, n) <==> n != 1) && (TopBit(0x07, n) <==> n >= 5) && (TopBit(0x40, n) <==> n == 1)
    ensures (TopBit(0x0a, n) <==> n == 4 || n == 6) && (TopBit(0x04, n) <==> n == 5)
  {}

  /** The tables for floating-point opcodes refuse exactly the encodings that do not exist. */
  lemma FpuExactly(opcode: Byte, mod: Byte, reg: Byte, rm: Byte)
    requires 0xd9 <= opcode <= 0xdf && reg < 8 && rm < 8
    ensures FpuRefused(opcode, mod, reg, rm) <==> FpuUndefined(opcode, mod, reg, rm)
  {
    hide At, TopBit;
    TopBits(reg);
    TopBits(rm);
    if mod == 3 {
      FpuAt(FPU_MODRM + (opcode - 0xd9) * 8 + reg);
    } else {
      FpuAt(FPU_REG + (opcode - 0xd9));
    }
  }

  // ------------------------------------------------------- register and lock lists

  /** Instructions that need a memory operand, with the prefixes for which they do. */
  predicate NeedsMemory(two: bool, opcode: Byte, reg: Byte, pref: set<Pre>) {
    if !two then
      && pref != {}
      && (opcode == 0x62 || opcode == 0x8d || opcode == 0xc4 || opcode == 0xc5 || (opcode == 0xff && (reg == 3 || reg == 5)))
    else
      || (pref != {} && ((opcode == 0x01 && (reg <= 3 || reg == 7)) || (opcode == 0xae && reg <= 4)
                         || opcode == 0xb2 || opcode == 0xb4 || opcode == 0xb5 || (opcode == 0xc7 && reg == 1)))
      || (P66 in pref && (opcode == 0x12 || opcode == 0x16 || opcode == 0xe7))
      || ((NoPrefix in pref || P66 in pref) && (opcode == 0x13 || opcode == 0x17 || opcode == 0x2b))
      || (NoPrefix in pref && opcode == 0xc3)
      || (F2 in pref && opcode == 0xf0)
  }

  /** Instructions with a memory operand that may be locked. */
  predicate Lockable(two: bool, opcode: Byte, reg: Byte) {
    if !two then
      || opcode <= 0x01 || 0x08 <= opcode <= 0x09 || 0x10 <= opcode <= 0x11 || 0x18 <= opcode <= 0x19
      || 0x20 <= opcode <= 0x21 || 0x28 <= opcode <= 0x29 || 0x30 <= opcode <= 0x31
      || (0x80 <= opcode <= 0x83 && reg != 7) || 0x86 <= opcode <= 0x87
      || (0xf6 <= opcode <= 0xf7 && (reg == 2 || reg == 3)) || (0xfe <= opcode && reg <= 1)
    else
      || opcode == 0xab || opcode == 0xb0 || opcode == 0xb1 || opcode == 0xb3 || opcode == 0xbb || opcode == 0xc0
      || opcode == 0xc1 || (opcode == 0xba && reg >= 5) || (opcode == 0xc7 && reg == 1)
  }

  lemma OneByteTriples0()
    ensures At(472) == 0x62 && At(473) == 0xff && At(474) == 0x00 && At(475) == 0x8d && At(476) == 0xff && At(477) == 0x00
    ensures At(478) == 0xc4 && At(479) == 0xff && At(480) == 0x00 && At(481) == 0xc5 && At(482) == 0xff && At(483) == 0x00
    ensures At(484) == 0xff && At(485) == 0xff && At(486) == 0xeb
  {}

  lemma TwoByteTriples0()
    ensures At(487) == 0x01 && At(488) == 0xff && At(489) == 0x0e && At(490) == 0x12 && At(491) == 0x08 && At(492) == 0x00
    ensures At(493) == 0x13 && At(494) == 0x09 && At(495) == 0x00 && At(496) == 0x16 && At(497) == 0x08 && At(498) == 0x00
    ensures At(499) == 0x17 && At(500) == 0x09 && At(501) == 0x00
  {}

  lemma TwoByteTriples1()
    ensures At(502) == 0x2b && At(503) == 0x09 && At(504) == 0x00 && At(505) == 0xae && At(506) == 0xff && At(507) == 0x07
    ensures At(508) == 0xb2 && At(509) == 0xff && At(510) == 0x00 && At(511) == 0xb4 && At(512) == 0xff && At(513) == 0x00
    ensures At(514) == 0xb5 && At(515) == 0xff && At(516) == 0x00
  {}

  lemma TwoByteTriples2()
    ensures At(517) == 0xc3 && At(518) == 0x01 && At(519) == 0x00 && At(520) == 0xc7 && At(521) == 0xff && At(522) == 0xbf
    ensures At(523) == 0xe7 && At(524) == 0x08 && At(525) == 0x00 && At(526) == 0xf0 && At(527) == 0x02 && At(528) == 0x00
  {}

  lemma OneBytePairs0()
    ensures At(430) == 0x00 && At(431) == 0x00 && At(432) == 0x08 && At(433) == 0x00 && At(434) == 0x10 && At(435) == 0x00
    ensures At(436) == 0x18 && At(437) == 0x00 && At(438) == 0x20 && At(439) == 0x00 && At(440) == 0x28 && At(441) == 0x00
  {}

  lemma OneBytePairs1()
    ensures At(442) == 0x30 && At(443) == 0x00 && At(444) == 0x80 && At(445) == 0x01 && At(446) == 0x82 && At(447) == 0x01
    ensures At(448) == 0x86 && At(449) == 0x00 && At(450) == 0xf6 && At(451) == 0xcf && At(452) == 0xfe && At(453) == 0x3f
  {}

  lemma TwoBytePairs0()
    ensures At(454) == 0xab && At(455) == 0x00 && At(456) == 0xb0 && At(457) == 0x00 && At(458) == 0xb1 && At(459) == 0x00
    ensures At(460) == 0xb3 && At(461) == 0x00 && At(462) == 0xba && At(463) == 0xf8 && At(464) == 0xbb && At(465) == 0x00
    ensures At(466) == 0xc0 && At(467) == 0x00 && At(468) == 0xc1 && At(469) == 0x00 && At(470) == 0xc7 && At(471) == 0xbf
  {}

  lemma FindTriple(opcode: Byte)
    ensures var i := FirstTriple(472, 5, opcode);
            && (opcode == 0x62 ==> i == 472)
            && (opcode == 0x8d ==> i == 475)
            && (opcode == 0xc4 ==> i == 478)
            && (opcode == 0xc5 ==> i == 481)
            && (opcode == 0xff ==> i == 484)
            && (opcode !in {0x62, 0x8d, 0xc4, 0xc5, 0xff} ==> i == 487)
  {
    hide At;
    OneByteTriples0();
    assert FirstTriple(472, 5, opcode) == if opcode == 0x62 then 472 else FirstTriple(475, 4, opcode);
    assert FirstTriple(475, 4, opcode) == if opcode == 0x8d then 475 else FirstTriple(478, 3, opcode);
    assert FirstTriple(478, 3, opcode) == if opcode == 0xc4 then 478 else FirstTriple(481, 2, opcode);
    assert FirstTriple(481, 2, opcode) == if opcode == 0xc5 then 481 else FirstTriple(484, 1, opcode);
    assert FirstTriple(484, 1, opcode) == if opcode == 0xff then 484 else FirstTriple(487, 0, opcode);
  }

  lemma FindTriple2(opcode: Byte)
    ensures var i := FirstTriple(487, 14, opcode);
            && (opcode == 0x01 ==> i == 487)
            && (opcode == 0x12 ==> i == 490)
            && (opcode == 0x13 ==> i == 493)
            && (opcode == 0x16 ==> i == 496)
            && (opcode == 0x17 ==> i == 499)
            && (opcode == 0x2b ==> i == 502)
            && (opcode == 0xae ==> i == 505)
            && (opcode == 0xb2 ==> i == 508)
            && (opcode == 0xb4 ==> i == 511)
            && (opcode == 0xb5 ==> i == 514)
            && (opcode == 0xc3 ==> i == 517)
            && (opcode == 0xc7 ==> i == 520)
            && (opcode == 0xe7 ==> i == 523)
            && (opcode == 0xf0 ==> i == 526)
            && (opcode !in {0x01, 0x12, 0x13, 0x16, 0x17, 0x2b, 0xae, 0xb2, 0xb4, 0xb5, 0xc3, 0xc7, 0xe7, 0xf0} ==>
                  i == 529)
  {
    hide At;
    TwoByteTriples0();
    TwoByteTriples1();
    TwoByteTriples2();
    assert FirstTriple(487, 14, opcode) == if opcode == 0x01 then 487 else FirstTriple(490, 13, opcode);
    assert FirstTriple(490, 13, opcode) == if opcode == 0x12 then 490 else FirstTriple(493, 12, opcode);
    assert FirstTriple(493, 12, opcode) == if opcode == 0x13 then 493 else FirstTriple(496, 11, opcode);
    assert FirstTriple(496, 11, opcode) == if opcode == 0x16 then 496 else FirstTriple(499, 10, opcode);
    assert FirstTriple(499, 10, opcode) == if opcode == 0x17 then 499 else FirstTriple(502, 9, opcode);
    assert FirstTriple(502, 9, opcode) == if opcode == 0x2b then 502 else FirstTriple(505, 8, opcode);
    assert FirstTriple(505, 8, opcode) == if opcode == 0xae then 505 else FirstTriple(508, 7, opcode);
    assert FirstTriple(508, 7, opcode) == if opcode == 0xb2 then 508 else FirstTriple(511, 6, opcode);
    assert FirstTriple(511, 6, opcode) == if opcode == 0xb4 then 511 else FirstTriple(514, 5, opcode);
    assert FirstTriple(514, 5, opcode) == if opcode == 0xb5 then 514 else FirstTriple(517, 4, opcode);
    assert FirstTriple(517, 4, opcode) == if opcode == 0xc3 then 517 else FirstTriple(520, 3, opcode);
    assert FirstTriple(520, 3, opcode) == if opcode == 0xc7 then 520 else FirstTriple(523, 2, opcode);
    assert FirstTriple(523, 2, opcode) == if opcode == 0xe7 then 523 else FirstTriple(526, 1, opcode);
    assert FirstTriple(526, 1, opcode) == if opcode == 0xf0 then 526 else FirstTriple(529, 0, opcode);
  }

  lemma FindPair(opcode: Byte)
    ensures var i := FirstPair(430, 12, opcode);
            && (opcode == 0x00 ==> i == 430)
            && (opcode == 0x08 ==> i == 432)
            && (opcode == 0x10 ==> i == 434)
            && (opcode == 0x18 ==> i == 436)
            && (opcode == 0x20 ==> i == 438)
            && (opcode == 0x28 ==> i == 440)
            && (opcode == 0x30 ==> i == 442)
            && (opcode == 0x80 ==> i == 444)
            && (opcode == 0x82 ==> i == 446)
            && (opcode == 0x86 ==> i == 448)
            && (opcode == 0xf6 ==> i == 450)
            && (opcode == 0xfe ==> i == 452)
            && (opcode !in {0x00, 0x08, 0x10, 0x18, 0x20, 0x28, 0x30, 0x80, 0x82, 0x86, 0xf6, 0xfe} ==> i == 454)
  {
    hide At;
    OneBytePairs0();
    OneBytePairs1();
    assert FirstPair(430, 12, opcode) == if opcode == 0x00 then 430 else FirstPair(432, 11, opcode);
    assert FirstPair(432, 11, opcode) == if opcode == 0x08 then 432 else FirstPair(434, 10, opcode);
    assert FirstPair(434, 10, opcode) == if opcode == 0x10 then 434 else FirstPair(436, 9, opcode);
    assert FirstPair(436, 9, opcode) == if opcode == 0x18 then 436 else FirstPair(438, 8, opcode);
    assert FirstPair(438, 8, opcode) == if opcode == 0x20 then 438 else FirstPair(440, 7, opcode);
    assert FirstPair(440, 7, opcode) == if opcode == 0x28 then 440 else FirstPair(442, 6, opcode);
    assert FirstPair(442, 6, opcode) == if opcode == 0x30 then 442 else FirstPair(444, 5, opcode);
    assert FirstPair(444, 5, opcode) == if opcode == 0x80 then 444 else FirstPair(446, 4, opcode);
    assert FirstPair(446, 4, opcode) == if opcode == 0x82 then 446 else FirstPair(448, 3, opcode);
    assert FirstPair(448, 3, opcode) == if opcode == 0x86 then 448 else FirstPair(450, 2, opcode);
    assert FirstPair(450, 2, opcode) == if opcode == 0xf6 then 450 else FirstPair(452, 1, opcode);
    assert FirstPair(452, 1, opcode) == if opcode == 0xfe then 452 else FirstPair(454, 0, opcode);
  }

  lemma FindPair2(opcode: Byte)
    ensures var i := FirstPair(454, 9, opcode);
            && (opcode == 0xab ==> i == 454)
            && (opcode == 0xb0 ==> i == 456)
            && (opcode == 0xb1 ==> i == 458)
            && (opcode == 0xb3 ==> i == 460)
            && (opcode == 0xba ==> i == 462)
            && (opcode == 0xbb ==> i == 464)
            && (opcode == 0xc0 ==> i == 466)
            && (opcode == 0xc1 ==> i == 468)
            && (opcode == 0xc7 ==> i == 470)
            && (opcode !in {0xab, 0xb0, 0xb1, 0xb3, 0xba, 0xbb, 0xc0, 0xc1, 0xc7} ==> i == 472)
  {
    hide At;
    TwoBytePairs0();
    assert FirstPair(454, 9, opcode) == if opcode == 0xab then 454 else FirstPair(456, 8, opcode);
    assert FirstPair(456, 8, opcode) == if opcode == 0xb0 then 456 else FirstPair(458, 7, opcode);
    assert FirstPair(458, 7, opcode) == if opcode == 0xb1 then 458 else FirstPair(460, 6, opcode);
    assert FirstPair(460, 6, opcode) == if opcode == 0xb3 then 460 else FirstPair(462, 5, opcode);
    assert FirstPair(462, 5, opcode) == if opcode == 0xba then 462 else FirstPair(464, 4, opcode);
    assert FirstPair(464, 4, opcode) == if opcode == 0xbb then 464 else FirstPair(466, 3, opcode);
    assert FirstPair(466, 3, opcode) == if opcode == 0xc0 then 466 else FirstPair(468, 2, opcode);
    assert FirstPair(468, 2, opcode) == if opcode == 0xc1 then 468 else FirstPair(470, 1, opcode);
    assert FirstPair(470, 1, opcode) == if opcode == 0xc7 then 470 else FirstPair(472, 0, opcode);
  }

  lemma MoreTopBits(n: Byte)
    requires n < 8
    ensures (TopBit(0xeb, n) <==> n != 3 && n != 5) && (TopBit(0x0e, n) <==> 4 <= n <= 6)
    ensures (TopBit(0xcf, n) <==> n != 2 && n != 3) && (TopBit(0x3f, n) <==> n >= 2) && (TopBit(0xf8, n) <==> n <= 4)
  {}

  lemma AnyPrefix(pref: set<Pre>)
    ensures Meets(0xff, pref) <==> pref != {}
    ensures (Meets(0x08, pref) <==> P66 in pref) && (Meets(0x09, pref) <==> NoPrefix in pref || P66 in pref)
    ensures (Meets(0x01, pref) <==> NoPrefix in pref) && (Meets(0x02, pref) <==> F2 in pref)
  {
    if pref != {} {
      var k :| k in pref;
      match k
      case NoPrefix => case F2 => case F3 => case P66 => case P67 => case Lock => case Seg =>
    }
  }

  /** A register operand is refused exactly for the instructions that need memory. */
  lemma RegistersRefused(two: bool, opcode: Byte, reg: Byte, pref: set<Pre>)
    requires reg < 8
    ensures RegisterRefused(two, opcode, reg, pref) <==> NeedsMemory(two, opcode, reg, pref)
  {
    hide At, TopBit, Meets, FirstTriple;
    TopBits(reg);
    MoreTopBits(reg);
    AnyPrefix(pref);
    if two {
      FindTriple2(opcode);
      TwoByteTriples0();
      TwoByteTriples1();
      TwoByteTriples2();
    } else {
      FindTriple(opcode);
      OneByteTriples0();
    }
  }

  /** A locked instruction with a memory operand is refused exactly if it is not on the list. */
  lemma LocksRefused(two: bool, opcode: Byte, reg: Byte)
    requires reg < 8
    ensures LockRefused(two, opcode, reg) <==> !Lockable(two, opcode, reg)
  {
    hide At, TopBit, FirstPair;
    TopBits(reg);
    MoreTopBits(reg);
    if two {
      FindPair2(opcode);
      TwoBytePairs0();
    } else {
      FindPair(opcode / 2 * 2);
      OneBytePairs0();
      OneBytePairs1();
    }
  }

  /** The operands that are refused, instruction by instruction. */
  predicate OperandUndefined(two: bool, opcode: Byte, mod: Byte, reg: Byte, pref: set<Pre>) {
    || (two && (opcode == 0x20 || opcode == 0x22) && reg !in {0, 2, 3, 4})
    || (two && (opcode == 0x21 || opcode == 0x23) && reg in {4, 5})
    || (!two && opcode == 0x8c && reg !in {0, 1, 2, 3, 4, 5})
    || (!two && opcode == 0x8e && reg !in {0, 2, 3, 4, 5})
    || (mod == 3 && NeedsMemory(two, opcode, reg, pref))
    || (mod != 3 && two && NeedsRegister(opcode, pref))
  }

  /** Two-byte instructions that need a register operand, with the prefixes for which they do. */
  predicate NeedsRegister(opcode: Byte, pref: set<Pre>) {
    || ((opcode == 0x50 || opcode == 0xd7 || opcode == 0xf7) && (NoPrefix in pref || P66 in pref))
    || (opcode == 0xd6 && (F2 in pref || F3 in pref))
    || opcode == 0xc5
  }

  /** An operand is refused exactly if it is undefined: a control, debug or segment register that does not exist, a
      register where memory is needed, or memory where a register is. */
  lemma OperandsRefused(two: bool, opcode: Byte, mod: Byte, reg: Byte, pref: set<Pre>)
    requires reg < 8
    ensures OperandRefused(two, opcode, mod, reg, pref) <==> OperandUndefined(two, opcode, mod, reg, pref)
  {
    hide RegisterRefused;
    RegistersRefused(two, opcode, reg, pref);
  }

  // --------------------------------------------------------------- opcode groups

  lemma FirstMasks()
    ensures At(65) == 0x7f && At(67) == 0x7f && At(69) == 0x7f && At(71) == 0x3f && At(73) == 0x01
  {}

  lemma SecondMasks()
    ensures At(139) == 0x03 && At(141) == 0x04 && At(143) == 0xd5 && At(145) == 0xd5
    ensures At(147) == 0xcc && At(149) == 0xbc && At(151) == 0xf0
  {}

  /** The opcode extensions that do not exist. */
  predicate GroupUndefined(second: bool, opcode: Byte, reg: Byte) {
    if !second then
      || ((opcode == 0x8f || 0xc6 <= opcode <= 0xc7) && reg >= 1)
      || (opcode == 0xfe && reg >= 2)
      || (opcode == 0xff && reg == 7)
    else
      || (opcode == 0x00 && reg >= 6)
      || (opcode == 0x01 && reg == 5)
      || (0x71 <= opcode <= 0x72 && (reg <= 1 || reg == 3 || reg == 5 || reg == 7))
      || (opcode == 0x73 && (reg <= 1 || 4 <= reg <= 5))
      || (opcode == 0xba && reg <= 3)
      || (opcode == 0xc7 && (reg == 0 || 2 <= reg <= 5))
  }

  lemma GroupTopBits(n: Byte)
    requires n < 8
    ensures TopBit(0x01, n) <==> n == 7
    ensures TopBit(0x03, n) <==> n >= 6
    ensures TopBit(0x04, n) <==> n == 5
    ensures TopBit(0x3f, n) <==> n >= 2
    ensures TopBit(0x7f, n) <==> n >= 1
    ensures TopBit(0xbc, n) <==> (n == 0 || 2 <= n <= 5)
    ensures TopBit(0xcc, n) <==> (n <= 1 || 4 <= n <= 5)
    ensures TopBit(0xd5, n) <==> (n <= 1 || n == 3 || n == 5 || n == 7)
    ensures TopBit(0xf0, n) <==> n <= 3
  {}

  lemma FirstGroupsRefused(opcode: Byte, reg: Byte)
    requires reg < 8
    ensures TopBit(ExtensionsFor(false, opcode), reg) <==> GroupUndefined(false, opcode, reg)
  {
    hide At, TopBit, Flags;
    FirstFlagsAt(opcode);
    FirstMasks();
    NoBits(reg);
    GroupTopBits(reg);
  }

  lemma SecondGroupsRefused(opcode: Byte, reg: Byte)
    requires reg < 8
    ensures TopBit(ExtensionsFor(true, opcode), reg) <==> GroupUndefined(true, opcode, reg)
  {
    hide At, TopBit, Flags;
    SecondFlagsAt(opcode);
    SecondMasks();
    NoBits(reg);
    GroupTopBits(reg);
  }

  /** Opcode extensions are refused exactly if they do not exist, for groups and for floating-point opcodes. */
  lemma ExtensionsRefused(second: bool, opcode: Byte, mod: Byte, reg: Byte, rm: Byte)
    requires reg < 8 && rm < 8
    ensures TopBit(ExtensionsFor(second, opcode), reg) <==> GroupUndefined(second, opcode, reg)
    ensures FpuRefused(opcode, mod, reg, rm) <==> 0xd9 <= opcode <= 0xdf && FpuUndefined(opcode, mod, reg, rm)
  {
    hide TopBit, ExtensionsFor, GroupUndefined, FpuUndefined;
    if second {
      SecondGroupsRefused(opcode, reg);
    } else {
      FirstGroupsRefused(opcode, reg);
    }
    if 0xd9 <= opcode <= 0xdf {
      FpuExactly(opcode, mod, reg, rm);
    }
  }

  // ----------------------------------------------------------- whole instructions

  /** No such opcode, an excluded prefix, or an opcode extension that does not exist. */
  ghost predicate NoSuchOpcode(h: Head, a: Address) {
    || h.twice || NoEntry(h.second, h.opcode)
    || (Two(h) && exists k :: k in Excluded(h.opcode) && k in h.pref)
    || (h.o.modrm && !h.twice && GroupUndefined(h.second, h.opcode, a.reg))
    || (h.o.modrm && !Two(h) && 0xd9 <= h.opcode <= 0xdf && FpuUndefined(h.opcode, a.mod, a.reg, a.rm))
  }

  lemma OpcodesListed(h: Head, a: Address)
    requires a.reg < 8 && a.rm < 8 && h.x == if h.twice then 0 else ExtensionsFor(h.second, h.opcode)
    ensures OpcodeIsBad(h, a) <==> NoSuchOpcode(h, a)
  {
    hide Flags, ExtensionsFor, PrefixRefused, TopBit, FpuRefused, GroupUndefined, FpuUndefined, Excluded, NoEntry;
    OperandsListed(h.second, h.opcode);
    PrefixesRefused(h.opcode, h.pref);
    ExtensionsRefused(h.second, h.opcode, a.mod, a.reg, a.rm);
    NoBits(a.reg);
  }

  /** The error flags of a whole instruction, in terms of the lists. */
  lemma ErrorsListed(code: seq<Byte>)
    requires |code| >= 32
    ensures HeadOf(code).end + 6 <= |code|
    ensures var h := HeadOf(code);
            var a := AddressOf(code, h);
            var f := Described(code).flags;
            && f.errorOpcode == NoSuchOpcode(h, a)
            && f.errorLock == (Lock in h.pref && (!h.o.modrm || a.mod == 3 || !Lockable(Two(h), h.opcode, a.reg)))
            && f.errorOperand == (h.o.modrm && OperandUndefined(Two(h), h.opcode, a.mod, a.reg, h.pref))
            && f.errorLength == (Length(code) > 15)
            && f.error == (f.errorOpcode || f.errorLock || f.errorOperand || f.errorLength)
  {
    GroupMask(code);
    hide HeadOf, AddressOf, Described, OpcodeIsBad, NoSuchOpcode, LockRefused, Lockable, OperandRefused, OperandUndefined;
    ErrorFlags(code);
    var h := HeadOf(code);
    var a := AddressOf(code, h);
    OpcodesListed(h, a);
    LocksRefused(Two(h), h.opcode, a.reg);
    OperandsRefused(Two(h), h.opcode, a.mod, a.reg, h.pref);
  }

  lemma GroupMask(code: seq<Byte>)
    requires |code| >= 32
    ensures var h := HeadOf(code); h.x == if h.twice then 0 else ExtensionsFor(h.second, h.opcode)
  {
    hide Leading, Kinds, PrefixesFor, OperandsFor, ExtensionsFor, Unknown;
  }

  /** The error flags of a whole instruction, by its bytes and the lists. */
  lemma Errors(code: seq<Byte>, k: nat, r: nat, e: nat) returns (pref: set<Pre>)
    requires Begins(code, k, r, e)
    ensures e + 1 < |code| && HasPrefixes(code, k, r, pref)
    ensures var f := Described(code).flags;
            var second, two, opcode := code[r] == 0x0f, code[r] == 0x0f && code[e - 1] != 0, code[e - 1];
            var twice := Rex(code, k) && 0x40 <= code[r] <= 0x4f;
            var mod, reg, rm := code[e] / 64, code[e] % 64 / 8, code[e] % 8;
            && f.errorOpcode == (|| twice || NoEntry(second, opcode) || (two && exists p :: p in Excluded(opcode) && p in pref)
                                 || (f.modrm && GroupUndefined(second, opcode, reg))
                                 || (f.modrm && !two && 0xd9 <= opcode <= 0xdf && FpuUndefined(opcode, mod, reg, rm)))
            && f.errorLock == (0xf0 in code[..k] && (!f.modrm || mod == 3 || !Lockable(two, opcode, reg)))
            && f.errorOperand == (f.modrm && OperandUndefined(two, opcode, mod, reg, pref))
            && f.errorLength == (Length(code) > 15)
            && f.error == (f.errorOpcode || f.errorLock || f.errorOperand || f.errorLength)
  {
    hide HeadOf, Described, Lockable, OperandUndefined, GroupUndefined, FpuUndefined, Excluded, NoEntry, FollowedBy, Short, Wide;
    hide HasModrm, HasByte, HasWord, HasSized, HasShortJump, HasLongJump, SizesOf, OperandsIn, DispSize, EffectiveMod, Length;
    PrefixesFromBytes(code, k, r, e);
    HeadFromBytes(code, k, r, e);
    ErrorsListed(code);
    PartFlags(code);
    pref := HeadOf(code).pref;
  }
}
