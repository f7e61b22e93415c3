/**
  The table of the hde64 length decoder: two opcode maps, limits on prefixes, and lists of exceptions, all in
  one run of bytes.
 */
module HdeTable {
  import opened Words

  const SIZE: nat := 529
  const OPCODES: nat := 0x4a
  const FPU_REG: nat := 0xfd
  const FPU_MODRM: nat := 0x104
  const PREFIXES: nat := 0x13c
  const OP_LOCK_OK: nat := 0x1ae
  const OP2_LOCK_OK: nat := 0x1c6
  const OP_ONLY_MEM: nat := 0x1d8
  const OP2_ONLY_MEM: nat := 0x1e7

  /** Rows 0 to 8 of the table, 15 bytes each. */
  function Rows0(r: nat): (row: seq<Byte>)
    requires r < 9
    ensures |row| == 15
  {
    if r == 0 then [0xa5, 0xaa, 0xa5, 0xb8, 0xa5, 0xaa, 0xa5, 0xaa, 0xa5, 0xb8, 0xa5, 0xb8, 0xa5, 0xb8, 0xa5]
    else if r == 1 then [0xb8, 0xc0, 0xc0, 0xc0, 0xc0, 0xc0, 0xc0, 0xc0, 0xc0, 0xac, 0xc0, 0xcc, 0xc0, 0xa1, 0xa1]
    else if r == 2 then [0xa1, 0xa1, 0xb1, 0xa5, 0xa5, 0xa6, 0xc0, 0xc0, 0xd7, 0xda, 0xe0, 0xc0, 0xe4, 0xc0, 0xea]
    else if r == 3 then [0xea, 0xe0, 0xe0, 0x98, 0xc8, 0xee, 0xf1, 0xa5, 0xd3, 0xa5, 0xa5, 0xa1, 0xea, 0x9e, 0xc0]
    else if r == 4 then [0xc0, 0xc2, 0xc0, 0xe6, 0x03, 0x7f, 0x11, 0x7f, 0x01, 0x7f, 0x01, 0x3f, 0x01, 0x01, 0xab]
    else if r == 5 then [0x8b, 0x90, 0x64, 0x5b, 0x5b, 0x5b, 0x5b, 0x5b, 0x92, 0x5b, 0x5b, 0x76, 0x90, 0x92, 0x92]
    else if r == 6 then [0x5b, 0x5b, 0x5b, 0x5b, 0x5b, 0x5b, 0x5b, 0x5b, 0x5b, 0x5b, 0x5b, 0x5b, 0x6a, 0x73, 0x90]
    else if r == 7 then [0x5b, 0x52, 0x52, 0x52, 0x52, 0x5b, 0x5b, 0x5b, 0x5b, 0x77, 0x7c, 0x77, 0x85, 0x5b, 0x5b]
    else [0x70, 0x5b, 0x7a, 0xaf, 0x76, 0x76, 0x5b, 0x5b, 0x5b, 0x5b, 0x5b, 0x5b, 0x5b, 0x5b, 0x5b]
  }

  /** Rows 9 to 17 of the table, 15 bytes each. */
  function Rows9(r: nat): (row: seq<Byte>)
    requires r < 9
    ensures |row| == 15
  {
    if r == 0 then [0x5b, 0x5b, 0x86, 0x01, 0x03, 0x01, 0x04, 0x03, 0xd5, 0x03, 0xd5, 0x03, 0xcc, 0x01, 0xbc]
    else if r == 1 then [0x03, 0xf0, 0x03, 0x03, 0x04, 0x00, 0x50, 0x50, 0x50, 0x50, 0xff, 0x20, 0x20, 0x20, 0x20]
    else if r == 2 then [0x01, 0x01, 0x01, 0x01, 0xc4, 0x02, 0x10, 0xff, 0xff, 0xff, 0x01, 0x00, 0x03, 0x11, 0xff]
    else if r == 3 then [0x03, 0xc4, 0xc6, 0xc8, 0x02, 0x10, 0x00, 0xff, 0xcc, 0x01, 0x01, 0x01, 0x00, 0x00, 0x00]
    else if r == 4 then [0x00, 0x01, 0x01, 0x03, 0x01, 0xff, 0xff, 0xc0, 0xc2, 0x10, 0x11, 0x02, 0x03, 0x01, 0x01]
    else if r == 5 then [0x01, 0xff, 0xff, 0xff, 0x00, 0x00, 0x00, 0xff, 0x00, 0x00, 0xff, 0xff, 0xff, 0xff, 0x10]
    else if r == 6 then [0x10, 0x10, 0x10, 0x02, 0x10, 0x00, 0x00, 0xc6, 0xc8, 0x02, 0x02, 0x02, 0x02, 0x06, 0x00]
    else if r == 7 then [0x04, 0x00, 0x02, 0xff, 0x00, 0xc0, 0xc2, 0x01, 0x01, 0x03, 0x03, 0x03, 0xca, 0x40, 0x00]
    else [0x0a, 0x00, 0x04, 0x00, 0x00, 0x00, 0x00, 0x7f, 0x00, 0x33, 0x01, 0x00, 0x00, 0x00, 0x00]
  }

  /** Rows 18 to 26 of the table, 15 bytes each. */
  function Rows18(r: nat): (row: seq<Byte>)
    requires r < 9
    ensures |row| == 15
  {
    if r == 0 then [0x00, 0x00, 0xff, 0xbf, 0xff, 0xff, 0x00, 0x00, 0x00, 0x00, 0x07, 0x00, 0x00, 0xff, 0x00]
    else if r == 1 then [0x00, 0x00, 0x00, 0x00, 0x00, 0x00, 0x00, 0x00, 0x00, 0x00, 0x00, 0x00, 0x00, 0xff, 0xff]
    else if r == 2 then [0x00, 0x00, 0x00, 0xbf, 0x00, 0x00, 0x00, 0x00, 0x00, 0x00, 0x00, 0x00, 0x7f, 0x00, 0x00]
    else if r == 3 then [0xff, 0x40, 0x40, 0x40, 0x40, 0x41, 0x49, 0x40, 0x40, 0x40, 0x40, 0x4c, 0x42, 0x40, 0x40]
    else if r == 4 then [0x40, 0x40, 0x40, 0x40, 0x40, 0x40, 0x4f, 0x44, 0x53, 0x40, 0x40, 0x40, 0x44, 0x57, 0x43]
    else if r == 5 then [0x5c, 0x40, 0x60, 0x40, 0x40, 0x40, 0x40, 0x40, 0x40, 0x40, 0x40, 0x40, 0x40, 0x40, 0x40]
    else if r == 6 then [0x40, 0x40, 0x64, 0x66, 0x6e, 0x6b, 0x40, 0x40, 0x6a, 0x46, 0x40, 0x40, 0x44, 0x46, 0x40]
    else if r == 7 then [0x40, 0x5b, 0x44, 0x40, 0x40, 0x00, 0x00, 0x00, 0x00, 0x06, 0x06, 0x06, 0x06, 0x01, 0x06]
    else [0x06, 0x02, 0x06, 0x06, 0x00, 0x06, 0x00, 0x0a, 0x0a, 0x00, 0x00, 0x00, 0x02, 0x07, 0x07]
  }

  /** Rows 27 to 35 of the table, 15 bytes each. */
  function Rows27(r: nat): (row: seq<Byte>)
    requires r < 9
    ensures |row| == if r < 8 then 15 else 4
  {
    if r == 0 then [0x06, 0x02, 0x0d, 0x06, 0x06, 0x06, 0x0e, 0x05, 0x05, 0x02, 0x02, 0x00, 0x00, 0x04, 0x04]
    else if r == 1 then [0x04, 0x04, 0x05, 0x06, 0x06, 0x06, 0x00, 0x00, 0x00, 0x0e, 0x00, 0x00, 0x08, 0x00, 0x10]
    else if r == 2 then [0x00, 0x18, 0x00, 0x20, 0x00, 0x28, 0x00, 0x30, 0x00, 0x80, 0x01, 0x82, 0x01, 0x86, 0x00]
    else if r == 3 then [0xf6, 0xcf, 0xfe, 0x3f, 0xab, 0x00, 0xb0, 0x00, 0xb1, 0x00, 0xb3, 0x00, 0xba, 0xf8, 0xbb]
    else if r == 4 then [0x00, 0xc0, 0x00, 0xc1, 0x00, 0xc7, 0xbf, 0x62, 0xff, 0x00, 0x8d, 0xff, 0x00, 0xc4, 0xff]
    else if r == 5 then [0x00, 0xc5, 0xff, 0x00, 0xff, 0xff, 0xeb, 0x01, 0xff, 0x0e, 0x12, 0x08, 0x00, 0x13, 0x09]
    else if r == 6 then [0x00, 0x16, 0x08, 0x00, 0x17, 0x09, 0x00, 0x2b, 0x09, 0x00, 0xae, 0xff, 0x07, 0xb2, 0xff]
    else if r == 7 then [0x00, 0xb4, 0xff, 0x00, 0xb5, 0xff, 0x00, 0xc3, 0x01, 0x00, 0xc7, 0xff, 0xbf, 0xe7, 0x08]
    else [0x00, 0xf0, 0x02, 0x00]
  }

  /** The table in rows of 15 bytes. */
  function Row(r: nat): (row: seq<Byte>)
    requires r < 36
    ensures |row| == if r < 35 then 15 else 4
  {
    if r < 9 then Rows0(r) else if r < 18 then Rows9(r - 9) else if r < 27 then Rows18(r - 18) else Rows27(r - 27)
  }

  function At(i: nat): (b: Byte)
    requires i < SIZE
  {
    Row(i / 15)[i % 15]
  }

  /** Bit `w` of `v`, where `w` is a power of two. */
  predicate Bit(v: Byte, w: nat)
    requires w > 0
  {
    v / w % 2 == 1
  }

  /** The first map, entry by entry. */
  function FirstLead(j: int): (v: int) {
    if j == 0x30 then 0x98
    else if j == 0x3a then 0x9e
    else if 0x1c <= j <= 0x1f || j == 0x38 then 0xa1
    else if j == 0x00 || j == 0x02 || j == 0x04 || j == 0x06 || j == 0x08 || j == 0x0a || j == 0x0c || j == 0x0e
       || 0x21 <= j <= 0x22 || j == 0x34 || 0x36 <= j <= 0x37 then 0xa5
    else if j == 0x23 then 0xa6
    else if j == 0x01 || j == 0x05 || j == 0x07 then 0xaa
    else if j == 0x18 then 0xac
    else if j == 0x20 then 0xb1
    else if j == 0x03 || j == 0x09 || j == 0x0b || j == 0x0d || j == 0x0f then 0xb8
    else if j == 0x3d then 0xc2
    else if j == 0x31 then 0xc8
    else if j == 0x1a then 0xcc
    else if j == 0x35 then 0xd3
    else if j == 0x26 then 0xd7
    else if j == 0x27 then 0xda
    else if j == 0x28 || 0x2e <= j <= 0x2f then 0xe0
    else if j == 0x2a then 0xe4
    else if j == 0x3f then 0xe6
    else if 0x2c <= j <= 0x2d || j == 0x39 then 0xea
    else if j == 0x32 then 0xee
    else if j == 0x33 then 0xf1
    else 0xc0
  }

  /** The second map. */
  function SecondLead(j: int): (v: int) {
    if 0x20 <= j <= 0x23 then 0x52
    else if j == 0x03 then 0x64
    else if j == 0x1c then 0x6a
    else if j == 0x2e then 0x70
    else if j == 0x1d then 0x73
    else if j == 0x0c || 0x32 <= j <= 0x33 then 0x76
    else if j == 0x28 || j == 0x2a then 0x77
    else if j == 0x30 then 0x7a
    else if j == 0x29 then 0x7c
    else if j == 0x2b then 0x85
    else if j == 0x3f then 0x86
    else if j == 0x01 then 0x8b
    else if j == 0x02 || j == 0x0d || j == 0x1e then 0x90
    else if j == 0x09 || 0x0e <= j <= 0x0f then 0x92
    else if j == 0x00 then 0xab
    else if j == 0x31 then 0xaf
    else 0x5b
  }

  /** The map of excluded prefixes. */
  function Lead(j: int): (v: int) {
    if j == 0x04 then 0x41
    else if j == 0x0b then 0x42
    else if j == 0x1c then 0x43
    else if j == 0x15 || j == 0x1a || j == 0x38 || j == 0x3d then 0x44
    else if j == 0x35 || j == 0x39 then 0x46
    else if j == 0x05 then 0x49
    else if j == 0x0a then 0x4c
    else if j == 0x14 then 0x4f
    else if j == 0x16 then 0x53
    else if j == 0x1b then 0x57
    else if j == 0x3c then 0x5b
    else if j == 0x1d then 0x5c
    else if j == 0x1f then 0x60
    else if j == 0x2e then 0x64
    else if j == 0x2f then 0x66
    else if j == 0x34 then 0x6a
    else if j == 0x31 then 0x6b
    else if j == 0x30 then 0x6e
    else 0x40
  }

  lemma FirstLeadLow(r: nat, c: nat)
    requires r < 2 && c < 15
    ensures Rows0(r)[c] == FirstLead(15 * r + c)
  {}

  lemma FirstLeadHigh(r: nat, c: nat)
    requires 2 <= r < 5 && c < 15 && 15 * r + c < 64
    ensures Rows0(r)[c] == FirstLead(15 * r + c)
  {}

  lemma FirstLeadAt(j: nat)
    requires j < 64
    ensures At(j) == FirstLead(j)
  {
    hide Rows0, FirstLead;
    if j < 30 {
      FirstLeadLow(j / 15, j % 15);
    } else {
      FirstLeadHigh(j / 15, j % 15);
    }
  }

  lemma SecondLeadLow(r: nat, c: nat)
    requires 4 <= r <= 6 && c < 15 && 74 <= 15 * r + c
    ensures Rows0(r)[c] == SecondLead(15 * r + c - 74)
  {}

  lemma SecondLeadMiddle(r: nat, c: nat)
    requires 7 <= r <= 8 && c < 15
    ensures Rows0(r)[c] == SecondLead(15 * r + c - 74)
  {}

  lemma SecondLeadHigh(c: nat)
    requires c <= 2
    ensures Rows9(0)[c] == SecondLead(61 + c)
  {}

  lemma SecondLeadAt(j: nat)
    requires j < 64
    ensures At(OPCODES + j) == SecondLead(j)
  {
    hide Rows0, Rows9, SecondLead;
    if j < 31 {
      SecondLeadLow((74 + j) / 15, (74 + j) % 15);
    } else if j < 61 {
      SecondLeadMiddle((74 + j) / 15, (74 + j) % 15);
    } else {
      SecondLeadHigh(j - 61);
    }
  }

  lemma LeadLow(r: nat, c: nat)
    requires 3 <= r <= 5 && c < 15 && 0 <= 15 * r + c - 46
    ensures Rows18(r)[c] == Lead(15 * r + c - 46)
  {}

  lemma LeadHigh(r: nat, c: nat)
    requires 6 <= r <= 7 && c < 15 && 15 * r + c - 46 < 64
    ensures Rows18(r)[c] == Lead(15 * r + c - 46)
  {}

  lemma LeadAt(j: nat)
    requires j < 64
    ensures At(PREFIXES + j) == Lead(j)
  {
    hide Rows18, Lead;
    var r, c := (PREFIXES + j) / 15 - 18, (PREFIXES + j) % 15;
    if r <= 5 {
      LeadLow(r, c);
    } else {
      LeadHigh(r, c);
    }
  }

  /** The first map leads to bytes 152 to 244. */
  lemma FirstMap(j: nat)
    requires j < 64
    ensures 152 <= At(j) <= 241
  {
    hide At;
    FirstLeadAt(j);
  }

  /** The second map leads to bytes 156 to 252. */
  lemma SecondMap(j: nat)
    requires j < 64
    ensures 82 <= At(OPCODES + j) <= 175
  {
    hide At;
    SecondLeadAt(j);
  }

  lemma PrefixMap(j: nat)
    requires j < 64
    ensures 64 <= At(PREFIXES + j) <= 110
  {
    hide At;
    LeadAt(j);
  }

  /** The flag bytes in use: a few combinations of operands, a few groups, and 0xff for no instruction. */
  ghost predicate Listed(v: Byte) {
    v <= 6 || v == 0x10 || v == 0x11 || v == 0x20 || v == 0x50 || Group(v) || v == 0xff
  }

  predicate Group(v: Byte) {
    v == 0xc0 || v == 0xc2 || v == 0xc4 || v == 0xc6 || v == 0xc8 || v == 0xca || v == 0xcc
  }

  lemma FlagRowLow(r: nat, c: nat)
    requires 1 <= r <= 4 && c < 15 && 17 <= 15 * r + c
    ensures Listed(Rows9(r)[c]) && Rows9(r)[c] != 0xca
  {}

  lemma FlagRowHigh(r: nat, c: nat)
    requires 5 <= r <= 7 && c < 15 && 15 * r + c <= 117
    ensures Listed(Rows9(r)[c]) && (15 * r + c <= 109 ==> Rows9(r)[c] != 0xca)
  {}

  lemma FlagBytes(i: nat)
    requires 152 <= i <= 252
    ensures Listed(At(i)) && (i <= 244 ==> At(i) != 0xca)
  {
    hide Rows9, Listed;
    if i / 15 <= 13 {
      FlagRowLow(i / 15 - 9, i % 15);
    } else {
      FlagRowHigh(i / 15 - 9, i % 15);
    }
  }

  /** The flag byte of an opcode in the first or second map. */
  function Flags(second: bool, opcode: Byte): (v: Byte) {
    if second then At(OPCODES + At(OPCODES + opcode / 4) + opcode % 4) else At(At(opcode / 4) + opcode % 4)
  }

  lemma FlagsListed(second: bool, opcode: Byte)
    ensures Listed(Flags(second, opcode)) && (!second ==> Flags(second, opcode) != 0xca)
  {
    hide At, Listed;
    var j := opcode / 4;
    if second {
      SecondMap(j);
      FlagBytes(OPCODES + At(OPCODES + j) + opcode % 4);
    } else {
      FirstMap(j);
      FlagBytes(At(j) + opcode % 4);
    }
  }

  lemma WideEntries()
    ensures At(0x28) == At(0x2e) == At(0x2f) == 0xe0
    ensures At(0xe0) == At(0xe1) == At(0xe2) == At(0xe3) == 0x10
  {}

  /** The opcodes with a 64-bit operand have nothing but an immediate. */
  lemma WideOpcodes(opcode: Byte)
    requires 0xa0 <= opcode <= 0xa3 || 0xb8 <= opcode <= 0xbf
    ensures Flags(false, opcode) == 0x10
  {
    hide At;
    WideEntries();
  }

  lemma FirstGroups()
    ensures At(64) == 0x03 && At(66) == 0x11 && At(68) == At(70) == At(72) == 0x01 && At(76) == 0x90
  {}

  lemma SecondGroups()
    ensures At(138) == At(140) == At(148) == 0x01 && At(142) == At(144) == At(146) == At(150) == 0x03
  {}

  /** The flags of a group never include an 8-bit relative operand. */
  lemma GroupBytes(second: bool, v: Byte)
    requires Group(v) && (!second ==> v != 0xca)
    ensures !Bit(At((if second then OPCODES else 0) + v - 0x80), 0x20)
  {
    hide At;
    if second {
      SecondGroups();
    } else {
      FirstGroups();
    }
  }

  lemma TestEntries()
    ensures At(0x3d) == 0xc2 && At(0xc4) == 0x01 && At(OPCODES + 0x3d) == 0x5b && At(OPCODES + 0x5d) == 0x01
  {}

  /** Opcode 0xf6 has a ModRM byte and, so far, no immediate, in both maps. */
  lemma TestOpcode(second: bool)
    ensures Flags(second, 0xf6) == 0x01
  {
    hide At;
    TestEntries();
  }
}
