/**
  What follows each opcode, listed opcode by opcode, and the layout of an instruction told from its bytes alone.
 */
module HdeOpcodes {
  import opened Words
  import opened HdeTable
  import opened HdeFormat
  import opened HdeInstruction

  // ------------------------------------------------------------------ the lists

  /** There is no such opcode. */
  predicate NoEntry(second: bool, opcode: Byte) {
    if !second then
      || 0x06 <= opcode <= 0x07 || opcode == 0x0f || 0x16 <= opcode <= 0x17 || 0x1e <= opcode <= 0x1f
      || opcode == 0x27 || opcode == 0x2f || opcode == 0x37 || opcode == 0x3f || 0x60 <= opcode <= 0x62
      || opcode == 0x82 || opcode == 0x9a || 0x9e <= opcode <= 0x9f || 0xc4 <= opcode <= 0xc5 || opcode == 0xce
      || 0xd4 <= opcode <= 0xd6 || opcode == 0xea
    else
      || opcode == 0x04 || 0x0a <= opcode <= 0x0c || 0x24 <= opcode <= 0x27 || 0x36 <= opcode <= 0x3f
      || 0x7a <= opcode <= 0x7b || 0xa6 <= opcode <= 0xa7 || opcode == 0xb9 || opcode == 0xff
  }

  /** A ModRM byte follows. */
  predicate HasModrm(second: bool, opcode: Byte) {
    if !second then
      || 0x00 <= opcode <= 0x03 || 0x08 <= opcode <= 0x0b || 0x10 <= opcode <= 0x13 || 0x18 <= opcode <= 0x1b
      || 0x20 <= opcode <= 0x23 || 0x28 <= opcode <= 0x2b || 0x30 <= opcode <= 0x33 || 0x38 <= opcode <= 0x3b
      || opcode == 0x63 || opcode == 0x69 || opcode == 0x6b || 0x80 <= opcode <= 0x81 || 0x83 <= opcode <= 0x8f
      || 0xc0 <= opcode <= 0xc1 || 0xc6 <= opcode <= 0xc7 || 0xd0 <= opcode <= 0xd3 || 0xd8 <= opcode <= 0xdf
      || 0xf6 <= opcode <= 0xf7 || 0xfe <= opcode <= 0xff
    else
      || 0x00 <= opcode <= 0x03 || opcode == 0x0d || 0x0f <= opcode <= 0x24 || opcode == 0x26
      || 0x28 <= opcode <= 0x2f || 0x40 <= opcode <= 0x76 || 0x7c <= opcode <= 0x7f || 0x90 <= opcode <= 0x9f
      || 0xa3 <= opcode <= 0xa5 || 0xab <= opcode <= 0xb7 || 0xba <= opcode <= 0xc7 || 0xd0 <= opcode <= 0xfe
  }

  /** A one-byte immediate follows. */
  predicate HasByte(second: bool, opcode: Byte) {
    if !second then
      || opcode == 0x04 || opcode == 0x0c || opcode == 0x14 || opcode == 0x1c || opcode == 0x24
      || opcode == 0x2c || opcode == 0x34 || opcode == 0x3c || 0x6a <= opcode <= 0x6b || opcode == 0x80
      || opcode == 0x83 || opcode == 0xa8 || 0xb0 <= opcode <= 0xb7 || 0xc0 <= opcode <= 0xc1 || opcode == 0xc6
      || opcode == 0xc8 || opcode == 0xcd || 0xe4 <= opcode <= 0xe7
    else
      || opcode == 0x0f || 0x70 <= opcode <= 0x73 || opcode == 0xa4 || opcode == 0xac || opcode == 0xba
      || opcode == 0xc2 || 0xc4 <= opcode <= 0xc6
  }

  /** A two-byte immediate follows. */
  predicate HasWord(second: bool, opcode: Byte) {
    !second && (opcode == 0xc2 || opcode == 0xc8 || opcode == 0xca)
  }

  /** An immediate of the operand size follows. */
  predicate HasSized(second: bool, opcode: Byte) {
    if !second then
      || opcode == 0x05 || opcode == 0x0d || opcode == 0x15 || opcode == 0x1d || opcode == 0x25
      || opcode == 0x2d || opcode == 0x35 || opcode == 0x3d || 0x68 <= opcode <= 0x69 || opcode == 0x81
      || 0xa0 <= opcode <= 0xa3 || opcode == 0xa9 || 0xb8 <= opcode <= 0xbf || opcode == 0xc7
      || 0xe8 <= opcode <= 0xe9
    else 0x80 <= opcode <= 0x8f
  }

  /** A one-byte jump distance follows. */
  predicate HasShortJump(second: bool, opcode: Byte) {
    !second && (0x70 <= opcode <= 0x7f || 0xe0 <= opcode <= 0xe3 || opcode == 0xeb)
  }

  /** A jump distance of the operand size follows. */
  predicate HasLongJump(second: bool, opcode: Byte) {
    if second then 0x80 <= opcode <= 0x8f else 0xe8 <= opcode <= 0xe9
  }

  function FollowedBy(second: bool, opcode: Byte): (o: Operands) {
    Operands(HasModrm(second, opcode), HasByte(second, opcode), HasWord(second, opcode), HasSized(second, opcode),
             HasShortJump(second, opcode), HasLongJump(second, opcode))
  }

  // -------------------------------------------------- the table agrees with the lists

  /** The part of the table with the flag bytes. */
  function FlagByte(i: int): (v: Byte) {
    if 0xa5 <= i <= 0xa8 || i == 0xaf || 0xbd <= i <= 0xbf || 0xc4 <= i <= 0xc5 || i == 0xc7
       || 0xd0 <= i <= 0xd2 || 0xf7 <= i <= 0xf8 then 0x01
    else if i == 0xaa || i == 0xb8 || i == 0xce || i == 0xe4 || 0xea <= i <= 0xed || i == 0xf2 then 0x02
    else if 0x98 <= i <= 0x99 || i == 0xb1 || i == 0xb4 || i == 0xc6 || i == 0xcf || 0xf9 <= i <= 0xfb then 0x03
    else if i == 0x9a || i == 0xf0 then 0x04
    else if i == 0xee then 0x06
    else if i == 0xab || i == 0xb9 || i == 0xcc || 0xe0 <= i <= 0xe3 || i == 0xe5 then 0x10
    else if i == 0xb2 || i == 0xcd then 0x11
    else if 0xa1 <= i <= 0xa4 then 0x20
    else if 0x9c <= i <= 0x9f then 0x50
    else if i == 0xca || i == 0xf5 then 0xc0
    else if i == 0xcb || i == 0xf6 then 0xc2
    else if i == 0xa9 || i == 0xb5 then 0xc4
    else if i == 0xb6 || i == 0xe8 then 0xc6
    else if i == 0xb7 || i == 0xe9 then 0xc8
    else if i == 0xfc then 0xca
    else if i == 0xbc then 0xcc
    else if i == 0xa0 || 0xac <= i <= 0xae || i == 0xb3 || i == 0xbb || 0xc8 <= i <= 0xc9 || 0xd3 <= i <= 0xd5
       || i == 0xd9 || 0xdc <= i <= 0xdf || i == 0xf3 then 0xff
    else 0x00
  }

  lemma FlagByteLow(r: nat, c: nat)
    requires 1 <= r <= 4 && c < 15 && 17 <= 15 * r + c
    ensures Rows9(r)[c] == FlagByte(135 + 15 * r + c)
  {}

  lemma FlagByteHigh(r: nat, c: nat)
    requires 5 <= r <= 7 && c < 15 && 15 * r + c <= 117
    ensures Rows9(r)[c] == FlagByte(135 + 15 * r + c)
  {}

  lemma FlagByteAt(i: nat)
    requires 152 <= i <= 252
    ensures At(i) == FlagByte(i)
  {
    hide Rows9, FlagByte;
    if i / 15 <= 13 {
      FlagByteLow(i / 15 - 9, i % 15);
    } else {
      FlagByteHigh(i / 15 - 9, i % 15);
    }
  }

  /** The flag byte of a one-byte opcode. */
  function FirstFlags(opcode: int): (v: Byte) {
    if 0x00 <= opcode <= 0x03 || 0x08 <= opcode <= 0x0b || 0x10 <= opcode <= 0x13 || 0x18 <= opcode <= 0x1b
       || 0x20 <= opcode <= 0x23 || 0x28 <= opcode <= 0x2b || 0x30 <= opcode <= 0x33 || 0x38 <= opcode <= 0x3b
       || opcode == 0x63 || 0x84 <= opcode <= 0x8e || 0xd0 <= opcode <= 0xd3 || 0xd8 <= opcode <= 0xdf
       || 0xf6 <= opcode <= 0xf7 then 0x01
    else if opcode == 0x04 || opcode == 0x0c || opcode == 0x14 || opcode == 0x1c || opcode == 0x24 || opcode == 0x2c
       || opcode == 0x34 || opcode == 0x3c || opcode == 0x6a || opcode == 0xa8 || 0xb0 <= opcode <= 0xb7
       || opcode == 0xcd || 0xe4 <= opcode <= 0xe7 then 0x02
    else if opcode == 0x6b || opcode == 0x80 || opcode == 0x83 || 0xc0 <= opcode <= 0xc1 then 0x03
    else if opcode == 0xc2 || opcode == 0xca then 0x04
    else if opcode == 0xc8 then 0x06
    else if opcode == 0x05 || opcode == 0x0d || opcode == 0x15 || opcode == 0x1d || opcode == 0x25 || opcode == 0x2d
       || opcode == 0x35 || opcode == 0x3d || opcode == 0x68 || 0xa0 <= opcode <= 0xa3 || opcode == 0xa9
       || 0xb8 <= opcode <= 0xbf then 0x10
    else if opcode == 0x69 || opcode == 0x81 then 0x11
    else if 0x70 <= opcode <= 0x7f || 0xe0 <= opcode <= 0xe3 || opcode == 0xeb then 0x20
    else if 0xe8 <= opcode <= 0xe9 then 0x50
    else if opcode == 0xc6 then 0xc0
    else if opcode == 0xc7 then 0xc2
    else if opcode == 0x8f then 0xc4
    else if opcode == 0xfe then 0xc6
    else if opcode == 0xff then 0xc8
    else if 0x06 <= opcode <= 0x07 || opcode == 0x0f || 0x16 <= opcode <= 0x17 || 0x1e <= opcode <= 0x1f
       || opcode == 0x27 || opcode == 0x2f || opcode == 0x37 || opcode == 0x3f || 0x60 <= opcode <= 0x62
       || opcode == 0x82 || opcode == 0x9a || 0x9e <= opcode <= 0x9f || 0xc4 <= opcode <= 0xc5 || opcode == 0xce
       || 0xd4 <= opcode <= 0xd6 || opcode == 0xea then 0xff
    else 0x00
  }

  /** The flag byte of a two-byte opcode. */
  function SecondFlags(opcode: int): (v: Byte) {
    if 0x05 <= opcode <= 0x09 || opcode == 0x0e || 0x30 <= opcode <= 0x35 || 0x77 <= opcode <= 0x79
       || 0xa0 <= opcode <= 0xa2 || 0xa8 <= opcode <= 0xaa || opcode == 0xb8 || 0xc8 <= opcode <= 0xcf then 0x00
    else if opcode == 0x0f || opcode == 0x70 || opcode == 0xa4 || opcode == 0xac || opcode == 0xc2
       || 0xc4 <= opcode <= 0xc6 then 0x03
    else if 0x80 <= opcode <= 0x8f then 0x50
    else if opcode == 0x00 then 0xc0
    else if opcode == 0x01 then 0xc2
    else if opcode == 0x71 then 0xc4
    else if opcode == 0x72 then 0xc6
    else if opcode == 0x73 then 0xc8
    else if opcode == 0xc7 then 0xca
    else if opcode == 0xba then 0xcc
    else if opcode == 0x04 || 0x0a <= opcode <= 0x0c || 0x24 <= opcode <= 0x27 || 0x36 <= opcode <= 0x3f
       || 0x7a <= opcode <= 0x7b || 0xa6 <= opcode <= 0xa7 || opcode == 0xb9 || opcode == 0xff then 0xff
    else 0x01
  }

  lemma FirstFlags0(opcode: Byte)
    requires 0x00 <= opcode <= 0x1f
    ensures 152 <= FirstLead(opcode / 4) + opcode % 4 <= 252
    ensures FlagByte(FirstLead(opcode / 4) + opcode % 4) == FirstFlags(opcode)
  {}

  lemma FirstFlags1(opcode: Byte)
    requires 0x20 <= opcode <= 0x3f
    ensures 152 <= FirstLead(opcode / 4) + opcode % 4 <= 252
    ensures FlagByte(FirstLead(opcode / 4) + opcode % 4) == FirstFlags(opcode)
  {}

  lemma FirstFlags2(opcode: Byte)
    requires 0x40 <= opcode <= 0x5f
    ensures 152 <= FirstLead(opcode / 4) + opcode % 4 <= 252
    ensures FlagByte(FirstLead(opcode / 4) + opcode % 4) == FirstFlags(opcode)
  {}

  lemma FirstFlags3(opcode: Byte)
    requires 0x60 <= opcode <= 0x7f
    ensures 152 <= FirstLead(opcode / 4) + opcode % 4 <= 252
    ensures FlagByte(FirstLead(opcode / 4) + opcode % 4) == FirstFlags(opcode)
  {}

  lemma FirstFlags4(opcode: Byte)
    requires 0x80 <= opcode <= 0x9f
    ensures 152 <= FirstLead(opcode / 4) + opcode % 4 <= 252
    ensures FlagByte(FirstLead(opcode / 4) + opcode % 4) == FirstFlags(opcode)
  {}

  lemma FirstFlags5(opcode: Byte)
    requires 0xa0 <= opcode <= 0xbf
    ensures 152 <= FirstLead(opcode / 4) + opcode % 4 <= 252
    ensures FlagByte(FirstLead(opcode / 4) + opcode % 4) == FirstFlags(opcode)
  {}

  lemma FirstFlags6(opcode: Byte)
    requires 0xc0 <= opcode <= 0xdf
    ensures 152 <= FirstLead(opcode / 4) + opcode % 4 <= 252
    ensures FlagByte(FirstLead(opcode / 4) + opcode % 4) == FirstFlags(opcode)
  {}

  lemma FirstFlags7(opcode: Byte)
    requires 0xe0 <= opcode <= 0xff
    ensures 152 <= FirstLead(opcode / 4) + opcode % 4 <= 252
    ensures FlagByte(FirstLead(opcode / 4) + opcode % 4) == FirstFlags(opcode)
  {}

  lemma FirstFlagsAt(opcode: Byte)
    ensures Flags(false, opcode) == FirstFlags(opcode)
  {
    hide At, FirstLead, FlagByte, FirstFlags;
    FirstLeadAt(opcode / 4);
    if opcode < 0x20 {
      FirstFlags0(opcode);
    } else if opcode < 0x40 {
      FirstFlags1(opcode);
    } else if opcode < 0x60 {
      FirstFlags2(opcode);
    } else if opcode < 0x80 {
      FirstFlags3(opcode);
    } else if opcode < 0xa0 {
      FirstFlags4(opcode);
    } else if opcode < 0xc0 {
      FirstFlags5(opcode);
    } else if opcode < 0xe0 {
      FirstFlags6(opcode);
    } else {
      FirstFlags7(opcode);
    }
    FlagByteAt(FirstLead(opcode / 4) + opcode % 4);
  }

  lemma SecondFlags0(opcode: Byte)
    requires 0x00 <= opcode <= 0x1f
    ensures 152 <= 74 + SecondLead(opcode / 4) + opcode % 4 <= 252
    ensures FlagByte(74 + SecondLead(opcode / 4) + opcode % 4) == SecondFlags(opcode)
  {}

  lemma SecondFlags1(opcode: Byte)
    requires 0x20 <= opcode <= 0x3f
    ensures 152 <= 74 + SecondLead(opcode / 4) + opcode % 4 <= 252
    ensures FlagByte(74 + SecondLead(opcode / 4) + opcode % 4) == SecondFlags(opcode)
  {}

  lemma SecondFlags2(opcode: Byte)
    requires 0x40 <= opcode <= 0x5f
    ensures 152 <= 74 + SecondLead(opcode / 4) + opcode % 4 <= 252
    ensures FlagByte(74 + SecondLead(opcode / 4) + opcode % 4) == SecondFlags(opcode)
  {}

  lemma SecondFlags3(opcode: Byte)
    requires 0x60 <= opcode <= 0x7f
    ensures 152 <= 74 + SecondLead(opcode / 4) + opcode % 4 <= 252
    ensures FlagByte(74 + SecondLead(opcode / 4) + opcode % 4) == SecondFlags(opcode)
  {}

  lemma SecondFlags4(opcode: Byte)
    requires 0x80 <= opcode <= 0x9f
    ensures 152 <= 74 + SecondLead(opcode / 4) + opcode % 4 <= 252
    ensures FlagByte(74 + SecondLead(opcode / 4) + opcode % 4) == SecondFlags(opcode)
  {}

  lemma SecondFlags5(opcode: Byte)
    requires 0xa0 <= opcode <= 0xbf
    ensures 152 <= 74 + SecondLead(opcode / 4) + opcode % 4 <= 252
    ensures FlagByte(74 + SecondLead(opcode / 4) + opcode % 4) == SecondFlags(opcode)
  {}

  lemma SecondFlags6(opcode: Byte)
    requires 0xc0 <= opcode <= 0xdf
    ensures 152 <= 74 + SecondLead(opcode / 4) + opcode % 4 <= 252
    ensures FlagByte(74 + SecondLead(opcode / 4) + opcode % 4) == SecondFlags(opcode)
  {}

  lemma SecondFlags7(opcode: Byte)
    requires 0xe0 <= opcode <= 0xff
    ensures 152 <= 74 + SecondLead(opcode / 4) + opcode % 4 <= 252
    ensures FlagByte(74 + SecondLead(opcode / 4) + opcode % 4) == SecondFlags(opcode)
  {}

  lemma SecondFlagsAt(opcode: Byte)
    ensures Flags(true, opcode) == SecondFlags(opcode)
  {
    hide At, SecondLead, FlagByte, SecondFlags;
    SecondLeadAt(opcode / 4);
    if opcode < 0x20 {
      SecondFlags0(opcode);
    } else if opcode < 0x40 {
      SecondFlags1(opcode);
    } else if opcode < 0x60 {
      SecondFlags2(opcode);
    } else if opcode < 0x80 {
      SecondFlags3(opcode);
    } else if opcode < 0xa0 {
      SecondFlags4(opcode);
    } else if opcode < 0xc0 {
      SecondFlags5(opcode);
    } else if opcode < 0xe0 {
      SecondFlags6(opcode);
    } else {
      SecondFlags7(opcode);
    }
    FlagByteAt(74 + SecondLead(opcode / 4) + opcode % 4);
  }

  /** The operands a flag byte stands for; a group is told by its number. */
  function Resolved(second: bool, v: Byte, opcode: Byte): (o: Operands) {
    if v == 0xff then NONE.(modrm := opcode == 0x24 || opcode == 0x26)
    else if v == 0x11 || (v == 0xc2 && !second) then NONE.(modrm := true, immP66 := true)
    else if v == 0x03 || (v == 0xc0 && !second) || (second && v in {0xc4, 0xc6, 0xc8, 0xcc}) then
      NONE.(modrm := true, imm8 := true)
    else if v == 0x01 || v >= 0x80 then NONE.(modrm := true)
    else if v == 0x02 then NONE.(imm8 := true)
    else if v == 0x04 then NONE.(imm16 := true)
    else if v == 0x06 then NONE.(imm16 := true, imm8 := true)
    else if v == 0x10 then NONE.(immP66 := true)
    else if v == 0x20 then NONE.(rel8 := true)
    else if v == 0x50 then NONE.(immP66 := true, rel32 := true)
    else NONE
  }

  lemma FirstFollowed0(opcode: Byte)
    requires 0x00 <= opcode <= 0x1f
    ensures FollowedBy(false, opcode) == Resolved(false, FirstFlags(opcode), opcode)
    ensures NoEntry(false, opcode) <==> FirstFlags(opcode) == 0xff
  {}

  lemma FirstFollowed1(opcode: Byte)
    requires 0x20 <= opcode <= 0x3f
    ensures FollowedBy(false, opcode) == Resolved(false, FirstFlags(opcode), opcode)
    ensures NoEntry(false, opcode) <==> FirstFlags(opcode) == 0xff
  {}

  lemma FirstFollowed2(opcode: Byte)
    requires 0x40 <= opcode <= 0x5f
    ensures FollowedBy(false, opcode) == Resolved(false, FirstFlags(opcode), opcode)
    ensures NoEntry(false, opcode) <==> FirstFlags(opcode) == 0xff
  {}

  lemma FirstFollowed3(opcode: Byte)
    requires 0x60 <= opcode <= 0x7f
    ensures FollowedBy(false, opcode) == Resolved(false, FirstFlags(opcode), opcode)
    ensures NoEntry(false, opcode) <==> FirstFlags(opcode) == 0xff
  {}

  lemma FirstFollowed4(opcode: Byte)
    requires 0x80 <= opcode <= 0x9f
    ensures FollowedBy(false, opcode) == Resolved(false, FirstFlags(opcode), opcode)
    ensures NoEntry(false, opcode) <==> FirstFlags(opcode) == 0xff
  {}

  lemma FirstFollowed5(opcode: Byte)
    requires 0xa0 <= opcode <= 0xbf
    ensures FollowedBy(false, opcode) == Resolved(false, FirstFlags(opcode), opcode)
    ensures NoEntry(false, opcode) <==> FirstFlags(opcode) == 0xff
  {}

  lemma FirstFollowed6(opcode: Byte)
    requires 0xc0 <= opcode <= 0xdf
    ensures FollowedBy(false, opcode) == Resolved(false, FirstFlags(opcode), opcode)
    ensures NoEntry(false, opcode) <==> FirstFlags(opcode) == 0xff
  {}

  lemma FirstFollowed7(opcode: Byte)
    requires 0xe0 <= opcode <= 0xff
    ensures FollowedBy(false, opcode) == Resolved(false, FirstFlags(opcode), opcode)
    ensures NoEntry(false, opcode) <==> FirstFlags(opcode) == 0xff
  {}

  lemma FirstFollowed(opcode: Byte)
    ensures FollowedBy(false, opcode) == Resolved(false, FirstFlags(opcode), opcode)
    ensures NoEntry(false, opcode) <==> FirstFlags(opcode) == 0xff
  {
    hide FollowedBy, Resolved, FirstFlags, NoEntry;
    if opcode < 0x20 {
      FirstFollowed0(opcode);
    } else if opcode < 0x40 {
      FirstFollowed1(opcode);
    } else if opcode < 0x60 {
      FirstFollowed2(opcode);
    } else if opcode < 0x80 {
      FirstFollowed3(opcode);
    } else if opcode < 0xa0 {
      FirstFollowed4(opcode);
    } else if opcode < 0xc0 {
      FirstFollowed5(opcode);
    } else if opcode < 0xe0 {
      FirstFollowed6(opcode);
    } else {
      FirstFollowed7(opcode);
    }
  }

  lemma SecondFollowed0(opcode: Byte)
    requires 0x00 <= opcode <= 0x1f
    ensures FollowedBy(true, opcode) == Resolved(true, SecondFlags(opcode), opcode)
    ensures NoEntry(true, opcode) <==> SecondFlags(opcode) == 0xff
  {}

  lemma SecondFollowed1(opcode: Byte)
    requires 0x20 <= opcode <= 0x3f
    ensures FollowedBy(true, opcode) == Resolved(true, SecondFlags(opcode), opcode)
    ensures NoEntry(true, opcode) <==> SecondFlags(opcode) == 0xff
  {}

  lemma SecondFollowed2(opcode: Byte)
    requires 0x40 <= opcode <= 0x5f
    ensures FollowedBy(true, opcode) == Resolved(true, SecondFlags(opcode), opcode)
    ensures NoEntry(true, opcode) <==> SecondFlags(opcode) == 0xff
  {}

  lemma SecondFollowed3(opcode: Byte)
    requires 0x60 <= opcode <= 0x7f
    ensures FollowedBy(true, opcode) == Resolved(true, SecondFlags(opcode), opcode)
    ensures NoEntry(true, opcode) <==> SecondFlags(opcode) == 0xff
  {}

  lemma SecondFollowed4(opcode: Byte)
    requires 0x80 <= opcode <= 0x9f
    ensures FollowedBy(true, opcode) == Resolved(true, SecondFlags(opcode), opcode)
    ensures NoEntry(true, opcode) <==> SecondFlags(opcode) == 0xff
  {}

  lemma SecondFollowed5(opcode: Byte)
    requires 0xa0 <= opcode <= 0xbf
    ensures FollowedBy(true, opcode) == Resolved(true, SecondFlags(opcode), opcode)
    ensures NoEntry(true, opcode) <==> SecondFlags(opcode) == 0xff
  {}

  lemma SecondFollowed6(opcode: Byte)
    requires 0xc0 <= opcode <= 0xdf
    ensures FollowedBy(true, opcode) == Resolved(true, SecondFlags(opcode), opcode)
    ensures NoEntry(true, opcode) <==> SecondFlags(opcode) == 0xff
  {}

  lemma SecondFollowed7(opcode: Byte)
    requires 0xe0 <= opcode <= 0xff
    ensures FollowedBy(true, opcode) == Resolved(true, SecondFlags(opcode), opcode)
    ensures NoEntry(true, opcode) <==> SecondFlags(opcode) == 0xff
  {}

  lemma SecondFollowed(opcode: Byte)
    ensures FollowedBy(true, opcode) == Resolved(true, SecondFlags(opcode), opcode)
    ensures NoEntry(true, opcode) <==> SecondFlags(opcode) == 0xff
  {
    hide FollowedBy, Resolved, SecondFlags, NoEntry;
    if opcode < 0x20 {
      SecondFollowed0(opcode);
    } else if opcode < 0x40 {
      SecondFollowed1(opcode);
    } else if opcode < 0x60 {
      SecondFollowed2(opcode);
    } else if opcode < 0x80 {
      SecondFollowed3(opcode);
    } else if opcode < 0xa0 {
      SecondFollowed4(opcode);
    } else if opcode < 0xc0 {
      SecondFollowed5(opcode);
    } else if opcode < 0xe0 {
      SecondFollowed6(opcode);
    } else {
      SecondFollowed7(opcode);
    }
  }

  lemma FlagOperands(v: Byte)
    requires v in {0, 1, 2, 3, 4, 6, 0x10, 0x11, 0x20, 0x50}
    ensures OperandsOf(v) ==
            Operands(v in {1, 3, 0x11}, v in {2, 3, 6}, v in {4, 6}, v in {0x10, 0x11, 0x50}, v == 0x20, v == 0x50)
  {}

  lemma FirstFlagValues(opcode: Byte)
    ensures FirstFlags(opcode) in {0, 1, 2, 3, 4, 6, 0x10, 0x11, 0x20, 0x50, 0xc0, 0xc2, 0xc4, 0xc6, 0xc8, 0xff}
  {}

  lemma SecondFlagValues(opcode: Byte)
    ensures SecondFlags(opcode) in {0, 1, 3, 0x50, 0xc0, 0xc2, 0xc4, 0xc6, 0xc8, 0xca, 0xcc, 0xff}
  {}

  lemma FirstResolved(opcode: Byte)
    ensures OperandsFor(false, opcode) == Resolved(false, FirstFlags(opcode), opcode)
  {
    hide At, Flags, FirstFlags, OperandsOf;
    FirstFlagsAt(opcode);
    FirstFlagValues(opcode);
    FirstGroups();
    var v := FirstFlags(opcode);
    if v != 0xff {
      FlagOperands(if v >= 0x80 then At(v - 0x80) else v);
    }
  }

  lemma SecondResolved(opcode: Byte)
    ensures OperandsFor(true, opcode) == Resolved(true, SecondFlags(opcode), opcode)
  {
    hide At, Flags, SecondFlags, OperandsOf;
    SecondFlagsAt(opcode);
    SecondFlagValues(opcode);
    SecondGroups();
    var v := SecondFlags(opcode);
    if v != 0xff {
      FlagOperands(if v >= 0x80 then At(OPCODES + v - 0x80) else v);
    }
  }

  /** The table says of every opcode what the lists say. */
  lemma OperandsListed(second: bool, opcode: Byte)
    ensures OperandsFor(second, opcode) == FollowedBy(second, opcode)
    ensures Flags(second, opcode) == 0xff <==> NoEntry(second, opcode)
  {
    hide FollowedBy, Resolved, OperandsFor, FirstFlags, SecondFlags, Flags, NoEntry;
    if second {
      SecondResolved(opcode);
      SecondFollowed(opcode);
      SecondFlagsAt(opcode);
    } else {
      FirstResolved(opcode);
      FirstFollowed(opcode);
      FirstFlagsAt(opcode);
    }
  }
}
