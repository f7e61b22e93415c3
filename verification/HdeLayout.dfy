/**
  The layout of an instruction told from its bytes alone: which prefixes it has, where its opcode is, and which parts
  follow by the lists of opcodes and by the rules for ModRM and SIB.
 */
module HdeLayout {
  import opened Words
  import opened HdeTable
  import opened HdeFormat
  import opened HdeInstruction
  import opened HdeOpcodes

  /** `code` starts with `k` prefix bytes, and the opcode lies from `r` to `e`, behind a REX byte if there is one. The
      last of sixteen prefix bytes is taken for the opcode. */
  ghost predicate Begins(code: seq<Byte>, k: nat, r: nat, e: nat) {
    && k <= 16 && |code| >= 32
    && (forall i :: 0 <= i < k ==>
          code[i] in {0xf3, 0xf2, 0xf0, 0x26, 0x2e, 0x36, 0x3e, 0x64, 0x65, 0x66, 0x67})
    && (k < 16 ==> code[k] !in {0xf3, 0xf2, 0xf0, 0x26, 0x2e, 0x36, 0x3e, 0x64, 0x65, 0x66, 0x67})
    && r == (if Rex(code, k) then Min(k, 15) + 1 else Min(k, 15))
    && e == (if code[r] == 0x0f then r + 2 else r + 1)
  }

  predicate Rex(code: seq<Byte>, k: nat)
    requires |code| >= 32
  {
    0x40 <= code[Min(k, 15)] <= 0x4f
  }

  /** Immediates have two bytes instead of four. For the opcodes with an absolute address that is up to prefix 67. */
  ghost predicate Short(code: seq<Byte>, k: nat, r: nat)
    requires k <= |code| && r < |code|
  {
    if 0xa0 <= code[r] <= 0xa3 then 0x67 in code[..k] else 0x66 in code[..k]
  }

  /** The immediate has eight bytes. */
  ghost predicate Wide(code: seq<Byte>, k: nat, r: nat)
    requires |code| >= 32 && r < |code|
  {
    || 0xa0 <= code[r] <= 0xa3
    || (Rex(code, k) && code[Min(k, 15)] >= 0x48 && 0xb8 <= code[r] <= 0xbf)
  }

  // ------------------------------------------------------------------- the head

  lemma {:induction false} LeadingIs(code: seq<Byte>, i: nat, k: nat, r: nat, e: nat)
    requires Begins(code, k, r, e) && i <= k
    ensures Leading(code, i) == k
    decreases k - i
  {
    if i < k {
      LeadingIs(code, i + 1, k, r, e);
    }
  }

  /** Any 32 bytes begin like that. */
  lemma Beginning(code: seq<Byte>) returns (k: nat, r: nat, e: nat)
    requires |code| >= 32
    ensures Begins(code, k, r, e)
  {
    k := Leading(code, 0);
    r := if Rex(code, k) then Min(k, 15) + 1 else Min(k, 15);
    e := if code[r] == 0x0f then r + 2 else r + 1;
  }

  lemma KindsAre(code: seq<Byte>, k: nat, r: nat, e: nat)
    requires Begins(code, k, r, e)
    ensures var kinds := Kinds(code, k);
            && (P66 in kinds <==> 0x66 in code[..k]) && (P67 in kinds <==> 0x67 in code[..k])
            && (F2 in kinds <==> 0xf2 in code[..k]) && (F3 in kinds <==> 0xf3 in code[..k])
            && (Lock in kinds <==> 0xf0 in code[..k]) && NoPrefix !in kinds
            && (Seg in kinds <==> exists b :: b in code[..k] && b in {0x26, 0x2e, 0x36, 0x3e, 0x64, 0x65})
  {
    var kinds := Kinds(code, k);
    forall b: Byte | b in code[..k]
      ensures Kind(b) in kinds
    {
      var i :| 0 <= i < k && code[..k][i] == b;
      assert Kind(code[i]) in kinds;
    }
    forall i | 0 <= i < k
      ensures code[i] in code[..k]
    {
      assert code[..k][i] == code[i];
    }
  }

  lemma Nibbles(b: Byte)
    ensures b / 16 == 4 <==> 0x40 <= b <= 0x4f
    ensures 0x40 <= b <= 0x4f ==> (b % 16 >= 8 <==> b >= 0x48)
  {}

  lemma SizePrefix(all: set<Pre>, c: Byte)
    ensures P67 in PrefixesFor(all, c) <==> P67 in all
    ensures P66 in PrefixesFor(all, c) <==> if 0xa0 <= c <= 0xa3 then P67 in all else P66 in all
  {}

  lemma HeadPlaces(code: seq<Byte>, k: nat, r: nat, e: nat)
    requires Begins(code, k, r, e)
    ensures var h := HeadOf(code);
            && h.start == Min(k, 15) && h.rex == Rex(code, k) && h.end == e
            && h.twice == (h.rex && 0x40 <= code[r] <= 0x4f)
            && h.second == (code[r] == 0x0f) && h.opcode == code[e - 1]
            && h.wide == Wide(code, k, r)
            && h.pref == PrefixesFor(Kinds(code, k), code[r])
            && h.o == if h.twice then Unknown(h.opcode) else OperandsFor(h.second, h.opcode)
  {
    hide Leading, Kinds, OperandsFor, ExtensionsFor, PrefixesFor, Unknown;
    LeadingIs(code, 0, k, r, e);
    Nibbles(code[Min(k, 15)]);
    Nibbles(code[r]);
  }

  /** Prefixes, REX and opcode as the bytes have them. */
  lemma HeadFromBytes(code: seq<Byte>, k: nat, r: nat, e: nat)
    requires Begins(code, k, r, e)
    ensures var h := HeadOf(code);
            && h.start == Min(k, 15) && h.rex == Rex(code, k) && h.end == e
            && h.twice == (h.rex && 0x40 <= code[r] <= 0x4f)
            && h.second == (code[r] == 0x0f) && h.opcode == code[e - 1]
            && (P66 in h.pref <==> Short(code, k, r)) && (P67 in h.pref <==> 0x67 in code[..k])
            && h.wide == Wide(code, k, r)
            && h.o == if h.twice then NONE else FollowedBy(h.second, h.opcode)
  {
    hide HeadOf, Kinds, OperandsFor, FollowedBy, PrefixesFor, Wide;
    HeadPlaces(code, k, r, e);
    KindsAre(code, k, r, e);
    SizePrefix(Kinds(code, k), code[r]);
    OperandsListed(code[r] == 0x0f, code[e - 1]);
  }

  /** The prefixes that the checks and the operand size go by. */
  ghost predicate HasPrefixes(code: seq<Byte>, k: nat, r: nat, pref: set<Pre>)
    requires k <= |code| && r < |code|
  {
    && (NoPrefix in pref <==> k == 0)
    && (F2 in pref <==> 0xf2 in code[..k]) && (F3 in pref <==> 0xf3 in code[..k])
    && (Lock in pref <==> 0xf0 in code[..k])
    && (P66 in pref <==> Short(code, k, r)) && (P67 in pref <==> 0x67 in code[..k])
    && (Seg in pref <==> exists b :: b in code[..k] && b in {0x26, 0x2e, 0x36, 0x3e, 0x64, 0x65})
  }

  lemma OtherPrefixes(all: set<Pre>, c: Byte)
    ensures var pref := PrefixesFor(all, c);
            && (F2 in pref <==> F2 in all) && (F3 in pref <==> F3 in all) && (Lock in pref <==> Lock in all)
            && (Seg in pref <==> Seg in all) && (NoPrefix !in all ==> (NoPrefix in pref <==> all == {}))
  {}

  lemma NoKinds(code: seq<Byte>, k: nat)
    requires k <= |code|
    ensures Kinds(code, k) == {} <==> k == 0
  {
    if k > 0 {
      assert Kind(code[0]) in Kinds(code, k);
    }
  }

  lemma PrefixesFromBytes(code: seq<Byte>, k: nat, r: nat, e: nat)
    requires Begins(code, k, r, e)
    ensures HasPrefixes(code, k, r, HeadOf(code).pref)
  {
    hide HeadOf, Kinds, PrefixesFor, OperandsFor, Wide, Unknown;
    HeadPlaces(code, k, r, e);
    KindsAre(code, k, r, e);
    NoKinds(code, k);
    SizePrefix(Kinds(code, k), code[r]);
    OtherPrefixes(Kinds(code, k), code[r]);
  }

  // --------------------------------------------------- ModRM, SIB and displacement

  /** ModRM, SIB and displacement of every instruction, by its bytes: the list of opcodes decides whether there is a
      ModRM byte at `e`; that byte, the one behind it and prefix 67 decide the rest. */
  lemma Addressing(code: seq<Byte>, k: nat, r: nat, e: nat)
    requires Begins(code, k, r, e)
    ensures e + 1 < |code|
    ensures var f := Described(code).flags;
            var m, short := code[e], 0x67 in code[..k];
            var mod := if code[r] == 0x0f && 0x20 <= code[e - 1] <= 0x23 then 3 else m / 64;
            var base5 := mod != 3 && m % 8 == 4 && code[e + 1] % 8 == 5;
            && (f.modrm <==> HasModrm(code[r] == 0x0f, code[e - 1]) && !(Rex(code, k) && 0x40 <= code[r] <= 0x4f))
            && (f.sib <==> f.modrm && mod != 3 && m % 8 == 4)
            && (f.disp8 <==> f.modrm && mod == 1)
            && (f.disp16 <==> f.modrm && short && ((mod == 2 && !base5) || (mod == 0 && m % 8 == 6)))
            && (f.disp32 <==> && f.modrm
                              && (|| (!short && (mod == 2 || (mod == 0 && m % 8 == 5)))
                                  || (base5 && (mod == 0 || mod == 2))))
  {
    hide HeadOf, Described, SizesOf, OperandsIn, Short, Wide, HasModrm, HasByte, HasWord, HasSized, HasShortJump, HasLongJump;
    HeadFromBytes(code, k, r, e);
    PartFlags(code);
  }

  // ------------------------------------------------------------------ immediates

  /** A jump distance of the operand size comes alone. */
  lemma JumpAlone(second: bool, opcode: Byte)
    requires HasLongJump(second, opcode)
    ensures HasSized(second, opcode) && !HasByte(second, opcode) && !HasWord(second, opcode)
    ensures !HasShortJump(second, opcode) && !HasModrm(second, opcode)
    ensures !(!second && (0xa0 <= opcode <= 0xa3 || 0xb8 <= opcode <= 0xbf))
  {}

  lemma SizesAre(o: Operands, short: bool, wide: bool)
    requires o.rel32 ==> o.immP66 && !o.imm8 && !o.imm16 && !o.rel8 && !wide
    ensures var sizes := Immediates(o, short, wide);
            && (1 in sizes <==> o.imm8 || o.rel8)
            && (2 in sizes <==> o.imm16 || (o.immP66 && short && !wide))
            && (4 in sizes <==> o.immP66 && !short && !wide)
            && (8 in sizes <==> o.immP66 && wide)
  {
    if o.rel32 {
      assert Immediates(o, short, wide) == [if short then 2 else 4];
    } else {
      ImmediatesSizes(o, short, wide);
    }
  }

  /** The immediates of every instruction, by its bytes. */
  lemma Immediate(code: seq<Byte>, k: nat, r: nat, e: nat)
    requires Begins(code, k, r, e)
    ensures e + 1 < |code|
    ensures var f := Described(code).flags;
            var second, opcode := code[r] == 0x0f, code[e - 1];
            var known := !(Rex(code, k) && 0x40 <= code[r] <= 0x4f);
            var test := f.modrm && code[e] % 64 / 8 <= 1;
            var sized := known && (HasSized(second, opcode) || (test && opcode == 0xf7));
            && (f.imm8 <==> known && (HasByte(second, opcode) || HasShortJump(second, opcode) || (test && opcode == 0xf6)))
            && (f.imm16 <==> (known && HasWord(second, opcode)) || (sized && Short(code, k, r) && !Wide(code, k, r)))
            && (f.imm32 <==> sized && !Short(code, k, r) && !Wide(code, k, r))
            && (f.imm64 <==> sized && Wide(code, k, r))
            && (f.relative <==> known && (HasShortJump(second, opcode) || HasLongJump(second, opcode)))
  {
    hide HeadOf, Described, AddressOf, Short, Wide, HasModrm, HasByte, HasWord, HasSized, HasShortJump, HasLongJump;
    hide Immediates;
    HeadFromBytes(code, k, r, e);
    PartFlags(code);
    ModrmReg(code, HeadOf(code));
    var h := HeadOf(code);
    if HasLongJump(h.second, h.opcode) {
      JumpAlone(h.second, h.opcode);
      NotWide(code, k, r, e);
    }
    SizesAre(OperandsIn(h, AddressOf(code, h)), P66 in h.pref, h.wide);
  }

  lemma ModrmReg(code: seq<Byte>, h: Head)
    requires h.end + 1 < |code|
    ensures h.o.modrm ==> AddressOf(code, h).reg == code[h.end] % 64 / 8
  {}

  lemma NotWide(code: seq<Byte>, k: nat, r: nat, e: nat)
    requires Begins(code, k, r, e) && HasLongJump(code[r] == 0x0f, code[e - 1])
    ensures !Wide(code, k, r)
  {}

  // ---------------------------------------------------------- the length, and the values

  /** The parts are all there is to the length. */
  lemma Extent(code: seq<Byte>, k: nat, r: nat, e: nat)
    requires Begins(code, k, r, e)
    ensures var hs := Described(code);
            var f := hs.flags;
            && Length(code) == e + One(f.modrm, 1) + One(f.sib, 1) + One(f.disp8, 1) + One(f.disp16, 2) + One(f.disp32, 4)
                                 + One(f.imm8, 1) + One(f.imm16, 2) + One(f.imm32, 4) + One(f.imm64, 8)
            && hs.len == Min(Length(code), 15)
  {
    hide HeadOf, Described, Length, SizesOf, AddressOf, Sum, Addressed;
    Consistent(code);
    LeadingIs(code, 0, k, r, e);
    Nibbles(code[Min(k, 15)]);
    Nibbles(code[r]);
  }

  /** The last of `bytes` that is one of `wanted`, or 0. */
  function LastOf(bytes: seq<Byte>, wanted: set<Byte>): (r: Byte)
    decreases |bytes|
  {
    if bytes == [] then 0
    else if bytes[|bytes| - 1] in wanted then bytes[|bytes| - 1]
    else LastOf(bytes[..|bytes| - 1], wanted)
  }

  lemma {:induction false} LastIs(code: seq<Byte>, k: nat, kinds: set<Pre>, wanted: set<Byte>)
    requires k <= |code| && forall i :: 0 <= i < k ==> (Kind(code[i]) in kinds <==> code[i] in wanted)
    ensures Last(code, k, kinds) == LastOf(code[..k], wanted)
  {
    if k > 0 {
      LastIs(code, k - 1, kinds, wanted);
      assert code[..k][..k - 1] == code[..k - 1];
    }
  }

  /** What the report takes over from its stages. */
  lemma StagesKept(code: seq<Byte>)
    requires |code| >= 32
    ensures HeadOf(code).end + 6 <= |code|
    ensures var h := HeadOf(code);
            var a := AddressOf(code, h);
            var hs, body := Described(code), BodyFields(code, h, a);
            && hs.pre == body.pre && hs.prefixes == body.prefixes && hs.rex == body.rex && hs.opcode == body.opcode
            && hs.opcode2 == body.opcode2 && hs.modrm == body.modrm && hs.sib == body.sib
  {
    hide HeadOf, AddressOf, BodyFields, Stored, Sum, SizesOf, OperandsIn, DispStart, WithImm, Long;
    PartsFit(code);
  }

  lemma HeadValues(code: seq<Byte>, h: Head)
    requires |code| >= 32 && h.start < |code|
    ensures var hs := HeadFields(code, h);
            && hs.pre == Bytes(code, Leading(code, 0)) && hs.prefixes == Kinds(code, Leading(code, 0))
            && hs.rex == FrontFields(code, h).rex
            && hs.opcode == (if h.twice then 0 else if h.second then 0x0f else h.opcode)
            && hs.opcode2 == (if h.second then h.opcode else 0) && hs.modrm == ZERO.modrm && hs.sib == ZERO.sib
  {
    hide Leading, Kinds, Bytes, PrefixRefused, Flags;
  }

  lemma BodyValues(code: seq<Byte>, h: Head, a: Address)
    requires |code| >= 32 && h.start < |code| && h.end + 6 <= |code| && a == AddressOf(code, h)
    ensures var hs, head := BodyFields(code, h, a), HeadFields(code, h);
            var m, s := code[h.end], code[h.end + 1];
            && hs.pre == head.pre && hs.prefixes == head.prefixes && hs.rex == head.rex
            && hs.opcode == head.opcode && hs.opcode2 == head.opcode2
            && hs.modrm == (if h.o.modrm then ModrmByte(m, m / 64, m % 64 / 8, m % 8) else head.modrm)
            && hs.sib == (if a.sib then SibByte(s, s / 64, s % 64 / 8, s % 8) else head.sib)
  {
    hide HeadFields, AddressOf, TopBit, FpuRefused, LockRefused, OperandRefused, WithDisp;
    HeadUnions(code, h);
  }

  lemma PrefixValues(code: seq<Byte>, k: nat, r: nat, e: nat)
    requires Begins(code, k, r, e)
    ensures Bytes(code, k) ==
            PrefixBytes(LastOf(code[..k], {0xf2, 0xf3}), LastOf(code[..k], {0xf0}),
                        LastOf(code[..k], {0x26, 0x2e, 0x36, 0x3e, 0x64, 0x65}),
                        LastOf(code[..k], {0x66}), LastOf(code[..k], {0x67}))
  {
    LastIs(code, k, {F2, F3}, {0xf2, 0xf3});
    LastIs(code, k, {Lock}, {0xf0});
    LastIs(code, k, {Seg}, {0x26, 0x2e, 0x36, 0x3e, 0x64, 0x65});
    LastIs(code, k, {P66}, {0x66});
    LastIs(code, k, {P67}, {0x67});
  }

  /** The fields of the report, by the bytes: the last prefix of every kind, the bits of the REX byte, the opcode, and
      the ModRM and SIB bytes taken apart. */
  lemma Values(code: seq<Byte>, k: nat, r: nat, e: nat)
    requires Begins(code, k, r, e)
    ensures e + 1 < |code|
    ensures var hs := Described(code);
            var c, m, s := code[Min(k, 15)], code[e], code[e + 1];
            && hs.pre == PrefixBytes(LastOf(code[..k], {0xf2, 0xf3}), LastOf(code[..k], {0xf0}),
                                     LastOf(code[..k], {0x26, 0x2e, 0x36, 0x3e, 0x64, 0x65}),
                                     LastOf(code[..k], {0x66}), LastOf(code[..k], {0x67}))
            && hs.prefixes == Kinds(code, k)
            && hs.rex == (if Rex(code, k) then RexBits(c % 16 / 8, c % 8 / 4, c % 4 / 2, c % 2) else RexBits(0, 0, 0, 0))
            && hs.opcode == (if Rex(code, k) && 0x40 <= code[r] <= 0x4f then 0 else code[r])
            && hs.opcode2 == (if code[r] == 0x0f then code[r + 1] else 0)
            && hs.modrm == (if hs.flags.modrm then ModrmByte(m, m / 64, m % 64 / 8, m % 8) else ModrmByte(0, 0, 0, 0))
            && hs.sib == (if hs.flags.sib then SibByte(s, s / 64, s % 64 / 8, s % 8) else SibByte(0, 0, 0, 0))
  {
    hide HeadOf, Described, AddressOf, BodyFields, HeadFields, Kinds, Bytes, LastOf, SizesOf, OperandsIn, Leading;
    hide OperandsFor, PrefixesFor, Wide, Unknown;
    PartFlags(code);
    StagesKept(code);
    LeadingIs(code, 0, k, r, e);
    HeadPlaces(code, k, r, e);
    PrefixValues(code, k, r, e);
    var h := HeadOf(code);
    HeadValues(code, h);
    BodyValues(code, h, AddressOf(code, h));
  }

  lemma LastSize(o: Operands, short: bool, wide: bool)
    requires OneOfEach(o, wide) && Immediates(o, short, wide) != []
    ensures var sizes := Immediates(o, short, wide);
            var n := sizes[|sizes| - 1];
            && (n == 1 <==> 1 in sizes) && (n == 2 <==> 2 in sizes && 1 !in sizes)
            && (n == 4 ==> 4 in sizes) && (n == 8 ==> 8 in sizes) && n in {1, 2, 4, 8}
            && (n == 4 <==> 1 !in sizes && 2 !in sizes && 4 in sizes)
  {
    SizesAre(o, short, wide);
  }

  lemma UnionIs(code: seq<Byte>)
    requires |code| >= 32
    ensures HeadOf(code).end + 6 <= |code|
    ensures var h := HeadOf(code);
            var a := AddressOf(code, h);
            var p, sizes := DispStart(h, a) + a.n, SizesOf(h, a);
            && p + Sum(sizes) == Length(code) <= 32 && (forall i :: 0 <= i < |sizes| ==> sizes[i] <= 8)
            && Described(code).imm == Stored(ZERO.imm, code, p, sizes)
  {
    hide HeadOf, AddressOf, BodyFields, Stored, Sum, SizesOf, OperandsIn, DispStart, WithImm, Long;
    PartsFit(code);
    var h := HeadOf(code);
    BodyUnion(code, h, AddressOf(code, h));
  }

  lemma LastStored(code: seq<Byte>, p: nat, sizes: seq<nat>)
    requires sizes != [] && p + Sum(sizes) <= |code| && forall i :: 0 <= i < |sizes| ==> sizes[i] <= 8
    ensures var n, end := sizes[|sizes| - 1], p + Sum(sizes);
            n <= end && Stored(ZERO.imm, code, p, sizes)[..n] == code[end - n..end]
  {
    hide Sum, Stored;
    var done, n := sizes[..|sizes| - 1], sizes[|sizes| - 1];
    assert sizes == done + [n];
    SumAppend(done, [n]);
    SumStep(n, []);
    SumNone();
    assert [n] + [] == [n];
    StoredMore(ZERO.imm, code, p, done, n);
  }

  lemma WordAlone(second: bool, opcode: Byte)
    requires HasWord(second, opcode)
    ensures !HasSized(second, opcode) && opcode != 0xf7
  {}

  ghost predicate OneOfEach(o: Operands, wide: bool) {
    (o.rel32 ==> o.immP66 && !o.imm8 && !o.imm16 && !o.rel8 && !wide) && !(o.immP66 && o.imm16)
  }

  lemma OperandsAre(code: seq<Byte>, k: nat, r: nat, e: nat)
    requires Begins(code, k, r, e)
    ensures e + 6 <= |code|
    ensures var h := HeadOf(code); h.end == e && OneOfEach(OperandsIn(h, AddressOf(code, h)), h.wide)
  {
    hide HeadOf, AddressOf, Short, Wide, HasModrm, HasByte, HasWord, HasSized, HasShortJump, HasLongJump;
    PartsFit(code);
    HeadFromBytes(code, k, r, e);
    var h := HeadOf(code);
    if HasLongJump(h.second, h.opcode) {
      JumpAlone(h.second, h.opcode);
      NotWide(code, k, r, e);
    }
    if HasWord(h.second, h.opcode) {
      WordAlone(h.second, h.opcode);
    }
  }

  /** `imm` begins with the last immediate before `end`, which is the shortest one. */
  ghost predicate HoldsLast(imm: seq<Byte>, code: seq<Byte>, end: nat, byte: bool, word: bool, double: bool, quad: bool) {
    && |imm| == 8 && end <= |code|
    && (byte ==> 1 <= end && imm[..1] == code[end - 1..end])
    && (!byte && word ==> 2 <= end && imm[..2] == code[end - 2..end])
    && (!byte && !word && double ==> 4 <= end && imm[..4] == code[end - 4..end])
    && (!byte && !word && !double && quad ==> 8 <= end && imm[..8] == code[end - 8..end])
  }

  lemma LastHeld(o: Operands, short: bool, wide: bool, code: seq<Byte>, p: nat)
    requires var sizes := Immediates(o, short, wide);
             && OneOfEach(o, wide) && p + Sum(sizes) <= |code| && forall i :: 0 <= i < |sizes| ==> sizes[i] <= 8
    ensures var sizes := Immediates(o, short, wide);
            HoldsLast(Stored(ZERO.imm, code, p, sizes), code, p + Sum(sizes), 1 in sizes, 2 in sizes, 4 in sizes, 8 in sizes)
  {
    hide Immediates, Sum, Stored;
    var sizes := Immediates(o, short, wide);
    if sizes != [] {
      LastSize(o, short, wide);
      LastStored(code, p, sizes);
    }
  }

  /** The union for the immediates holds the last of them, which is the one-byte one if there is one. */
  lemma LastImmediate(code: seq<Byte>, k: nat, r: nat, e: nat)
    requires Begins(code, k, r, e)
    ensures var hs := Described(code);
            var f := hs.flags;
            Length(code) <= 32 && HoldsLast(hs.imm, code, Length(code), f.imm8, f.imm16, f.imm32, f.imm64)
  {
    hide HeadOf, AddressOf, Described, Length, Stored, Sum, OperandsIn, DispStart, Immediates, HoldsLast, OneOfEach;
    UnionIs(code);
    PartFlags(code);
    OperandsAre(code, k, r, e);
    var h := HeadOf(code);
    var a := AddressOf(code, h);
    LastHeld(OperandsIn(h, a), P66 in h.pref, h.wide, code, DispStart(h, a) + a.n);
  }
}
