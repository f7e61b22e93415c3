/**
  The layout of x86-64 instructions as the length decoder sees it: prefixes, operands, displacements, immediates,
  and the combinations it refuses.
 */
module HdeFormat {
  import opened Words
  import opened HdeTable

  datatype Pre = NoPrefix | F2 | F3 | P66 | P67 | Lock | Seg

  /** The flags of the result, without those for prefixes. */
  datatype Report = Report(
    modrm: bool, sib: bool, imm8: bool, imm16: bool, imm32: bool, imm64: bool, disp8: bool, disp16: bool, disp32: bool,
    relative: bool, error: bool, errorOpcode: bool, errorLength: bool, errorLock: bool, errorOperand: bool,
    rex: bool)

  const CLEAR := Report(false, false, false, false, false, false, false, false, false,
                        false, false, false, false, false, false, false)

  datatype PrefixBytes = PrefixBytes(rep: Byte, lock: Byte, seg: Byte, p66: Byte, p67: Byte)

  datatype RexBits = RexBits(w: Byte, r: Byte, x: Byte, b: Byte)

  datatype ModrmByte = ModrmByte(byte: Byte, mod: Byte, reg: Byte, rm: Byte)

  datatype SibByte = SibByte(byte: Byte, scale: Byte, index: Byte, base: Byte)

  /** The result structure; `imm` and `disp` are the bytes of its two unions, `prefixes` the flags for prefixes. */
  datatype Fields = Fields(
    len: nat, pre: PrefixBytes, rex: RexBits, opcode: Byte, opcode2: Byte, modrm: ModrmByte, sib: SibByte,
    imm: seq<Byte>, disp: seq<Byte>, flags: Report, prefixes: set<Pre>)

  const ZERO: Fields :=
    Fields(0, PrefixBytes(0, 0, 0, 0, 0), RexBits(0, 0, 0, 0), 0, 0, ModrmByte(0, 0, 0, 0), SibByte(0, 0, 0, 0),
           [0, 0, 0, 0, 0, 0, 0, 0], [0, 0, 0, 0], CLEAR, {})

  // ------------------------------------------------------------------------ prefixes

  predicate IsPrefix(c: Byte) {
    c in {0xf3, 0xf2, 0xf0, 0x26, 0x2e, 0x36, 0x3e, 0x64, 0x65, 0x66, 0x67}
  }

  function Kind(c: Byte): (r: Pre) {
    if c == 0xf3 then F3 else if c == 0xf2 then F2 else if c == 0xf0 then Lock
    else if c == 0x66 then P66 else if c == 0x67 then P67 else Seg
  }

  /** The number of prefix bytes at the beginning, 16 at most. */
  function Leading(code: seq<Byte>, i: nat): (k: nat)
    requires i <= 16 <= |code|
    ensures i <= k <= 16
    ensures forall j :: i <= j < k ==> IsPrefix(code[j])
    ensures k < 16 ==> !IsPrefix(code[k])
    decreases 16 - i
  {
    if i == 16 || !IsPrefix(code[i]) then i else Leading(code, i + 1)
  }

  function Kinds(code: seq<Byte>, k: nat): (r: set<Pre>)
    requires k <= |code|
  {
    set i | 0 <= i < k :: Kind(code[i])
  }

  /** The last of the first `k` bytes with one of these kinds, or 0. */
  function Last(code: seq<Byte>, k: nat, kinds: set<Pre>): (r: Byte)
    requires k <= |code|
  {
    if k == 0 then 0 else if Kind(code[k - 1]) in kinds then code[k - 1] else Last(code, k - 1, kinds)
  }

  function Bytes(code: seq<Byte>, k: nat): (r: PrefixBytes)
    requires k <= |code|
  {
    PrefixBytes(Last(code, k, {F2, F3}), Last(code, k, {Lock}), Last(code, k, {Seg}),
                Last(code, k, {P66}), Last(code, k, {P67}))
  }

  lemma OneMore(code: seq<Byte>, k: nat, pre: PrefixBytes, pref: set<Pre>)
    requires k < |code| && pre == Bytes(code, k) && pref == Kinds(code, k)
    ensures Bytes(code, k + 1) ==
            (match Kind(code[k])
             case F3 => pre.(rep := code[k])
             case F2 => pre.(rep := code[k])
             case Lock => pre.(lock := code[k])
             case Seg => pre.(seg := code[k])
             case P66 => pre.(p66 := code[k])
             case P67 => pre.(p67 := code[k])
             case NoPrefix => pre)
    ensures Kinds(code, k + 1) == pref + {Kind(code[k])}
  {}

  lemma LeadingStep(code: seq<Byte>, k: nat)
    requires k < 16 <= |code|
    ensures Leading(code, k) == if IsPrefix(code[k]) then Leading(code, k + 1) else k
  {}

  lemma NoneYet(code: seq<Byte>)
    ensures Bytes(code, 0) == ZERO.pre && Kinds(code, 0) == {}
    ensures |code| >= 16 ==> Leading(code, 16) == 16
  {}

  /** A bit of a table byte for every kind of prefix. */
  predicate Meets(v: Byte, pref: set<Pre>) {
    || (NoPrefix in pref && Bit(v, 1)) || (F2 in pref && Bit(v, 2)) || (F3 in pref && Bit(v, 4))
    || (P66 in pref && Bit(v, 8)) || (P67 in pref && Bit(v, 0x10)) || (Lock in pref && Bit(v, 0x20))
    || (Seg in pref && Bit(v, 0x40))
  }

  // ------------------------------------------------------------------------ operands

  /** What follows an opcode. */
  datatype Operands = Operands(modrm: bool, imm8: bool, imm16: bool, immP66: bool, rel8: bool, rel32: bool)

  const NONE := Operands(false, false, false, false, false, false)

  function OperandsOf(v: Byte): (r: Operands) {
    Operands(Bit(v, 1), Bit(v, 2), Bit(v, 4), Bit(v, 0x10), Bit(v, 0x20), Bit(v, 0x40))
  }

  /** The operands assumed for an opcode that does not exist. */
  function Unknown(opcode: Byte): (r: Operands) {
    NONE.(modrm := opcode == 0x24 || opcode == 0x26)
  }

  function Base(second: bool): (r: nat) {
    if second then OPCODES else 0
  }

  function OperandsFor(second: bool, opcode: Byte): (r: Operands) {
    var v := Flags(second, opcode);
    if v == 0xff then Unknown(opcode)
    else if v >= 0x80 then OperandsOf(At(Base(second) + v - 0x80))
    else OperandsOf(v)
  }

  /** The opcode extensions a group rules out. */
  function ExtensionsFor(second: bool, opcode: Byte): (r: Byte) {
    var v := Flags(second, opcode);
    if 0x80 <= v < 0xff then At(Base(second) + v - 0x80 + 1) else 0
  }

  /** Opcodes 0xf6 and 0xf7 have an immediate for the first two extensions, in both maps. */
  function Adjusted(o: Operands, opcode: Byte, reg: Byte): (r: Operands) {
    if reg <= 1 && opcode == 0xf6 then o.(imm8 := true)
    else if reg <= 1 && opcode == 0xf7 then o.(immP66 := true)
    else o
  }

  function OperandSized(o: Operands, short: bool, wide: bool): (r: seq<nat>) {
    if !o.immP66 then [] else if wide then [8] else if short then [2] else [4]
  }

  function Word(o: Operands, short: bool, wide: bool): (r: seq<nat>) {
    if o.imm16 && !(o.immP66 && short && !wide) then [2] else []
  }

  function Single(o: Operands): (r: seq<nat>) {
    if o.imm8 then [1] else []
  }

  function Relatives(o: Operands): (r: seq<nat>) {
    if o.rel32 then [4] else if o.rel8 then [1] else []
  }

  /** The immediates that follow, by size. */
  function Immediates(o: Operands, short: bool, wide: bool): (r: seq<nat>) {
    if o.immP66 && o.rel32 then [if short then 2 else 4]
    else OperandSized(o, short, wide) + Word(o, short, wide) + Single(o) + Relatives(o)
  }

  function WithImm(f: Report, sizes: seq<nat>): (r: Report) {
    f.(imm8 := f.imm8 || 1 in sizes, imm16 := f.imm16 || 2 in sizes,
       imm32 := f.imm32 || 4 in sizes, imm64 := f.imm64 || 8 in sizes)
  }

  /** The union after the immediates were stored one after the other. */
  function Stored(imm: seq<Byte>, code: seq<Byte>, p: nat, sizes: seq<nat>): (r: seq<Byte>)
    requires |imm| == 8 && p + Sum(sizes) <= |code| && forall i :: 0 <= i < |sizes| ==> sizes[i] <= 8
    ensures |r| == 8
    decreases |sizes|
  {
    if sizes == [] then imm
    else Stored(code[p..p + sizes[0]] + imm[sizes[0]..], code, p + sizes[0], sizes[1..])
  }

  /** The lengths that flags stand for. */
  function ImmBytes(f: Report): (r: nat) {
    One(f.imm8, 1) + One(f.imm16, 2) + One(f.imm32, 4) + One(f.imm64, 8)
  }

  function DispBytes(f: Report): (r: nat) {
    One(f.disp8, 1) + One(f.disp16, 2) + One(f.disp32, 4)
  }

  function One(b: bool, n: nat): (r: nat) {
    if b then n else 0
  }

  lemma ImmediatesSum(o: Operands, short: bool, wide: bool)
    requires !(o.immP66 && o.rel32)
    ensures Sum(Immediates(o, short, wide)) ==
            One(o.immP66, if wide then 8 else if short then 2 else 4) + One(o.imm16 && !(o.immP66 && short && !wide), 2)
            + One(o.imm8, 1) + One(o.rel32, 4) + One(o.rel8 && !o.rel32, 1)
  {
    hide Sum, OperandSized, Word, Single, Relatives, One;
    SumPieces(o, short, wide);
    var a, b, c, d := OperandSized(o, short, wide), Word(o, short, wide), Single(o), Relatives(o);
    SumAppend(a, b);
    SumAppend(a + b, c);
    SumAppend(a + b + c, d);
  }

  lemma SumPieces(o: Operands, short: bool, wide: bool)
    ensures Sum(OperandSized(o, short, wide)) == One(o.immP66, if wide then 8 else if short then 2 else 4)
    ensures Sum(Word(o, short, wide)) == One(o.imm16 && !(o.immP66 && short && !wide), 2)
    ensures Sum(Single(o)) == One(o.imm8, 1)
    ensures Sum(Relatives(o)) == One(o.rel32, 4) + One(o.rel8 && !o.rel32, 1)
  {}

  lemma InPieces(o: Operands, short: bool, wide: bool, n: nat)
    requires !(o.immP66 && o.rel32)
    ensures n in Immediates(o, short, wide) <==>
            n in OperandSized(o, short, wide) || n in Word(o, short, wide) || n in Single(o) || n in Relatives(o)
  {
    hide OperandSized, Word, Single, Relatives;
  }

  lemma ImmediatesSizes(o: Operands, short: bool, wide: bool)
    requires !(o.immP66 && o.rel32)
    ensures var sizes := Immediates(o, short, wide);
            && (1 in sizes <==> o.imm8 || (o.rel8 && !o.rel32))
            && (2 in sizes <==> (o.immP66 && short && !wide) || o.imm16)
            && (4 in sizes <==> (o.immP66 && !short && !wide) || o.rel32)
            && (8 in sizes <==> o.immP66 && wide)
  {
    hide Immediates;
    InPieces(o, short, wide, 1);
    InPieces(o, short, wide, 2);
    InPieces(o, short, wide, 4);
    InPieces(o, short, wide, 8);
  }

  /** The flags tell the number of immediate bytes exactly unless two immediates of one byte follow. */
  lemma ImmediatesReported(o: Operands, short: bool, wide: bool)
    ensures var sizes := Immediates(o, short, wide);
            Sum(sizes) == ImmBytes(WithImm(CLEAR, sizes)) <==> !(o.imm8 && o.rel8 && !o.rel32)
    ensures Sum(Immediates(o, short, wide)) <= if wide then 12 else 8
  {
    if o.immP66 && o.rel32 {
      assert Immediates(o, short, wide) == [if short then 2 else 4];
    } else {
      ImmediatesSum(o, short, wide);
      ImmediatesSizes(o, short, wide);
      hide Immediates, Sum;
      assert Sum(Immediates(o, short, wide)) == ImmBytes(WithImm(CLEAR, Immediates(o, short, wide))) <==>
             !(o.imm8 && o.rel8 && !o.rel32);
    }
  }

  lemma {:induction false} SumAppend(a: seq<nat>, b: seq<nat>)
    ensures Sum(a + b) == Sum(a) + Sum(b)
    decreases |a|
  {
    if a == [] {
      assert a + b == b;
    } else {
      assert (a + b)[1..] == a[1..] + b;
      SumAppend(a[1..], b);
    }
  }

  lemma ListedOperands(v: Byte)
    requires Listed(v) && v < 0x80
    ensures !(OperandsOf(v).imm8 && OperandsOf(v).rel8)
  {}

  /** No opcode of the table has two immediates of one byte. */
  lemma OneByteOnce(second: bool, opcode: Byte, reg: Byte)
    ensures var o := Adjusted(OperandsFor(second, opcode), opcode, reg); !(o.imm8 && o.rel8)
    ensures var o := OperandsFor(second, opcode); !(o.imm8 && o.rel8)
  {
    hide Flags, Listed, At;
    var v := Flags(second, opcode);
    FlagsListed(second, opcode);
    if opcode == 0xf6 {
      TestOpcode(second);
    } else if v == 0xff {
    } else if v >= 0x80 {
      ListedGroup(v);
      GroupBytes(second, v);
    } else {
      ListedOperands(v);
    }
  }

  lemma ListedGroup(v: Byte)
    requires Listed(v) && 0x80 <= v < 0xff
    ensures Group(v)
  {}

  lemma WideOperands(opcode: Byte)
    requires 0xa0 <= opcode <= 0xa3 || 0xb8 <= opcode <= 0xbf
    ensures OperandsFor(false, opcode) == NONE.(immP66 := true)
  {
    hide Flags;
    WideOpcodes(opcode);
  }

  // ------------------------------------------------------------------------ the checks

  /** Bit 7 of `v` shifted left by `n`. */
  predicate TopBit(v: Byte, n: Byte)
    requires n < 8
  {
    var w := if n == 0 then 128 else if n == 1 then 64 else if n == 2 then 32 else if n == 3 then 16
             else if n == 4 then 8 else if n == 5 then 4 else if n == 6 then 2 else 1;
    Bit(v, w)
  }

  /** The first of `n` pairs that begins with `key`, or the end of the pairs. */
  function FirstPair(at: nat, n: nat, key: Byte): (i: nat)
    requires at + 2 * n <= SIZE
    ensures i == at + 2 * n || (at <= i <= at + 2 * n - 2 && At(i) == key)
    decreases n
  {
    if n == 0 || At(at) == key then at else FirstPair(at + 2, n - 1, key)
  }

  /** The first of `n` triples that begins with `key`, or the end of the triples. */
  function FirstTriple(at: nat, n: nat, key: Byte): (i: nat)
    requires at + 3 * n <= SIZE
    ensures i == at + 3 * n || (at <= i <= at + 3 * n - 3 && At(i) == key)
    decreases n
  {
    if n == 0 || At(at) == key then at else FirstTriple(at + 3, n - 1, key)
  }

  const PAIRS := (OP2_LOCK_OK - OP_LOCK_OK) / 2
  const PAIRS2 := (OP_ONLY_MEM - OP2_LOCK_OK) / 2
  const TRIPLES := (OP2_ONLY_MEM - OP_ONLY_MEM) / 3
  const TRIPLES2 := (SIZE - OP2_ONLY_MEM) / 3

  /** A locked access to memory is refused unless the opcode is listed with this extension. */
  predicate LockRefused(two: bool, opcode: Byte, reg: Byte)
    requires reg < 8
  {
    var at, n := if two then OP2_LOCK_OK else OP_LOCK_OK, if two then PAIRS2 else PAIRS;
    var key := if two then opcode else opcode / 2 * 2;
    var i := FirstPair(at, n, key);
    i == at + 2 * n || TopBit(At(i + 1), reg)
  }

  /** A register operand is refused if the opcode is listed for a prefix and not excepted by its extension. */
  predicate RegisterRefused(two: bool, opcode: Byte, reg: Byte, pref: set<Pre>)
    requires reg < 8
  {
    var at, n := if two then OP2_ONLY_MEM else OP_ONLY_MEM, if two then TRIPLES2 else TRIPLES;
    var i := FirstTriple(at, n, opcode);
    i < at + 3 * n && Meets(At(i + 1), pref) && !TopBit(At(i + 2), reg)
  }

  predicate FpuRefused(opcode: Byte, mod: Byte, reg: Byte, rm: Byte)
    requires reg < 8 && rm < 8
  {
    && 0xd9 <= opcode <= 0xdf
    && (if mod == 3 then TopBit(At(FPU_MODRM + (opcode - 0xd9) * 8 + reg), rm)
        else TopBit(At(FPU_REG + (opcode - 0xd9)), reg))
  }

  predicate OperandRefused(two: bool, opcode: Byte, mod: Byte, reg: Byte, pref: set<Pre>)
    requires reg < 8
  {
    if two && (opcode == 0x20 || opcode == 0x22) then reg > 4 || reg == 1
    else if two && (opcode == 0x21 || opcode == 0x23) then reg == 4 || reg == 5
    else if !two && opcode == 0x8c then reg > 5
    else if !two && opcode == 0x8e then reg == 1 || reg > 5
    else if mod == 3 then RegisterRefused(two, opcode, reg, pref)
    else if two && (opcode == 0x50 || opcode == 0xd7 || opcode == 0xf7) then NoPrefix in pref || P66 in pref
    else if two && opcode == 0xd6 then F2 in pref || F3 in pref
    else two && opcode == 0xc5
  }

  /** Moves to and from control registers have no memory operand. */
  function EffectiveMod(two: bool, opcode: Byte, mod: Byte): (r: Byte)
    ensures mod < 4 ==> r < 4
  {
    if two && 0x20 <= opcode <= 0x23 then 3 else mod
  }

  /** The number of displacement bytes. */
  function DispSize(mod: Byte, rm: Byte, base: Byte, p67: bool): (r: nat)
    ensures r == 0 || r == 1 || r == 2 || r == 4
  {
    if mod != 3 && rm == 4 && base == 5 && mod % 2 == 0 then 4
    else if mod == 0 then (if p67 then (if rm == 6 then 2 else 0) else if rm == 5 then 4 else 0)
    else if mod == 1 then 1
    else if mod == 2 then (if p67 then 2 else 4)
    else 0
  }

  function WithDisp(f: Report, n: nat): (r: Report) {
    f.(disp8 := f.disp8 || n == 1, disp16 := f.disp16 || n == 2, disp32 := f.disp32 || n == 4)
  }

  function BadOpcode(hs: Fields, bad: bool): (r: Fields) {
    if bad then hs.(flags := hs.flags.(error := true, errorOpcode := true)) else hs
  }

  function BadLock(hs: Fields, bad: bool): (r: Fields) {
    if bad then hs.(flags := hs.flags.(error := true, errorLock := true)) else hs
  }

  function BadOperand(hs: Fields, bad: bool): (r: Fields) {
    if bad then hs.(flags := hs.flags.(error := true, errorOperand := true)) else hs
  }

  /** The prefixes of a two-byte opcode include one that its table entry excludes. */
  predicate PrefixRefused(opcode: Byte, pref: set<Pre>) {
    PrefixMap(opcode / 4);
    Meets(At(PREFIXES + At(PREFIXES + opcode / 4) + opcode % 4), pref)
  }

  /** The mask 0 rules nothing out. */
  lemma NoBits(reg: Byte)
    requires reg < 8
    ensures !TopBit(0, reg)
  {}

  /** Whatever the extension, there is at most one immediate of one byte. */
  ghost predicate Once(o: Operands, opcode: Byte) {
    !(o.imm8 && o.rel8) && forall reg: Byte :: var a := Adjusted(o, opcode, reg); !(a.imm8 && a.rel8)
  }

  lemma OnceFor(second: bool, opcode: Byte)
    ensures Once(OperandsFor(second, opcode), opcode) && Once(Unknown(opcode), opcode)
  {
    hide OperandsFor;
    OneByteOnce(second, opcode, 0);
    forall reg: Byte
      ensures var a := Adjusted(OperandsFor(second, opcode), opcode, reg); !(a.imm8 && a.rel8)
    {
      OneByteOnce(second, opcode, reg);
    }
  }

  lemma OnceAdjusted(o: Operands, opcode: Byte, reg: Byte)
    requires Once(o, opcode)
    ensures var a := Adjusted(o, opcode, reg); !(a.imm8 && a.rel8)
    ensures !(o.imm8 && o.rel8)
  {}

  lemma StoredStep(imm: seq<Byte>, code: seq<Byte>, p: nat, n: nat, more: seq<nat>)
    requires |imm| == 8 && n <= 8 && (forall i :: 0 <= i < |more| ==> more[i] <= 8) && p + n + Sum(more) <= |code|
    ensures Sum([n] + more) == n + Sum(more)
    ensures Stored(imm, code, p, [n] + more) == Stored(code[p..p + n] + imm[n..], code, p + n, more)
  {
    assert ([n] + more)[1..] == more;
  }

  lemma {:induction false} StoredMore(imm: seq<Byte>, code: seq<Byte>, p: nat, done: seq<nat>, n: nat)
    requires |imm| == 8 && n <= 8 && (forall i :: 0 <= i < |done| ==> done[i] <= 8)
    requires p + Sum(done) + n <= |code|
    ensures Sum(done + [n]) == Sum(done) + n
    ensures Stored(imm, code, p, done + [n]) ==
            code[p + Sum(done)..p + Sum(done) + n] + Stored(imm, code, p, done)[n..]
    decreases |done|
  {
    hide Sum, Stored;
    if done == [] {
      SumNone();
      StoredNone(imm, code, p);
      StoredNone(code[p..p + n] + imm[n..], code, p + n);
      assert done + [n] == [n] + [];
      StoredStep(imm, code, p, n, []);
    } else {
      var d, more := done[0], done[1..];
      assert done == [d] + more;
      SumStep(d, more);
      var next := code[p..p + d] + imm[d..];
      StoredMore(next, code, p + d, more, n);
      StoredStep(imm, code, p, d, more);
      StoredStep(imm, code, p, d, more + [n]);
      assert done + [n] == [d] + (more + [n]);
    }
  }

  lemma SumNone()
    ensures Sum([]) == 0
  {}

  lemma SumStep(n: nat, more: seq<nat>)
    ensures Sum([n] + more) == n + Sum(more)
  {
    assert ([n] + more)[1..] == more;
  }

  lemma StoredNone(imm: seq<Byte>, code: seq<Byte>, p: nat)
    requires |imm| == 8 && p <= |code|
    ensures Stored(imm, code, p, []) == imm
  {}

  lemma OneMoreFlag(f: Report, done: seq<nat>, n: nat)
    ensures WithImm(WithImm(f, done), [n]) == WithImm(f, done + [n])
  {
    assert forall k: nat :: k in done + [n] <==> k in done || k in [n];
  }

  lemma RelativeKept(f: Report, sizes: seq<nat>)
    ensures WithImm(f, sizes).relative == f.relative
  {}
}
