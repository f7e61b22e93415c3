/**
  What the length decoder reports for an instruction, as a function of its bytes, and why the report is consistent.
 */
module HdeInstruction {
  import opened Words
  import opened HdeTable
  import opened HdeFormat

  // --------------------------------------------------------- the parts of an instruction

  /** Prefixes, REX and opcode: where they start and end, and what they ask for. */
  datatype Head = Head(start: nat, rex: bool, twice: bool, second: bool, opcode: Byte, end: nat,
                       pref: set<Pre>, wide: bool, o: Operands, x: Byte)

  /** The opcodes with an absolute address. */
  predicate Absolute(c: Byte) {
    0xa0 <= c <= 0xa3
  }

  function PrefixesFor(all: set<Pre>, c: Byte): (r: set<Pre>) {
    var pref := if all == {} then {NoPrefix} else all;
    if !Absolute(c) then pref else if P67 in pref then pref + {P66} else pref - {P66}
  }

  function HeadOf(code: seq<Byte>): (h: Head)
    requires |code| >= 32
    ensures h.start <= 15 && h.end == h.start + One(h.rex, 1) + (if h.second then 2 else 1)
  {
    var k := Leading(code, 0);
    var n := Min(k, 15);
    var rex := code[n] / 16 == 4;
    var r := n + One(rex, 1);
    var c := code[r];
    var twice, second := rex && c / 16 == 4, c == 0x0f;
    var opcode := if second then code[r + 1] else c;
    Head(n, rex, twice, second, opcode, r + (if second then 2 else 1), PrefixesFor(Kinds(code, k), c),
         Absolute(c) || (rex && code[n] % 16 >= 8 && 0xb8 <= c <= 0xbf),
         if twice then Unknown(opcode) else OperandsFor(second, opcode),
         if twice then 0 else ExtensionsFor(second, opcode))
  }

  /** Opcode 0 of the second map is taken for one of the first by all checks. */
  predicate Two(h: Head) {
    h.second && h.opcode != 0
  }

  /** ModRM, SIB and displacement. */
  datatype Address = Address(mod: Byte, reg: Byte, rm: Byte, sib: bool, n: nat)

  function AddressOf(code: seq<Byte>, h: Head): (a: Address)
    requires h.end + 1 < |code|
    ensures a.reg < 8 && a.rm < 8 && (a.n == 0 || a.n == 1 || a.n == 2 || a.n == 4)
    ensures !h.o.modrm ==> !a.sib && a.n == 0
  {
    var m := code[h.end];
    var mod, rm := EffectiveMod(Two(h), h.opcode, m / 64), m % 8;
    if h.o.modrm then
      Address(m / 64, m % 64 / 8, rm, mod != 3 && rm == 4, DispSize(mod, rm, code[h.end + 1] % 8, P67 in h.pref))
    else Address(0, 0, 0, false, 0)
  }

  /** Where the displacement starts. */
  function DispStart(h: Head, a: Address): (p: nat) {
    h.end + One(h.o.modrm, 1) + One(a.sib, 1)
  }

  function OperandsIn(h: Head, a: Address): (o: Operands) {
    if h.o.modrm then Adjusted(h.o, h.opcode, a.reg) else h.o
  }

  /** The immediates, by size. */
  function SizesOf(h: Head, a: Address): (sizes: seq<nat>) {
    Immediates(OperandsIn(h, a), P66 in h.pref, h.wide)
  }

  /** The length, however long. */
  function Length(code: seq<Byte>): (n: nat)
    requires |code| >= 32
  {
    var h := HeadOf(code);
    var a := AddressOf(code, h);
    DispStart(h, a) + a.n + Sum(SizesOf(h, a))
  }

  // ----------------------------------------------------------------- what is refused

  predicate OpcodeIsBad(h: Head, a: Address)
    requires a.reg < 8 && a.rm < 8
  {
    || h.twice || Flags(h.second, h.opcode) == 0xff
    || (Two(h) && PrefixRefused(h.opcode, h.pref))
    || (h.o.modrm && (TopBit(h.x, a.reg) || (!Two(h) && FpuRefused(h.opcode, a.mod, a.reg, a.rm))))
  }

  predicate LockIsBad(h: Head, a: Address)
    requires a.reg < 8
  {
    Lock in h.pref && (!h.o.modrm || a.mod == 3 || LockRefused(Two(h), h.opcode, a.reg))
  }

  predicate OperandIsBad(h: Head, a: Address)
    requires a.reg < 8
  {
    h.o.modrm && OperandRefused(Two(h), h.opcode, a.mod, a.reg, h.pref)
  }

  // ------------------------------------------------------- the report, part by part

  function FrontFields(code: seq<Byte>, h: Head): (hs: Fields)
    requires |code| >= 32 && h.start < |code|
  {
    var k, c := Leading(code, 0), code[h.start];
    ZERO.(pre := Bytes(code, k), prefixes := Kinds(code, k), flags := CLEAR.(rex := h.rex),
          rex := if h.rex then RexBits(c % 16 / 8, c % 8 / 4, c % 4 / 2, c % 2) else ZERO.rex)
  }

  function OpcodeFields(code: seq<Byte>, h: Head): (hs: Fields)
    requires |code| >= 32 && h.start < |code|
  {
    FrontFields(code, h).(opcode := if h.twice then 0 else if h.second then 0x0f else h.opcode,
                          opcode2 := if h.second then h.opcode else 0)
  }

  function HeadFields(code: seq<Byte>, h: Head): (hs: Fields)
    requires |code| >= 32 && h.start < |code|
  {
    var known := BadOpcode(OpcodeFields(code, h), h.twice || Flags(h.second, h.opcode) == 0xff);
    BadOpcode(known, Two(h) && PrefixRefused(h.opcode, h.pref))
  }

  function ModrmFields(hs: Fields, m: Byte): (r: Fields) {
    hs.(flags := hs.flags.(modrm := true), modrm := ModrmByte(m, m / 64, m % 64 / 8, m % 8))
  }

  function CheckedFields(hs: Fields, two: bool, opcode: Byte, x: Byte, a: Address, pref: set<Pre>): (r: Fields)
    requires a.reg < 8 && a.rm < 8
  {
    var hs1 := BadOpcode(hs, TopBit(x, a.reg) || (!two && FpuRefused(opcode, a.mod, a.reg, a.rm)));
    var hs2 := BadLock(hs1, Lock in pref && (a.mod == 3 || LockRefused(two, opcode, a.reg)));
    BadOperand(hs2, OperandRefused(two, opcode, a.mod, a.reg, pref))
  }

  function SibFields(hs: Fields, sib: bool, c: Byte): (r: Fields) {
    if sib then hs.(flags := hs.flags.(sib := true), sib := SibByte(c, c / 64, c % 64 / 8, c % 8)) else hs
  }

  function DispFields(hs: Fields, code: seq<Byte>, p: nat, n: nat): (r: Fields)
    requires p + n <= |code| && n <= |hs.disp|
  {
    hs.(flags := WithDisp(hs.flags, n), disp := code[p..p + n] + hs.disp[n..])
  }

  /** ModRM, SIB and displacement on top of what was reported for the head. */
  function AddressFields(hs: Fields, code: seq<Byte>, h: Head, a: Address): (r: Fields)
    requires h.end + 6 <= |code| && a == AddressOf(code, h) && h.o.modrm && |hs.disp| == 4
  {
    var hs1 := CheckedFields(ModrmFields(hs, code[h.end]), Two(h), h.opcode, h.x, a, h.pref);
    DispFields(SibFields(hs1, a.sib, code[h.end + 1]), code, DispStart(h, a), a.n)
  }

  function BodyFields(code: seq<Byte>, h: Head, a: Address): (hs: Fields)
    requires |code| >= 32 && h.start < |code| && h.end + 6 <= |code| && a == AddressOf(code, h)
  {
    if h.o.modrm then AddressFields(HeadFields(code, h), code, h, a) else BadLock(HeadFields(code, h), Lock in h.pref)
  }

  /** The immediates on top of `hs`, from `p` on. */
  function ImmediateFields(hs: Fields, code: seq<Byte>, p: nat, o: Operands, sizes: seq<nat>): (r: Fields)
    requires |hs.imm| == 8 && (forall i :: 0 <= i < |sizes| ==> sizes[i] <= 8) && p + Sum(sizes) <= |code|
  {
    hs.(flags := WithImm(hs.flags, sizes).(relative := hs.flags.relative || o.rel8 || o.rel32),
        imm := Stored(hs.imm, code, p, sizes))
  }

  function Long(f: Report, long: bool): (r: Report) {
    f.(error := f.error || long, errorLength := f.errorLength || long)
  }

  function Cut(hs: Fields, n: nat): (r: Fields) {
    hs.(flags := Long(hs.flags, n > 15), len := Min(n, 15))
  }

  // ------------------------------------------------------------------ bounds

  /** The head ends early enough, and a 64-bit operand comes alone. */
  lemma HeadBounds(code: seq<Byte>)
    requires |code| >= 32
    ensures var h := HeadOf(code);
            && h.end <= (if h.wide then 17 else 18)
            && (h.wide ==> h.o == NONE.(immP66 := true))
            && Once(h.o, h.opcode)
  {
    hide Leading, Kinds, OperandsFor, ExtensionsFor, Unknown, Once, PrefixesFor;
    var h := HeadOf(code);
    OnceFor(h.second, h.opcode);
    if h.wide {
      WideOperands(h.opcode);
    }
  }

  lemma ImmediatesSmall(o: Operands, short: bool, wide: bool)
    ensures forall i :: 0 <= i < |Immediates(o, short, wide)| ==> Immediates(o, short, wide)[i] <= 8
  {}

  /** All parts lie in the first 32 bytes. */
  lemma PartsFit(code: seq<Byte>)
    requires |code| >= 32
    ensures var h := HeadOf(code);
            && h.end + 6 <= |code|
            && var a := AddressOf(code, h);
            && DispStart(h, a) + a.n <= (if h.wide then 17 else 24)
            && Sum(SizesOf(h, a)) <= (if h.wide then 12 else 8)
            && (forall i :: 0 <= i < |SizesOf(h, a)| ==> SizesOf(h, a)[i] <= 8)
            && !(OperandsIn(h, a).imm8 && OperandsIn(h, a).rel8)
  {
    hide HeadOf, Immediates, Sum, Once, Adjusted, EffectiveMod, DispSize;
    HeadBounds(code);
    var h := HeadOf(code);
    var a := AddressOf(code, h);
    OnceAdjusted(h.o, h.opcode, a.reg);
    ImmediatesReported(OperandsIn(h, a), P66 in h.pref, h.wide);
    ImmediatesSmall(OperandsIn(h, a), P66 in h.pref, h.wide);
  }

  lemma HeadUnions(code: seq<Byte>, h: Head)
    requires |code| >= 32 && h.start < |code|
    ensures HeadFields(code, h).disp == ZERO.disp && HeadFields(code, h).imm == ZERO.imm
  {
    hide Leading, Kinds, Bytes, PrefixRefused, Flags;
  }

  lemma HeadTwo(code: seq<Byte>)
    requires |code| >= 32
    ensures HeadFields(code, HeadOf(code)).opcode2 != 0 <==> Two(HeadOf(code))
  {
    hide Leading, Kinds, Bytes, OperandsFor, ExtensionsFor, Unknown, PrefixesFor, PrefixRefused, Flags;
  }

  lemma BodyUnion(code: seq<Byte>, h: Head, a: Address)
    requires |code| >= 32 && h.start < |code| && h.end + 6 <= |code| && a == AddressOf(code, h)
    ensures BodyFields(code, h, a).imm == ZERO.imm
  {
    hide HeadFields, AddressOf, TopBit, FpuRefused, LockRefused, OperandRefused, WithDisp;
    HeadUnions(code, h);
  }

  /** Everything the decoder reports for an instruction. */
  function Described(code: seq<Byte>): (hs: Fields)
    requires |code| >= 32
  {
    PartsFit(code);
    var h := HeadOf(code);
    var a := AddressOf(code, h);
    BodyUnion(code, h, a);
    var hs := BodyFields(code, h, a);
    Cut(ImmediateFields(hs, code, DispStart(h, a) + a.n, OperandsIn(h, a), SizesOf(h, a)), Length(code))
  }

  /** The flags that tell the parts of the instruction are the same. */
  ghost predicate SameParts(f: Report, g: Report) {
    && f.modrm == g.modrm && f.sib == g.sib && f.rex == g.rex && f.errorLength == g.errorLength
    && f.imm8 == g.imm8 && f.imm16 == g.imm16 && f.imm32 == g.imm32 && f.imm64 == g.imm64
    && f.disp8 == g.disp8 && f.disp16 == g.disp16 && f.disp32 == g.disp32
  }

  /** Prefixes, REX and opcode, up to `q`. */
  ghost predicate Headed(code: seq<Byte>, q: nat, rex: bool, opcode: Byte, opcode2: Byte) {
    && |code| >= 32
    && var n := Min(Leading(code, 0), 15);
    && q == n + One(rex, 1) + (if opcode == 0x0f then 2 else 1) <= 18
    && (rex <==> code[n] / 16 == 4)
    && (opcode == 0x0f ==> code[q - 2] == 0x0f && opcode2 == code[q - 1])
    && (opcode == 0x0f || opcode == code[q - 1] || (rex && code[q - 1] / 16 == 4 && opcode == 0))
  }

  /** ModRM, SIB and displacement, from `q` to `p`. */
  ghost predicate Addressed(code: seq<Byte>, q: nat, p: nat, hasModrm: bool, modrm: Byte, hasSib: bool, sib: Byte,
                            n: nat, disp: seq<Byte>)
  {
    && n <= 4 && p == q + One(hasModrm, 1) + One(hasSib, 1) + n <= |code|
    && (hasModrm ==> modrm == code[q]) && (hasSib ==> hasModrm && sib == code[q + 1])
    && disp == code[p - n..p] + ZERO.disp[n..]
  }

  /** The parts in front of the immediates are where the flags say, and end at `p`. */
  ghost predicate Located(hs: Fields, code: seq<Byte>, p: nat) {
    var f := hs.flags;
    var n := DispBytes(f);
    var q := p - n - One(f.modrm, 1) - One(f.sib, 1);
    && q >= 0
    && Headed(code, q, f.rex, hs.opcode, hs.opcode2)
    && Addressed(code, q, p, f.modrm, hs.modrm.byte, f.sib, hs.sib.byte, n, hs.disp)
  }

  ghost predicate NoImmediates(f: Report) {
    !f.imm8 && !f.imm16 && !f.imm32 && !f.imm64 && !f.errorLength
  }

  lemma LocateBody(f: Report, hs: Fields, code: seq<Byte>, q: nat, p: nat, modrm: bool, sib: bool, n: nat)
    requires Headed(code, q, f.rex, hs.opcode, hs.opcode2) && SameParts(f, CLEAR.(rex := f.rex))
    requires n == 0 || n == 1 || n == 2 || n == 4
    requires Addressed(code, q, p, modrm, hs.modrm.byte, sib, hs.sib.byte, n, hs.disp)
    requires SameParts(hs.flags, WithDisp(f.(modrm := modrm, sib := sib), n))
    ensures Located(hs, code, p) && NoImmediates(hs.flags)
    ensures p <= q + 6 && (!modrm && !sib && n == 0 ==> p == q)
  {
    hide Headed;
  }

  /** Adding the flags of the immediates, and of the length, leaves the other parts where they are. */
  lemma Finished(h: Fields, hs: Fields, code: seq<Byte>, p: nat, sizes: seq<nat>, long: bool)
    requires Located(h, code, p) && NoImmediates(h.flags)
    requires hs == h.(flags := hs.flags, imm := hs.imm, len := hs.len)
    requires var f := WithImm(h.flags, sizes);
             hs.flags == f.(relative := hs.flags.relative, error := f.error || long, errorLength := f.errorLength || long)
    ensures Located(hs, code, p) && ImmBytes(hs.flags) == ImmBytes(WithImm(CLEAR, sizes))
    ensures hs.flags.errorLength == long
  {
    hide Headed, Addressed;
  }

  /** Only the length is missing. */
  lemma AllParts(code: seq<Byte>, hs: Fields)
    requires |code| >= 32 && HeadOf(code).end + 6 <= |code|
    requires var h := HeadOf(code);
             var a := AddressOf(code, h);
             var sizes := SizesOf(h, a);
             var body := BodyFields(code, h, a);
             && |body.imm| == 8 && (forall i :: 0 <= i < |sizes| ==> sizes[i] <= 8)
             && DispStart(h, a) + a.n + Sum(sizes) <= |code|
             && hs == ImmediateFields(body, code, DispStart(h, a) + a.n, OperandsIn(h, a), sizes)
    ensures Described(code) == Cut(hs, Length(code))
  {
    hide HeadOf, AddressOf, BodyFields, OperandsIn, DispStart, Sum, Immediates, ImmediateFields, Cut;
  }

  // ------------------------------------------------------------------ consistency

  lemma HeadLaw(code: seq<Byte>)
    requires |code| >= 32
    ensures var h := HeadOf(code);
            var hs := HeadFields(code, h);
            && Headed(code, h.end, h.rex, hs.opcode, hs.opcode2)
            && SameParts(hs.flags, CLEAR.(rex := h.rex)) && hs.disp == ZERO.disp
  {
    hide Leading, Kinds, Bytes, OperandsFor, ExtensionsFor, Unknown, PrefixesFor, PrefixRefused, Flags;
    var h := HeadOf(code);
    HeadUnions(code, h);
  }

  lemma CheckedParts(hs: Fields, two: bool, opcode: Byte, x: Byte, a: Address, pref: set<Pre>)
    requires a.reg < 8 && a.rm < 8
    ensures var r := CheckedFields(hs, two, opcode, x, a, pref);
            r == hs.(flags := r.flags) && SameParts(r.flags, hs.flags)
  {
    hide TopBit, FpuRefused, LockRefused, OperandRefused;
  }

  /** The flags of the address, whatever the checks found. */
  lemma AddressLaw(hs: Fields, code: seq<Byte>, h: Head, a: Address)
    requires h.end + 6 <= |code| && a == AddressOf(code, h) && h.o.modrm && hs.disp == ZERO.disp && !hs.flags.sib
    ensures var r := AddressFields(hs, code, h, a);
            && SameParts(r.flags, WithDisp(hs.flags.(modrm := true, sib := a.sib), a.n))
            && Addressed(code, h.end, DispStart(h, a) + a.n, true, r.modrm.byte, a.sib, r.sib.byte, a.n, r.disp)
            && r.opcode == hs.opcode && r.opcode2 == hs.opcode2
  {
    hide CheckedFields, AddressOf, SameParts, Addressed, WithDisp;
    var hs1 := ModrmFields(hs, code[h.end]);
    CheckedParts(hs1, Two(h), h.opcode, h.x, a, h.pref);
    var hs2 := CheckedFields(hs1, Two(h), h.opcode, h.x, a, h.pref);
    AddressParts(hs.flags, hs2.flags, a.sib, a.n);
    var r := AddressFields(hs, code, h, a);
    MakeAddressed(code, h.end, DispStart(h, a) + a.n, r.modrm.byte, a.sib, r.sib.byte, a.n, r.disp);
  }

  lemma AddressParts(f: Report, f2: Report, sib: bool, n: nat)
    requires !f.sib && SameParts(f2, f.(modrm := true))
    ensures SameParts(WithDisp(if sib then f2.(sib := true) else f2, n), WithDisp(f.(modrm := true, sib := sib), n))
  {}

  lemma MakeAddressed(code: seq<Byte>, q: nat, p: nat, modrm: Byte, hasSib: bool, sib: Byte, n: nat, disp: seq<Byte>)
    requires n <= 4 && p == q + 1 + One(hasSib, 1) + n <= |code| && modrm == code[q] && (hasSib ==> sib == code[q + 1])
    requires disp == code[p - n..p] + ZERO.disp[n..]
    ensures Addressed(code, q, p, true, modrm, hasSib, sib, n, disp)
  {}

  lemma NoAddress(code: seq<Byte>, p: nat, modrm: Byte, sib: Byte, disp: seq<Byte>)
    requires p <= |code| && disp == ZERO.disp
    ensures Addressed(code, p, p, false, modrm, false, sib, 0, disp)
  {
    assert code[p - 0..p] == [] && ZERO.disp[0..] == disp;
  }

  lemma NoAddressParts(f: Report, f2: Report, no: bool, n: nat)
    requires !no && n == 0 && !f.modrm && !f.sib && SameParts(f2, f)
    ensures SameParts(f2, WithDisp(f.(modrm := no, sib := no), n))
  {}

  lemma LockParts(hs: Fields, bad: bool)
    ensures var r := BadLock(hs, bad); r == hs.(flags := r.flags) && SameParts(r.flags, hs.flags)
  {}

  /** The parts in front of the immediates are where the report says. */
  lemma BodyLaw(code: seq<Byte>)
    requires |code| >= 32
    ensures HeadOf(code).end + 6 <= |code|
    ensures var h := HeadOf(code);
            var a := AddressOf(code, h);
            var hs := BodyFields(code, h, a);
            Located(hs, code, DispStart(h, a) + a.n) && NoImmediates(hs.flags)
  {
    hide HeadOf, AddressOf, HeadFields, AddressFields, BadLock, SameParts, Headed, Addressed, Located, NoImmediates, WithDisp;
    PartsFit(code);
    HeadLaw(code);
    var h := HeadOf(code);
    var a := AddressOf(code, h);
    var hs, r := HeadFields(code, h), BodyFields(code, h, a);
    RexOnly(hs.flags, h.rex);
    if h.o.modrm {
      AddressLaw(hs, code, h, a);
    } else {
      LockParts(hs, Lock in h.pref);
      NoAddress(code, h.end, r.modrm.byte, r.sib.byte, r.disp);
      NoAddressParts(hs.flags, r.flags, a.sib, a.n);
    }
    LocateBody(hs.flags, r, code, h.end, DispStart(h, a) + a.n, h.o.modrm, a.sib, a.n);
  }

  lemma BodyParts(code: seq<Byte>)
    requires |code| >= 32 && HeadOf(code).end + 6 <= |code|
    ensures var h := HeadOf(code);
            var a := AddressOf(code, h);
            SameParts(BodyFields(code, h, a).flags, WithDisp(CLEAR.(rex := h.rex, modrm := h.o.modrm, sib := a.sib), a.n))
  {
    hide HeadOf, AddressOf, HeadFields, AddressFields, BadLock, Headed, Addressed, Located;
    HeadLaw(code);
    var h := HeadOf(code);
    var a := AddressOf(code, h);
    var hs := HeadFields(code, h);
    if h.o.modrm {
      AddressLaw(hs, code, h, a);
    } else {
      LockParts(hs, Lock in h.pref);
    }
  }

  lemma RexOnly(f: Report, rex: bool)
    requires SameParts(f, CLEAR.(rex := rex))
    ensures f.rex == rex && !f.modrm && !f.sib && SameParts(f, CLEAR.(rex := f.rex))
  {}

  /** For every 32 bytes, prefixes + REX + opcode + ModRM + SIB + displacement + immediates, as flags and fields
      report them, are the length; each part is where it is reported; and the length is at most 32. */
  lemma Consistent(code: seq<Byte>)
    requires |code| >= 32
    ensures Length(code) <= 32
    ensures var hs := Described(code);
            var h := HeadOf(code);
            && ImmBytes(hs.flags) == Sum(SizesOf(h, AddressOf(code, h))) <= Length(code)
            && Located(hs, code, Length(code) - ImmBytes(hs.flags))
            && hs.len == Min(Length(code), 15) && hs.flags.errorLength == (Length(code) > 15)
  {
    hide HeadOf, AddressOf, BodyFields, Located, NoImmediates, Stored, Sum, Immediates, ImmBytes, WithImm;
    hide OperandsIn, DispStart;
    PartsFit(code);
    BodyLaw(code);
    var h := HeadOf(code);
    var a := AddressOf(code, h);
    var hs := BodyFields(code, h, a);
    ImmediatesReported(OperandsIn(h, a), P66 in h.pref, h.wide);
    Finished(hs, Described(code), code, DispStart(h, a) + a.n, SizesOf(h, a), Length(code) > 15);
  }

  // ------------------------------------------------------------------- the flags

  ghost predicate Errors(f: Report, opcode: bool, lock: bool, operand: bool) {
    && f.errorOpcode == opcode && f.errorLock == lock && f.errorOperand == operand && !f.errorLength && !f.relative
    && f.error == (opcode || lock || operand)
  }

  lemma HeadErrors(code: seq<Byte>, h: Head)
    requires |code| >= 32 && h.start < |code|
    ensures Errors(HeadFields(code, h).flags,
                   h.twice || Flags(h.second, h.opcode) == 0xff || (Two(h) && PrefixRefused(h.opcode, h.pref)), false, false)
  {
    hide Leading, Kinds, Bytes, PrefixRefused, Flags;
  }

  lemma CheckedErrors(hs: Fields, two: bool, opcode: Byte, x: Byte, a: Address, pref: set<Pre>, bad: bool)
    requires a.reg < 8 && a.rm < 8 && Errors(hs.flags, bad, false, false)
    ensures Errors(CheckedFields(hs, two, opcode, x, a, pref).flags,
                   bad || TopBit(x, a.reg) || (!two && FpuRefused(opcode, a.mod, a.reg, a.rm)),
                   Lock in pref && (a.mod == 3 || LockRefused(two, opcode, a.reg)),
                   OperandRefused(two, opcode, a.mod, a.reg, pref))
  {
    hide TopBit, FpuRefused, LockRefused, OperandRefused;
  }

  lemma AddressErrors(hs: Fields, code: seq<Byte>, h: Head, a: Address, bad: bool)
    requires h.end + 6 <= |code| && a == AddressOf(code, h) && h.o.modrm && |hs.disp| == 4
    requires Errors(hs.flags, bad, false, false)
    ensures Errors(AddressFields(hs, code, h, a).flags,
                   bad || TopBit(h.x, a.reg) || (!Two(h) && FpuRefused(h.opcode, a.mod, a.reg, a.rm)),
                   Lock in h.pref && (a.mod == 3 || LockRefused(Two(h), h.opcode, a.reg)),
                   OperandRefused(Two(h), h.opcode, a.mod, a.reg, h.pref))
  {
    hide AddressOf, CheckedFields, TopBit, FpuRefused, LockRefused, OperandRefused;
    var hs1 := ModrmFields(hs, code[h.end]);
    CheckedErrors(hs1, Two(h), h.opcode, h.x, a, h.pref, bad);
  }

  lemma BodyErrors(code: seq<Byte>, h: Head, a: Address)
    requires |code| >= 32 && h.start < |code| && h.end + 6 <= |code| && a == AddressOf(code, h)
    ensures Errors(BodyFields(code, h, a).flags, OpcodeIsBad(h, a), LockIsBad(h, a), OperandIsBad(h, a))
  {
    hide AddressOf, HeadFields, AddressFields, TopBit, FpuRefused, LockRefused, OperandRefused, PrefixRefused, Flags;
    HeadErrors(code, h);
    HeadUnions(code, h);
    if h.o.modrm {
      AddressErrors(HeadFields(code, h), code, h, a,
                    h.twice || Flags(h.second, h.opcode) == 0xff || (Two(h) && PrefixRefused(h.opcode, h.pref)));
    }
  }

  /** The error flags of the whole instruction: which of them are set is decided by the refusals and the length alone,
      and the general flag by the others. */
  lemma ErrorFlags(code: seq<Byte>)
    requires |code| >= 32
    ensures HeadOf(code).end + 6 <= |code|
    ensures var h := HeadOf(code);
            var a := AddressOf(code, h);
            var f := Described(code).flags;
            && f.errorOpcode == OpcodeIsBad(h, a) && f.errorLock == LockIsBad(h, a)
            && f.errorOperand == OperandIsBad(h, a) && f.errorLength == (Length(code) > 15)
            && f.error == (f.errorOpcode || f.errorLock || f.errorOperand || f.errorLength)
  {
    hide HeadOf, AddressOf, BodyFields, OpcodeIsBad, LockIsBad, OperandIsBad, Stored, Sum, Immediates, OperandsIn, DispStart;
    PartsFit(code);
    var h := HeadOf(code);
    BodyErrors(code, h, AddressOf(code, h));
  }

  /** The flags tell these parts. */
  ghost predicate Tells(f: Report, rex: bool, modrm: bool, sib: bool, n: nat, sizes: seq<nat>, relative: bool) {
    && f.rex == rex && f.modrm == modrm && f.sib == sib && f.relative == relative
    && f.disp8 == (n == 1) && f.disp16 == (n == 2) && f.disp32 == (n == 4)
    && f.imm8 == (1 in sizes) && f.imm16 == (2 in sizes) && f.imm32 == (4 in sizes) && f.imm64 == (8 in sizes)
  }

  /** The flags for the parts of the whole instruction: the opcode table decides whether there is a ModRM byte, that
      byte whether there are a SIB byte and a displacement, and all of them which immediates follow. */
  lemma PartFlags(code: seq<Byte>)
    requires |code| >= 32
    ensures HeadOf(code).end + 6 <= |code|
    ensures var h := HeadOf(code);
            var a := AddressOf(code, h);
            var o := OperandsIn(h, a);
            Tells(Described(code).flags, h.rex, h.o.modrm, a.sib, a.n, SizesOf(h, a), o.rel8 || o.rel32)
  {
    hide HeadOf, AddressOf, BodyFields, Stored, Sum, Immediates, OperandsIn, DispStart, OpcodeIsBad, LockIsBad, OperandIsBad;
    hide SameParts, WithDisp, Long, Tells;
    PartsFit(code);
    var h := HeadOf(code);
    var a := AddressOf(code, h);
    BodyParts(code);
    BodyErrors(code, h, a);
    BodyUnion(code, h, a);
    var body, sizes, o := BodyFields(code, h, a), SizesOf(h, a), OperandsIn(h, a);
    PlainParts(body.flags, h.rex, h.o.modrm, a.sib, a.n);
    var hs := ImmediateFields(body, code, DispStart(h, a) + a.n, o, sizes);
    FinalFlags(body.flags, sizes, h.rex, h.o.modrm, a.sib, a.n, o.rel8 || o.rel32, hs.flags);
    LongFlags(hs.flags, Length(code) > 15, h.rex, h.o.modrm, a.sib, a.n, sizes, o.rel8 || o.rel32);
  }

  lemma PlainParts(f: Report, rex: bool, modrm: bool, sib: bool, n: nat)
    requires SameParts(f, WithDisp(CLEAR.(rex := rex, modrm := modrm, sib := sib), n)) && !f.relative
    ensures Tells(f, rex, modrm, sib, n, [], false)
  {}

  lemma FinalFlags(f: Report, sizes: seq<nat>, rex: bool, modrm: bool, sib: bool, n: nat, relative: bool, g: Report)
    requires Tells(f, rex, modrm, sib, n, [], false) && g == WithImm(f, sizes).(relative := relative)
    ensures Tells(g, rex, modrm, sib, n, sizes, relative)
  {}

  lemma LongFlags(f: Report, long: bool, rex: bool, modrm: bool, sib: bool, n: nat, sizes: seq<nat>, relative: bool)
    requires Tells(f, rex, modrm, sib, n, sizes, relative)
    ensures Tells(Long(f, long), rex, modrm, sib, n, sizes, relative)
  {}
}
