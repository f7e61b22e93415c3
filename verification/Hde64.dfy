/** hde64_disasm: the length of an x86-64 instruction and where its parts are. */
module Hde64 {
  import opened Words
  import opened HdeTable
  import opened HdeFormat
  import opened HdeInstruction

  class Disassembler {
    const code: seq<Byte>
    var p: nat
    var hs: Fields

    constructor (code: seq<Byte>)
      ensures this.code == code && p == 0 && hs == ZERO
    {
      this.code, p, hs := code, 0, ZERO;
    }

    /** The prefix loop. */
    method ReadPrefixes() returns (c: Byte, pref: set<Pre>)
      requires p == 0 && hs == ZERO && |code| >= 32
      modifies this
      ensures var k := Leading(code, 0);
              && p == Min(k, 15) + 1 && c == code[Min(k, 15)]
              && pref == Kinds(code, k) && hs == ZERO.(pre := Bytes(code, k))
    {
      hide Leading, Bytes, Kinds;
      NoneYet(code);
      c, pref := 0, {};
      var x := 16;
      while x > 0
        invariant 0 <= x <= 16 && p == 16 - x && (p > 0 ==> c == code[p - 1])
        invariant Leading(code, 0) == Leading(code, p)
        invariant pref == Kinds(code, p) && hs == ZERO.(pre := Bytes(code, p))
      {
        OneMore(code, p, hs.pre, pref);
        LeadingStep(code, p);
        c := code[p];
        p := p + 1;
        if c == 0xf3 {
          hs := hs.(pre := hs.pre.(rep := c));
          pref := pref + {F3};
        } else if c == 0xf2 {
          hs := hs.(pre := hs.pre.(rep := c));
          pref := pref + {F2};
        } else if c == 0xf0 {
          hs := hs.(pre := hs.pre.(lock := c));
          pref := pref + {Lock};
        } else if c == 0x26 || c == 0x2e || c == 0x36 || c == 0x3e || c == 0x64 || c == 0x65 {
          hs := hs.(pre := hs.pre.(seg := c));
          pref := pref + {Seg};
        } else if c == 0x66 {
          hs := hs.(pre := hs.pre.(p66 := c));
          pref := pref + {P66};
        } else if c == 0x67 {
          hs := hs.(pre := hs.pre.(p67 := c));
          pref := pref + {P67};
        } else {
          break;
        }
        x := x - 1;
      }
    }

    /** A REX byte and the byte behind it; a second REX byte is an error. */
    method ReadRex(c: Byte) returns (c': Byte, wide: bool, twice: bool)
      requires p < |code|
      modifies this
      ensures if c / 16 == 4 then
                && p == old(p) + 1 && c' == code[old(p)] && twice == (c' / 16 == 4)
                && wide == (c % 16 >= 8 && 0xb8 <= c' <= 0xbf)
                && hs == old(hs).(flags := old(hs).flags.(rex := true), rex := RexBits(c % 16 / 8, c % 8 / 4, c % 4 / 2, c % 2))
              else
                p == old(p) && c' == c && !twice && !wide && hs == old(hs)
    {
      c', wide, twice := c, false, false;
      if c / 16 == 4 {
        hs := hs.(flags := hs.flags.(rex := true), rex := hs.rex.(w := c % 16 / 8));
        if hs.rex.w != 0 && code[p] / 8 * 8 == 0xb8 {
          wide := true;
        }
        hs := hs.(rex := hs.rex.(r := c % 8 / 4, x := c % 4 / 2, b := c % 2));
        c' := code[p];
        p := p + 1;
        twice := c' / 16 == 4;
      }
    }

    /** The opcode, of one or two bytes, and what it does to the operand size. */
    method ReadOpcode(c: Byte, pref: set<Pre>, wide: bool) returns (opcode: Byte, second: bool, pref': set<Pre>, wide': bool)
      requires p < |code|
      modifies this
      ensures second == (c == 0x0f)
      ensures if second then p == old(p) + 1 && opcode == code[old(p)] && hs == old(hs).(opcode := c, opcode2 := opcode)
              else p == old(p) && opcode == c && hs == old(hs).(opcode := c)
      ensures if 0xa0 <= c <= 0xa3 then wide' && pref' == (if P67 in pref then pref + {P66} else pref - {P66})
              else wide' == wide && pref' == pref
    {
      second, pref', wide' := false, pref, wide;
      opcode := c;
      hs := hs.(opcode := c);
      if c == 0x0f {
        opcode := code[p];
        p := p + 1;
        hs := hs.(opcode2 := opcode);
        second := true;
      } else if c >= 0xa0 && c <= 0xa3 {
        wide' := true;
        if P67 in pref {
          pref' := pref + {P66};
        } else {
          pref' := pref - {P66};
        }
      }
    }

    /** The table entry of an opcode; `twice` skips it. */
    method LookUp(second: bool, opcode: Byte, twice: bool) returns (o: Operands, x: Byte)
      modifies this
      ensures p == old(p)
      ensures if twice then o == Unknown(opcode) && x == 0
              else o == OperandsFor(second, opcode) && x == ExtensionsFor(second, opcode)
      ensures hs == BadOpcode(old(hs), twice || Flags(second, opcode) == 0xff)
    {
      hide At;
      var base := if second then OPCODES else 0;
      var v: Byte := 0;
      if !twice {
        v := At(base + At(base + opcode / 4) + opcode % 4);
      }
      x := 0;
      if twice || v == 0xff {
        hs := hs.(flags := hs.flags.(error := true, errorOpcode := true));
        o := NONE;
        if opcode == 0x24 || opcode == 0x26 {
          o := o.(modrm := true);
        }
      } else if v >= 0x80 {
        o := OperandsOf(At(base + v - 0x80));
        x := At(base + v - 0x80 + 1);
      } else {
        o := OperandsOf(v);
      }
    }

    /** Two-byte opcodes exclude some prefixes. */
    method CheckPrefixes(opcode: Byte, pref: set<Pre>)
      modifies this
      ensures p == old(p) && hs == BadOpcode(old(hs), old(hs).opcode2 != 0 && PrefixRefused(opcode, pref))
    {
      hide At, Meets;
      PrefixMap(opcode / 4);
      if hs.opcode2 != 0 {
        if Meets(At(PREFIXES + At(PREFIXES + opcode / 4) + opcode % 4), pref) {
          hs := hs.(flags := hs.flags.(error := true, errorOpcode := true));
        }
      }
    }

    method ReadModrm() returns (mod: Byte, reg: Byte, rm: Byte)
      requires p < |code|
      modifies this
      ensures p == old(p) + 1
      ensures mod == code[old(p)] / 64 < 4 && reg == code[old(p)] % 64 / 8 < 8 && rm == code[old(p)] % 8 < 8
      ensures hs == old(hs).(flags := old(hs).flags.(modrm := true), modrm := ModrmByte(code[old(p)], mod, reg, rm))
    {
      var c := code[p];
      p := p + 1;
      mod, reg, rm := c / 64, c % 64 / 8, c % 8;
      hs := hs.(flags := hs.flags.(modrm := true), modrm := ModrmByte(c, mod, reg, rm));
    }

    /** Opcode extensions that do not exist, for groups and for the floating-point opcodes. */
    method CheckExtension(opcode: Byte, x: Byte, mod: Byte, reg: Byte, rm: Byte)
      requires reg < 8 && rm < 8
      modifies this
      ensures p == old(p)
      ensures hs == BadOpcode(old(hs), TopBit(x, reg) || (old(hs).opcode2 == 0 && FpuRefused(opcode, mod, reg, rm)))
    {
      hide At, TopBit;
      NoBits(reg);
      if x != 0 && TopBit(x, reg) {
        hs := hs.(flags := hs.flags.(error := true, errorOpcode := true));
      }
      if hs.opcode2 == 0 && opcode >= 0xd9 && opcode <= 0xdf {
        var t := opcode - 0xd9;
        var bad;
        if mod == 3 {
          bad := TopBit(At(FPU_MODRM + t * 8 + reg), rm);
        } else {
          bad := TopBit(At(FPU_REG + t), reg);
        }
        if bad {
          hs := hs.(flags := hs.flags.(error := true, errorOpcode := true));
        }
      }
    }

    /** The scan of the opcodes that may be locked. */
    method ScanPairs(two: bool, opcode: Byte, reg: Byte) returns (refused: bool)
      requires reg < 8
      ensures refused == LockRefused(two, opcode, reg)
    {
      hide At, TopBit;
      var ht, end, op := OP_LOCK_OK, OP2_LOCK_OK, opcode / 2 * 2;
      if two {
        ht, end, op := OP2_LOCK_OK, OP_ONLY_MEM, opcode;
      }
      ghost var left := if two then PAIRS2 else PAIRS;
      ghost var first := FirstPair(ht, left, op);
      refused := true;
      while ht != end
        invariant ht + 2 * left == end <= SIZE && left >= 0 && first == FirstPair(ht, left, op)
        decreases left
      {
        if At(ht) == op {
          refused := TopBit(At(ht + 1), reg);
          break;
        }
        ht := ht + 2;
        left := left - 1;
      }
    }

    /** A lock prefix needs a memory operand and one of the listed opcodes. */
    method CheckLock(opcode: Byte, mod: Byte, reg: Byte, pref: set<Pre>)
      requires reg < 8
      modifies this
      ensures p == old(p)
      ensures hs == BadLock(old(hs), Lock in pref && (mod == 3 || LockRefused(old(hs).opcode2 != 0, opcode, reg)))
    {
      hide LockRefused;
      if Lock in pref {
        var refused := true;
        if mod != 3 {
          refused := ScanPairs(hs.opcode2 != 0, opcode, reg);
        }
        if refused {
          hs := hs.(flags := hs.flags.(error := true, errorLock := true));
        }
      }
    }

    /** The scan of the opcodes that need a memory operand. */
    method ScanTriples(two: bool, opcode: Byte, reg: Byte, pref: set<Pre>) returns (bad: bool)
      requires reg < 8
      ensures bad == RegisterRefused(two, opcode, reg, pref)
    {
      hide At, TopBit, Meets;
      var ht, end := OP_ONLY_MEM, OP2_ONLY_MEM;
      if two {
        ht, end := OP2_ONLY_MEM, SIZE;
      }
      ghost var left := if two then TRIPLES2 else TRIPLES;
      ghost var first := FirstTriple(ht, left, opcode);
      bad := false;
      while ht != end
        invariant ht + 3 * left == end <= SIZE && left >= 0 && !bad && first == FirstTriple(ht, left, opcode)
        decreases left
      {
        if At(ht) == opcode {
          bad := Meets(At(ht + 1), pref) && !TopBit(At(ht + 2), reg);
          break;
        }
        ht := ht + 3;
        left := left - 1;
      }
    }

    /** The operands an opcode does not take. */
    method CheckOperand(opcode: Byte, mod: Byte, reg: Byte, pref: set<Pre>) returns (mod': Byte)
      requires reg < 8
      modifies this
      ensures p == old(p) && mod' == EffectiveMod(old(hs).opcode2 != 0, opcode, mod)
      ensures hs == BadOperand(old(hs), OperandRefused(old(hs).opcode2 != 0, opcode, mod, reg, pref))
    {
      hide RegisterRefused;
      var two := hs.opcode2 != 0;
      var bad := false;
      mod' := mod;
      if two && (opcode == 0x20 || opcode == 0x22) {
        mod' := 3;
        bad := reg > 4 || reg == 1;
      } else if two && (opcode == 0x21 || opcode == 0x23) {
        mod' := 3;
        bad := reg == 4 || reg == 5;
      } else if !two && opcode == 0x8c {
        bad := reg > 5;
      } else if !two && opcode == 0x8e {
        bad := reg == 1 || reg > 5;
      } else if mod == 3 {
        bad := ScanTriples(two, opcode, reg, pref);
      } else if two {
        if opcode == 0x50 || opcode == 0xd7 || opcode == 0xf7 {
          bad := NoPrefix in pref || P66 in pref;
        } else if opcode == 0xd6 {
          bad := F2 in pref || F3 in pref;
        } else if opcode == 0xc5 {
          bad := true;
        }
      }
      if bad {
        hs := hs.(flags := hs.flags.(error := true, errorOperand := true));
      }
    }

    /** The SIB byte, if there is one, and the number of displacement bytes. */
    method ReadSib(mod: Byte, rm: Byte, p67: bool) returns (dispSize: nat)
      requires mod < 4 && rm < 8 && p < |code|
      modifies this
      ensures var sib, c := mod != 3 && rm == 4, code[old(p)];
              && p == old(p) + (if sib then 1 else 0)
              && dispSize == DispSize(mod, rm, c % 8, p67)
              && hs == if sib then old(hs).(flags := old(hs).flags.(sib := true), sib := SibByte(c, c / 64, c % 64 / 8, c % 8))
                       else old(hs)
    {
      var c := code[p];
      p := p + 1;
      dispSize := 0;
      if mod == 0 {
        if p67 {
          if rm == 6 {
            dispSize := 2;
          }
        } else if rm == 5 {
          dispSize := 4;
        }
      } else if mod == 1 {
        dispSize := 1;
      } else if mod == 2 {
        dispSize := 2;
        if !p67 {
          dispSize := 4;
        }
      }
      if mod != 3 && rm == 4 {
        p := p + 1;
        hs := hs.(flags := hs.flags.(sib := true), sib := SibByte(c, c / 64, c % 64 / 8, c % 8));
        if hs.sib.base == 5 && mod % 2 == 0 {
          dispSize := 4;
        }
      }
      p := p - 1;
    }

    method ReadDisplacement(n: nat)
      requires n <= 4 && p + n <= |code| && |hs.disp| == 4 && (n == 0 || n == 1 || n == 2 || n == 4)
      modifies this
      ensures p == old(p) + n
      ensures hs == old(hs).(flags := WithDisp(old(hs).flags, n), disp := code[old(p)..old(p) + n] + old(hs).disp[n..])
    {
      if n == 1 {
        hs := hs.(flags := hs.flags.(disp8 := true), disp := code[p..p + 1] + hs.disp[1..]);
      } else if n == 2 {
        hs := hs.(flags := hs.flags.(disp16 := true), disp := code[p..p + 2] + hs.disp[2..]);
      } else if n == 4 {
        hs := hs.(flags := hs.flags.(disp32 := true), disp := code[p..p + 4] + hs.disp[4..]);
      }
      p := p + n;
    }

    /** The immediates in `done` were stored, starting with `before` and at `start`. */
    ghost predicate After(before: Fields, start: nat, done: seq<nat>)
      reads this
    {
      && |before.imm| == 8 && start + Sum(done) <= |code| && (forall i :: 0 <= i < |done| ==> done[i] <= 8)
      && p == start + Sum(done)
      && hs == before.(flags := WithImm(before.flags, done), imm := Stored(before.imm, code, start, done))
    }

    /** Stores an immediate of `n` bytes. */
    method Store(n: nat, ghost before: Fields, ghost start: nat, ghost done: seq<nat>)
      requires n == 1 || n == 2 || n == 4 || n == 8
      requires After(before, start, done) && p + n <= |code|
      modifies this
      ensures After(before, start, done + [n]) && p == old(p) + n
    {
      hide Sum, Stored, WithImm;
      StoredMore(before.imm, code, start, done, n);
      OneMoreFlag(before.flags, done, n);
      hs := hs.(flags := WithImm(hs.flags, [n]), imm := code[p..p + n] + hs.imm[n..]);
      p := p + n;
    }

    /** The immediates. */
    method ReadImmediates(o: Operands, short: bool, wide: bool)
      requires |hs.imm| == 8 && p + (if wide then 12 else 8) <= |code|
      modifies this
      ensures var sizes := Immediates(o, short, wide);
              && (forall i :: 0 <= i < |sizes| ==> sizes[i] <= 8) && old(p) + Sum(sizes) <= |code|
              && p == old(p) + Sum(sizes)
              && hs == ImmediateFields(old(hs), code, old(p), o, sizes)
    {
      hide Sum, Stored, WithImm, After;
      ghost var before, start := hs, p;
      NothingStored(before, start);
      if o.immP66 && o.rel32 {
        if short {
          Store(2, before, start, []);
        } else {
          Store(4, before, start, []);
        }
        assert After(before, start, Immediates(o, short, wide)) by {
          assert [] + [if short then 2 else 4] == Immediates(o, short, wide);
        }
      } else {
        ReadSeveral(o, short, wide);
      }
      Unpack(before, start, Immediates(o, short, wide));
      RelativeKept(before.flags, Immediates(o, short, wide));
      if o.rel8 || o.rel32 {
        hs := hs.(flags := hs.flags.(relative := true));
      }
    }

    method ReadSeveral(o: Operands, short: bool, wide: bool)
      requires |hs.imm| == 8 && p + (if wide then 12 else 8) <= |code| && !(o.immP66 && o.rel32)
      modifies this
      ensures After(old(hs), old(p), Immediates(o, short, wide))
    {
      hide Sum, Stored, WithImm, After;
      ghost var before, start, done := hs, p, [];
      NothingStored(before, start);
      var word := o.imm16;
      if o.immP66 {
        if wide {
          Store(8, before, start, done);
          done := done + [8];
        } else if !short {
          Store(4, before, start, done);
          done := done + [4];
        } else {
          word := true;
        }
      }
      if word {
        Store(2, before, start, done);
        done := done + [2];
      }
      assert done == OperandSized(o, short, wide) + Word(o, short, wide);
      if o.imm8 {
        Store(1, before, start, done);
        done := done + [1];
      }
      assert done == OperandSized(o, short, wide) + Word(o, short, wide) + Single(o);
      if o.rel32 {
        Store(4, before, start, done);
        done := done + [4];
      } else if o.rel8 {
        Store(1, before, start, done);
        done := done + [1];
      }
      assert done == Immediates(o, short, wide);
    }

    /** Prefixes and REX; `c` is the byte behind them. */
    method ReadFront() returns (c: Byte, pref: set<Pre>, wide: bool, twice: bool)
      requires p == 0 && hs == ZERO && |code| >= 32
      modifies this
      ensures var h := HeadOf(code);
              && p == h.start + One(h.rex, 1) + 1 && c == code[p - 1] && twice == h.twice
              && pref == PrefixesFor(Kinds(code, Leading(code, 0)), 0)
              && wide == (h.rex && code[h.start] % 16 >= 8 && 0xb8 <= c <= 0xbf)
              && hs == FrontFields(code, h)
    {
      hide Leading, Bytes, Kinds, OperandsFor, ExtensionsFor, Unknown;
      c, pref := ReadPrefixes();
      hs := hs.(flags := CLEAR, prefixes := pref);
      if pref == {} {
        pref := {NoPrefix};
      }
      c, wide, twice := ReadRex(c);
    }

    /** Prefixes, REX and opcode, up to the operands. */
    method ReadHead() returns (opcode: Byte, o: Operands, x: Byte, pref: set<Pre>, wide: bool)
      requires p == 0 && hs == ZERO && |code| >= 32
      modifies this
      ensures var h := HeadOf(code);
              && p == h.end && opcode == h.opcode && o == h.o && x == h.x && pref == h.pref && wide == h.wide
              && hs == HeadFields(code, h)
    {
      hide Leading, Kinds, Bytes, OperandsFor, Flags, ExtensionsFor, PrefixRefused, Unknown;
      var c, twice;
      c, pref, wide, twice := ReadFront();
      var second := false;
      opcode := c;
      if !twice {
        opcode, second, pref, wide := ReadOpcode(c, pref, wide);
      }
      o, x := LookUp(second, opcode, twice);
      CheckPrefixes(opcode, pref);
    }

    /** ModRM, SIB and displacement, if the opcode has them, with all checks. */
    method ReadMiddle(opcode: Byte, x: Byte, o: Operands, pref: set<Pre>, ghost h: Head) returns (o': Operands)
      requires opcode == h.opcode && x == h.x && o == h.o && pref == h.pref && p == h.end && p + 6 <= |code|
      requires |hs.disp| == 4 && (hs.opcode2 != 0 <==> Two(h))
      modifies this
      ensures var a := AddressOf(code, h);
              && p == DispStart(h, a) + a.n && o' == OperandsIn(h, a)
              && hs == if o.modrm then AddressFields(old(hs), code, h, a) else BadLock(old(hs), Lock in pref)
    {
      hide DispSize, EffectiveMod, AddressFields;
      o' := o;
      if o.modrm {
        var reg := ReadAddressing(opcode, x, pref, h);
        if reg <= 1 {
          if opcode == 0xf6 {
            o' := o.(imm8 := true);
          } else if opcode == 0xf7 {
            o' := o.(immP66 := true);
          }
        }
      } else if Lock in pref {
        hs := hs.(flags := hs.flags.(error := true, errorLock := true));
      }
    }

    method ReadAddressing(opcode: Byte, x: Byte, pref: set<Pre>, ghost h: Head) returns (reg: Byte)
      requires opcode == h.opcode && x == h.x && h.o.modrm && pref == h.pref && p == h.end && p + 6 <= |code|
      requires |hs.disp| == 4 && (hs.opcode2 != 0 <==> Two(h))
      modifies this
      ensures var a := AddressOf(code, h);
              && p == DispStart(h, a) + a.n && reg == a.reg
              && hs == AddressFields(old(hs), code, h, a)
    {
      hide DispSize, EffectiveMod, CheckedFields, WithDisp;
      var mod, rm;
      mod, reg, rm := ReadModrm();
      ghost var a := AddressOf(code, h);
      mod := Check(opcode, x, mod, reg, rm, pref, a);
      var size := ReadSib(mod, rm, P67 in pref);
      ReadDisplacement(size);
    }

    /** All checks that involve the ModRM byte. */
    method Check(opcode: Byte, x: Byte, mod: Byte, reg: Byte, rm: Byte, pref: set<Pre>,
                 ghost a: Address) returns (mod': Byte)
      requires reg < 8 && rm < 8 && mod == a.mod && reg == a.reg && rm == a.rm
      modifies this
      ensures p == old(p) && mod' == EffectiveMod(old(hs).opcode2 != 0, opcode, mod)
      ensures hs == CheckedFields(old(hs), old(hs).opcode2 != 0, opcode, x, a, pref)
      ensures hs.disp == old(hs).disp
    {
      hide FpuRefused, LockRefused, OperandRefused, TopBit;
      CheckExtension(opcode, x, mod, reg, rm);
      CheckLock(opcode, mod, reg, pref);
      mod' := CheckOperand(opcode, mod, reg, pref);
    }

    /** Everything up to the immediates. */
    method ReadBody() returns (o: Operands, pref: set<Pre>, wide: bool)
      requires p == 0 && hs == ZERO && |code| >= 32 && HeadOf(code).end + 6 <= |code|
      modifies this
      ensures var h := HeadOf(code);
              var a := AddressOf(code, h);
              && p == DispStart(h, a) + a.n && o == OperandsIn(h, a) && pref == h.pref && wide == h.wide
              && hs == BodyFields(code, h, a)
    {
      hide HeadOf, AddressOf, HeadFields, AddressFields, OperandsIn, DispStart, Two;
      ghost var h := HeadOf(code);
      HeadUnions(code, h);
      HeadTwo(code);
      var opcode, x;
      opcode, o, x, pref, wide := ReadHead();
      o := ReadMiddle(opcode, x, o, pref, h);
    }

    /** Everything but the length. */
    method ReadAll()
      requires p == 0 && hs == ZERO && |code| >= 32
      modifies this
      ensures p == Length(code) && Described(code) == Cut(hs, p)
    {
      hide HeadOf, AddressOf, BodyFields, OperandsIn, DispStart, Sum, Immediates, ImmediateFields, Described, Cut;
      ghost var h := HeadOf(code);
      PartsFit(code);
      BodyUnion(code, h, AddressOf(code, h));
      var o, pref, wide := ReadBody();
      ReadImmediates(o, P66 in pref, wide);
      AllParts(code, hs);
    }

    /** hde64_disasm: everything reported is what the bytes of the instruction call for, and no byte beyond the 32nd
        is read. */
    method Disassemble() returns (r: nat)
      requires p == 0 && hs == ZERO && |code| >= 32
      modifies this
      ensures hs == Described(code) && p == Length(code) <= 32 && r == hs.len == Min(p, 15)
    {
      hide HeadOf, AddressOf, Described, Located, Length, ImmBytes;
      Consistent(code);
      ReadAll();
      hs := hs.(len := p % 256);
      if hs.len > 15 {
        hs := hs.(flags := hs.flags.(error := true, errorLength := true), len := 15);
      }
      r := hs.len;
    }

    lemma NothingStored(before: Fields, start: nat)
      requires hs == before && p == start <= |code| && |before.imm| == 8
      ensures After(before, start, [])
    {}

    lemma Unpack(before: Fields, start: nat, done: seq<nat>)
      requires After(before, start, done)
      ensures |before.imm| == 8 && start + Sum(done) <= |code| && (forall i :: 0 <= i < |done| ==> done[i] <= 8)
      ensures p == start + Sum(done)
      ensures hs == before.(flags := WithImm(before.flags, done), imm := Stored(before.imm, code, start, done))
    {}
  }
}
