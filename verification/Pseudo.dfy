/** What the pseudo instructions mean: the instruction chosen for `mov`, `jand` and `jnand` computes
    what the mnemonic says, on every 16-bit machine value. */
module Pseudo {
  import opened Wrappers
  import opened Bits
  import opened Isa
  import opened Operands
  import opened Lowering

  // ---------------------------------------------------------------- runs of ones

  /** A single run of ones that ends below bit 31. */
  ghost predicate IsRun(m: nat, s: nat, n: nat) {
    n >= 1 && s + n <= 31 && m == Run(s, n)
  }

  lemma {:induction false} PowerBits(t: nat)
    ensures BitAnd(Pow2(t), Pow2(t) - 1) == 0
  {
    if t > 0 {
      PowerBits(t - 1);
      assert (Pow2(t) - 1) / 2 == Pow2(t - 1) - 1;
    }
  }

  lemma {:induction false} PowerExponent(v: nat) returns (t: nat)
    requires v > 0 && BitAnd(v, v - 1) == 0
    ensures v == Pow2(t)
  {
    if v == 1 {
      t := 0;
    } else if v % 2 == 0 {
      assert (v - 1) / 2 == v / 2 - 1;
      t := PowerExponent(v / 2);
      t := t + 1;
    } else {
      AndSelf(v / 2);
      assert false;
    }
  }

  /** `(m - 1) & ~m` turns the zeros below the lowest one of m into ones. */
  lemma {:induction false} LowZeros(m: nat, w: nat)
    requires 0 < m < Pow2(w)
    ensures BitAnd(m - 1, Pow2(w) - 1 - m) == Pow2(Ffs(m) - 1) - 1
    ensures m + Pow2(Ffs(m) - 1) <= Pow2(w)
    decreases w
  {
    var u := m / 2;
    if m % 2 == 1 {
      AndComplement(u, w - 1);
      assert (m - 1) / 2 == u && (Pow2(w) - 1 - m) / 2 == Pow2(w - 1) - 1 - u;
    } else {
      LowZeros(u, w - 1);
      assert (m - 1) / 2 == u - 1 && (Pow2(w) - 1 - m) / 2 == Pow2(w - 1) - 1 - u;
      assert (m - 1) % 2 == 1 && (Pow2(w) - 1 - m) % 2 == 1;
    }
  }

  /** Filling up the low zeros reaches a power of two exactly for a single run. */
  lemma {:induction false} FilledRun(m: nat, t: nat) returns (n: nat)
    requires m > 0 && m + Pow2(Ffs(m) - 1) == Pow2(t)
    ensures n >= 1 && Ffs(m) - 1 + n == t && m == Run(Ffs(m) - 1, n)
  {
    if m % 2 == 1 {
      n := t;
    } else {
      n := FilledRun(m / 2, t - 1);
    }
  }

  lemma {:induction false} RunFilled(s: nat, n: nat)
    requires n >= 1
    ensures Run(s, n) > 0 && Ffs(Run(s, n)) == s + 1 && Run(s, n) + Pow2(s) == Pow2(s + n)
    ensures ShiftRight(Run(s, n), s) == Pow2(n) - 1
  {
    if s > 0 {
      RunFilled(s - 1, n);
    }
  }

  lemma WordSmall(i: nat)
    ensures i < 0x1_0000_0000 ==> Word(i) == i
    ensures i == 0x1_0000_0000 ==> Word(i) == 0
  {
  }

  /** The sum that is_contiguous_bitmask tests is the mask with its low zeros filled up, or zero. */
  lemma FilledSum(m: word) returns (filled: nat)
    requires m > 0
    ensures filled == m + Pow2(Ffs(m) - 1)
    ensures IsContiguous(m) <==> filled < 0x1_0000_0000 && BitAnd(filled, filled - 1) == 0
  {
    Pow32();
    LowZeros(m, 32);
    filled := m + Pow2(Ffs(m) - 1);
    assert Complement(m) == Pow2(32) - 1 - m;
    assert m + BitAnd(m - 1, Complement(m)) + 1 == filled;
    WordSmall(filled);
  }

  /** is_contiguous_bitmask on non-zero masks: exactly the single runs of ones below bit 31. */
  lemma ContiguousIsRun(m: word) returns (s: nat, n: nat)
    requires m > 0 && IsContiguous(m)
    ensures IsRun(m, s, n)
  {
    var filled := FilledSum(m);
    s := Ffs(m) - 1;
    var t := PowerExponent(filled);
    Pow32();
    PowerOrder(t, 32);
    n := FilledRun(m, t);
  }

  lemma RunIsContiguous(m: word, s: nat, n: nat)
    requires IsRun(m, s, n)
    ensures m > 0 && IsContiguous(m)
  {
    RunFilled(s, n);
    var filled := FilledSum(m);
    Pow32();
    PowerOrder(s + n, 32);
    PowerBits(s + n);
  }

  lemma {:induction false} FfsAbove(n: nat, w: nat)
    requires n < w
    ensures Pow2(n) < Pow2(w) && Ffs(Pow2(w) - Pow2(n)) == n + 1
  {
    PowerOrder(n, w);
    if n > 0 {
      FfsAbove(n - 1, w - 1);
    }
  }

  /** A run that reaches bit 31 is refused, because its sum wraps around. */
  lemma RunToTop(m: word, s: nat)
    requires s <= 31 && m == 0x1_0000_0000 - Pow2(s)
    ensures m > 0 && !IsContiguous(m)
  {
    Pow32();
    FfsAbove(s, 32);
    var filled := FilledSum(m);
  }

  lemma TopBitRefused()
    ensures !IsContiguous(0x8000_0000)
  {
    Pow32();
    RunToTop(0x8000_0000, 31);
  }

  lemma OnesEnd(n: nat)
    requires n <= 31
    ensures Pow2(n) - 1 < 0x1_0000_0000 && Ffs(Complement(Pow2(n) - 1)) == n + 1
  {
    FfsAbove(n, 32);
    Pow32();
  }

  lemma MaskFieldIs(m: word, s: nat, n: nat, ones: word)
    requires m > 0 && n >= 1 && s + n <= 31 && Ffs(m) == s + 1
    requires ShiftRight(m, s) == ones && Ffs(Complement(ones)) == n + 1
    ensures MaskField(m) == (s, n - 1)
  {
    WordSmall(ones);
    WordSmall(s);
    WordSmall(n - 1);
  }

  /** emulate_jand_insn finds the start and the length, less one, of a run. */
  lemma RunField(m: word, s: nat, n: nat)
    requires IsRun(m, s, n) && m > 0
    ensures MaskField(m) == (s, n - 1)
  {
    RunFilled(s, n);
    OnesEnd(n);
    MaskFieldIs(m, s, n, Pow2(n) - 1);
  }

  /** `(x >> s) & mask` for a mask of n ones. */
  function Field(x: nat, s: nat, n: nat): nat {
    BitAnd(ShiftRight(x, s), Run(0, n))
  }

  /** Testing the field is testing the bits of the run. */
  lemma {:induction false} FieldTest(x: nat, s: nat, n: nat)
    ensures BitAnd(x, Run(s, n)) != 0 <==> Field(x, s, n) != 0
    decreases s
  {
    if s > 0 {
      FieldTest(x / 2, s - 1, n);
    }
  }

  /** Clearing a run at the top of a value leaves the bits below it. */
  lemma {:induction false} ClearTop(y: nat, s: nat, n: nat)
    requires y < Pow2(s + n)
    ensures BitClear(y, Run(s, n)) == y % Pow2(s)
    decreases s + n
  {
    var run := Run(s, n);
    ClearStep(y, run);
    if s > 0 {
      assert run / 2 == Run(s - 1, n) && run % 2 == 0;
      ClearTop(y / 2, s - 1, n);
      HalfMod(y, s);
    } else if n > 0 {
      assert run / 2 == Run(0, n - 1) && run % 2 == 1;
      ClearTop(y / 2, 0, n - 1);
    }
  }

  // ---------------------------------------------------------------- machine meaning

  predicate IsImmField(arch: Arch, w: word) {
    match arch case Arch5 => w / 0x400 % 4 == 3 case Arch15 => w / 0x800 % 4 == 3
  }

  /** The value of an input field: an immediate, sign extended to 16 bits, or whatever the machine
      holds in that register or memory cell. */
  function Value(arch: Arch, env: word -> word, w: word): word {
    if IsImmField(arch, w) then DecodeImm(arch, w) else env(w) % 0x1_0000
  }

  /** Whether a branch with the opcode of jand, jnand, jzx or jnzx is taken on inputs x and y;
      the extended forms look at one field of x. */
  predicate Taken(opcode: word, x: word, y: word) {
    var field := Field(x, opcode % 0x10, opcode / 0x10 % 0x10 + 1);
    if opcode == 0x040 then BitAnd(x, y) != 0
    else if opcode == 0x041 then BitAnd(x, y) == 0
    else if opcode / 0x100 == 5 then field != 0
    else field == 0
  }

  /** The result of `or` and `orx`; the latter puts the low bits of x over a field of y. */
  function Stored(opcode: word, x: word, y: word): nat {
    var (s, n) := (opcode % 0x10, opcode / 0x10 % 0x10 + 1);
    if opcode == 0x160 then BitOr(x, y) else PlaceField(x, y, s, n) % 0x1_0000
  }

  /** `(y & ~(mask << s)) | ((x & mask) << s)` for a mask of n ones. */
  function PlaceField(x: nat, y: nat, s: nat, n: nat): nat {
    BitOr(BitClear(y, Run(s, n)), ShiftLeft(BitAnd(x, Run(0, n)), s))
  }

  predicate Ready(c: Code) {
    c.a.Normal? && c.b.Normal?
  }

  lemma ImmValue(arch: Arch, env: word -> word, imm: word)
    requires IsValidImm(arch, imm)
    ensures Value(arch, env, EncodeImm(arch, imm)) == imm % 0x1_0000
  {
    ValidImm(arch, imm);
    if arch == Arch5 {
      assert (0xC00 + imm % 0x400) / 0x400 == 3;
    } else {
      assert (0x1800 + imm % 0x800) / 0x800 == 3;
    }
  }

  lemma ValueFits(arch: Arch, env: word -> word, w: word)
    ensures Value(arch, env, w) < 0x1_0000
  {
  }

  /** With an immediate among the inputs nothing clashes: assembling is assembling each operand. */
  lemma ImmInput(arch: Arch, opcode: word, x: Operand, y: Operand, z: Operand)
    requires x.Imm? || y.Imm?
    ensures var (r, a, b, c) := (AssembleLow(arch, opcode, x, y, z),
                                 GenerateOperand(arch, x), GenerateOperand(arch, y), GenerateOperand(arch, z));
            (r.Ok? <==> a.Ok? && b.Ok? && c.Ok?) && (r.Ok? ==> r.value == Code(opcode, a.value, b.value, c.value))
  {
  }

  // ---------------------------------------------------------------- jand and jnand

  function JandInsn(inverted: bool, immFirst: bool, o: Operand, imm: word, target: Operand): Insn {
    Insn(if inverted then Jnand else Jand, if immFirst then [Imm(imm), o, target] else [o, Imm(imm), target])
  }

  /** The immediates jand can be given: native ones, and runs that a four-bit width and start name. */
  predicate JandImm(arch: Arch, imm: word) {
    || IsValidImm(arch, imm)
    || (imm > 0 && IsContiguous(imm) && MaskField(imm).0 < 0x10 && MaskField(imm).1 < 0x10)
  }

  function JandField(arch: Arch, imm: word): (word, word)
    requires JandImm(arch, imm)
  {
    if IsValidImm(arch, imm) then (0, 0) else MaskField(imm)
  }

  function FieldBase(inverted: bool): word {
    if inverted then 0x400 else 0x500
  }

  /** The code of a jand whose operands assemble to g and t, with the field of a long immediate. */
  function JandCode(arch: Arch, inverted: bool, immFirst: bool, g: OutOperand, imm: word, start: word, width: word,
                    t: OutOperand): Code
    requires start < 0x10 && width < 0x10
  {
    var i := Normal(EncodeImm(arch, imm));
    if IsValidImm(arch, imm) then
      Code(if inverted then 0x041 else 0x040, if immFirst then i else g, if immFirst then g else i, t)
    else
      Code(FieldBase(inverted) + width * 0x10 + start, g, Normal(EncodeImm(arch, 0)), t)
  }

  lemma NativeJand(arch: Arch, inverted: bool, immFirst: bool, o: Operand, imm: word, target: Operand)
    requires !o.Imm? && IsValidImm(arch, imm)
    ensures Lower(arch, JandInsn(inverted, immFirst, o, imm, target))
         == AssembleLow(arch, if inverted then 0x041 else 0x040, if immFirst then Imm(imm) else o,
                        if immFirst then o else Imm(imm), target)
  {
    var insn := JandInsn(inverted, immFirst, o, imm, target);
    assert JandExpansion(arch, insn.opers, inverted) == Ok(None);
  }

  lemma RunJand(arch: Arch, inverted: bool, immFirst: bool, o: Operand, imm: word, start: word, width: word,
                target: Operand)
    requires !o.Imm? && !IsValidImm(arch, imm) && imm > 0 && IsContiguous(imm) && MaskField(imm) == (start, width)
    ensures Lower(arch, JandInsn(inverted, immFirst, o, imm, target))
         == if start >= 0x10 || width >= 0x10 then Err(ExtensionTooBig)
            else AssembleLow(arch, FieldBase(inverted) + width * 0x10 + start, o, Imm(0), target)
  {
    LongExpansion(arch, inverted, immFirst, o, imm, target);
    FieldLowered(arch, JandInsn(inverted, immFirst, o, imm, target), inverted, start, width, o, target);
  }

  lemma OtherJand(arch: Arch, inverted: bool, immFirst: bool, o: Operand, imm: word, target: Operand)
    requires !o.Imm? && !IsValidImm(arch, imm) && imm > 0 && !IsContiguous(imm)
    ensures Lower(arch, JandInsn(inverted, immFirst, o, imm, target)) == Err(NotContiguous)
  {
    LongExpansion(arch, inverted, immFirst, o, imm, target);
    LowerExpanded(arch, JandInsn(inverted, immFirst, o, imm, target), Err(NotContiguous));
  }

  lemma FieldLowered(arch: Arch, insn: Insn, inverted: bool, start: word, width: word, o: Operand, target: Operand)
    requires Expand(arch, insn) == Ok(FieldInsn(inverted, start, width, o, target))
    ensures Lower(arch, insn)
         == if start >= 0x10 || width >= 0x10 then Err(ExtensionTooBig)
            else AssembleLow(arch, FieldBase(inverted) + width * 0x10 + start, o, Imm(0), target)
  {
    LowerField(arch, inverted, start, width, o, target);
  }

  function FieldInsn(inverted: bool, start: word, width: word, o: Operand, target: Operand): Insn {
    Insn(if inverted then Jzx else Jnzx, [Raw(width), Raw(start), o, Imm(0), target])
  }

  lemma LongExpansion(arch: Arch, inverted: bool, immFirst: bool, o: Operand, imm: word, target: Operand)
    requires !o.Imm? && !IsValidImm(arch, imm) && imm > 0
    ensures Expand(arch, JandInsn(inverted, immFirst, o, imm, target))
         == if IsContiguous(imm) then Ok(FieldInsn(inverted, MaskField(imm).0, MaskField(imm).1, o, target))
            else Err(NotContiguous)
  {
  }

  lemma LowerField(arch: Arch, inverted: bool, start: word, width: word, o: Operand, target: Operand)
    ensures LowerNative(arch, FieldInsn(inverted, start, width, o, target))
         == if start >= 0x10 || width >= 0x10 then Err(ExtensionTooBig)
            else AssembleLow(arch, FieldBase(inverted) + width * 0x10 + start, o, Imm(0), target)
  {
  }

  /** Assembling is assembling each operand, if the immediate is accepted. */
  ghost predicate AssemblesAsJand(arch: Arch, inverted: bool, immFirst: bool, o: Operand, imm: word, target: Operand) {
    var (r, g, t) := (Lower(arch, JandInsn(inverted, immFirst, o, imm, target)),
                      GenerateOperand(arch, o), GenerateOperand(arch, target));
    && (r.Ok? <==> JandImm(arch, imm) && g.Ok? && t.Ok?)
    && (r.Ok? ==> var (start, width) := JandField(arch, imm);
                  r.value == JandCode(arch, inverted, immFirst, g.value, imm, start, width, t.value))
  }

  lemma NativeAssembles(arch: Arch, inverted: bool, immFirst: bool, o: Operand, imm: word, target: Operand)
    requires !o.Imm? && IsValidImm(arch, imm)
    ensures AssemblesAsJand(arch, inverted, immFirst, o, imm, target)
  {
    NativeJand(arch, inverted, immFirst, o, imm, target);
    ImmInput(arch, if inverted then 0x041 else 0x040, if immFirst then Imm(imm) else o,
             if immFirst then o else Imm(imm), target);
  }

  lemma LongAssembles(arch: Arch, inverted: bool, immFirst: bool, o: Operand, imm: word, target: Operand)
    requires !o.Imm? && !IsValidImm(arch, imm) && imm > 0
    ensures AssemblesAsJand(arch, inverted, immFirst, o, imm, target)
  {
    if IsContiguous(imm) {
      var (start, width) := MaskField(imm);
      RunJand(arch, inverted, immFirst, o, imm, start, width, target);
      if start < 0x10 && width < 0x10 {
        FieldAssembles(arch, FieldBase(inverted) + width * 0x10 + start, o, target);
      }
    } else {
      OtherJand(arch, inverted, immFirst, o, imm, target);
    }
  }

  lemma FieldAssembles(arch: Arch, opcode: word, o: Operand, target: Operand)
    ensures var (r, g, t) := (AssembleLow(arch, opcode, o, Imm(0), target), GenerateOperand(arch, o),
                              GenerateOperand(arch, target));
            && (r.Ok? <==> g.Ok? && t.Ok?)
            && (r.Ok? ==> r.value == Code(opcode, g.value, Normal(EncodeImm(arch, 0)), t.value))
  {
    ImmInput(arch, opcode, o, Imm(0), target);
  }

  lemma JandAssembles(arch: Arch, inverted: bool, immFirst: bool, o: Operand, imm: word, target: Operand)
    requires !o.Imm?
    ensures AssemblesAsJand(arch, inverted, immFirst, o, imm, target)
  {
    ZeroIsValid(arch);
    if IsValidImm(arch, imm) {
      NativeAssembles(arch, inverted, immFirst, o, imm, target);
    } else {
      LongAssembles(arch, inverted, immFirst, o, imm, target);
    }
  }

  lemma NativeTest(inverted: bool, x: word, y: word, imm: word)
    requires x < 0x1_0000 && y == imm % 0x1_0000
    ensures var opcode := if inverted then 0x041 else 0x040;
            Taken(opcode, x, y) == Taken(opcode, y, x) == ((BitAnd(x, imm) != 0) != inverted)
  {
    Pow32();
    AndMod(x, imm, 16);
    AndSym(x, y);
  }

  lemma OpcodeFields(top: nat, m: nat, s: nat)
    requires m < 0x10 && s < 0x10
    ensures var opcode := top * 0x100 + m * 0x10 + s;
            opcode % 0x10 == s && opcode / 0x10 % 0x10 == m && opcode / 0x100 == top
  {
  }

  lemma FieldTakenAt(inverted: bool, m: word, s: word, x: word, y: word)
    requires m < 0x10 && s < 0x10
    ensures Taken(FieldBase(inverted) + m * 0x10 + s, x, y) == ((Field(x, s, m + 1) != 0) != inverted)
  {
    OpcodeFields(if inverted then 4 else 5, m, s);
  }

  lemma FieldTaken(inverted: bool, x: word, y: word, imm: word, s: word, m: word)
    requires s < 0x10 && m < 0x10 && imm == Run(s, m + 1)
    ensures Taken(FieldBase(inverted) + m * 0x10 + s, x, y) == ((BitAnd(x, imm) != 0) != inverted)
  {
    FieldTest(x, s, m + 1);
    FieldTakenAt(inverted, m, s, x, y);
  }

  /** What an emitted branch does with the value of the input that is not the immediate. */
  ghost predicate BranchesOn(arch: Arch, env: word -> word, c: Code, input: OutOperand, imm: word, inverted: bool) {
    Ready(c) && input.Normal? ==>
      Taken(c.opcode, Value(arch, env, c.a.value), Value(arch, env, c.b.value))
      == ((BitAnd(Value(arch, env, input.value), imm) != 0) != inverted)
  }

  lemma JandBranches(arch: Arch, env: word -> word, inverted: bool, immFirst: bool, g: OutOperand, imm: word,
                     start: word, width: word, t: OutOperand)
    requires start < 0x10 && width < 0x10 && (IsValidImm(arch, imm) || imm == Run(start, width + 1))
    ensures BranchesOn(arch, env, JandCode(arch, inverted, immFirst, g, imm, start, width, t), g, imm, inverted)
  {
    if g.Normal? {
      var x := Value(arch, env, g.value);
      if IsValidImm(arch, imm) {
        ImmValue(arch, env, imm);
        ValueFits(arch, env, g.value);
        NativeTest(inverted, x, Value(arch, env, EncodeImm(arch, imm)), imm);
      } else {
        FieldTaken(inverted, x, Value(arch, env, EncodeImm(arch, 0)), imm, start, width);
      }
    }
  }

  lemma JandFieldIsRun(arch: Arch, imm: word)
    requires JandImm(arch, imm) && !IsValidImm(arch, imm)
    ensures var (start, width) := JandField(arch, imm); start < 0x10 && width < 0x10 && imm == Run(start, width + 1)
  {
    var s, n := ContiguousIsRun(imm);
    RunField(imm, s, n);
  }

  /** jand and jnand accept exactly the immediates of JandImm, and whichever instruction they become
      branches exactly when the input and the immediate have a bit in common (or none, for jnand). */
  lemma JandMeaning(arch: Arch, env: word -> word, inverted: bool, immFirst: bool,
                      o: Operand, imm: word, target: Operand)
    requires !o.Imm?
    ensures var (r, g, t) := (Lower(arch, JandInsn(inverted, immFirst, o, imm, target)),
                              GenerateOperand(arch, o), GenerateOperand(arch, target));
            && (r.Ok? <==> JandImm(arch, imm) && g.Ok? && t.Ok?)
            && (r.Ok? ==> BranchesOn(arch, env, r.value, g.value, imm, inverted) && r.value.c == t.value)
  {
    JandAssembles(arch, inverted, immFirst, o, imm, target);
    if Lower(arch, JandInsn(inverted, immFirst, o, imm, target)).Ok? {
      if !IsValidImm(arch, imm) {
        JandFieldIsRun(arch, imm);
      }
      var (start, width) := JandField(arch, imm);
      JandBranches(arch, env, inverted, immFirst, GenerateOperand(arch, o).value, imm, start, width,
                   GenerateOperand(arch, target).value);
    }
  }

  /** In terms of bits: beyond the native immediates, jand takes the runs of at most 16 ones that
      start at bit 15 or below and end below bit 31. */
  lemma JandImmIsRun(arch: Arch, imm: word)
    ensures JandImm(arch, imm)
            <==> IsValidImm(arch, imm) || exists s: nat, n: nat :: IsRun(imm, s, n) && s <= 15 && n <= 16
  {
    if imm > 0 && IsContiguous(imm) {
      var s, n := ContiguousIsRun(imm);
      RunField(imm, s, n);
    }
    forall s: nat, n: nat | IsRun(imm, s, n)
      ensures imm > 0 && IsContiguous(imm) && MaskField(imm).0 == s && MaskField(imm).1 == n - 1
    {
      RunIsContiguous(imm, s, n);
      RunField(imm, s, n);
    }
  }

  // ---------------------------------------------------------------- mov

  lemma ShortMov(arch: Arch, o: Operand, out: Operand)
    requires o.Imm? ==> IsValidImm(arch, o.imm)
    ensures Lower(arch, Insn(Mov, [o, out])) == AssembleLow(arch, 0x160, o, Imm(0), out)
  {
    assert MovExpansion(arch, [o, out]) == Ok(Insn(Or, [o, Imm(0), out]));
  }

  lemma LongMovIsOrx(arch: Arch, imm: word, out: Operand)
    requires IsPossibleImm(imm) && !IsValidImm(arch, imm)
    ensures Lower(arch, Insn(Mov, [Imm(imm), out]))
         == Lower(arch, Insn(Orx, [Raw(7), Raw(8), Imm(imm / 0x100 % 0x100), Imm(imm % 0x100), out]))
  {
    assert MovExpansion(arch, [Imm(imm), out])
        == Ok(Insn(Orx, [Raw(7), Raw(8), Imm(imm / 0x100 % 0x100), Imm(imm % 0x100), out]));
  }

  lemma LowerOrx(arch: Arch, x: Operand, y: Operand, out: Operand)
    ensures Lower(arch, Insn(Orx, [Raw(7), Raw(8), x, y, out])) == AssembleLow(arch, 0x378, x, y, out)
  {
  }

  lemma Ones8(x: word)
    ensures BitAnd(x, Run(0, 8)) == x % 0x100
  {
    assert Pow2(8) == 0x100;
    AndOnes(x, 8);
  }

  lemma Clear8(y: word)
    requires y < 0x1_0000
    ensures BitClear(y, Run(8, 8)) == y % 0x100
  {
    Pow32();
    assert Pow2(8) == 0x100;
    ClearTop(y, 8, 8);
  }

  lemma OrBytes(hi: word, lo: word)
    requires hi < 0x100 && lo < 0x100
    ensures BitOr(lo, ShiftLeft(hi, 8)) == lo + hi * 0x100
  {
    assert Pow2(8) == 0x100;
    ShiftLeftMul(hi, 8);
    OrDisjoint(lo, hi, 8);
  }

  lemma PlaceByte(x: word, y: word, s: nat, n: nat)
    requires y < 0x1_0000 && s == 8 && n == 8
    ensures PlaceField(x, y, s, n) == x % 0x100 * 0x100 + y % 0x100
  {
    Ones8(x);
    Clear8(y);
    OrBytes(x % 0x100, y % 0x100);
  }

  lemma OrxBytes(opcode: word, x: word, y: word)
    requires y < 0x1_0000 && opcode == 0x378
    ensures Stored(opcode, x, y) == x % 0x100 * 0x100 + y % 0x100
  {
    PlaceByte(x, y, opcode % 0x10, opcode / 0x10 % 0x10 + 1);
  }

  /** The two low bytes of a word make up its low 16 bits. */
  lemma LowBytes(imm: word)
    ensures imm / 0x100 % 0x100 * 0x100 + imm % 0x100 == imm % 0x1_0000
  {
    var (q, low) := (imm / 0x100, imm % 0x100);
    var (top, mid) := (q / 0x100, q % 0x100);
    assert imm == top * 0x1_0000 + (mid * 0x100 + low);
  }

  /** The code stores the value in the operand's place. */
  ghost predicate Stores(arch: Arch, env: word -> word, c: Code, value: word, out: OutOperand) {
    && Ready(c) && c.c == out
    && Stored(c.opcode, Value(arch, env, c.a.value), Value(arch, env, c.b.value)) == value
  }

  /** orx 7, 8 on any two immediates stores their low bytes side by side, even when the assembler
      truncates them. */
  lemma OrxStores(arch: Arch, env: word -> word, x: word, y: word, out: Operand)
    ensures var (r, t) := (Lower(arch, Insn(Orx, [Raw(7), Raw(8), Imm(x), Imm(y), out])), GenerateOperand(arch, out));
            && (r.Ok? <==> t.Ok?)
            && (r.Ok? ==> Stores(arch, env, r.value, x % 0x100 * 0x100 + y % 0x100, t.value))
  {
    LowerOrx(arch, Imm(x), Imm(y), out);
    ImmInput(arch, 0x378, Imm(x), Imm(y), out);
    OrxValue(arch, env, x, y);
  }

  lemma OrxValue(arch: Arch, env: word -> word, x: word, y: word)
    ensures Stored(0x378, Value(arch, env, EncodeImm(arch, x)), Value(arch, env, EncodeImm(arch, y)))
         == x % 0x100 * 0x100 + y % 0x100
  {
    var (u, v) := (Value(arch, env, EncodeImm(arch, x)), Value(arch, env, EncodeImm(arch, y)));
    LowByteKept(arch, env, x);
    LowByteKept(arch, env, y);
    OrxBytes(0x378, u, v);
  }

  /** Truncating an immediate to its field, and sign extending that, leaves the low byte alone. */
  lemma LowByteKept(arch: Arch, env: word -> word, x: word)
    ensures Value(arch, env, EncodeImm(arch, x)) < 0x1_0000
    ensures Value(arch, env, EncodeImm(arch, x)) % 0x100 == x % 0x100
  {
    if arch == Arch5 {
      FieldValue5(env, x);
      LowByteOf(x, 0x400, 0xFC00);
    } else {
      FieldValue15(env, x);
      LowByteOf(x, 0x800, 0xF800);
    }
  }

  lemma FieldValue5(env: word -> word, x: word)
    ensures Value(Arch5, env, EncodeImm(Arch5, x)) == x % 0x400 + if x % 0x400 / 0x200 == 1 then 0xFC00 else 0
  {
    var low := x % 0x400;
    assert (0xC00 + low) / 0x400 == 3 && (0xC00 + low) % 0x400 == low;
  }

  lemma FieldValue15(env: word -> word, x: word)
    ensures Value(Arch15, env, EncodeImm(Arch15, x)) == x % 0x800 + if x % 0x800 / 0x400 == 1 then 0xF800 else 0
  {
    var low := x % 0x800;
    assert (0x1800 + low) / 0x800 == 3 && (0x1800 + low) % 0x800 == low;
  }

  lemma LowByteOf(x: word, k: nat, sign: nat)
    requires (k == 0x400 && sign == 0xFC00) || (k == 0x800 && sign == 0xF800)
    ensures x % k % 0x100 == x % 0x100 && (x % k + sign) % 0x100 == x % 0x100
  {
    var q := x / k;
    if k == 0x400 {
      assert x == x % k + 0x400 * q;
      SameByte(x, x % k, 4 * q);
      SameByte(x % k + sign, x % k, 0xFC);
    } else {
      assert x == x % k + 0x800 * q;
      SameByte(x, x % k, 8 * q);
      SameByte(x % k + sign, x % k, 0xF8);
    }
  }

  lemma SmallByte(a: nat)
    requires a < 0x100
    ensures a % 0x100 == a
  {
  }

  lemma SameByte(a: nat, b: nat, t: nat)
    requires a == b + 0x100 * t
    ensures a % 0x100 == b % 0x100
  {
  }

  lemma ByteImm(arch: Arch, x: word)
    requires x < 0x100
    ensures IsValidImm(arch, x)
  {
  }

  /** mov of anything but a long immediate is or with zero: it stores the value read. */
  lemma MovCopies(arch: Arch, env: word -> word, o: Operand, out: Operand)
    requires o.Imm? ==> IsValidImm(arch, o.imm)
    ensures var (r, g, t) := (Lower(arch, Insn(Mov, [o, out])), GenerateOperand(arch, o), GenerateOperand(arch, out));
            && (r.Ok? <==> g.Ok? && t.Ok?)
            && (r.Ok? && g.value.Normal? ==> Stores(arch, env, r.value, Value(arch, env, g.value.value), t.value))
  {
    ShortMov(arch, o, out);
    ImmInput(arch, 0x160, o, Imm(0), out);
    ByteImm(arch, 0);
    ImmValue(arch, env, 0);
  }

  /** mov accepts exactly the immediates of at most 16 bits (or sign extensions of them), and the or
      or orx it becomes stores the low 16 bits: no byte of a long immediate is truncated. */
  lemma MovMeaning(arch: Arch, env: word -> word, imm: word, out: Operand)
    ensures var (r, t) := (Lower(arch, Insn(Mov, [Imm(imm), out])), GenerateOperand(arch, out));
            && (r.Ok? <==> (imm < 0x1_0000 || imm >= 0xFFFF_8000) && t.Ok?)
            && (r.Ok? ==> Stores(arch, env, r.value, imm % 0x1_0000, t.value))
  {
    ValidImm(arch, imm);
    if IsValidImm(arch, imm) {
      MovCopies(arch, env, Imm(imm), out);
      ImmValue(arch, env, imm);
    } else if IsPossibleImm(imm) {
      LongMovStores(arch, env, imm, out);
    } else {
      assert MovExpansion(arch, [Imm(imm), out]).Err?;
    }
  }

  lemma LongMovStores(arch: Arch, env: word -> word, imm: word, out: Operand)
    requires IsPossibleImm(imm) && !IsValidImm(arch, imm)
    ensures var (r, t) := (Lower(arch, Insn(Mov, [Imm(imm), out])), GenerateOperand(arch, out));
            && (r.Ok? <==> t.Ok?)
            && (r.Ok? ==> Stores(arch, env, r.value, imm % 0x1_0000, t.value))
  {
    var (hi, lo) := (imm / 0x100 % 0x100, imm % 0x100);
    LongMovIsOrx(arch, imm, out);
    OrxStores(arch, env, hi, lo, out);
    SmallByte(hi);
    SmallByte(lo);
    LowBytes(imm);
  }

  /** The value the beautifier reads off `orx 7, 8, x, y`. */
  function BeautifiedValue(x: word, y: word): word {
    Word(BitOr(y % 0x100, ShiftLeft(x % 0x100, 8)))
  }

  lemma BeautifiedBytes(x: word, y: word)
    ensures BeautifiedValue(x, y) == x % 0x100 * 0x100 + y % 0x100
  {
    OrBytes(x % 0x100, y % 0x100);
    WordSmall(y % 0x100 + x % 0x100 * 0x100);
  }

  /** Rewriting `orx 7, 8, x, y` to `mov` of the beautified value keeps what is stored, for any two
      immediates, and the rewritten line assembles exactly when the original does. */
  lemma BeautifiedMov(arch: Arch, env: word -> word, x: word, y: word, out: Operand)
    ensures var orx := Lower(arch, Insn(Orx, [Raw(7), Raw(8), Imm(x), Imm(y), out]));
            var mov := Lower(arch, Insn(Mov, [Imm(BeautifiedValue(x, y)), out]));
            && (orx.Ok? <==> mov.Ok?)
            && (orx.Ok? ==> exists v, o :: Stores(arch, env, orx.value, v, o) && Stores(arch, env, mov.value, v, o))
  {
    BeautifiedBytes(x, y);
    MovMeaning(arch, env, BeautifiedValue(x, y), out);
    OrxStores(arch, env, x, y, out);
  }

  /** `jext 0x7F, label` and `jmp label` are the same instruction. */
  lemma BeautifiedJmp(arch: Arch, target: Operand)
    ensures Lower(arch, Insn(Jmp, [target])) == Lower(arch, Insn(Jext, [Imm(0x7F), target]))
  {
    assert JmpExpansion([target]) == Ok(Insn(Jext, [Imm(0x7F), target]));
  }
}
