/** The shape of the assembler's output: one word per source instruction, whatever it expands to, and
    what a label means in it. */
module OutputShape {
  import opened Wrappers
  import opened Bits
  import opened Isa
  import opened Operands
  import opened Lowering
  import opened Linker
  import opened Assembler

  /** The number of source instructions among the first p statements. */
  function InsnsBefore(stmts: seq<Stmt>, p: nat): nat
    requires p <= |stmts|
  {
    if p == 0 then 0 else InsnsBefore(stmts, p - 1) + if stmts[p - 1].InsnStmt? then 1 else 0
  }

  /** The position of statement p's node in the list of nodes. */
  ghost function NodePlace(arch: Arch, stmts: seq<Stmt>, p: nat): nat
    requires p <= |stmts| && NodesOf(arch, stmts).Ok?
    decreases |stmts|
  {
    if p == |stmts| then |NodesOf(arch, stmts).value| else NodePlace(arch, stmts[..|stmts| - 1], p)
  }

  lemma {:induction false} InsnsBeforePrefix(stmts: seq<Stmt>, front: seq<Stmt>, p: nat)
    requires front <= stmts && p <= |front|
    ensures InsnsBefore(stmts, p) == InsnsBefore(front, p)
  {
    if p > 0 {
      InsnsBeforePrefix(stmts, front, p - 1);
    }
  }

  /** Every instruction and every label has exactly one node, and its address is the number of
      instructions before it. */
  lemma {:induction false} StmtPlaced(arch: Arch, stmts: seq<Stmt>, p: nat)
    requires NodesOf(arch, stmts).Ok? && p <= |stmts|
    ensures var (nodes, q) := (NodesOf(arch, stmts).value, NodePlace(arch, stmts, p));
            && q <= |nodes| && Address(nodes, q) == InsnsBefore(stmts, p)
            && (p < |stmts| ==> NodeOf(arch, stmts[p]).Ok?)
            && (p < |stmts| && !stmts[p].ArchStmt? && !stmts[p].StartStmt? ==>
                  q < |nodes| && NodeOf(arch, stmts[p]) == Ok([nodes[q]]))
    decreases |stmts|
  {
    if stmts != [] {
      var last := |stmts| - 1;
      var front := stmts[..last];
      var (nodes, before, node) := (NodesOf(arch, stmts).value, NodesOf(arch, front).value,
                                     NodeOf(arch, stmts[last]).value);
      assert nodes == before + node;
      StmtPlaced(arch, front, if p <= last then p else last);
      InsnsBeforePrefix(stmts, front, if p <= last then p else last);
      AddressPrefix(before, node, NodePlace(arch, front, if p <= last then p else last));
      if p == |stmts| {
        assert NodePlace(arch, front, last) == |before|;
      }
    }
  }

  /** The word an instruction was linked to: the opcode and the operands known beforehand are kept. */
  predicate WordOf(code: Code, word: Bin) {
    && word.opcode == code.opcode
    && (code.a.Normal? ==> word.a == code.a.value)
    && (code.b.Normal? ==> word.b == code.b.value)
    && (code.c.Normal? ==> word.c == code.c.value)
  }

  /** The nodes behind an optional start jump. */
  lemma BehindStart(first: seq<Node>, rest: seq<Node>, q: nat)
    requires |first| <= 1 && (forall n :: n in first ==> n.OutInsn?) && q <= |rest|
    ensures Address(first + rest, |first| + q) == |first| + Address(rest, q)
  {
    if |first| == 0 {
      assert first + rest == rest;
    } else if q < |rest| {
      AddressShift(first + rest, q);
      assert (first + rest)[1..] == rest;
    } else if rest != [] {
      AddressShift(first + rest, q - 1);
      AddressFromLast(first, rest);
    } else {
      assert Address(first + rest, 1) == Address(first + rest, 0) + 1;
    }
  }

  lemma AddressFromLast(first: seq<Node>, rest: seq<Node>)
    requires |first| == 1 && first[0].OutInsn? && rest != []
    ensures Address(first + rest, 1 + |rest|) == 1 + Address(rest, |rest|)
  {
    var (all, q) := (first + rest, |rest| - 1);
    AddressShift(all, q);
    assert all[1..] == rest && all[q + 1] == rest[q];
  }

  /** The start jump, if there is one and it is kept. */
  ghost function KeptStart(arch: Arch, start: Option<string>, stmts: seq<Stmt>): (first: seq<Node>)
    requires OutputNodes(arch, start, stmts).Ok?
    ensures |first| <= 1 && forall n :: n in first ==> n.OutInsn? && start.Some?
  {
    var nodes := OutputNodes(arch, start, stmts).value;
    if HasStart(nodes) && StartTarget(nodes) == Ok(1) then [] else StartNodes(arch, start).value
  }

  lemma NoStartInside(arch: Arch, stmts: seq<Stmt>)
    requires NodesOf(arch, stmts).Ok?
    ensures !HasStart([] + NodesOf(arch, stmts).value)
  {
    NodesAreFresh(arch, stmts);
    var nodes := NodesOf(arch, stmts).value;
    assert nodes != [] ==> nodes[0] in nodes;
    assert [] + nodes == nodes;
  }

  /** The linked list is the nodes of the statements, possibly behind the start jump. */
  lemma LinkKept(arch: Arch, start: Option<string>, stmts: seq<Stmt>)
    requires OutputNodes(arch, start, stmts).Ok? && Link(arch, OutputNodes(arch, start, stmts).value).Ok?
    ensures Link(arch, OutputNodes(arch, start, stmts).value)
         == LinkFrom(arch, KeptStart(arch, start, stmts) + NodesOf(arch, stmts).value, 0)
  {
    var (nodes, rest) := (OutputNodes(arch, start, stmts).value, NodesOf(arch, stmts).value);
    NoStartInside(arch, stmts);
    if HasStart(nodes) {
      assert nodes[1..] == [] + rest;
    }
  }

  ghost predicate LabelAt(nodes: seq<Node>, name: string, address: nat) {
    exists j :: 0 <= j < |nodes| && Named(nodes[j], name) && Address(nodes, j) == address
  }

  /** Statement p's part of the output: the word at its own address, or its label there. */
  ghost predicate StmtOutput(arch: Arch, stmt: Stmt, address: nat, kept: seq<Node>, bins: seq<Bin>) {
    && (stmt.InsnStmt? ==> address < |bins| && Lower(arch, stmt.insn).Ok?
                           && WordOf(Lower(arch, stmt.insn).value, bins[address]))
    && (stmt.LabelStmt? ==> LabelAt(kept, stmt.labelName, address))
  }

  /** Statement p's node in the kept list, and its address there. */
  lemma StmtKept(arch: Arch, stmts: seq<Stmt>, first: seq<Node>, p: nat) returns (k: nat)
    requires |first| <= 1 && (forall n :: n in first ==> n.OutInsn?) && NodesOf(arch, stmts).Ok?
    requires p < |stmts| && !stmts[p].ArchStmt? && !stmts[p].StartStmt?
    ensures var kept := first + NodesOf(arch, stmts).value;
            && k < |kept| && NodeOf(arch, stmts[p]) == Ok([kept[k]])
            && Address(kept, k) == |first| + InsnsBefore(stmts, p)
  {
    StmtPlaced(arch, stmts, p);
    BehindStart(first, NodesOf(arch, stmts).value, NodePlace(arch, stmts, p));
    k := |first| + NodePlace(arch, stmts, p);
  }

  lemma LinkedWord(arch: Arch, kept: seq<Node>, bins: seq<Bin>, k: nat)
    requires LinkFrom(arch, kept, 0) == Ok(bins) && k < |kept| && kept[k].OutInsn?
    ensures Address(kept, k) < |bins| && WordOf(kept[k].code, bins[Address(kept, k)])
  {
    LinkedAt(arch, kept, bins, k);
  }

  lemma StmtOutputAt(arch: Arch, stmts: seq<Stmt>, first: seq<Node>, kept: seq<Node>, bins: seq<Bin>, p: nat)
    requires |first| <= 1 && (forall n :: n in first ==> n.OutInsn?) && NodesOf(arch, stmts).Ok? && p < |stmts|
    requires kept == first + NodesOf(arch, stmts).value && LinkFrom(arch, kept, 0) == Ok(bins)
    ensures StmtOutput(arch, stmts[p], |first| + InsnsBefore(stmts, p), kept, bins)
  {
    if stmts[p].InsnStmt? {
      var k := StmtKept(arch, stmts, first, p);
      LinkedWord(arch, kept, bins, k);
    } else if stmts[p].LabelStmt? {
      var k := StmtKept(arch, stmts, first, p);
      assert Named(kept[k], stmts[p].labelName);
    }
  }

  /** A program of n source instructions becomes n words, plus one if its start jump is kept. */
  lemma OneOutputEach(arch: Arch, start: Option<string>, stmts: seq<Stmt>, bins: seq<Bin>)
    requires OutputNodes(arch, start, stmts).Ok? && Link(arch, OutputNodes(arch, start, stmts).value) == Ok(bins)
    ensures |bins| == |KeptStart(arch, start, stmts)| + InsnsBefore(stmts, |stmts|)
  {
    LinkKept(arch, start, stmts);
    OutputLength(arch, stmts, KeptStart(arch, start, stmts), bins);
  }

  /** The word of every instruction, and every label, stands at the number of kept instructions before
      it. */
  lemma OutputOfStmt(arch: Arch, start: Option<string>, stmts: seq<Stmt>, bins: seq<Bin>, p: nat)
    requires OutputNodes(arch, start, stmts).Ok? && Link(arch, OutputNodes(arch, start, stmts).value) == Ok(bins)
    requires p < |stmts|
    ensures var first := KeptStart(arch, start, stmts);
            StmtOutput(arch, stmts[p], |first| + InsnsBefore(stmts, p), first + NodesOf(arch, stmts).value, bins)
  {
    var first := KeptStart(arch, start, stmts);
    LinkKept(arch, start, stmts);
    StmtOutputAt(arch, stmts, first, first + NodesOf(arch, stmts).value, bins, p);
  }

  lemma OutputLength(arch: Arch, stmts: seq<Stmt>, first: seq<Node>, bins: seq<Bin>)
    requires |first| <= 1 && (forall n :: n in first ==> n.OutInsn?) && NodesOf(arch, stmts).Ok?
    requires LinkFrom(arch, first + NodesOf(arch, stmts).value, 0) == Ok(bins)
    ensures |bins| == |first| + InsnsBefore(stmts, |stmts|)
  {
    LinkedLength(arch, first + NodesOf(arch, stmts).value, bins);
    KeptLength(first, NodesOf(arch, stmts).value);
    AllStmtsPlaced(arch, stmts);
  }

  lemma KeptLength(first: seq<Node>, rest: seq<Node>)
    requires |first| <= 1 && (forall n :: n in first ==> n.OutInsn?)
    ensures Address(first + rest, |first + rest|) == |first| + Address(rest, |rest|)
  {
    BehindStart(first, rest, |rest|);
    assert |first| + |rest| == |first + rest|;
  }

  lemma AllStmtsPlaced(arch: Arch, stmts: seq<Stmt>)
    requires NodesOf(arch, stmts).Ok?
    ensures var rest := NodesOf(arch, stmts).value; Address(rest, |rest|) == InsnsBefore(stmts, |stmts|)
  {
    StmtPlaced(arch, stmts, |stmts|);
    assert NodePlace(arch, stmts, |stmts|) == |NodesOf(arch, stmts).value|;
  }

  // ---------------------------------------------------------------- labels as inputs

  lemma {:induction false} OrLow(x: nat, y: nat, n: nat)
    ensures BitOr(x, y) % Pow2(n) == BitOr(x % Pow2(n), y % Pow2(n))
  {
    if n > 0 {
      OrStep(x, y);
      OrLow(x / 2, y / 2, n - 1);
      HalfMod(x, n);
      HalfMod(y, n);
      HalfMod(BitOr(x, y), n);
      OrStep(x % Pow2(n), y % Pow2(n));
    }
  }

  lemma {:induction false} OrHigh(x: nat, y: nat, n: nat)
    ensures ShiftRight(BitOr(x, y), n) == BitOr(ShiftRight(x, n), ShiftRight(y, n))
    decreases n
  {
    if n > 0 {
      OrStep(x, y);
      OrHigh(x / 2, y / 2, n - 1);
    }
  }

  lemma {:induction false} Halves(x: nat, n: nat)
    ensures x == ShiftRight(x, n) * Pow2(n) + x % Pow2(n)
    decreases n
  {
    if n > 0 {
      Halves(x / 2, n - 1);
      HalfMod(x, n);
    }
  }

  lemma OrThree(s: nat)
    requires s < 4
    ensures BitOr(s, 3) == 3
  {
    assert BitOr(s / 2, 1) == 1;
  }

  lemma TopBits(x: nat, p: nat, s: nat, r: nat)
    requires p > 0 && x == s * p + r && r < p && x < 4 * p
    ensures s < 4
  {
    MulAtLeast(s - 3, p);
  }

  lemma BaseBits(base: nat, p: nat, s: nat, r: nat)
    requires p > 0 && base == 3 * p && base == s * p + r && r < p
    ensures s == 3 && r == 0
  {
    ModUnique(base, p, 3, 0);
    ModUnique(base, p, s, r);
  }

  /** Setting the two bits above n keeps the n bits below. */
  lemma OrBase(x: nat, base: nat, n: nat)
    requires base == 3 * Pow2(n) && x < 4 * Pow2(n)
    ensures BitOr(x, base) == base + x % Pow2(n)
  {
    var both := BitOr(x, base);
    Halves(x, n);
    Halves(base, n);
    Halves(both, n);
    TopBits(x, Pow2(n), ShiftRight(x, n), x % Pow2(n));
    BaseBits(base, Pow2(n), ShiftRight(base, n), base % Pow2(n));
    OrHigh(x, base, n);
    OrThree(ShiftRight(x, n));
    OrLow(x, base, n);
    assert both % Pow2(n) == BitOr(x % Pow2(n), 0) == x % Pow2(n);
  }

  lemma OrImmBase(arch: Arch, address: word)
    requires InField(arch, address)
    ensures BitOr(address, ImmBase(arch)) == EncodeImm(arch, address)
  {
    if arch == Arch5 {
      assert Pow2(10) == 0x400;
      OrBase(address, 0xC00, 10);
    } else {
      assert Pow2(11) == 0x800;
      OrBase(address, 0x1800, 11);
    }
  }

  lemma ImmDecodes(arch: Arch, imm: word)
    ensures DecodeOperand(arch, EncodeImm(arch, imm)) == Imm(DecodeImm(arch, EncodeImm(arch, imm)))
  {
    if arch == Arch5 {
      Ranges5(EncodeImm(arch, imm));
    } else {
      Ranges15(EncodeImm(arch, imm));
    }
  }

  lemma PlacedInput(arch: Arch, slot: nat, address: word)
    requires slot < 2 && InField(arch, address)
    ensures PlaceAddress(arch, slot, address) == EncodeImm(arch, address)
  {
    OrImmBase(arch, address);
    var w: word := EncodeImm(arch, address);
    assert Word(address) == address && Word(w) == w;
  }

  lemma ImmMeans(arch: Arch, imm: word)
    requires imm < 0x1_0000
    ensures DecodeOperand(arch, EncodeImm(arch, imm)) == Imm(imm) <==> IsValidImm(arch, imm)
  {
    ImmDecodes(arch, imm);
    ValidImm(arch, imm);
    assert imm % 0x1_0000 == imm;
  }

  /** A label as an input is encoded like the immediate of its address, and means the address exactly
      when that is a native immediate. */
  lemma LabelAsInput(arch: Arch, slot: nat, address: word)
    requires slot < 2 && InField(arch, address)
    ensures PlaceAddress(arch, slot, address) == EncodeImm(arch, address)
    ensures DecodeOperand(arch, PlaceAddress(arch, slot, address)) == Imm(address) <==> IsValidImm(arch, address)
  {
    PlacedInput(arch, slot, address);
    ImmMeans(arch, address);
  }
}
