/** Programs from their lines to their words: which label a reference means, and what the lines mean whose
    instruction is not written as it is assembled. */
module Programs {
  import opened Wrappers
  import opened Bits
  import opened Isa
  import opened Operands
  import opened Lowering
  import opened Linker
  import opened Assembler
  import opened OutputShape
  import opened Pseudo
  import RoundTrip

  // ---------------------------------------------------------------- references

  predicate IsLabel(stmt: Stmt, name: string) {
    stmt.LabelStmt? && stmt.labelName == name
  }

  /** Whether statement q is the one that a reference in statement p means: the only label of the name, or
      the nearest one of that name looking back or looking forward. */
  predicate RefersTo(stmts: seq<Stmt>, p: nat, name: string, dir: Direction, q: nat) {
    && q < |stmts| && IsLabel(stmts[q], name)
    && match dir
       case Absolute => forall k :: 0 <= k < |stmts| && k != q ==> !IsLabel(stmts[k], name)
       case Back => q < p && forall k :: q < k < p && k < |stmts| ==> !IsLabel(stmts[k], name)
       case Forward => p < q && forall k :: p < k < q ==> !IsLabel(stmts[k], name)
  }

  /** The statement a node was made from. */
  lemma {:induction false} NodeIsOf(arch: Arch, stmts: seq<Stmt>, m: nat) returns (s: nat)
    requires NodesOf(arch, stmts).Ok? && m < |NodesOf(arch, stmts).value|
    ensures s < |stmts| && NodePlace(arch, stmts, s) == m
    ensures NodeOf(arch, stmts[s]) == Ok([NodesOf(arch, stmts).value[m]])
    decreases |stmts|
  {
    var last := |stmts| - 1;
    var before := NodesOf(arch, stmts[..last]).value;
    if m < |before| {
      s := NodeIsOf(arch, stmts[..last], m);
    } else {
      s := last;
      assert NodePlace(arch, stmts[..last], last) == |before|;
    }
  }

  /** Nodes stand in the order of their statements. */
  lemma {:induction false} PlaceOrder(arch: Arch, stmts: seq<Stmt>, s: nat, t: nat)
    requires NodesOf(arch, stmts).Ok? && s < t <= |stmts|
    ensures NodePlace(arch, stmts, s) <= NodePlace(arch, stmts, t)
    ensures stmts[s].InsnStmt? || stmts[s].LabelStmt? ==> NodePlace(arch, stmts, s) < NodePlace(arch, stmts, t)
    decreases |stmts|
  {
    var last := |stmts| - 1;
    var before := NodesOf(arch, stmts[..last]).value;
    StmtPlaced(arch, stmts, s);
    if t <= last {
      PlaceOrder(arch, stmts[..last], s, t);
    } else if s < last {
      PlaceOrder(arch, stmts[..last], s, last);
      assert NodePlace(arch, stmts[..last], last) == |before|;
    } else {
      assert NodePlace(arch, stmts[..last], last) == |before|;
    }
  }

  /** A label statement has its node. */
  lemma LabelNode(arch: Arch, stmts: seq<Stmt>, s: nat, name: string)
    requires NodesOf(arch, stmts).Ok? && s < |stmts| && IsLabel(stmts[s], name)
    ensures NodePlace(arch, stmts, s) < |NodesOf(arch, stmts).value|
    ensures Named(NodesOf(arch, stmts).value[NodePlace(arch, stmts, s)], name)
  {
    StmtPlaced(arch, stmts, s);
  }

  /** What a reference means among the nodes it also means among the statements. */
  lemma MeantStmt(arch: Arch, stmts: seq<Stmt>, p: nat, name: string, dir: Direction, m: nat) returns (q: nat)
    requires NodesOf(arch, stmts).Ok? && p < |stmts| && stmts[p].InsnStmt?
    requires NodePlace(arch, stmts, p) < |NodesOf(arch, stmts).value|
    requires Means(NodesOf(arch, stmts).value, NodePlace(arch, stmts, p), name, dir, m)
    ensures RefersTo(stmts, p, name, dir, q) && NodePlace(arch, stmts, q) == m
  {
    q := NodeIsOf(arch, stmts, m);
    assert IsLabel(stmts[q], name);
    forall k | 0 <= k < |stmts| && IsLabel(stmts[k], name) && k != q
      ensures NodePlace(arch, stmts, k) < |NodesOf(arch, stmts).value|
      ensures Named(NodesOf(arch, stmts).value[NodePlace(arch, stmts, k)], name)
      ensures (k < q ==> NodePlace(arch, stmts, k) < m) && (q < k ==> m < NodePlace(arch, stmts, k))
      ensures k < p ==> NodePlace(arch, stmts, k) < NodePlace(arch, stmts, p)
      ensures p < k ==> NodePlace(arch, stmts, p) < NodePlace(arch, stmts, k)
    {
      LabelNode(arch, stmts, k, name);
      if k < q { PlaceOrder(arch, stmts, k, q); } else { PlaceOrder(arch, stmts, q, k); }
      if k < p { PlaceOrder(arch, stmts, k, p); } else if p < k { PlaceOrder(arch, stmts, p, k); }
    }
    if q < p {
      PlaceOrder(arch, stmts, q, p);
    } else if p < q {
      PlaceOrder(arch, stmts, p, q);
    }
  }

  lemma MeansBehind(first: seq<Node>, rest: seq<Node>, i: nat, name: string, dir: Direction, m: nat)
    requires |first| <= 1 && (forall n :: n in first ==> n.OutInsn?) && i < |rest|
    requires Means(first + rest, |first| + i, name, dir, m)
    ensures |first| <= m && Means(rest, i, name, dir, m - |first|)
  {
    var all := first + rest;
    forall k | 0 <= k < |first| ensures all[k].OutInsn? {
      assert all[k] == first[k] && first[k] in first;
    }
    forall k | 0 <= k < |rest| ensures rest[k] == all[|first| + k] {
    }
  }

  function OperandAt(code: Code, slot: nat): OutOperand {
    if slot == 0 then code.a else if slot == 1 then code.b else code.c
  }

  function FieldAt(bin: Bin, slot: nat): word {
    if slot == 0 then bin.a else if slot == 1 then bin.b else bin.c
  }

  /** A linked reference means some label, whose address it holds. */
  lemma LinkedReference(arch: Arch, nodes: seq<Node>, bins: seq<Bin>, i: nat, slot: nat, name: string, dir: Direction)
    returns (m: nat)
    requires LinkFrom(arch, nodes, 0) == Ok(bins) && i < |nodes| && nodes[i].OutInsn? && slot < 3
    requires OperandAt(nodes[i].code, slot) == LabelRef(name, dir)
    ensures Means(nodes, i, name, dir, m) && Address(nodes, i) < |bins|
    ensures FieldAt(bins[Address(nodes, i)], slot) == PlaceAddress(arch, slot, Address(nodes, m))
  {
    LinkedAt(arch, nodes, bins, i);
    assert LinkOperand(arch, nodes, i, slot, OperandAt(nodes[i].code, slot)).Ok?;
    m := Target(nodes, i, name, dir).value;
    TargetMeans(nodes, i, name, dir, m);
  }

  /** Likewise behind an optional start jump. */
  lemma ReferenceBehind(arch: Arch, first: seq<Node>, rest: seq<Node>, bins: seq<Bin>, i: nat, slot: nat,
                        name: string, dir: Direction) returns (m: nat)
    requires |first| <= 1 && (forall n :: n in first ==> n.OutInsn?)
    requires LinkFrom(arch, first + rest, 0) == Ok(bins) && i < |rest| && rest[i].OutInsn? && slot < 3
    requires OperandAt(rest[i].code, slot) == LabelRef(name, dir)
    ensures Means(rest, i, name, dir, m) && |first| + Address(rest, i) < |bins|
    ensures FieldAt(bins[|first| + Address(rest, i)], slot) == PlaceAddress(arch, slot, |first| + Address(rest, m))
  {
    assert (first + rest)[|first| + i] == rest[i];
    m := LinkedReference(arch, first + rest, bins, |first| + i, slot, name, dir);
    MeansBehind(first, rest, i, name, dir, m);
    m := m - |first|;
    BehindStart(first, rest, i);
    BehindStart(first, rest, m);
  }

  /** An instruction's node, and where it stands. */
  lemma InsnNode(arch: Arch, stmts: seq<Stmt>, p: nat)
    requires NodesOf(arch, stmts).Ok? && p < |stmts| && stmts[p].InsnStmt?
    ensures var (nodes, i) := (NodesOf(arch, stmts).value, NodePlace(arch, stmts, p));
            && i < |nodes| && Address(nodes, i) == InsnsBefore(stmts, p) && Lower(arch, stmts[p].insn).Ok?
            && nodes[i] == OutInsn(Lower(arch, stmts[p].insn).value, false, 0)
  {
    StmtPlaced(arch, stmts, p);
  }

  /** Statement p is an instruction with a label in this operand. */
  predicate HasReference(arch: Arch, stmts: seq<Stmt>, p: nat, slot: nat, name: string, dir: Direction) {
    && slot < 3 && p < |stmts| && stmts[p].InsnStmt? && Lower(arch, stmts[p].insn).Ok?
    && OperandAt(Lower(arch, stmts[p].insn).value, slot) == LabelRef(name, dir)
  }

  /** The reference in statement p means statement q, and the word of p holds the address of q: the number
      of instructions in front of it, behind the first n words. */
  predicate Referenced(arch: Arch, stmts: seq<Stmt>, bins: seq<Bin>, n: nat, p: nat, slot: nat, name: string,
                       dir: Direction, q: nat)
    requires p < |stmts|
  {
    && RefersTo(stmts, p, name, dir, q) && n + InsnsBefore(stmts, p) < |bins|
    && FieldAt(bins[n + InsnsBefore(stmts, p)], slot) == PlaceAddress(arch, slot, n + InsnsBefore(stmts, q))
  }

  lemma ReferenceKept(arch: Arch, first: seq<Node>, stmts: seq<Stmt>, bins: seq<Bin>, p: nat, slot: nat,
                      name: string, dir: Direction) returns (q: nat)
    requires |first| <= 1 && (forall n :: n in first ==> n.OutInsn?) && NodesOf(arch, stmts).Ok?
    requires LinkFrom(arch, first + NodesOf(arch, stmts).value, 0) == Ok(bins)
    requires HasReference(arch, stmts, p, slot, name, dir)
    ensures Referenced(arch, stmts, bins, |first|, p, slot, name, dir, q)
  {
    InsnNode(arch, stmts, p);
    var m := ReferenceBehind(arch, first, NodesOf(arch, stmts).value, bins, NodePlace(arch, stmts, p), slot, name, dir);
    q := MeantStmt(arch, stmts, p, name, dir, m);
    StmtPlaced(arch, stmts, q);
  }

  /** The list that is linked in the end. */
  lemma KeptList(arch: Arch, start: Option<string>, stmts: seq<Stmt>, bins: seq<Bin>) returns (first: seq<Node>)
    requires OutputNodes(arch, start, stmts).Ok? && Link(arch, OutputNodes(arch, start, stmts).value) == Ok(bins)
    ensures first == KeptStart(arch, start, stmts) && |first| <= 1 && forall n :: n in first ==> n.OutInsn?
    ensures NodesOf(arch, stmts).Ok? && LinkFrom(arch, first + NodesOf(arch, stmts).value, 0) == Ok(bins)
  {
    LinkKept(arch, start, stmts);
    first := KeptStart(arch, start, stmts);
  }

  /** In an assembled program every label operand holds the address of the label statement that it means:
      the number of instructions in front of it, and one more if the start jump is kept. */
  lemma ReferenceOfStmt(arch: Arch, start: Option<string>, stmts: seq<Stmt>, bins: seq<Bin>, p: nat, slot: nat,
                        name: string, dir: Direction) returns (q: nat)
    requires OutputNodes(arch, start, stmts).Ok? && Link(arch, OutputNodes(arch, start, stmts).value) == Ok(bins)
    requires HasReference(arch, stmts, p, slot, name, dir)
    ensures Referenced(arch, stmts, bins, |KeptStart(arch, start, stmts)|, p, slot, name, dir, q)
  {
    var first := KeptList(arch, start, stmts, bins);
    q := ReferenceKept(arch, first, stmts, bins, p, slot, name, dir);
  }

  /** A reference means at most one statement. */
  lemma RefersToOne(stmts: seq<Stmt>, p: nat, name: string, dir: Direction, q: nat, r: nat)
    requires p < |stmts| && RefersTo(stmts, p, name, dir, q) && RefersTo(stmts, p, name, dir, r)
    ensures q == r
  {
  }

  // ---------------------------------------------------------------- the start

  /** Statement q is the only label statement of the name. */
  predicate OnlyStmt(stmts: seq<Stmt>, name: string, q: nat) {
    q < |stmts| && IsLabel(stmts[q], name) && forall k :: 0 <= k < |stmts| && k != q ==> !IsLabel(stmts[k], name)
  }

  lemma MeantAnywhere(arch: Arch, stmts: seq<Stmt>, i: nat, name: string, m: nat) returns (q: nat)
    requires NodesOf(arch, stmts).Ok? && i < |NodesOf(arch, stmts).value|
    requires Means(NodesOf(arch, stmts).value, i, name, Absolute, m)
    ensures OnlyStmt(stmts, name, q) && NodePlace(arch, stmts, q) == m
  {
    q := NodeIsOf(arch, stmts, m);
    assert IsLabel(stmts[q], name);
    forall k | 0 <= k < |stmts| && k != q ensures !IsLabel(stmts[k], name) {
      if IsLabel(stmts[k], name) {
        LabelNode(arch, stmts, k, name);
        if k < q { PlaceOrder(arch, stmts, k, q); } else { PlaceOrder(arch, stmts, q, k); }
      }
    }
  }

  /** The start jump is coded like a jmp line. */
  predicate IsStartJump(arch: Arch, start: Node, name: string) {
    && start.OutInsn? && start.isStart
    && var r0 := Normal(if arch == Arch5 then 0xBC0 else 0x1780);
       start.code == Code(0x77F, r0, r0, LabelRef(name, Absolute))
  }

  lemma StartCode(arch: Arch, name: string)
    ensures Lower(arch, StartInsn(name)) == LowerLine(arch, Jmp, [Ref(name, Absolute)])
    ensures StartNodes(arch, Some(name)).Ok? && |StartNodes(arch, Some(name)).value| == 1
    ensures IsStartJump(arch, StartNodes(arch, Some(name)).value[0], name)
  {
    JmpParsed([Ref(name, Absolute)]);
    JmpLine(arch, [Ref(name, Absolute)]);
  }

  /** The list that is linked begins with it. */
  lemma StartFirst(arch: Arch, name: string, stmts: seq<Stmt>) returns (start: Node)
    requires OutputNodes(arch, Some(name), stmts).Ok?
    ensures IsStartJump(arch, start, name) && NodesOf(arch, stmts).Ok?
    ensures OutputNodes(arch, Some(name), stmts).value == [start] + NodesOf(arch, stmts).value
    ensures StartNodes(arch, Some(name)) == Ok([start])
  {
    StartCode(arch, name);
    start := StartNodes(arch, Some(name)).value[0];
  }

  /** The start jump means the only label of its name, which stands behind it. */
  lemma StartMeans(arch: Arch, start: Node, stmts: seq<Stmt>, name: string) returns (q: nat)
    requires NodesOf(arch, stmts).Ok? && IsStartJump(arch, start, name)
    requires StartTarget([start] + NodesOf(arch, stmts).value).Ok?
    ensures OnlyStmt(stmts, name, q)
    ensures StartTarget([start] + NodesOf(arch, stmts).value) == Ok(1 + InsnsBefore(stmts, q))
  {
    var rest := NodesOf(arch, stmts).value;
    var nodes := [start] + rest;
    var j := Target(nodes, 0, name, Absolute).value;
    TargetMeans(nodes, 0, name, Absolute, j);
    MeansBehind([start], rest, 0, name, Absolute, j);
    q := MeantAnywhere(arch, stmts, 0, name, j - 1);
    BehindStart([start], rest, j - 1);
    StmtPlaced(arch, stmts, q);
  }

  /** An assembled program with a start label starts there: the label is the only one of its name, and when
      instructions stand in front of it the first word is a jump to it. */
  lemma StartsAtLabel(arch: Arch, name: string, stmts: seq<Stmt>, bins: seq<Bin>) returns (q: nat)
    requires OutputNodes(arch, Some(name), stmts).Ok?
    requires Link(arch, OutputNodes(arch, Some(name), stmts).value) == Ok(bins)
    ensures OnlyStmt(stmts, name, q)
    ensures KeptStart(arch, Some(name), stmts) == [] <==> InsnsBefore(stmts, q) == 0
    ensures InsnsBefore(stmts, q) > 0 ==> bins != [] && bins[0] == JumpTo(arch, 1 + InsnsBefore(stmts, q))
  {
    var start := StartFirst(arch, name, stmts);
    q := StartMeans(arch, start, stmts, name);
    if InsnsBefore(stmts, q) > 0 {
      JumpLinked(arch, start, NodesOf(arch, stmts).value, bins, name);
    }
  }

  function JumpTo(arch: Arch, address: nat): Bin {
    var r0: word := if arch == Arch5 then 0xBC0 else 0x1780;
    Bin(0x77F, r0, r0, Word(address))
  }

  lemma JumpLinked(arch: Arch, start: Node, rest: seq<Node>, bins: seq<Bin>, name: string)
    requires IsStartJump(arch, start, name) && LinkFrom(arch, [start] + rest, 0) == Ok(bins)
    requires StartTarget([start] + rest).Ok?
    ensures bins != [] && bins[0] == JumpTo(arch, StartTarget([start] + rest).value)
  {
    var nodes := [start] + rest;
    LinkedAt(arch, nodes, bins, 0);
    assert Address(nodes, 0) == 0;
  }

  // ---------------------------------------------------------------- lines

  /** What an instruction line is assembled to. */
  function LowerLine(arch: Arch, op: Op, args: seq<Operand>): Result<Code, AsmError> {
    var insn :- ParseInsn(op, args);
    Lower(arch, insn)
  }

  /** The sources mov can be given: any operand that assembles, and immediates of at most 16 bits or sign
      extensions of them. */
  predicate MovSource(arch: Arch, x: Operand) {
    if x.Imm? then x.imm < 0x1_0000 || x.imm >= 0xFFFF_8000 else GenerateOperand(arch, x).Ok?
  }

  /** The code moves x to the place of the output operand. */
  ghost predicate Moves(arch: Arch, env: word -> word, code: Code, x: Operand, out: OutOperand) {
    if x.Imm? then Stores(arch, env, code, x.imm % 0x1_0000, out)
    else
      var g := GenerateOperand(arch, x);
      && g.Ok? && code == Code(0x160, g.value, Normal(EncodeImm(arch, 0)), out)
      && (g.value.Normal? ==> Stores(arch, env, code, Value(arch, env, g.value.value), out))
  }

  /** Where a parsed mov comes from. */
  lemma MovParsed(args: seq<Operand>)
    ensures ParseInsn(Mov, args).Ok? <==> |args| == 2 && Plain(args[0]) && Plain(args[1]) && StoreOk(args[1])
    ensures ParseInsn(Mov, args).Ok? ==> ParseInsn(Mov, args).value == Insn(Mov, [args[0], args[1]])
  {
    if |args| == 2 {
      assert args == [args[0], args[1]];
    }
  }

  lemma MovInsn(arch: Arch, env: word -> word, x: Operand, y: Operand)
    ensures var (r, t) := (Lower(arch, Insn(Mov, [x, y])), GenerateOperand(arch, y));
            (r.Ok? <==> MovSource(arch, x) && t.Ok?) && (r.Ok? ==> Moves(arch, env, r.value, x, t.value))
  {
    if x.Imm? {
      MovMeaning(arch, env, x.imm, y);
    } else {
      MovCopies(arch, env, x, y);
      ShortMov(arch, x, y);
      ImmInput(arch, 0x160, x, Imm(0), y);
    }
  }

  /** The line `mov x, y` assembles exactly when x can be moved and y can be stored to, and then moves x
      to y. */
  lemma MovLine(arch: Arch, env: word -> word, args: seq<Operand>)
    ensures var r := LowerLine(arch, Mov, args);
            && (r.Ok? <==> |args| == 2 && Plain(args[0]) && Plain(args[1]) && !(args[1].Imm? && args[1].imm != 0)
                           && MovSource(arch, args[0]) && GenerateOperand(arch, args[1]).Ok?)
            && (r.Ok? ==> Moves(arch, env, r.value, args[0], GenerateOperand(arch, args[1]).value))
  {
    MovParsed(args);
    if |args| == 2 {
      MovInsn(arch, env, args[0], args[1]);
    }
  }

  /** The line `jmp label` assembles exactly for a label, to a jump to it on the condition 0x7F with
      register 0 for both dummies. */
  lemma JmpLine(arch: Arch, args: seq<Operand>)
    ensures var (r, r0) := (LowerLine(arch, Jmp, args), Normal(if arch == Arch5 then 0xBC0 else 0x1780));
            && (r.Ok? <==> |args| == 1 && args[0].Ref?)
            && (r.Ok? ==> r.value == Code(0x77F, r0, r0, LabelRef(args[0].name, args[0].dir)))
            && (|args| == 1 ==> r == LowerLine(arch, Jext, [Imm(0x7F), args[0]]))
  {
    JmpParsed(args);
    if |args| == 1 && args[0].Ref? {
      BeautifiedJmp(arch, args[0]);
      JextInsn(arch, args[0]);
    }
  }

  lemma JmpParsed(args: seq<Operand>)
    ensures ParseInsn(Jmp, args).Ok? <==> |args| == 1 && args[0].Ref?
    ensures |args| == 1 && args[0].Ref? ==>
              ParseInsn(Jmp, args) == Ok(Insn(Jmp, [args[0]]))
              && ParseInsn(Jext, [Imm(0x7F), args[0]]) == Ok(Insn(Jext, [Imm(0x7F), args[0]]))
    ensures |args| == 1 && !args[0].Ref? ==> ParseInsn(Jext, [Imm(0x7F), args[0]]) == ParseInsn(Jmp, args)
  {
    if |args| == 1 {
      assert args == [args[0]];
    }
  }

  lemma JextInsn(arch: Arch, target: Operand)
    requires target.Ref?
    ensures var r0 := Normal(if arch == Arch5 then 0xBC0 else 0x1780);
            Lower(arch, Insn(Jext, [Imm(0x7F), target]))
            == Ok(Code(0x77F, r0, r0, LabelRef(target.name, target.dir)))
  {
  }

  /** The lines of jand and jnand with one immediate assemble exactly when the immediate is accepted, the
      other operands assemble and the target can stand there; they branch to it on the common bits. */
  lemma JandLine(arch: Arch, env: word -> word, inverted: bool, immFirst: bool, o: Operand, imm: word, target: Operand)
    requires !o.Imm?
    ensures var args := if immFirst then [Imm(imm), o, target] else [o, Imm(imm), target];
            var r := LowerLine(arch, if inverted then Jnand else Jand, args);
            var (g, t) := (GenerateOperand(arch, o), GenerateOperand(arch, target));
            && (r.Ok? <==> Plain(o) && Plain(target) && !(target.Imm? && target.imm != 0)
                           && JandImm(arch, imm) && g.Ok? && t.Ok?)
            && (r.Ok? ==> BranchesOn(arch, env, r.value, g.value, imm, inverted) && r.value.c == t.value)
  {
    JandMeaning(arch, env, inverted, immFirst, o, imm, target);
    JandParsed(inverted, if immFirst then Imm(imm) else o, if immFirst then o else Imm(imm), target);
  }

  /** With two immediates or none, jand is native: it takes no two inputs that are special purpose registers
      or memory both, and branches when both have a bit in common. */
  lemma JandPairLine(arch: Arch, env: word -> word, inverted: bool, x: Operand, y: Operand, target: Operand)
    requires x.Imm? == y.Imm?
    ensures var r := LowerLine(arch, if inverted then Jnand else Jand, [x, y, target]);
            var (a, b, t) := (GenerateOperand(arch, x), GenerateOperand(arch, y), GenerateOperand(arch, target));
            && (r.Ok? <==> Plain(x) && Plain(y) && Plain(target) && StoreOk(target) && a.Ok? && b.Ok? && t.Ok?
                           && !(IsSprOperand(x) && IsSprOperand(y)) && !(IsMemOperand(x) && IsMemOperand(y)))
            && (r.Ok? ==> r.value == Code(if inverted then 0x041 else 0x040, a.value, b.value, t.value))
            && (r.Ok? && Ready(r.value) ==>
                  var (u, v) := (Value(arch, env, a.value.value), Value(arch, env, b.value.value));
                  Taken(r.value.opcode, u, v) == ((BitAnd(u, v) != 0) != inverted))
  {
    JandParsed(inverted, x, y, target);
    JandNative(arch, inverted, x, y, target);
  }

  lemma JandNative(arch: Arch, inverted: bool, x: Operand, y: Operand, target: Operand)
    requires x.Imm? == y.Imm?
    ensures Lower(arch, Insn(if inverted then Jnand else Jand, [x, y, target]))
            == AssembleLow(arch, if inverted then 0x041 else 0x040, x, y, target)
  {
    assert JandExpansion(arch, [x, y, target], inverted) == Ok(None);
  }

  lemma JandParsed(inverted: bool, x: Operand, y: Operand, target: Operand)
    ensures var (op, args) := (if inverted then Jnand else Jand, [x, y, target]);
            var parsed := ParseInsn(op, args);
            && (parsed.Ok? <==> Plain(x) && Plain(y) && Plain(target) && StoreOk(target))
            && (parsed.Ok? ==> parsed.value == Insn(op, args))
  {
  }

  /** Instruction line p of a program for an architecture assembles, and its word is that of its code,
      behind the instructions in front of it and n more. */
  predicate LineWord(arch: Arch, lines: seq<Line>, stmts: seq<Stmt>, bins: seq<Bin>, n: nat, p: nat)
    requires |stmts| == |lines| && p < |lines| && lines[p].InsnLine?
  {
    var (code, at) := (LowerLine(arch, lines[p].op, lines[p].args), n + InsnsBefore(stmts, p));
    code.Ok? && at < |bins| && WordOf(code.value, bins[at])
  }

  predicate ArchIs(stmts: seq<Stmt>, arch: Arch) {
    var d := DirectivesFrom(stmts, 0, Directives(None, None));
    d.Ok? && d.value.arch == Some(arch)
  }

  /** In an assembled program the word of every instruction line is that of its code, behind the
      instructions in front of it and at most a start jump. */
  lemma WordOfLine(lines: seq<Line>, bins: seq<Bin>, p: nat) returns (arch: Arch, n: nat)
    requires AssembleLines(lines) == Ok(bins) && p < |lines| && lines[p].InsnLine?
    ensures ParseLines(lines).Ok? && |ParseLines(lines).value| == |lines| && n <= 1
    ensures ArchIs(ParseLines(lines).value, arch) && LineWord(arch, lines, ParseLines(lines).value, bins, n, p)
  {
    var stmts := ParseLines(lines).value;
    RoundTrip.ParsedAt(lines, p);
    var start;
    arch, start := Settings(stmts, bins);
    n := WordOfStmt(arch, start, lines, stmts, bins, p);
  }

  lemma WordOfStmt(arch: Arch, start: Option<string>, lines: seq<Line>, stmts: seq<Stmt>, bins: seq<Bin>, p: nat)
    returns (n: nat)
    requires OutputNodes(arch, start, stmts).Ok? && Link(arch, OutputNodes(arch, start, stmts).value) == Ok(bins)
    requires |stmts| == |lines| && p < |lines| && lines[p].InsnLine? && ParseLine(lines[p]) == Ok(stmts[p])
    ensures n <= 1 && LineWord(arch, lines, stmts, bins, n, p)
  {
    var nodes;
    n, nodes := OutputOf(arch, start, stmts, bins, p);
    WordOfOutput(arch, lines[p], stmts[p], n + InsnsBefore(stmts, p), nodes, bins);
  }

  lemma OutputOf(arch: Arch, start: Option<string>, stmts: seq<Stmt>, bins: seq<Bin>, p: nat)
    returns (n: nat, nodes: seq<Node>)
    requires OutputNodes(arch, start, stmts).Ok? && Link(arch, OutputNodes(arch, start, stmts).value) == Ok(bins)
    requires p < |stmts|
    ensures n <= 1 && StmtOutput(arch, stmts[p], n + InsnsBefore(stmts, p), nodes, bins)
  {
    OutputOfStmt(arch, start, stmts, bins, p);
    n := |KeptStart(arch, start, stmts)|;
    nodes := KeptStart(arch, start, stmts) + NodesOf(arch, stmts).value;
  }

  lemma WordOfOutput(arch: Arch, line: Line, stmt: Stmt, at: nat, nodes: seq<Node>, bins: seq<Bin>)
    requires line.InsnLine? && ParseLine(line) == Ok(stmt) && StmtOutput(arch, stmt, at, nodes, bins)
    ensures var code := LowerLine(arch, line.op, line.args);
            code.Ok? && at < |bins| && WordOf(code.value, bins[at])
  {
    LineLowers(arch, line, stmt);
  }

  /** The architecture and the start label of an assembled program. */
  lemma Settings(stmts: seq<Stmt>, bins: seq<Bin>) returns (arch: Arch, start: Option<string>)
    requires AssembleStmts(stmts) == Ok(bins)
    ensures DirectivesFrom(stmts, 0, Directives(None, None)) == Ok(Directives(Some(arch), start))
    ensures OutputNodes(arch, start, stmts).Ok? && Link(arch, OutputNodes(arch, start, stmts).value) == Ok(bins)
  {
    var d := DirectivesFrom(stmts, 0, Directives(None, None)).value;
    arch, start := d.arch.value, d.start;
  }

  lemma LineLowers(arch: Arch, line: Line, stmt: Stmt)
    requires line.InsnLine? && ParseLine(line) == Ok(stmt)
    ensures stmt.InsnStmt? && LowerLine(arch, line.op, line.args) == Lower(arch, stmt.insn)
  {
  }
}
