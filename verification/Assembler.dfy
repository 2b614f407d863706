/** The assembler proper: directives, the output list, and label resolution on that list. */
module Assembler {
  import opened Wrappers
  import opened Bits
  import opened Isa
  import opened Operands
  import opened Lowering
  import opened Linker

  /** A parsed line. */
  datatype Stmt = ArchStmt(arch: word) | StartStmt(start: string) | LabelStmt(labelName: string) | InsnStmt(insn: Insn)

  function ParseLine(line: Line): Result<Stmt, AsmError> {
    match line
    case ArchLine(arch) => Ok(ArchStmt(arch))
    case StartLine(name) => Ok(StartStmt(name))
    case LabelLine(name) => Ok(LabelStmt(name))
    case InsnLine(op, args) => var insn :- ParseInsn(op, args); Ok(InsnStmt(insn))
  }

  function ParseLines(lines: seq<Line>): Result<seq<Stmt>, AsmError> {
    if lines == [] then Ok([])
    else
      var before :- ParseLines(lines[..|lines| - 1]);
      var stmt :- ParseLine(lines[|lines| - 1]);
      Ok(before + [stmt])
  }

  // ---------------------------------------------------------------- directives

  /** Core revisions that are no architecture fall back to the architecture of their firmware. */
  function ArchOf(n: word): Result<Arch, AsmError> {
    if n < 5 then Err(UnsupportedArch) else if n < 15 then Ok(Arch5) else Ok(Arch15)
  }

  datatype Directives = Directives(arch: Option<Arch>, start: Option<string>)

  function DirectivesFrom(stmts: seq<Stmt>, i: nat, d: Directives): Result<Directives, AsmError>
    requires i <= |stmts|
    decreases |stmts| - i
  {
    if i == |stmts| then if d.arch.None? then Err(NoArch) else Ok(d)
    else match stmts[i]
      case ArchStmt(n) =>
        if d.arch.Some? then Err(MultipleArch)
        else var a :- ArchOf(n); DirectivesFrom(stmts, i + 1, d.(arch := Some(a)))
      case StartStmt(name) =>
        if d.start.Some? then Err(MultipleStart) else DirectivesFrom(stmts, i + 1, d.(start := Some(name)))
      case _ => DirectivesFrom(stmts, i + 1, d)
  }

  function ArchCount(stmts: seq<Stmt>, i: nat): nat
    requires i <= |stmts|
    decreases |stmts| - i
  {
    if i == |stmts| then 0 else ArchCount(stmts, i + 1) + if stmts[i].ArchStmt? then 1 else 0
  }

  function StartCount(stmts: seq<Stmt>, i: nat): nat
    requires i <= |stmts|
    decreases |stmts| - i
  {
    if i == |stmts| then 0 else StartCount(stmts, i + 1) + if stmts[i].StartStmt? then 1 else 0
  }

  lemma {:induction false} DirectivesCount(stmts: seq<Stmt>, i: nat, d: Directives)
    requires i <= |stmts|
    ensures DirectivesFrom(stmts, i, d).Ok? <==>
            && ArchCount(stmts, i) + (if d.arch.Some? then 1 else 0) == 1
            && StartCount(stmts, i) + (if d.start.Some? then 1 else 0) <= 1
            && forall k :: i <= k < |stmts| && stmts[k].ArchStmt? ==> stmts[k].arch >= 5
    ensures DirectivesFrom(stmts, i, d).Ok? ==>
              var found := DirectivesFrom(stmts, i, d).value;
              && (d.arch.Some? ==> found.arch == d.arch) && (d.start.Some? ==> found.start == d.start)
              && (forall k :: i <= k < |stmts| && stmts[k].ArchStmt? ==>
                  found.arch == Some(if stmts[k].arch < 15 then Arch5 else Arch15))
              && (forall k :: i <= k < |stmts| && stmts[k].StartStmt? ==> found.start == Some(stmts[k].start))
    decreases |stmts| - i
  {
    if i < |stmts| {
      match stmts[i]
      case ArchStmt(n) =>
        DirectivesCount(stmts, i + 1, d.(arch := Some(if n < 15 then Arch5 else Arch15)));
      case StartStmt(name) =>
        DirectivesCount(stmts, i + 1, d.(start := Some(name)));
      case _ =>
        DirectivesCount(stmts, i + 1, d);
    }
  }

  /** A program has exactly one %arch directive, for a supported architecture, and at most one %start
      directive; anything else is an error. */
  lemma DirectivesExact(stmts: seq<Stmt>)
    ensures var r := DirectivesFrom(stmts, 0, Directives(None, None));
            && (r.Ok? <==> ArchCount(stmts, 0) == 1 && StartCount(stmts, 0) <= 1
                           && forall k :: 0 <= k < |stmts| && stmts[k].ArchStmt? ==> stmts[k].arch >= 5)
            && (r.Ok? ==> forall k :: 0 <= k < |stmts| ==>
                  && (stmts[k].ArchStmt? ==> r.value.arch == Some(if stmts[k].arch < 15 then Arch5 else Arch15))
                  && (stmts[k].StartStmt? ==> r.value.start == Some(stmts[k].start)))
  {
    DirectivesCount(stmts, 0, Directives(None, None));
  }

  // ---------------------------------------------------------------- output list

  /** Instructions and labels each become one node, directives none. */
  function NodeOf(arch: Arch, stmt: Stmt): Result<seq<Node>, AsmError> {
    match stmt
    case InsnStmt(insn) => var code :- Lower(arch, insn); Ok([OutInsn(code, false, 0)])
    case LabelStmt(name) => Ok([OutLabel(name, 0)])
    case _ => Ok([])
  }

  function NodesOf(arch: Arch, stmts: seq<Stmt>): Result<seq<Node>, AsmError> {
    if stmts == [] then Ok([])
    else
      var before :- NodesOf(arch, stmts[..|stmts| - 1]);
      var node :- NodeOf(arch, stmts[|stmts| - 1]);
      Ok(before + node)
  }

  /** The first statement that fails stops the assembly of all. */
  lemma {:induction false} NodesOfPrefix(arch: Arch, stmts: seq<Stmt>, i: nat)
    requires i <= |stmts| && NodesOf(arch, stmts[..i]).Err?
    ensures NodesOf(arch, stmts) == NodesOf(arch, stmts[..i])
  {
    if i < |stmts| {
      assert stmts[..|stmts| - 1][..i] == stmts[..i];
      NodesOfPrefix(arch, stmts[..|stmts| - 1], i);
    } else {
      assert stmts[..i] == stmts;
    }
  }

  function StartInsn(name: string): Insn {
    Insn(Jmp, [Ref(name, Absolute)])
  }

  function StartNodes(arch: Arch, start: Option<string>): Result<seq<Node>, AsmError> {
    if start.None? then Ok([])
    else var code :- Lower(arch, StartInsn(start.value)); Ok([OutInsn(code, true, 0)])
  }

  function OutputNodes(arch: Arch, start: Option<string>, stmts: seq<Stmt>): Result<seq<Node>, AsmError> {
    var first :- StartNodes(arch, start);
    var rest :- NodesOf(arch, stmts);
    Ok(first + rest)
  }

  /** The whole assembler, from parsed lines to instruction words. */
  function AssembleStmts(stmts: seq<Stmt>): Result<seq<Bin>, AsmError> {
    var d :- DirectivesFrom(stmts, 0, Directives(None, None));
    var nodes :- (if d.arch.Some? then OutputNodes(d.arch.value, d.start, stmts) else Err(NoArch));
    Link(d.arch.value, nodes)
  }

  function AssembleLines(lines: seq<Line>): Result<seq<Bin>, AsmError> {
    var stmts :- ParseLines(lines);
    AssembleStmts(stmts)
  }

  // ---------------------------------------------------------------- resolving in place

  /** Nodes that differ at most in addresses and in operands. */
  ghost predicate SameShape(nodes: seq<Node>, other: seq<Node>) {
    && |nodes| == |other|
    && forall i :: 0 <= i < |nodes| ==>
         nodes[i].OutLabel? == other[i].OutLabel? && (nodes[i].OutLabel? ==> nodes[i].labelName == other[i].labelName)
  }

  ghost predicate Addressed(nodes: seq<Node>) {
    forall i :: 0 <= i < |nodes| ==> nodes[i].address == Address(nodes, i)
  }

  /** What holds of the list before resolution: the start jump can only be first, and no label
      operand has been overwritten by an address. */
  ghost predicate Fresh(nodes: seq<Node>) {
    forall i :: 0 <= i < |nodes| && nodes[i].OutInsn? ==> Symbolic(nodes[i].code) && (nodes[i].isStart ==> i == 0)
  }

  function OperandWord(o: OutOperand): word {
    match o case Normal(v) => v case Resolved(v) => v case LabelRef(_, _) => 0
  }

  /** The words of an instruction whose operands are values, whether or not they came from labels. */
  function CodeWords(code: Code): Bin {
    Bin(code.opcode, OperandWord(code.a), OperandWord(code.b), OperandWord(code.c))
  }

  /** No operand of the node is a label any more. */
  ghost predicate Concrete(node: Node) {
    node.OutInsn? ==> !node.code.a.LabelRef? && !node.code.b.LabelRef? && !node.code.c.LabelRef?
  }

  ghost predicate AllConcrete(nodes: seq<Node>) {
    forall i :: 0 <= i < |nodes| ==> Concrete(nodes[i])
  }

  function Words(nodes: seq<Node>): seq<Bin> {
    if nodes == [] then []
    else
      var last := nodes[|nodes| - 1];
      Words(nodes[..|nodes| - 1]) + if last.OutInsn? then [CodeWords(last.code)] else []
  }

  lemma {:induction false} SameAddress(nodes: seq<Node>, other: seq<Node>, i: nat)
    requires SameShape(nodes, other) && i <= |nodes|
    ensures Address(nodes, i) == Address(other, i)
  {
    if i > 0 {
      SameAddress(nodes, other, i - 1);
    }
  }

  lemma AllAddressed(nodes: seq<Node>, was: seq<Node>)
    requires |nodes| == |was| && forall i :: 0 <= i < |was| ==> nodes[i] == was[i].(address := Address(was, i))
    ensures SameShape(nodes, was) && Addressed(nodes)
  {
    forall i | 0 <= i < |nodes| ensures nodes[i].address == Address(nodes, i) {
      SameAddress(nodes, was, i);
    }
  }

  /** References mean the same labels while operands around them are being overwritten. */
  lemma SameTarget(nodes: seq<Node>, other: seq<Node>, i: nat, name: string, dir: Direction)
    requires SameShape(nodes, other) && i < |nodes|
    ensures Target(nodes, i, name, dir) == Target(other, i, name, dir)
  {
    assert forall j :: 0 <= j < |nodes| ==> Named(nodes[j], name) == Named(other[j], name);
  }

  /** The words of the first i nodes are known; linking fails or succeeds with the rest. */
  ghost predicate LinkedSoFar(arch: Arch, nodes: seq<Node>, i: nat, words: seq<Bin>)
    requires i <= |nodes|
  {
    var (all, rest) := (LinkFrom(arch, nodes, 0), LinkFrom(arch, nodes, i));
    if rest.Err? then all == rest else all.Ok? && all.value == words + rest.value
  }

  lemma LinkStep(arch: Arch, nodes: seq<Node>, i: nat, words: seq<Bin>)
    requires i < |nodes| && LinkedSoFar(arch, nodes, i, words)
    ensures nodes[i].OutLabel? ==> LinkedSoFar(arch, nodes, i + 1, words)
    ensures nodes[i].OutInsn? && LinkInsn(arch, nodes, i).Ok? ==>
              LinkedSoFar(arch, nodes, i + 1, words + [LinkInsn(arch, nodes, i).value])
  {
  }

  /** The first i nodes are resolved, the others as they were. */
  ghost predicate ResolvedSoFar(arch: Arch, nodes: seq<Node>, kept: seq<Node>, i: nat) {
    && i <= |kept| && SameShape(nodes, kept) && Addressed(nodes)
    && (forall k :: 0 <= k < i ==> Concrete(nodes[k]))
    && (forall k :: i <= k < |nodes| ==> nodes[k] == kept[k])
    && LinkedSoFar(arch, kept, i, Words(nodes[..i]))
  }

  lemma WordsStep(was: seq<Node>, nodes: seq<Node>, i: nat)
    requires |was| == |nodes| && i < |nodes| && forall k :: 0 <= k < |nodes| && k != i ==> nodes[k] == was[k]
    ensures Words(nodes[..i + 1]) == Words(was[..i]) + if nodes[i].OutInsn? then [CodeWords(nodes[i].code)] else []
  {
    assert nodes[..i + 1][..i] == was[..i];
  }

  lemma ResolvedStep(arch: Arch, was: seq<Node>, nodes: seq<Node>, kept: seq<Node>, i: nat)
    requires ResolvedSoFar(arch, was, kept, i) && i < |kept|
    requires SameShape(nodes, was) && Addressed(nodes) && Concrete(nodes[i])
    requires forall k :: 0 <= k < |nodes| && k != i ==> nodes[k] == was[k]
    requires nodes[i].OutInsn? ==> LinkInsn(arch, kept, i) == Ok(CodeWords(nodes[i].code))
    ensures ResolvedSoFar(arch, nodes, kept, i + 1)
  {
    WordsLinked(arch, was, nodes, kept, i);
    ShapeStep(was, nodes, kept);
  }

  lemma ShapeStep(was: seq<Node>, nodes: seq<Node>, kept: seq<Node>)
    requires SameShape(nodes, was) && SameShape(was, kept)
    ensures SameShape(nodes, kept)
  {
    assert forall k :: 0 <= k < |nodes| ==> nodes[k].OutLabel? == was[k].OutLabel?;
  }

  lemma WordsLinked(arch: Arch, was: seq<Node>, nodes: seq<Node>, kept: seq<Node>, i: nat)
    requires i < |kept| == |nodes| == |was| && nodes[i].OutLabel? == kept[i].OutLabel?
    requires LinkedSoFar(arch, kept, i, Words(was[..i]))
    requires forall k :: 0 <= k < |nodes| && k != i ==> nodes[k] == was[k]
    requires nodes[i].OutInsn? ==> LinkInsn(arch, kept, i) == Ok(CodeWords(nodes[i].code))
    ensures LinkedSoFar(arch, kept, i + 1, Words(nodes[..i + 1]))
  {
    var done := Words(was[..i]);
    WordsStep(was, nodes, i);
    LinkStep(arch, kept, i, done);
    assert done + [] == done;
  }

  lemma FailedStep(arch: Arch, nodes: seq<Node>, kept: seq<Node>, i: nat)
    requires ResolvedSoFar(arch, nodes, kept, i) && i < |kept| && kept[i].OutInsn? && LinkInsn(arch, kept, i).Err?
    ensures LinkFrom(arch, kept, 0) == Err(LinkInsn(arch, kept, i).error)
  {
  }

  /** Nodes that differ at most in addresses. */
  ghost predicate SameCode(nodes: seq<Node>, other: seq<Node>) {
    && |nodes| == |other|
    && forall i :: 0 <= i < |nodes| ==> nodes[i].(address := 0) == other[i].(address := 0)
  }

  lemma SameLinkInsn(arch: Arch, nodes: seq<Node>, other: seq<Node>, i: nat)
    requires SameShape(nodes, other) && i < |nodes| && nodes[i].OutInsn? && nodes[i].code == other[i].code
    ensures LinkInsn(arch, nodes, i) == LinkInsn(arch, other, i)
  {
    var code := nodes[i].code;
    forall name, dir | Target(nodes, i, name, dir).Ok?
      ensures Target(other, i, name, dir) == Target(nodes, i, name, dir)
      ensures Address(nodes, Target(nodes, i, name, dir).value) == Address(other, Target(nodes, i, name, dir).value)
    {
      SameTarget(nodes, other, i, name, dir);
      SameAddress(nodes, other, Target(nodes, i, name, dir).value);
    }
    forall name, dir ensures Target(other, i, name, dir) == Target(nodes, i, name, dir) {
      SameTarget(nodes, other, i, name, dir);
    }
  }

  lemma {:induction false} SameLinkFrom(arch: Arch, nodes: seq<Node>, other: seq<Node>, i: nat)
    requires SameCode(nodes, other) && i <= |nodes|
    ensures LinkFrom(arch, nodes, i) == LinkFrom(arch, other, i)
    decreases |nodes| - i
  {
    if i < |nodes| {
      SameLinkFrom(arch, nodes, other, i + 1);
      if nodes[i].OutInsn? {
        SameLinkInsn(arch, nodes, other, i);
      }
    }
  }

  /** Without its start jump the list is as fresh as before, and has no start jump any more. */
  lemma StartDropped(nodes: seq<Node>, was: seq<Node>)
    requires SameCode(nodes, was) && Fresh(was) && HasStart(was)
    ensures SameCode(nodes[1..], was[1..]) && Fresh(nodes[1..]) && !HasStart(nodes[1..])
  {
    assert forall i :: 0 <= i < |nodes| ==> nodes[i].(address := 0) == was[i].(address := 0);
  }

  /** Linking does not read the address fields it is about to assign. */
  lemma SameLink(arch: Arch, nodes: seq<Node>, other: seq<Node>)
    requires SameCode(nodes, other)
    ensures HasStart(nodes) == HasStart(other)
    ensures HasStart(nodes) ==> StartTarget(nodes) == StartTarget(other)
    ensures Link(arch, nodes) == Link(arch, other)
  {
    SameLinkFrom(arch, nodes, other, 0);
    if HasStart(nodes) && nodes[0].code.c.LabelRef? {
      var t := nodes[0].code.c;
      SameTarget(nodes, other, 0, t.name, t.dir);
      if Target(nodes, 0, t.name, t.dir).Ok? {
        SameAddress(nodes, other, Target(nodes, 0, t.name, t.dir).value);
      }
      SameLinkFrom(arch, nodes[1..], other[1..], 0);
    }
  }

  lemma {:induction false} NodesAreFresh(arch: Arch, stmts: seq<Stmt>)
    requires NodesOf(arch, stmts).Ok?
    ensures forall n :: n in NodesOf(arch, stmts).value && n.OutInsn? ==> Symbolic(n.code) && !n.isStart
  {
    if stmts != [] {
      NodesAreFresh(arch, stmts[..|stmts| - 1]);
    }
  }

  /** Only the first output instruction is marked as the start jump, and nothing is resolved yet. */
  lemma OutputIsFresh(arch: Arch, start: Option<string>, stmts: seq<Stmt>)
    requires OutputNodes(arch, start, stmts).Ok?
    ensures Fresh(OutputNodes(arch, start, stmts).value)
  {
    NodesAreFresh(arch, stmts);
    var nodes := OutputNodes(arch, start, stmts).value;
    forall i | 0 <= i < |nodes| && nodes[i].OutInsn? ensures Symbolic(nodes[i].code) && (nodes[i].isStart ==> i == 0) {
      assert i > 0 || start.None? ==> nodes[i] in NodesOf(arch, stmts).value;
    }
  }

  class Context {
    var arch: Arch
    var start: Option<string>
    var output: seq<Node>

    constructor ()
      ensures output == [] && start == None
    {
      arch := Arch5;
      start := None;
      output := [];
    }

    /** Read the %arch and %start directives. */
    method EvalDirectives(stmts: seq<Stmt>) returns (error: Option<AsmError>)
      modifies this`arch, this`start
      ensures match DirectivesFrom(stmts, 0, Directives(None, None))
              case Ok(d) => error == None && Some(arch) == d.arch && start == d.start
              case Err(e) => error == Some(e)
    {
      var haveArch := false;
      start := None;
      for i := 0 to |stmts|
        invariant DirectivesFrom(stmts, 0, Directives(None, None))
               == DirectivesFrom(stmts, i, Directives(if haveArch then Some(arch) else None, start))
      {
        match stmts[i] {
          case ArchStmt(n) =>
            if haveArch {
              return Some(MultipleArch);
            }
            var a := ArchOf(n);
            if a.Err? {
              return Some(a.error);
            }
            arch, haveArch := a.value, true;
          case StartStmt(name) =>
            if start.Some? {
              return Some(MultipleStart);
            }
            start := Some(name);
          case _ =>
        }
      }
      return if haveArch then None else Some(NoArch);
    }

    /** Assemble one instruction: whatever it expands to, exactly one node is appended. */
    method AssembleInstruction(insn: Insn, isStart: bool) returns (error: Option<AsmError>)
      modifies this`output
      ensures match Lower(arch, insn)
              case Ok(code) => error == None && output == old(output) + [OutInsn(code, isStart, 0)]
              case Err(e) => error == Some(e) && output == old(output)
      decreases Rank(insn.op)
    {
      match insn.op {
        case Mov =>
          var e := MovExpansion(arch, insn.opers);
          if e.Err? {
            return Some(e.error);
          }
          error := AssembleInstruction(e.value, isStart);
        case Jmp =>
          var e := JmpExpansion(insn.opers);
          if e.Err? {
            return Some(e.error);
          }
          error := AssembleInstruction(e.value, isStart);
        case Jand =>
          error := AssembleJand(insn, isStart);
        case Jnand =>
          error := AssembleJand(insn, isStart);
        case _ =>
          var code := Lower(arch, insn);
          if code.Err? {
            return Some(code.error);
          }
          output := output + [OutInsn(code.value, isStart, 0)];
          return None;
      }
    }

    method AssembleJand(insn: Insn, isStart: bool) returns (error: Option<AsmError>)
      requires insn.op == Jand || insn.op == Jnand
      modifies this`output
      ensures match Lower(arch, insn)
              case Ok(code) => error == None && output == old(output) + [OutInsn(code, isStart, 0)]
              case Err(e) => error == Some(e) && output == old(output)
      decreases Rank(insn.op), 0
    {
      var e := JandExpansion(arch, insn.opers, insn.op == Jnand);
      if e.Err? {
        return Some(e.error);
      }
      if e.value.Some? {
        error := AssembleInstruction(e.value.value, isStart);
      } else {
        var code := AssembleThree(arch, FixedOpcode(insn.op), insn.opers);
        if code.Err? {
          return Some(code.error);
        }
        output := output + [OutInsn(code.value, isStart, 0)];
        return None;
      }
    }

    method AssembleStmt(stmt: Stmt) returns (error: Option<AsmError>)
      modifies this`output
      ensures match NodeOf(arch, stmt)
              case Ok(node) => error == None && output == old(output) + node
              case Err(e) => error == Some(e)
    {
      match stmt {
        case InsnStmt(insn) => error := AssembleInstruction(insn, false);
        case LabelStmt(name) =>
          output := output + [OutLabel(name, 0)];
          return None;
        case _ => return None;
      }
    }

    /** One node per instruction or label, in order. */
    method AssembleBody(stmts: seq<Stmt>) returns (error: Option<AsmError>)
      modifies this`output
      ensures match NodesOf(arch, stmts)
              case Ok(nodes) => error == None && output == old(output) + nodes
              case Err(e) => error == Some(e)
    {
      for i := 0 to |stmts|
        invariant NodesOf(arch, stmts[..i]).Ok? && output == old(output) + NodesOf(arch, stmts[..i]).value
      {
        error := AssembleStmt(stmts[i]);
        assert stmts[..i + 1][..i] == stmts[..i];
        if error.Some? {
          NodesOfPrefix(arch, stmts, i + 1);
          return;
        }
      }
      assert stmts[..|stmts|] == stmts;
      return None;
    }

    /** Build the output list: the start jump, then the nodes of the statements. */
    method AssembleInstructions(stmts: seq<Stmt>) returns (error: Option<AsmError>)
      requires output == []
      modifies this`output
      ensures match OutputNodes(arch, start, stmts)
              case Ok(nodes) => error == None && output == nodes
              case Err(e) => error == Some(e)
    {
      if start.Some? {
        error := AssembleInstruction(StartInsn(start.value), true);
        if error.Some? {
          return;
        }
      }
      error := AssembleBody(stmts);
    }

    /** First pass of resolve_labels: number the instructions; a label gets the address behind it. */
    method AssignAddresses()
      modifies this`output
      ensures SameShape(output, old(output)) && Addressed(output)
      ensures forall i :: 0 <= i < |output| ==> output[i] == old(output)[i].(address := Address(old(output), i))
    {
      var current := 0;
      ghost var was := output;
      for i := 0 to |output|
        invariant |output| == |was| && current == Address(was, i)
        invariant forall k :: 0 <= k < i ==> output[k] == was[k].(address := Address(was, k))
        invariant forall k :: i <= k < |was| ==> output[k] == was[k]
      {
        output := output[i := output[i].(address := current)];
        if output[i].OutInsn? {
          current := current + 1;
        }
      }
      AllAddressed(output, was);
    }

    /** The address of the only label of a name. */
    method OnlyAddress(name: string) returns (address: int, ambiguous: bool)
      requires Addressed(output)
      ensures match OnlyLabel(output, name)
              case Ok(j) => !ambiguous && address == Address(output, j)
              case Err(AmbiguousLabel) => ambiguous
              case Err(_) => !ambiguous && address == -1
    {
      address, ambiguous := -1, false;
      var found := false;
      ghost var at := 0;
      for j := 0 to |output|
        invariant found ==> at < j && Named(output[at], name) && address == Address(output, at)
        invariant !found ==> address == -1
        invariant forall k :: 0 <= k < j && (found ==> k != at) ==> !Named(output[k], name)
      {
        if Named(output[j], name) {
          if found {
            return -1, true;
          }
          found, address, at := true, output[j].address, j;
        }
      }
    }

    /** The address of the nearest label of a name before position i. */
    method AddressBefore(i: nat, name: string) returns (address: int)
      requires i < |output| && Addressed(output)
      ensures match LastLabel(output, i, name)
              case Some(j) => address == Address(output, j)
              case None => address == -1
    {
      var j := i;
      while j > 0
        invariant 0 <= j <= i
        invariant forall k :: j <= k < i ==> !Named(output[k], name)
      {
        j := j - 1;
        if Named(output[j], name) {
          return output[j].address;
        }
      }
      return -1;
    }

    /** The address of the nearest label of a name behind position i. */
    method AddressBehind(i: nat, name: string) returns (address: int)
      requires i < |output| && Addressed(output)
      ensures match FirstLabel(output, i + 1, name)
              case Some(j) => address == Address(output, j)
              case None => address == -1
    {
      for j := i + 1 to |output|
        invariant forall k :: i < k < j ==> !Named(output[k], name)
      {
        if Named(output[j], name) {
          return output[j].address;
        }
      }
      return -1;
    }

    /** The address a label reference at position i stands for; -1 when there is no such label. */
    method GetLabelAddress(i: nat, name: string, dir: Direction) returns (address: int, ambiguous: bool)
      requires i < |output| && Addressed(output)
      ensures match Target(output, i, name, dir)
              case Ok(j) => !ambiguous && address == Address(output, j)
              case Err(AmbiguousLabel) => ambiguous
              case Err(_) => !ambiguous && address == -1
      ensures forall j :: Means(output, i, name, dir, j) ==> !ambiguous && address == Address(output, j)
      ensures !ambiguous && address >= 0 ==>
                exists j :: Means(output, i, name, dir, j) && address == Address(output, j)
    {
      forall j: nat ensures Target(output, i, name, dir) == Ok(j) <==> Means(output, i, name, dir, j) {
        TargetMeans(output, i, name, dir, j);
      }
      ambiguous := false;
      match dir {
        case Absolute => address, ambiguous := OnlyAddress(name);
        case Back => address := AddressBefore(i, name);
        case Forward => address := AddressBehind(i, name);
      }
    }

    /** Overwrite one label operand with the address it stands for. */
    method ResolveOperand(i: nat, slot: nat, o: OutOperand) returns (r: Result<OutOperand, AsmError>)
      requires i < |output| && Addressed(output) && !o.Resolved?
      ensures match LinkOperand(arch, output, i, slot, o)
              case Ok(v) => r.Ok? && !r.value.LabelRef? && OperandWord(r.value) == v
              case Err(e) => r == Err(e)
    {
      match o {
        case Normal(_) => return Ok(o);
        case LabelRef(name, dir) =>
          var address, ambiguous := GetLabelAddress(i, name, dir);
          if ambiguous {
            return Err(AmbiguousLabel);
          }
          if address < 0 {
            return Err(UnknownLabel);
          }
          return Ok(Resolved(PlaceAddress(arch, slot, address)));
      }
    }

    /** Whether the start jump at the head of the list can be dropped. */
    method StartIsNext() returns (r: Result<bool, AsmError>)
      requires HasStart(output) && Addressed(output) && Symbolic(output[0].code)
      ensures match StartTarget(output)
              case Ok(a) => r == Ok(a == 1)
              case Err(e) => r == Err(e)
    {
      var target := output[0].code.c;
      if !target.LabelRef? || target.dir != Absolute {
        return Err(BadStart);
      }
      var address, ambiguous := GetLabelAddress(0, target.name, target.dir);
      if ambiguous {
        return Err(AmbiguousLabel);
      }
      if address < 0 {
        return Err(UnknownLabel);
      }
      return Ok(address == 1);
    }

    /** Overwrite the label operands of the instruction at position i. */
    method ResolveInsn(i: nat) returns (error: Option<AsmError>)
      requires i < |output| && output[i].OutInsn? && Addressed(output) && Symbolic(output[i].code)
      modifies this`output
      ensures match LinkInsn(arch, old(output), i)
              case Ok(bin) =>
                && error == None && Addressed(output) && SameShape(output, old(output))
                && output[i].OutInsn? && Concrete(output[i]) && CodeWords(output[i].code) == bin
                && forall k :: 0 <= k < |output| && k != i ==> output[k] == old(output)[k]
              case Err(e) => error == Some(e)
    {
      var code := output[i].code;
      var a := ResolveOperand(i, 0, code.a);
      if a.Err? {
        return Some(a.error);
      }
      var b := ResolveOperand(i, 1, code.b);
      if b.Err? {
        return Some(b.error);
      }
      var c := ResolveOperand(i, 2, code.c);
      if c.Err? {
        return Some(c.error);
      }
      ghost var was := output;
      output := output[i := output[i].(code := Code(code.opcode, a.value, b.value, c.value))];
      forall k | 0 <= k < |output| ensures Address(output, k) == Address(was, k) {
        SameAddress(output, was, k);
      }
      return None;
    }

    /** One run over the list: number it, then overwrite every label operand in place.  The run stops
        and asks for a restart when it deletes the start jump, which happens before any operand has
        been overwritten. */
    method ResolvePass() returns (error: Option<AsmError>, restart: bool)
      requires Fresh(output)
      modifies this`output
      ensures restart ==> error == None && HasStart(old(output)) && StartTarget(old(output)) == Ok(1)
                          && SameCode(output, old(output)[1..]) && Fresh(output) && !HasStart(output)
      ensures !restart ==> match Link(arch, old(output))
                           case Ok(bins) => error == None && Words(output) == bins && AllConcrete(output)
                           case Err(e) => error == Some(e)
    {
      AssignAddresses();
      SameLink(arch, output, old(output));
      if HasStart(output) {
        var next := StartIsNext();
        if next.Err? {
          return Some(next.error), false;
        }
        if next.value {
          StartDropped(output, old(output));
          output := output[1..];
          return None, true;
        }
      }
      error := ResolveAll();
      return error, false;
    }

    /** Overwrite the label operands of the next node, if it is an instruction. */
    method ResolveNext(i: nat, ghost kept: seq<Node>) returns (error: Option<AsmError>)
      requires ResolvedSoFar(arch, output, kept, i) && i < |kept| && (kept[i].OutInsn? ==> Symbolic(kept[i].code))
      modifies this`output
      ensures error.None? ==> ResolvedSoFar(arch, output, kept, i + 1)
      ensures error.Some? ==> LinkFrom(arch, kept, 0) == Err(error.value)
    {
      error := None;
      ghost var was := output;
      if output[i].OutInsn? {
        SameLinkInsn(arch, output, kept, i);
        error := ResolveInsn(i);
      }
      if error.None? {
        ResolvedStep(arch, was, output, kept, i);
      } else {
        FailedStep(arch, was, kept, i);
      }
    }

    /** Overwrite the label operands of all instructions, front to back. */
    method ResolveAll() returns (error: Option<AsmError>)
      requires Addressed(output)
      requires forall i :: 0 <= i < |output| && output[i].OutInsn? ==> Symbolic(output[i].code)
      modifies this`output
      ensures match LinkFrom(arch, old(output), 0)
              case Ok(bins) => error == None && Words(output) == bins && AllConcrete(output)
              case Err(e) => error == Some(e)
    {
      ghost var kept := output;
      for i := 0 to |output|
        invariant ResolvedSoFar(arch, output, kept, i)
      {
        error := ResolveNext(i, kept);
        if error.Some? {
          return;
        }
      }
      assert output[..|output|] == output;
      return None;
    }

    /** resolve_labels: at most one restart, after which there is no start jump left. */
    method ResolveLabels() returns (error: Option<AsmError>)
      requires Fresh(output)
      modifies this`output
      ensures match Link(arch, old(output))
              case Ok(bins) => error == None && Words(output) == bins && AllConcrete(output)
              case Err(e) => error == Some(e)
    {
      var restart := true;
      error := None;
      ghost var was := output;
      while restart
        invariant restart ==> Fresh(output) && Link(arch, output) == Link(arch, was)
        invariant !restart ==> match Link(arch, was)
                               case Ok(bins) => error == None && Words(output) == bins && AllConcrete(output)
                               case Err(e) => error == Some(e)
        decreases restart, HasStart(output)
      {
        ghost var before := output;
        error, restart := ResolvePass();
        if restart {
          SameLink(arch, output, before[1..]);
        }
      }
    }
  }
}
