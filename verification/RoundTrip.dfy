/** Disassembling an image and assembling the text again: the exact condition for getting it back. */
module RoundTrip {
  import opened Wrappers
  import opened Bits
  import opened Isa
  import opened Operands
  import opened Lowering
  import opened Linker
  import opened Assembler
  import opened Listing
  import opened InsnRoundTrip

  // ---------------------------------------------------------------- the nodes of a listing

  function LineNodes(arch: Arch, line: Line): Result<seq<Node>, AsmError> {
    var stmt :- ParseLine(line);
    NodeOf(arch, stmt)
  }

  function CodeNode(code: Result<Code, AsmError>): Result<seq<Node>, AsmError> {
    var c :- code;
    Ok([OutInsn(c, false, 0)])
  }

  /** The nodes of a list of lines, when f gives the nodes of one line. */
  function Collect(f: Line -> Result<seq<Node>, AsmError>, lines: seq<Line>): Result<seq<Node>, AsmError> {
    if lines == [] then Ok([])
    else
      var before :- Collect(f, lines[..|lines| - 1]);
      var node :- f(lines[|lines| - 1]);
      Ok(before + node)
  }

  lemma CollectOne(f: Line -> Result<seq<Node>, AsmError>, a: seq<Line>, line: Line)
    ensures Collect(f, a + [line]).Ok? <==> Collect(f, a).Ok? && f(line).Ok?
    ensures Collect(f, a + [line]).Ok? ==> Collect(f, a + [line]).value == Collect(f, a).value + f(line).value
  {
    assert (a + [line])[..|a + [line]| - 1] == a;
  }

  /** Parsing and then assembling is line by line. */
  lemma {:induction false} LineByLine(arch: Arch, lines: seq<Line>)
    ensures var all := Collect(line => LineNodes(arch, line), lines);
            && (all.Ok? <==> ParseLines(lines).Ok? && NodesOf(arch, ParseLines(lines).value).Ok?)
            && (all.Ok? ==> all.value == NodesOf(arch, ParseLines(lines).value).value)
  {
    if lines != [] {
      var front, line := lines[..|lines| - 1], lines[|lines| - 1];
      LineByLine(arch, front);
      if ParseLines(lines).Ok? {
        assert ParseLines(lines).value[..|front|] == ParseLines(front).value by {
          ParseLength(front);
        }
      }
    }
  }

  lemma {:induction false} ParseLength(lines: seq<Line>)
    requires ParseLines(lines).Ok?
    ensures |ParseLines(lines).value| == |lines|
  {
    if lines != [] {
      ParseLength(lines[..|lines| - 1]);
    }
  }

  function LabelNodes(name: Option<string>): seq<Node> {
    if name.Some? then [OutLabel(name.value, 0)] else []
  }

  ghost predicate AllOk(codes: seq<Result<Code, AsmError>>, n: nat)
    requires n <= |codes|
  {
    forall k :: 0 <= k < n ==> codes[k].Ok?
  }

  /** The output list of a listing behind the start jump: its first n instructions, each behind its
      label if it has one. */
  ghost function Weave(labels: seq<Option<string>>, codes: seq<Result<Code, AsmError>>, n: nat): seq<Node>
    requires n <= |codes| == |labels| && AllOk(codes, n)
  {
    if n == 0 then [OutLabel("entry", 0)]
    else Weave(labels, codes, n - 1) + LabelNodes(labels[n - 1]) + [OutInsn(codes[n - 1].value, false, 0)]
  }

  lemma CollectLabel(f: Line -> Result<seq<Node>, AsmError>, a: seq<Line>, name: Option<string>)
    requires forall name :: f(LabelLine(name)) == Ok([OutLabel(name, 0)])
    ensures Collect(f, a + LabelLines(name)).Ok? <==> Collect(f, a).Ok?
    ensures Collect(f, a).Ok? ==> Collect(f, a + LabelLines(name)).value == Collect(f, a).value + LabelNodes(name)
  {
    if name.Some? {
      CollectOne(f, a, LabelLine(name.value));
    } else {
      assert a + LabelLines(name) == a;
    }
  }

  lemma CollectStep(f: Line -> Result<seq<Node>, AsmError>, a: seq<Line>, name: Option<string>,
                    line: Line, code: Result<Code, AsmError>)
    requires forall name :: f(LabelLine(name)) == Ok([OutLabel(name, 0)])
    requires f(line) == CodeNode(code)
    ensures var more := a + LabelLines(name) + [line];
            && (Collect(f, more).Ok? <==> Collect(f, a).Ok? && code.Ok?)
            && (Collect(f, a).Ok? && code.Ok? ==>
                  Collect(f, more).value == Collect(f, a).value + LabelNodes(name) + [OutInsn(code.value, false, 0)])
  {
    CollectLabel(f, a, name);
    CollectOne(f, a + LabelLines(name), line);
  }

  /** A listing yields the woven nodes, or fails when one of its instructions does not assemble. */
  lemma {:induction false} BodyCollects(f: Line -> Result<seq<Node>, AsmError>, header: seq<Line>,
                                        labels: seq<Option<string>>, insns: seq<Line>,
                                        codes: seq<Result<Code, AsmError>>, n: nat)
    requires n <= |insns| == |codes| == |labels|
    requires Collect(f, header).Ok? && Collect(f, header).value == [OutLabel("entry", 0)]
    requires forall name :: f(LabelLine(name)) == Ok([OutLabel(name, 0)])
    requires forall k :: 0 <= k < n ==> f(insns[k]) == CodeNode(codes[k])
    ensures Woven(Collect(f, header + Body(labels, insns, n)), labels, codes, n)
  {
    if n == 0 {
      assert header + Body(labels, insns, 0) == header;
    } else {
      var k := n - 1;
      var front := header + Body(labels, insns, k);
      BodyCollects(f, header, labels, insns, codes, k);
      Regroup(header, Body(labels, insns, k), LabelLines(labels[k]), [insns[k]]);
      CollectStep(f, front, labels[k], insns[k], codes[k]);
      WeaveStep(Collect(f, front), Collect(f, front + LabelLines(labels[k]) + [insns[k]]), labels, codes, n);
    }
  }

  lemma Regroup(a: seq<Line>, b: seq<Line>, c: seq<Line>, d: seq<Line>)
    ensures a + (b + c + d) == a + b + c + d
  {
  }

  ghost predicate Woven(all: Result<seq<Node>, AsmError>, labels: seq<Option<string>>,
                          codes: seq<Result<Code, AsmError>>, n: nat)
    requires n <= |codes| == |labels|
  {
    && (all.Ok? <==> AllOk(codes, n))
    && (all.Ok? ==> all.value == Weave(labels, codes, n))
  }

  lemma WeaveStep(front: Result<seq<Node>, AsmError>, all: Result<seq<Node>, AsmError>,
                  labels: seq<Option<string>>, codes: seq<Result<Code, AsmError>>, n: nat)
    requires 0 < n <= |codes| == |labels| && Woven(front, labels, codes, n - 1)
    requires all.Ok? <==> front.Ok? && codes[n - 1].Ok?
    requires front.Ok? && codes[n - 1].Ok? ==>
               all.value == front.value + LabelNodes(labels[n - 1]) + [OutInsn(codes[n - 1].value, false, 0)]
    ensures Woven(all, labels, codes, n)
  {
  }

  // ---------------------------------------------------------------- where labels and instructions stand

  lemma {:induction false} WeavePrefix(labels: seq<Option<string>>, codes: seq<Result<Code, AsmError>>, k: nat, n: nat)
    requires k <= n <= |codes| == |labels| && AllOk(codes, n)
    ensures Weave(labels, codes, k) <= Weave(labels, codes, n)
  {
    if k < n {
      WeavePrefix(labels, codes, k, n - 1);
    }
  }

  /** The address behind the first n instructions is n, whatever labels are between them. */
  lemma {:induction false} WeaveAddress(labels: seq<Option<string>>, codes: seq<Result<Code, AsmError>>, n: nat)
    requires n <= |codes| == |labels| && AllOk(codes, n)
    ensures Address(Weave(labels, codes, n), |Weave(labels, codes, n)|) == n
  {
    var nodes := Weave(labels, codes, n);
    if n == 0 {
      assert Address(nodes, 0) == 0;
    } else {
      var front := Weave(labels, codes, n - 1);
      var named := front + LabelNodes(labels[n - 1]);
      var insn := OutInsn(codes[n - 1].value, false, 0);
      WeaveAddress(labels, codes, n - 1);
      assert nodes == named + [insn];
      AddressPrefix(named, [insn], |named|);
      AddressPrefix(front, LabelNodes(labels[n - 1]), |front|);
      assert labels[n - 1].Some? ==> named[|front|].OutLabel?;
    }
  }

  /** Position of instruction k's label, if it has one, and otherwise of instruction k. */
  ghost function Place(labels: seq<Option<string>>, codes: seq<Result<Code, AsmError>>, k: nat): nat
    requires k <= |codes| == |labels| && AllOk(codes, k)
  {
    |Weave(labels, codes, k)|
  }

  ghost function InsnPlace(labels: seq<Option<string>>, codes: seq<Result<Code, AsmError>>, k: nat): nat
    requires k < |codes| == |labels| && AllOk(codes, k)
  {
    Place(labels, codes, k) + if labels[k].Some? then 1 else 0
  }

  lemma WeaveHere(labels: seq<Option<string>>, codes: seq<Result<Code, AsmError>>, k: nat, n: nat)
    requires k < n <= |codes| == |labels| && AllOk(codes, n)
    ensures Weave(labels, codes, k) + LabelNodes(labels[k]) + [OutInsn(codes[k].value, false, 0)]
            <= Weave(labels, codes, n)
  {
    WeavePrefix(labels, codes, k + 1, n);
  }

  /** Instruction k and its label stand where they should, at address k. */
  lemma Placed(labels: seq<Option<string>>, codes: seq<Result<Code, AsmError>>, k: nat, n: nat)
    requires k < n <= |codes| == |labels| && AllOk(codes, n)
    ensures var (nodes, p, q) := (Weave(labels, codes, n), Place(labels, codes, k), InsnPlace(labels, codes, k));
            && p <= q < |nodes| && nodes[q] == OutInsn(codes[k].value, false, 0)
            && (labels[k].Some? ==> nodes[p] == OutLabel(labels[k].value, 0))
            && Address(nodes, p) == Address(nodes, q) == k
  {
    var front := Weave(labels, codes, k);
    WeaveAddress(labels, codes, k);
    WeaveHere(labels, codes, k, n);
    ItemsBehind(Weave(labels, codes, n), front, LabelNodes(labels[k]), OutInsn(codes[k].value, false, 0));
    AddressAt(Weave(labels, codes, n), front);
    if labels[k].Some? {
      LabelAddress(Weave(labels, codes, n), |front|);
    }
  }

  lemma AddressAt(nodes: seq<Node>, front: seq<Node>)
    requires front <= nodes
    ensures Address(nodes, |front|) == Address(front, |front|)
  {
    assert nodes == front + nodes[|front|..];
    AddressPrefix(front, nodes[|front|..], |front|);
  }

  /** What stands behind the front of a list. */
  lemma ItemsBehind(nodes: seq<Node>, front: seq<Node>, mark: seq<Node>, node: Node)
    requires front + mark + [node] <= nodes
    ensures front <= nodes && |front| + |mark| < |nodes| && nodes[|front| + |mark|] == node
    ensures mark != [] ==> nodes[|front|] == mark[0]
  {
    var here := front + mark + [node];
    assert here[|front| + |mark|] == node && here[..|front|] == front;
    assert mark != [] ==> here[|front|] == mark[0];
  }

  lemma LabelAddress(nodes: seq<Node>, i: nat)
    requires i < |nodes| && nodes[i].OutLabel?
    ensures Address(nodes, i + 1) == Address(nodes, i)
  {
  }

  /** Every label in the list is the entry label or stands in front of its instruction. */
  lemma {:induction false} LabelPlaces(labels: seq<Option<string>>, codes: seq<Result<Code, AsmError>>, n: nat, j: nat)
    requires n <= |codes| == |labels| && AllOk(codes, n)
    requires j < |Weave(labels, codes, n)| && Weave(labels, codes, n)[j].OutLabel?
    ensures || (j == 0 && Weave(labels, codes, n)[j].labelName == "entry")
            || exists k :: 0 <= k < n && labels[k] == Some(Weave(labels, codes, n)[j].labelName)
                  && j == Place(labels, codes, k)
  {
    if n > 0 {
      var front := Weave(labels, codes, n - 1);
      if j < |front| {
        LabelPlaces(labels, codes, n - 1, j);
      } else {
        assert labels[n - 1] == Some(Weave(labels, codes, n)[j].labelName) && j == Place(labels, codes, n - 1);
      }
    }
  }

  /** No two labels have the same name, and none is called entry. */
  ghost predicate DistinctNames(labels: seq<Option<string>>) {
    && (forall i, j :: 0 <= i < j < |labels| && labels[i].Some? ==> labels[i] != labels[j])
    && (forall i :: 0 <= i < |labels| ==> labels[i] != Some("entry"))
  }

  /** A reference to the label of instruction k resolves to address k. */
  lemma LabelResolves(labels: seq<Option<string>>, codes: seq<Result<Code, AsmError>>, k: nat)
    requires k < |codes| == |labels| && AllOk(codes, |codes|) && DistinctNames(labels) && labels[k].Some?
    ensures var nodes := Weave(labels, codes, |codes|);
            OnlyLabel(nodes, labels[k].value) == Ok(Place(labels, codes, k)) && Place(labels, codes, k) < |nodes|
            && Address(nodes, Place(labels, codes, k)) == k
  {
    var n := |codes|;
    var nodes := Weave(labels, codes, n);
    var p := Place(labels, codes, k);
    Placed(labels, codes, k, n);
    forall j | 0 <= j < |nodes| && j != p ensures !Named(nodes[j], labels[k].value) {
      if nodes[j].OutLabel? {
        LabelPlaces(labels, codes, n, j);
      }
    }
    UniqueLabel(nodes, p, labels[k].value);
  }

  /** The entry label stands first, so the start jump goes to the instruction right behind itself. */
  lemma EntryResolves(labels: seq<Option<string>>, codes: seq<Result<Code, AsmError>>, start: Node)
    requires |codes| == |labels| && AllOk(codes, |codes|) && DistinctNames(labels) && start.OutInsn?
    ensures var nodes := [start] + Weave(labels, codes, |codes|);
            OnlyLabel(nodes, "entry") == Ok(1) && Address(nodes, 1) == 1
  {
    var n := |codes|;
    var body := Weave(labels, codes, n);
    var nodes := [start] + body;
    WeavePrefix(labels, codes, 0, n);
    forall j | 0 <= j < |nodes| && j != 1 ensures !Named(nodes[j], "entry") {
      if j > 1 && body[j - 1].OutLabel? {
        LabelPlaces(labels, codes, n, j - 1);
      }
    }
    assert nodes[1] == body[0];
    UniqueLabel(nodes, 1, "entry");
    assert Address(nodes, 1) == Address(nodes, 0) + 1;
  }

  // ---------------------------------------------------------------- labels of a listing

  lemma {:induction false} RankGrows(diss: seq<Dis>, i: nat, j: nat)
    requires i < j && Targeted(diss, i)
    ensures LabelRank(diss, i) < LabelRank(diss, j)
  {
    if i < j - 1 {
      RankGrows(diss, i, j - 1);
    }
  }

  /** The disassembler never gives two labels the same name. */
  lemma LabelsDistinct(diss: seq<Dis>)
    ensures DistinctNames(Labels(diss))
  {
    forall i, j | 0 <= i < j < |diss| && Labels(diss)[i].Some? ensures Labels(diss)[i] != Labels(diss)[j] {
      RankGrows(diss, i, j);
      LabelNameDistinct(LabelRank(diss, i), LabelRank(diss, j));
    }
    forall i | 0 <= i < |diss| ensures Labels(diss)[i] != Some("entry") {
      LabelNameDistinct(LabelRank(diss, i), 0);
    }
  }

  // ---------------------------------------------------------------- assembling a listing

  lemma {:induction false} ParsedAt(lines: seq<Line>, i: nat)
    requires ParseLines(lines).Ok? && i < |lines|
    ensures |ParseLines(lines).value| == |lines| && ParseLine(lines[i]) == Ok(ParseLines(lines).value[i])
  {
    ParseLength(lines);
    var front := lines[..|lines| - 1];
    ParseLength(front);
    if i < |front| {
      ParsedAt(front, i);
    }
  }

  lemma {:induction false} NoMoreDirectives(stmts: seq<Stmt>, i: nat, d: Directives)
    requires i <= |stmts| && d.arch.Some?
    requires forall j :: i <= j < |stmts| ==> !stmts[j].ArchStmt? && !stmts[j].StartStmt?
    ensures DirectivesFrom(stmts, i, d) == Ok(d)
    decreases |stmts| - i
  {
    if i < |stmts| {
      NoMoreDirectives(stmts, i + 1, d);
    }
  }

  lemma {:induction false} BodyLines(labels: seq<Option<string>>, insns: seq<Line>, n: nat)
    requires n <= |insns| == |labels| && forall line :: line in insns ==> line.InsnLine?
    ensures forall line :: line in Body(labels, insns, n) ==> line.LabelLine? || line.InsnLine?
  {
    if n > 0 {
      BodyLines(labels, insns, n - 1);
    }
  }

  lemma ListingDirectives(arch: Arch, body: seq<Line>)
    requires forall line :: line in body ==> line.LabelLine? || line.InsnLine?
    requires ParseLines(Header(arch) + body).Ok?
    ensures DirectivesFrom(ParseLines(Header(arch) + body).value, 0, Directives(None, None))
         == Ok(Directives(Some(arch), Some("entry")))
  {
    var lines := Header(arch) + body;
    var stmts := ParseLines(lines).value;
    forall j | 0 <= j < |lines| ensures |stmts| == |lines| && ParseLine(lines[j]) == Ok(stmts[j]) {
      ParsedAt(lines, j);
    }
    forall j | 2 <= j < |stmts| ensures !stmts[j].ArchStmt? && !stmts[j].StartStmt? {
      assert lines[j] == if j == 2 then LabelLine("entry") else body[j - 3];
      assert j > 2 ==> body[j - 3] in body;
      assert ParseLine(lines[j]) == Ok(stmts[j]);
    }
    NoMoreDirectives(stmts, 2, Directives(Some(arch), Some("entry")));
    assert lines[0] == Header(arch)[0] && lines[1] == StartLine("entry");
  }

  lemma StartCode(arch: Arch)
    ensures Lower(arch, StartInsn("entry"))
         == Ok(Code(0x77F, Normal(R0Field(arch)), Normal(R0Field(arch)), LabelRef("entry", Absolute)))
  {
    var target := Ref("entry", Absolute);
    LowerExpanded(arch, StartInsn("entry"), Ok(Insn(Jext, [Imm(0x7F), target])));
    AlwaysAssembles(arch, target);
    R0Assembles(arch, 0x77F, target);
  }

  lemma AlwaysAssembles(arch: Arch, target: Operand)
    ensures LowerNative(arch, Insn(Jext, [Imm(0x7F), target])) == AssembleLow(arch, 0x77F, R0, R0, target)
  {
  }

  /** Assembling a listing links the woven nodes: the start jump is always dropped. */
  lemma ListingLinks(arch: Arch, labels: seq<Option<string>>, codes: seq<Result<Code, AsmError>>, stmts: seq<Stmt>)
    requires |codes| == |labels| && AllOk(codes, |codes|) && DistinctNames(labels)
    requires NodesOf(arch, stmts).Ok? && NodesOf(arch, stmts).value == Weave(labels, codes, |codes|)
    requires DirectivesFrom(stmts, 0, Directives(None, None)) == Ok(Directives(Some(arch), Some("entry")))
    ensures AssembleStmts(stmts) == LinkFrom(arch, Weave(labels, codes, |codes|), 0)
  {
    StartCode(arch);
    var start := OutInsn(Lower(arch, StartInsn("entry")).value, true, 0);
    var body := Weave(labels, codes, |codes|);
    var nodes := [start] + body;
    assert OutputNodes(arch, Some("entry"), stmts) == Ok(nodes);
    EntryResolves(labels, codes, start);
    assert StartTarget(nodes) == Ok(1);
    assert nodes[1..] == body;
  }

  // ---------------------------------------------------------------- the round trip

  /** Instructions whose third field is printed as a label. */
  predicate IsJump(arch: Arch, bin: Bin) {
    var top := bin.opcode / 0x100 % 0x10;
    || 4 <= top <= 7
    || (!(2 <= top <= 3) && FixedName(bin.opcode).Some? && IsBranch(FixedName(bin.opcode).value))
    || (bin.opcode == 0x002 && arch == Arch5)
    || bin.opcode == 0x004
  }

  lemma JumpHasLabel(arch: Arch, decodeUnknown: bool, bin: Bin)
    requires DisInsn(arch, decodeUnknown, bin).Ok?
    ensures var d := DisInsn(arch, decodeUnknown, bin).value;
            (HasLabel(d) <==> IsJump(arch, bin)) && (HasLabel(d) ==> d.labeladdr == bin.c)
  {
    if FixedName(bin.opcode).Some? {
      FixedNameOpcode(bin.opcode);
    }
  }

  /** The images the tools can take apart and put together again: every instruction is canonical and
      every jump stays inside the image. */
  predicate CanonicalImage(arch: Arch, decodeUnknown: bool, code: seq<Bin>) {
    (forall i :: 0 <= i < |code| ==> Canonical(arch, decodeUnknown, code[i])) && JumpsInside(arch, code)
  }

  predicate AllInFormat(arch: Arch, code: seq<Bin>) {
    forall i :: 0 <= i < |code| ==> InFormat(arch, code[i])
  }

  predicate AllAccepted(arch: Arch, decodeUnknown: bool, code: seq<Bin>) {
    forall i :: 0 <= i < |code| ==> Accepted(arch, decodeUnknown, code[i])
  }

  predicate JumpsInside(arch: Arch, code: seq<Bin>) {
    forall i :: 0 <= i < |code| && IsJump(arch, code[i]) ==> code[i].c < |code|
  }

  /** Disassemble an image and assemble its listing; None when either tool gives up. */
  function Reassemble(arch: Arch, decodeUnknown: bool, code: seq<Bin>): Option<seq<Bin>> {
    match Disassemble(arch, decodeUnknown, code)
    case Err(_) => None
    case Ok(lines) =>
      var r := AssembleLines(lines);
      if r.Ok? then Some(r.value) else None
  }

  ghost function Codes(arch: Arch, diss: seq<Dis>): seq<Result<Code, AsmError>>
    requires forall d :: d in diss ==> |d.operands| == 5
  {
    seq(|diss|, k requires 0 <= k < |diss| => Reassembled(arch, diss[k], LabelOf(diss, diss[k].labeladdr)))
  }

  lemma LineCode(arch: Arch, d: Dis, name: string)
    requires |d.operands| == 5
    ensures LineNodes(arch, InsnLine(d.op, PrintArgs(d, name))) == CodeNode(Reassembled(arch, d, name))
  {
    OpCode(arch, d.op, PrintArgs(d, name));
  }

  lemma OpCode(arch: Arch, op: Op, args: seq<Operand>)
    ensures LineNodes(arch, InsnLine(op, args)) == CodeNode(var insn :- ParseInsn(op, args); Lower(arch, insn))
  {
  }

  /** The listing parses and assembles to the woven nodes exactly when each of its lines assembles. */
  lemma ListingNodes(arch: Arch, diss: seq<Dis>)
    requires forall d :: d in diss ==> |d.operands| == 5
    ensures var (codes, stmts) := (Codes(arch, diss), ParseLines(ListingOf(arch, diss)));
            && (AllOk(codes, |diss|) <==> stmts.Ok? && NodesOf(arch, stmts.value).Ok?)
            && (AllOk(codes, |diss|) ==> NodesOf(arch, stmts.value).value == Weave(Labels(diss), codes, |diss|))
  {
    var insns, codes := InsnLines(diss), Codes(arch, diss);
    var f := line => LineNodes(arch, line);
    forall k | 0 <= k < |diss| ensures f(insns[k]) == CodeNode(codes[k]) {
      LineCode(arch, diss[k], LabelOf(diss, diss[k].labeladdr));
    }
    HeaderCollects(arch);
    BodyCollects(f, Header(arch), Labels(diss), insns, codes, |diss|);
    LineByLine(arch, ListingOf(arch, diss));
  }

  function ListingOf(arch: Arch, diss: seq<Dis>): seq<Line>
    requires forall d :: d in diss ==> |d.operands| == 5
  {
    Header(arch) + Body(Labels(diss), InsnLines(diss), |diss|)
  }

  /** A listing whose lines all assemble is linked with its labels; any other is rejected. */
  lemma ListingAssembles(arch: Arch, diss: seq<Dis>)
    requires forall d :: d in diss ==> |d.operands| == 5
    ensures var (labels, codes) := (Labels(diss), Codes(arch, diss));
            if AllOk(codes, |diss|)
            then AssembleLines(ListingOf(arch, diss)) == LinkFrom(arch, Weave(labels, codes, |diss|), 0)
            else AssembleLines(ListingOf(arch, diss)).Err?
  {
    ListingNodes(arch, diss);
    var stmts := ParseLines(ListingOf(arch, diss));
    if stmts.Ok? {
      BodyLines(Labels(diss), InsnLines(diss), |diss|);
      ListingDirectives(arch, Body(Labels(diss), InsnLines(diss), |diss|));
      if AllOk(Codes(arch, diss), |diss|) {
        LabelsDistinct(diss);
        ListingLinks(arch, Labels(diss), Codes(arch, diss), stmts.value);
      } else {
        NodesFail(arch, stmts.value, Some("entry"));
      }
    }
  }

  lemma NodesFail(arch: Arch, stmts: seq<Stmt>, start: Option<string>)
    requires NodesOf(arch, stmts).Err?
    ensures OutputNodes(arch, start, stmts).Err?
  {
  }

  lemma HeaderCollects(arch: Arch)
    ensures var h := Collect(line => LineNodes(arch, line), Header(arch)); h.Ok? && h.value == [OutLabel("entry", 0)]
  {
    var f := line => LineNodes(arch, line);
    var h := Header(arch);
    assert h[..2][..1][..0] == [] && h[..2][..1] == [h[0]] && h[..2] == [h[0], h[1]];
    assert Collect(f, []) == Ok([]);
    CollectOne(f, [], h[0]);
    CollectOne(f, [h[0]], h[1]);
    CollectOne(f, [h[0], h[1]], h[2]);
    assert [] + [h[0]] == [h[0]] && [h[0]] + [h[1]] == [h[0], h[1]] && [h[0], h[1]] + [h[2]] == h;
  }

  /** Node q is instruction k of the image, and links to this word. */
  ghost predicate InsnLinksAt(arch: Arch, back: Bin, nodes: seq<Node>, q: nat, k: nat) {
    && q < |nodes| && nodes[q].OutInsn? && Address(nodes, q) == k
    && LinkInsn(arch, nodes, q) == Ok(back)
  }

  /** Instruction k of the listing of an image, which jumps only inside, links to the rewritten
      instruction. */
  lemma InsnLinks(arch: Arch, decodeUnknown: bool, code: seq<Bin>, diss: seq<Dis>, k: nat)
    requires Disassembled(arch, decodeUnknown, code) == Ok(diss) && LabelsInBounds(diss) && k < |code|
    requires InFormat(arch, code[k]) && AllOk(Codes(arch, diss), |diss|)
    ensures var (labels, codes) := (Labels(diss), Codes(arch, diss));
            InsnLinksAt(arch, Rewritten(arch, code[k]), Weave(labels, codes, |diss|), InsnPlace(labels, codes, k), k)
  {
    var labels, codes, d := Labels(diss), Codes(arch, diss), diss[k];
    var name := LabelOf(diss, d.labeladdr);
    Placed(labels, codes, k, |diss|);
    InsnComesBack(arch, decodeUnknown, code[k], name);
    JumpHasLabel(arch, decodeUnknown, code[k]);
    LabelsDistinct(diss);
    if HasLabel(d) {
      LabelKept(arch, decodeUnknown, code[k]);
      assert Targeted(diss, d.labeladdr);
      assert labels[d.labeladdr] == Some(name);
      LabelResolves(labels, codes, d.labeladdr);
    }
    MatchLinks(arch, Weave(labels, codes, |diss|), InsnPlace(labels, codes, k), d, Rewritten(arch, code[k]), name);
  }

  /** A code that matches an instruction links to it when its label has the right address. */
  lemma MatchLinks(arch: Arch, nodes: seq<Node>, q: nat, d: Dis, back: Bin, name: string)
    requires q < |nodes| && nodes[q].OutInsn? && Matches(d, nodes[q].code, back, name)
    requires HasLabel(d) ==> OnlyLabel(nodes, name).Ok? && OnlyLabel(nodes, name).value < |nodes|
                             && Address(nodes, OnlyLabel(nodes, name).value) == back.c
    ensures LinkInsn(arch, nodes, q) == Ok(back)
  {
  }

  /** Every instruction in the list is one of the listing's. */
  lemma {:induction false} InsnPlaces(labels: seq<Option<string>>, codes: seq<Result<Code, AsmError>>, n: nat, j: nat)
    requires n <= |codes| == |labels| && AllOk(codes, n)
    requires j < |Weave(labels, codes, n)| && Weave(labels, codes, n)[j].OutInsn?
    ensures exists k :: 0 <= k < n && j == InsnPlace(labels, codes, k)
  {
    if n > 0 {
      if j < |Weave(labels, codes, n - 1)| {
        InsnPlaces(labels, codes, n - 1, j);
      } else {
        assert j == InsnPlace(labels, codes, n - 1);
      }
    }
  }

  /** The image with each instruction rewritten. */
  function RewrittenImage(arch: Arch, code: seq<Bin>): (r: seq<Bin>)
    ensures |r| == |code|
  {
    seq(|code|, k requires 0 <= k < |code| => Rewritten(arch, code[k]))
  }

  lemma ImageLinks(arch: Arch, decodeUnknown: bool, code: seq<Bin>, diss: seq<Dis>)
    requires Disassembled(arch, decodeUnknown, code) == Ok(diss) && LabelsInBounds(diss)
    requires AllInFormat(arch, code) && AllOk(Codes(arch, diss), |diss|)
    ensures LinkFrom(arch, Weave(Labels(diss), Codes(arch, diss), |diss|), 0) == Ok(RewrittenImage(arch, code))
  {
    forall k | 0 <= k < |diss|
      ensures InsnLinksAt(arch, RewrittenImage(arch, code)[k], Weave(Labels(diss), Codes(arch, diss), |diss|),
                          InsnPlace(Labels(diss), Codes(arch, diss), k), k)
    {
      InsnLinks(arch, decodeUnknown, code, diss, k);
    }
    NodesLink(arch, RewrittenImage(arch, code), Labels(diss), Codes(arch, diss));
  }

  lemma NodesLink(arch: Arch, back: seq<Bin>, labels: seq<Option<string>>, codes: seq<Result<Code, AsmError>>)
    requires |labels| == |codes| == |back| && AllOk(codes, |codes|)
    requires forall k :: 0 <= k < |back| ==>
               InsnLinksAt(arch, back[k], Weave(labels, codes, |codes|), InsnPlace(labels, codes, k), k)
    ensures LinkFrom(arch, Weave(labels, codes, |codes|), 0) == Ok(back)
  {
    var n := |codes|;
    var nodes := Weave(labels, codes, n);
    var r := LinkFrom(arch, nodes, 0);
    LinksWhenAllDo(arch, nodes, 0);
    forall j | 0 <= j < |nodes| && nodes[j].OutInsn? ensures LinkInsn(arch, nodes, j).Ok? {
      InsnPlaces(labels, codes, n, j);
      var k :| 0 <= k < n && j == InsnPlace(labels, codes, k);
      assert InsnLinksAt(arch, back[k], nodes, j, k);
    }
    LinkedLength(arch, nodes, r.value);
    WeaveAddress(labels, codes, n);
    forall k | 0 <= k < n ensures r.value[k] == back[k] {
      assert InsnLinksAt(arch, back[k], nodes, InsnPlace(labels, codes, k), k);
      LinkedAt(arch, nodes, r.value, InsnPlace(labels, codes, k));
    }
    assert r.value == back;
  }

  lemma LabelsMeanJumps(arch: Arch, decodeUnknown: bool, code: seq<Bin>)
    requires Disassembled(arch, decodeUnknown, code).Ok?
    ensures LabelsInBounds(Disassembled(arch, decodeUnknown, code).value)
            <==> JumpsInside(arch, code)
  {
    var diss := Disassembled(arch, decodeUnknown, code).value;
    forall i | 0 <= i < |code|
      ensures (HasLabel(diss[i]) <==> IsJump(arch, code[i])) && (HasLabel(diss[i]) ==> diss[i].labeladdr == code[i].c)
    {
      JumpHasLabel(arch, decodeUnknown, code[i]);
    }
  }

  /** The lines of a listing all assemble exactly when every instruction is accepted. */
  lemma CodesAccepted(arch: Arch, decodeUnknown: bool, code: seq<Bin>, diss: seq<Dis>)
    requires Disassembled(arch, decodeUnknown, code) == Ok(diss) && AllInFormat(arch, code)
    ensures AllOk(Codes(arch, diss), |diss|) <==> AllAccepted(arch, decodeUnknown, code)
  {
    forall k | 0 <= k < |code| ensures Codes(arch, diss)[k].Ok? <==> Accepted(arch, decodeUnknown, code[k]) {
      InsnComesBack(arch, decodeUnknown, code[k], LabelOf(diss, diss[k].labeladdr));
    }
  }

  /** What comes back, exactly: when every instruction is accepted and every jump stays inside the
      image, the image with each instruction rewritten; nothing otherwise. */
  lemma WhatComesBack(arch: Arch, decodeUnknown: bool, code: seq<Bin>)
    requires AllInFormat(arch, code)
    ensures Reassemble(arch, decodeUnknown, code)
         == if AllAccepted(arch, decodeUnknown, code) && JumpsInside(arch, code)
                 then Some(RewrittenImage(arch, code)) else None
  {
    var dis := Disassembled(arch, decodeUnknown, code);
    if dis.Err? {
      var k :| 0 <= k < |code| && DisInsn(arch, decodeUnknown, code[k]).Err?;
      if Accepted(arch, decodeUnknown, code[k]) {
        AcceptedDisassembles(arch, decodeUnknown, code[k]);
      }
    } else {
      ListingComesBack(arch, decodeUnknown, code, dis.value);
    }
  }

  lemma ListingComesBack(arch: Arch, decodeUnknown: bool, code: seq<Bin>, diss: seq<Dis>)
    requires Disassembled(arch, decodeUnknown, code) == Ok(diss) && AllInFormat(arch, code)
    ensures Reassemble(arch, decodeUnknown, code)
         == if AllAccepted(arch, decodeUnknown, code) && JumpsInside(arch, code)
                 then Some(RewrittenImage(arch, code)) else None
  {
    LabelsMeanJumps(arch, decodeUnknown, code);
    CodesAccepted(arch, decodeUnknown, code, diss);
    if LabelsInBounds(diss) {
      ListingAssembles(arch, diss);
      if AllOk(Codes(arch, diss), |diss|) {
        ImageLinks(arch, decodeUnknown, code, diss);
      }
    }
  }

  /** An image is canonical exactly when it is accepted and rewriting does not change it. */
  lemma CanonicalImageIsFixed(arch: Arch, decodeUnknown: bool, code: seq<Bin>)
    requires AllInFormat(arch, code)
    ensures CanonicalImage(arch, decodeUnknown, code)
            <==> AllAccepted(arch, decodeUnknown, code) && JumpsInside(arch, code) && RewrittenImage(arch, code) == code
  {
    forall k | 0 <= k < |code|
      ensures Canonical(arch, decodeUnknown, code[k])
              <==> Accepted(arch, decodeUnknown, code[k]) && RewrittenImage(arch, code)[k] == code[k]
    {
      CanonicalIsFixed(arch, decodeUnknown, code[k]);
    }
    assert RewrittenImage(arch, code) == code
           <==> forall k :: 0 <= k < |code| ==> RewrittenImage(arch, code)[k] == code[k];
  }

  /** Canonical images are taken apart and put together without an error. */
  lemma CanonicalComesBack(arch: Arch, decodeUnknown: bool, code: seq<Bin>)
    requires AllInFormat(arch, code) && CanonicalImage(arch, decodeUnknown, code)
    ensures Reassemble(arch, decodeUnknown, code).Some?
  {
    CanonicalImageIsFixed(arch, decodeUnknown, code);
    WhatComesBack(arch, decodeUnknown, code);
  }

  /** The self test, exactly: an image comes back from its own listing, instruction by instruction,
      if and only if it is canonical. */
  lemma RoundTripIsExact(arch: Arch, decodeUnknown: bool, code: seq<Bin>)
    requires AllInFormat(arch, code)
    ensures Reassemble(arch, decodeUnknown, code) == Some(code) <==> CanonicalImage(arch, decodeUnknown, code)
  {
    CanonicalImageIsFixed(arch, decodeUnknown, code);
    WhatComesBack(arch, decodeUnknown, code);
  }

  lemma RewrittenJumps(arch: Arch, decodeUnknown: bool, bin: Bin)
    requires InFormat(arch, bin) && Accepted(arch, decodeUnknown, bin)
    ensures IsJump(arch, Rewritten(arch, bin)) <==> IsJump(arch, bin)
    ensures IsJump(arch, bin) ==> Rewritten(arch, bin).c == bin.c
  {
    RewrittenIsCanonical(arch, decodeUnknown, bin);
    AcceptedDisassembles(arch, decodeUnknown, bin);
    JumpHasLabel(arch, decodeUnknown, bin);
    if IsJump(arch, bin) {
      LabelKept(arch, decodeUnknown, bin);
    }
  }

  /** Whatever comes back is canonical, so a second pass changes nothing. */
  lemma SecondPass(arch: Arch, decodeUnknown: bool, code: seq<Bin>)
    requires AllInFormat(arch, code) && Reassemble(arch, decodeUnknown, code).Some?
    ensures var out := Reassemble(arch, decodeUnknown, code).value;
            && |out| == |code| && AllInFormat(arch, out)
            && CanonicalImage(arch, decodeUnknown, out) && Reassemble(arch, decodeUnknown, out) == Some(out)
  {
    WhatComesBack(arch, decodeUnknown, code);
    var out := RewrittenImage(arch, code);
    forall k | 0 <= k < |out|
      ensures InFormat(arch, out[k]) && Canonical(arch, decodeUnknown, out[k])
              && (IsJump(arch, out[k]) ==> IsJump(arch, code[k]) && out[k].c == code[k].c)
    {
      RewrittenIsCanonical(arch, decodeUnknown, code[k]);
      RewrittenJumps(arch, decodeUnknown, code[k]);
    }
    RoundTripIsExact(arch, decodeUnknown, out);
  }

  /** An image that is refused: the first input is general purpose register 64 of architecture 15. */
  lemma RefusedImage(decodeUnknown: bool)
    ensures Reassemble(Arch15, decodeUnknown, [Bin(0x1C0, 0x17C0, 0x1800, 0x1780)]) == None
  {
    var code := [Bin(0x1C0, 0x17C0, 0x1800, 0x1780)];
    assert !Accepted(Arch15, decodeUnknown, code[0]);
    WhatComesBack(Arch15, decodeUnknown, code);
  }

  /** An image that silently comes back as another one unless its jump already has register 0 for both
      dummies. */
  lemma ChangedImage(decodeUnknown: bool, code: seq<Bin>, a: word, b: word)
    requires code == [Bin(0x77F, a, b, 0)] && InField(Arch5, a) && InField(Arch5, b)
    ensures Reassemble(Arch5, decodeUnknown, code) == Some([Bin(0x77F, 0xBC0, 0xBC0, 0)])
  {
    JumpChanged(decodeUnknown, code[0]);
    WhatComesBack(Arch5, decodeUnknown, code);
    assert RewrittenImage(Arch5, code) == [Bin(0x77F, 0xBC0, 0xBC0, 0)];
  }

  /** Likewise a call, unless its middle field is already zero. */
  lemma ChangedCall(decodeUnknown: bool, code: seq<Bin>, lr: word, b: word)
    requires code == [Bin(0x002, lr, b, 0)] && lr <= 3 && InField(Arch5, b)
    ensures Reassemble(Arch5, decodeUnknown, code) == Some([Bin(0x002, lr, 0, 0)])
  {
    CallChanged(decodeUnknown, code[0]);
    WhatComesBack(Arch5, decodeUnknown, code);
    assert RewrittenImage(Arch5, code) == [Bin(0x002, lr, 0, 0)];
  }

  lemma CallChanged(decodeUnknown: bool, bin: Bin)
    requires bin.opcode == 0x002 && bin.a <= 3 && InField(Arch5, bin.b) && bin.c == 0
    ensures InFormat(Arch5, bin) && Accepted(Arch5, decodeUnknown, bin)
    ensures Rewritten(Arch5, bin) == Bin(0x002, bin.a, 0, 0)
  {
  }

  lemma JumpChanged(decodeUnknown: bool, bin: Bin)
    requires bin.opcode == 0x77F && InField(Arch5, bin.a) && InField(Arch5, bin.b) && bin.c == 0
    ensures InFormat(Arch5, bin) && Accepted(Arch5, decodeUnknown, bin)
    ensures Rewritten(Arch5, bin) == Bin(0x77F, 0xBC0, 0xBC0, 0)
  {
  }
}
