/** Label resolution as a specification: which label a reference means, what address it has, and what
    the linked instruction words are. */
module Linker {
  import opened Wrappers
  import opened Bits
  import opened Isa
  import opened Operands
  import opened Lowering

  /** struct code_output: an instruction or a label in the output list. */
  datatype Node =
    | OutInsn(code: Code, isStart: bool, address: nat)
    | OutLabel(labelName: string, address: nat)

  /** The address of position i: the number of instructions before it. */
  function Address(nodes: seq<Node>, i: nat): nat
    requires i <= |nodes|
  {
    if i == 0 then 0 else Address(nodes, i - 1) + if nodes[i - 1].OutInsn? then 1 else 0
  }

  predicate Named(node: Node, name: string) {
    node.OutLabel? && node.labelName == name
  }

  function FirstLabel(nodes: seq<Node>, from: nat, name: string): (r: Option<nat>)
    requires from <= |nodes|
    ensures r.None? ==> forall j :: from <= j < |nodes| ==> !Named(nodes[j], name)
    ensures r.Some? ==> from <= r.value < |nodes| && Named(nodes[r.value], name)
                        && forall j :: from <= j < r.value ==> !Named(nodes[j], name)
    decreases |nodes| - from
  {
    if from == |nodes| then None
    else if Named(nodes[from], name) then Some(from)
    else FirstLabel(nodes, from + 1, name)
  }

  function LastLabel(nodes: seq<Node>, before: nat, name: string): (r: Option<nat>)
    requires before <= |nodes|
    ensures r.None? ==> forall j :: 0 <= j < before ==> !Named(nodes[j], name)
    ensures r.Some? ==> r.value < before && Named(nodes[r.value], name)
                        && forall j :: r.value < j < before ==> !Named(nodes[j], name)
  {
    if before == 0 then None
    else if Named(nodes[before - 1], name) then Some(before - 1)
    else LastLabel(nodes, before - 1, name)
  }

  /** The label a reference at position i means: the only one of that name, or the nearest one of
      that name before or after it. */
  function Target(nodes: seq<Node>, i: nat, name: string, dir: Direction): (r: Result<nat, AsmError>)
    requires i < |nodes|
    ensures r.Ok? ==> r.value < |nodes| && Named(nodes[r.value], name)
  {
    match dir
    case Absolute => OnlyLabel(nodes, name)
    case Back => Present(LastLabel(nodes, i, name))
    case Forward => Present(FirstLabel(nodes, i + 1, name))
  }

  function Present(found: Option<nat>): Result<nat, AsmError> {
    if found.Some? then Ok(found.value) else Err(UnknownLabel)
  }

  function OnlyLabel(nodes: seq<Node>, name: string): Result<nat, AsmError> {
    var found := FirstLabel(nodes, 0, name);
    if found.Some? && FirstLabel(nodes, found.value + 1, name).Some? then Err(AmbiguousLabel) else Present(found)
  }

  /** Jump targets are bare addresses; a label in an input operand is made an immediate by setting
      the bits of the immediate class. */
  function PlaceAddress(arch: Arch, slot: nat, address: nat): word {
    if slot == 2 then Word(address) else Word(BitOr(Word(address), ImmBase(arch)))
  }

  function LinkOperand(arch: Arch, nodes: seq<Node>, i: nat, slot: nat, o: OutOperand): Result<word, AsmError>
    requires i < |nodes|
  {
    match o
    case Normal(v) => Ok(v)
    case LabelRef(name, dir) => var j :- Target(nodes, i, name, dir); Ok(PlaceAddress(arch, slot, Address(nodes, j)))
    case Resolved(_) => Err(BadOperand)
  }

  function LinkInsn(arch: Arch, nodes: seq<Node>, i: nat): Result<Bin, AsmError>
    requires i < |nodes| && nodes[i].OutInsn?
  {
    var code := nodes[i].code;
    var a :- LinkOperand(arch, nodes, i, 0, code.a);
    var b :- LinkOperand(arch, nodes, i, 1, code.b);
    var c :- LinkOperand(arch, nodes, i, 2, code.c);
    Ok(Bin(code.opcode, a, b, c))
  }

  function LinkFrom(arch: Arch, nodes: seq<Node>, i: nat): Result<seq<Bin>, AsmError>
    requires i <= |nodes|
    decreases |nodes| - i
  {
    if i == |nodes| then Ok([])
    else if nodes[i].OutLabel? then LinkFrom(arch, nodes, i + 1)
    else
      var bin :- LinkInsn(arch, nodes, i);
      var rest :- LinkFrom(arch, nodes, i + 1);
      Ok([bin] + rest)
  }

  /** The start jump, if there is one, is the first output instruction. */
  predicate HasStart(nodes: seq<Node>) {
    nodes != [] && nodes[0].OutInsn? && nodes[0].isStart
  }

  function StartTarget(nodes: seq<Node>): Result<nat, AsmError>
    requires HasStart(nodes)
  {
    var t := nodes[0].code.c;
    if !t.LabelRef? || t.dir != Absolute then Err(BadStart)
    else var j :- Target(nodes, 0, t.name, t.dir); Ok(Address(nodes, j))
  }

  /** A start jump to the instruction right behind it is dropped. */
  function ElideStart(nodes: seq<Node>): Result<seq<Node>, AsmError> {
    if HasStart(nodes) then
      var a :- StartTarget(nodes);
      Ok(if a == 1 then nodes[1..] else nodes)
    else Ok(nodes)
  }

  function Link(arch: Arch, nodes: seq<Node>): Result<seq<Bin>, AsmError> {
    var kept :- ElideStart(nodes);
    LinkFrom(arch, kept, 0)
  }

  /** A name that labels exactly one position means that position. */
  lemma UniqueLabel(nodes: seq<Node>, j: nat, name: string)
    requires j < |nodes| && Named(nodes[j], name)
    requires forall k :: 0 <= k < |nodes| && k != j ==> !Named(nodes[k], name)
    ensures OnlyLabel(nodes, name) == Ok(j)
  {
    var found := FirstLabel(nodes, 0, name);
    assert found.Some? && found.value == j;
    var again := FirstLabel(nodes, j + 1, name);
    assert again.None?;
  }

  /** Whether position j is the one that a reference at position i means: the only label of the name, or
      the nearest one of that name looking back or looking forward. */
  predicate Means(nodes: seq<Node>, i: nat, name: string, dir: Direction, j: nat)
    requires i < |nodes|
  {
    && j < |nodes| && Named(nodes[j], name)
    && match dir
       case Absolute => forall k :: 0 <= k < |nodes| && k != j ==> !Named(nodes[k], name)
       case Back => j < i && forall k :: j < k < i ==> !Named(nodes[k], name)
       case Forward => i < j && forall k :: i < k < j ==> !Named(nodes[k], name)
  }

  /** A reference resolves to a label exactly if it means that label, in terms of positions and names. */
  lemma TargetMeans(nodes: seq<Node>, i: nat, name: string, dir: Direction, j: nat)
    requires i < |nodes|
    ensures Target(nodes, i, name, dir) == Ok(j) <==> Means(nodes, i, name, dir, j)
  {
    match dir
    case Absolute =>
      if Means(nodes, i, name, dir, j) {
        UniqueLabel(nodes, j, name);
      }
    case Back =>
      var found := LastLabel(nodes, i, name);
    case Forward =>
      var found := FirstLabel(nodes, i + 1, name);
  }

  /** It is ambiguous exactly if it is absolute and two labels have the name. */
  lemma AmbiguousMeans(nodes: seq<Node>, i: nat, name: string, dir: Direction)
    requires i < |nodes|
    ensures Target(nodes, i, name, dir) == Err(AmbiguousLabel)
            <==> && dir == Absolute
                 && exists j, k :: 0 <= j < k < |nodes| && Named(nodes[j], name) && Named(nodes[k], name)
  {
    if dir == Absolute {
      var found := FirstLabel(nodes, 0, name);
      if found.Some? {
        var again := FirstLabel(nodes, found.value + 1, name);
      }
    }
  }

  lemma {:induction false} AddressPrefix(nodes: seq<Node>, more: seq<Node>, i: nat)
    requires i <= |nodes|
    ensures Address(nodes + more, i) == Address(nodes, i)
  {
    if i > 0 {
      AddressPrefix(nodes, more, i - 1);
    }
  }

  // ---------------------------------------------------------------- one output per instruction

  lemma {:induction false} AddressFrom(nodes: seq<Node>, i: nat, j: nat)
    requires i <= j <= |nodes|
    ensures Address(nodes, i) <= Address(nodes, j)
    decreases j
  {
    if i < j {
      AddressFrom(nodes, i, j - 1);
    }
  }

  lemma {:induction false} LinkedFrom(arch: Arch, nodes: seq<Node>, i: nat)
    requires i <= |nodes| && LinkFrom(arch, nodes, i).Ok?
    ensures |LinkFrom(arch, nodes, i).value| == Address(nodes, |nodes|) - Address(nodes, i)
    ensures forall k :: i <= k < |nodes| && nodes[k].OutInsn? ==>
              && 0 <= Address(nodes, k) - Address(nodes, i) < |LinkFrom(arch, nodes, i).value|
              && LinkInsn(arch, nodes, k) == Ok(LinkFrom(arch, nodes, i).value[Address(nodes, k) - Address(nodes, i)])
    decreases |nodes| - i
  {
    if i < |nodes| {
      LinkedFrom(arch, nodes, i + 1);
      assert Address(nodes, i + 1) == Address(nodes, i) + if nodes[i].OutInsn? then 1 else 0;
      forall k | i <= k < |nodes| && nodes[k].OutInsn?
        ensures 0 <= Address(nodes, k) - Address(nodes, i) < |LinkFrom(arch, nodes, i).value|
        ensures LinkInsn(arch, nodes, k) == Ok(LinkFrom(arch, nodes, i).value[Address(nodes, k) - Address(nodes, i)])
      {
        if i < k {
          AddressFrom(nodes, i + 1, k);
        }
      }
    }
  }

  /** Each instruction of the list is linked to exactly one word, at its own address. */
  lemma LinkedAt(arch: Arch, nodes: seq<Node>, bins: seq<Bin>, k: nat)
    requires LinkFrom(arch, nodes, 0) == Ok(bins) && k < |nodes| && nodes[k].OutInsn?
    ensures Address(nodes, k) < |bins| && LinkInsn(arch, nodes, k) == Ok(bins[Address(nodes, k)])
  {
    LinkedFrom(arch, nodes, 0);
  }

  lemma LinkedLength(arch: Arch, nodes: seq<Node>, bins: seq<Bin>)
    requires LinkFrom(arch, nodes, 0) == Ok(bins)
    ensures |bins| == Address(nodes, |nodes|)
  {
    LinkedFrom(arch, nodes, 0);
  }

  /** The list links exactly when each of its instructions does. */
  lemma {:induction false} LinksWhenAllDo(arch: Arch, nodes: seq<Node>, i: nat)
    requires i <= |nodes|
    ensures LinkFrom(arch, nodes, i).Ok?
            <==> forall k :: i <= k < |nodes| && nodes[k].OutInsn? ==> LinkInsn(arch, nodes, k).Ok?
    decreases |nodes| - i
  {
    if i < |nodes| {
      LinksWhenAllDo(arch, nodes, i + 1);
    }
  }

  // ---------------------------------------------------------------- start jump elision

  lemma {:induction false} AddressShift(nodes: seq<Node>, i: nat)
    requires i < |nodes| && nodes[0].OutInsn?
    ensures Address(nodes, i + 1) == Address(nodes[1..], i) + 1
  {
    if i == 0 {
      assert Address(nodes, 0) == 0;
    } else {
      AddressShift(nodes, i - 1);
    }
  }

  lemma FirstLabelShift(nodes: seq<Node>, from: nat, name: string)
    requires from < |nodes| && nodes[0].OutInsn?
    ensures var (f, g) := (FirstLabel(nodes, from + 1, name), FirstLabel(nodes[1..], from, name));
            f.Some? == g.Some? && (f.Some? ==> f.value == g.value + 1)
  {
    var rest := nodes[1..];
    var (f, g) := (FirstLabel(nodes, from + 1, name), FirstLabel(rest, from, name));
    if f.Some? {
      assert Named(rest[f.value - 1], name);
    }
    if g.Some? {
      assert Named(nodes[g.value + 1], name);
    }
  }

  lemma LastLabelShift(nodes: seq<Node>, before: nat, name: string)
    requires before < |nodes| && nodes[0].OutInsn?
    ensures var (f, g) := (LastLabel(nodes, before + 1, name), LastLabel(nodes[1..], before, name));
            f.Some? == g.Some? && (f.Some? ==> f.value == g.value + 1)
  {
    var rest := nodes[1..];
    var (f, g) := (LastLabel(nodes, before + 1, name), LastLabel(rest, before, name));
    if f.Some? {
      assert Named(rest[f.value - 1], name);
    }
    if g.Some? {
      assert Named(nodes[g.value + 1], name);
    }
  }

  lemma OnlyLabelShift(nodes: seq<Node>, name: string)
    requires 1 < |nodes| && nodes[0].OutInsn?
    ensures var (t, u) := (OnlyLabel(nodes, name), OnlyLabel(nodes[1..], name));
            if t.Ok? then t.value > 0 && u == Ok(t.value - 1) else u == t
  {
    FirstLabelShift(nodes, 0, name);
    assert FirstLabel(nodes, 0, name) == FirstLabel(nodes, 1, name);
    var f := FirstLabel(nodes, 0, name);
    if f.Some? {
      FirstLabelShift(nodes, f.value, name);
    }
  }

  /** Dropping the first instruction moves every label one position and one address down and leaves
      every reference meaning the same label. */
  lemma TargetShift(nodes: seq<Node>, i: nat, name: string, dir: Direction)
    requires i + 1 < |nodes| && nodes[0].OutInsn?
    ensures var (t, u) := (Target(nodes, i + 1, name, dir), Target(nodes[1..], i, name, dir));
            if t.Ok? then t.value > 0 && u == Ok(t.value - 1)
                              && Address(nodes, t.value) == Address(nodes[1..], t.value - 1) + 1
            else u == t
  {
    var rest := nodes[1..];
    match dir {
      case Absolute => OnlyLabelShift(nodes, name);
      case Back => LastLabelShift(nodes, i, name);
      case Forward => FirstLabelShift(nodes, i + 1, name);
    }
    var t := Target(nodes, i + 1, name, dir);
    if t.Ok? {
      AddressShift(nodes, t.value - 1);
    }
  }

  /** The same operand, with a label address one lower. */
  ghost predicate OneLower(arch: Arch, slot: nat, o: OutOperand, full: word, elided: word) {
    match o
    case Normal(v) => full == elided == v
    case _ => exists a: nat :: full == PlaceAddress(arch, slot, a + 1) && elided == PlaceAddress(arch, slot, a)
  }

  ghost predicate OneLowerInsn(arch: Arch, code: Code, full: Bin, elided: Bin) {
    && full.opcode == elided.opcode == code.opcode
    && OneLower(arch, 0, code.a, full.a, elided.a)
    && OneLower(arch, 1, code.b, full.b, elided.b)
    && OneLower(arch, 2, code.c, full.c, elided.c)
  }

  lemma LabelShift(arch: Arch, nodes: seq<Node>, i: nat, slot: nat, name: string, dir: Direction)
    requires i + 1 < |nodes| && nodes[0].OutInsn? && Target(nodes, i + 1, name, dir).Ok?
    ensures var (t, u) := (Target(nodes, i + 1, name, dir), Target(nodes[1..], i, name, dir));
            u.Ok? && OneLower(arch, slot, LabelRef(name, dir), PlaceAddress(arch, slot, Address(nodes, t.value)),
                              PlaceAddress(arch, slot, Address(nodes[1..], u.value)))
  {
    TargetShift(nodes, i, name, dir);
  }

  lemma OperandShift(arch: Arch, nodes: seq<Node>, i: nat, slot: nat, o: OutOperand)
    requires i + 1 < |nodes| && nodes[0].OutInsn?
    ensures var (full, elided) := (LinkOperand(arch, nodes, i + 1, slot, o), LinkOperand(arch, nodes[1..], i, slot, o));
            if full.Ok? then elided.Ok? && OneLower(arch, slot, o, full.value, elided.value) else elided == full
  {
    if o.LabelRef? {
      TargetShift(nodes, i, o.name, o.dir);
      if Target(nodes, i + 1, o.name, o.dir).Ok? {
        LabelShift(arch, nodes, i, slot, o.name, o.dir);
      }
    }
  }

  lemma InsnShift(arch: Arch, nodes: seq<Node>, i: nat)
    requires i + 1 < |nodes| && nodes[0].OutInsn? && nodes[i + 1].OutInsn?
    ensures var (full, elided) := (LinkInsn(arch, nodes, i + 1), LinkInsn(arch, nodes[1..], i));
            if full.Ok? then elided.Ok? && OneLowerInsn(arch, nodes[i + 1].code, full.value, elided.value)
            else elided == full
  {
    var code := nodes[i + 1].code;
    OperandShift(arch, nodes, i, 0, code.a);
    OperandShift(arch, nodes, i, 1, code.b);
    OperandShift(arch, nodes, i, 2, code.c);
  }

  ghost predicate Shifted(arch: Arch, nodes: seq<Node>, full: seq<Bin>, elided: seq<Bin>) {
    && |full| == |elided| + 1
    && forall i :: 0 < i < |nodes| && nodes[i].OutInsn? ==>
         && 0 < Address(nodes, i) <= |elided|
         && OneLowerInsn(arch, nodes[i].code, full[Address(nodes, i)], elided[Address(nodes, i) - 1])
  }

  ghost predicate AllLink(arch: Arch, nodes: seq<Node>) {
    forall i :: 0 <= i < |nodes| && nodes[i].OutInsn? ==> LinkInsn(arch, nodes, i).Ok?
  }

  lemma AllLinkDown(arch: Arch, nodes: seq<Node>)
    requires HasStart(nodes) && AllLink(arch, nodes)
    ensures AllLink(arch, nodes[1..])
  {
    var rest := nodes[1..];
    forall i | 0 <= i < |rest| && rest[i].OutInsn? ensures LinkInsn(arch, rest, i).Ok? {
      assert nodes[i + 1].OutInsn?;
      InsnShift(arch, nodes, i);
    }
  }

  lemma AllLinkUp(arch: Arch, nodes: seq<Node>)
    requires HasStart(nodes) && LinkInsn(arch, nodes, 0).Ok? && AllLink(arch, nodes[1..])
    ensures AllLink(arch, nodes)
  {
    forall i | 0 <= i < |nodes| && nodes[i].OutInsn? ensures LinkInsn(arch, nodes, i).Ok? {
      if i > 0 {
        assert nodes[1..][i - 1].OutInsn?;
        InsnShift(arch, nodes, i - 1);
      }
    }
  }

  lemma ElisionLinks(arch: Arch, nodes: seq<Node>)
    requires HasStart(nodes) && LinkInsn(arch, nodes, 0).Ok?
    ensures LinkFrom(arch, nodes, 0).Ok? <==> LinkFrom(arch, nodes[1..], 0).Ok?
  {
    LinksWhenAllDo(arch, nodes, 0);
    LinksWhenAllDo(arch, nodes[1..], 0);
    if AllLink(arch, nodes) {
      AllLinkDown(arch, nodes);
    }
    if AllLink(arch, nodes[1..]) {
      AllLinkUp(arch, nodes);
    }
  }

  /** Start jump elision is correct: with or without the start jump the same programs link, and the
      elided output is the other one without its first instruction and with every label address one
      lower. */
  lemma ElisionShifts(arch: Arch, nodes: seq<Node>)
    requires HasStart(nodes) && StartTarget(nodes) == Ok(1) && LinkInsn(arch, nodes, 0).Ok?
    ensures Link(arch, nodes) == LinkFrom(arch, nodes[1..], 0)
    ensures LinkFrom(arch, nodes, 0).Ok? <==> Link(arch, nodes).Ok?
    ensures Link(arch, nodes).Ok? ==> Shifted(arch, nodes, LinkFrom(arch, nodes, 0).value, Link(arch, nodes).value)
  {
    var rest := nodes[1..];
    ElisionLinks(arch, nodes);
    if Link(arch, nodes).Ok? {
      var (full, elided) := (LinkFrom(arch, nodes, 0).value, Link(arch, nodes).value);
      LinkedLength(arch, nodes, full);
      LinkedLength(arch, rest, elided);
      AddressShift(nodes, |rest|);
      forall i | 0 < i < |nodes| && nodes[i].OutInsn?
        ensures 0 < Address(nodes, i) <= |elided|
        ensures OneLowerInsn(arch, nodes[i].code, full[Address(nodes, i)], elided[Address(nodes, i) - 1])
      {
        ShiftedAt(arch, nodes, full, elided, i);
      }
    }
  }

  lemma ShiftedAt(arch: Arch, nodes: seq<Node>, full: seq<Bin>, elided: seq<Bin>, i: nat)
    requires HasStart(nodes) && 0 < i < |nodes| && nodes[i].OutInsn?
    requires LinkFrom(arch, nodes, 0) == Ok(full) && LinkFrom(arch, nodes[1..], 0) == Ok(elided)
    ensures 0 < Address(nodes, i) <= |elided| && Address(nodes, i) < |full|
    ensures OneLowerInsn(arch, nodes[i].code, full[Address(nodes, i)], elided[Address(nodes, i) - 1])
  {
    var (rest, p) := (nodes[1..], Address(nodes, i));
    AddressShift(nodes, i - 1);
    assert rest[i - 1] == nodes[i] && Address(rest, i - 1) == p - 1;
    LinkedAt(arch, nodes, full, i);
    LinkedAt(arch, rest, elided, i - 1);
    BothLinked(arch, nodes, i, full[p], elided[p - 1]);
  }

  lemma BothLinked(arch: Arch, nodes: seq<Node>, i: nat, full: Bin, elided: Bin)
    requires 0 < i < |nodes| && nodes[0].OutInsn? && nodes[i].OutInsn?
    requires LinkInsn(arch, nodes, i) == Ok(full) && LinkInsn(arch, nodes[1..], i - 1) == Ok(elided)
    ensures OneLowerInsn(arch, nodes[i].code, full, elided)
  {
    InsnShift(arch, nodes, i - 1);
  }

  /** Control may pass from address p to address q: to the next instruction, or along a label in the
      jump target slot. */
  ghost predicate Flows(nodes: seq<Node>, p: nat, q: nat) {
    exists i :: 0 <= i < |nodes| && FlowsAt(nodes, i, p, q)
  }

  predicate FlowsAt(nodes: seq<Node>, i: nat, p: nat, q: nat)
    requires i < |nodes|
  {
    && nodes[i].OutInsn? && Address(nodes, i) == p
    && (|| q == p + 1
        || (var t := nodes[i].code.c;
            t.LabelRef? && var r := Target(nodes, i, t.name, t.dir); r.Ok? && q == Address(nodes, r.value)))
  }

  lemma FlowsAtShift(nodes: seq<Node>, i: nat, p: nat, q: nat)
    requires i + 1 < |nodes| && nodes[0].OutInsn?
    ensures FlowsAt(nodes, i + 1, p + 1, q + 1) <==> FlowsAt(nodes[1..], i, p, q)
  {
    AddressShift(nodes, i);
    var node := nodes[i + 1];
    if node.OutInsn? && node.code.c.LabelRef? {
      TargetShift(nodes, i, node.code.c.name, node.code.c.dir);
    }
  }

  /** Address k + 1 of the full program and address k of the elided one correspond along every edge of
      the control flow, and the start jump goes to address 1, so the same instructions run. */
  lemma ElisionKeepsFlow(nodes: seq<Node>, p: nat, q: nat)
    requires HasStart(nodes) && StartTarget(nodes) == Ok(1)
    ensures Flows(nodes, p + 1, q + 1) <==> Flows(nodes[1..], p, q)
    ensures Flows(nodes, 0, q) <==> q == 1
    ensures !Flows(nodes, p + 1, 0)
  {
    var rest := nodes[1..];
    if Flows(nodes, p + 1, q + 1) {
      var i :| 0 <= i < |nodes| && FlowsAt(nodes, i, p + 1, q + 1);
      assert Address(nodes, 0) == 0;
      FlowsAtShift(nodes, i - 1, p, q);
    }
    if Flows(rest, p, q) {
      var i :| 0 <= i < |rest| && FlowsAt(rest, i, p, q);
      FlowsAtShift(nodes, i, p, q);
    }
    assert FlowsAt(nodes, 0, 0, 1);
    forall i | 0 < i < |nodes| ensures Address(nodes, i) > 0 {
      AddressShift(nodes, i - 1);
    }
    var here := p + 1;
    forall i | 0 <= i < |nodes| ensures !FlowsAt(nodes, i, here, 0) {
      if i > 0 && nodes[i].OutInsn? && nodes[i].code.c.LabelRef? {
        TargetShift(nodes, i - 1, nodes[i].code.c.name, nodes[i].code.c.dir);
      }
    }
  }
}
