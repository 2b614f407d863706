/** The disassembler at work: statements in a linked list that gains labels while it is walked. */
module Disassembler {
  import opened Wrappers
  import opened Bits
  import opened Isa
  import opened Operands
  import opened KernelList
  import opened Listing

  /** struct statement.  The list head is embedded in no statement. */
  datatype Stmt =
    | Head
    | InsnStmt(dis: Dis, labelref: ListNode?<Stmt>)
    | LabelStmt(name: string)

  type Node = ListNode<Stmt>

  /** The first k instructions in order, each behind its label if it has one. */
  ghost function Layout(insns: seq<Node>, labels: map<nat, Node>, k: nat): seq<Node>
    requires k <= |insns|
  {
    if k == 0 then []
    else Layout(insns, labels, k - 1) + (if k - 1 in labels then [labels[k - 1]] else []) + [insns[k - 1]]
  }

  lemma {:induction false} LayoutAt(insns: seq<Node>, labels: map<nat, Node>, k: nat, n: nat)
    requires k < n <= |insns|
    ensures |Layout(insns, labels, k)| < |Layout(insns, labels, k + 1)| <= |Layout(insns, labels, n)|
    ensures Layout(insns, labels, n)[|Layout(insns, labels, k + 1)| - 1] == insns[k]
    ensures k in labels ==> |Layout(insns, labels, k + 1)| == |Layout(insns, labels, k)| + 2
                            && Layout(insns, labels, n)[|Layout(insns, labels, k)|] == labels[k]
    ensures k !in labels ==> |Layout(insns, labels, k + 1)| == |Layout(insns, labels, k)| + 1
  {
    if k < n - 1 {
      LayoutAt(insns, labels, k, n - 1);
    }
  }

  lemma {:induction false} LayoutLonger(insns: seq<Node>, labels: map<nat, Node>, j: nat, k: nat)
    requires j <= k <= |insns|
    ensures |Layout(insns, labels, j)| <= |Layout(insns, labels, k)|
  {
    if j < k {
      LayoutLonger(insns, labels, j, k - 1);
    }
  }

  lemma {:induction false} LayoutAppend(insns: seq<Node>, labels: map<nat, Node>, node: Node, k: nat)
    requires k <= |insns|
    ensures Layout(insns + [node], labels, k) == Layout(insns, labels, k)
  {
    if k > 0 {
      LayoutAppend(insns, labels, node, k - 1);
    }
  }

  lemma Extended(head: Node, insns: seq<Node>, labels: map<nat, Node>, node: Node)
    requires |insns| !in labels
    ensures var list := [head] + Layout(insns, labels, |insns|);
            && InsertAt(list, |list|, node) == list + [node]
            && [head] + Layout(insns + [node], labels, |insns| + 1) == list + [node]
  {
    LayoutAppend(insns, labels, node, |insns|);
  }

  lemma {:induction false} LayoutBelow(insns: seq<Node>, labels: map<nat, Node>, k: nat, mark: Node, n: nat)
    requires n <= k && n <= |insns|
    ensures Layout(insns, labels[k := mark], n) == Layout(insns, labels, n)
  {
    if n > 0 {
      LayoutBelow(insns, labels, k, mark, n - 1);
    }
  }

  lemma {:induction false} LayoutInsert(insns: seq<Node>, labels: map<nat, Node>, k: nat, mark: Node, n: nat)
    requires k < n <= |insns| && k !in labels
    ensures |Layout(insns, labels, k)| <= |Layout(insns, labels, n)|
    ensures Layout(insns, labels[k := mark], n) == InsertAt(Layout(insns, labels, n), |Layout(insns, labels, k)|, mark)
  {
    var before := Layout(insns, labels, n - 1);
    if k == n - 1 {
      LayoutBelow(insns, labels, k, mark, k);
      InsertLast(before, mark, insns[k]);
    } else {
      LayoutInsert(insns, labels, k, mark, n - 1);
      InsertInFront(before, if n - 1 in labels then [labels[n - 1]] else [], [insns[n - 1]],
                          |Layout(insns, labels, k)|, mark);
    }
  }

  lemma InsertLast(front: seq<Node>, mark: Node, node: Node)
    ensures front + [mark] + [node] == InsertAt(front + [] + [node], |front|, mark)
  {
  }

  lemma InsertInFront(front: seq<Node>, a: seq<Node>, b: seq<Node>, at: nat, mark: Node)
    requires at <= |front|
    ensures InsertAt(front, at, mark) + a + b == InsertAt(front + a + b, at, mark)
  {
  }

  /** The number of labels numbered so far, when every label up to instruction k is. */
  function Named(diss: seq<Dis>, k: nat, passed: bool): nat {
    LabelRank(diss, k) + if passed then 1 else 0
  }

  lemma InsertBehind(head: Node, layout: seq<Node>, at: nat, mark: Node)
    requires at <= |layout|
    ensures [head] + InsertAt(layout, at, mark) == InsertAt([head] + layout, at + 1, mark)
  {
  }

  lemma Inserted(head: Node, insns: seq<Node>, labels: map<nat, Node>, k: nat, mark: Node)
    requires k < |insns| && k !in labels && forall j :: j in labels ==> j < |insns|
    ensures var (list, at) := ([head] + Layout(insns, labels, |insns|), |Layout(insns, labels, k)|);
            && at < |list| && list[at] == (if k == 0 then head else insns[k - 1])
            && [head] + Layout(insns, labels[k := mark], |insns|) == InsertAt(list, at + 1, mark)
  {
    var (layout, at) := (Layout(insns, labels, |insns|), |Layout(insns, labels, k)|);
    LayoutInsert(insns, labels, k, mark, |insns|);
    InsertBehind(head, layout, at, mark);
    LayoutAt(insns, labels, k, |insns|);
    SpotInFront(head, insns, labels, k);
  }

  ghost function EntryOf(head: Node, insns: seq<Node>, labels: map<nat, Node>, k: nat): Node
    requires k <= |insns|
  {
    if k in labels then labels[k] else if k < |insns| then insns[k] else head
  }

  /** The places of instruction k and its neighbours in the whole list. */
  lemma Spots(head: Node, insns: seq<Node>, labels: map<nat, Node>, k: nat)
    requires k < |insns| && forall j :: j in labels ==> j < |insns|
    ensures var (list, at) := ([head] + Layout(insns, labels, |insns|), |Layout(insns, labels, k + 1)|);
            && 0 < at < |list| && list[at] == insns[k]
            && list[if at == |list| - 1 then 0 else at + 1] == EntryOf(head, insns, labels, k + 1)
            && list[at - 1] == if k in labels then labels[k] else if k == 0 then head else insns[k - 1]
  {
    LayoutAt(insns, labels, k, |insns|);
    SpotBehind(head, insns, labels, k);
    SpotInFront(head, insns, labels, k);
  }

  lemma SpotBehind(head: Node, insns: seq<Node>, labels: map<nat, Node>, k: nat)
    requires k < |insns| && forall j :: j in labels ==> j < |insns|
    ensures var (list, at) := ([head] + Layout(insns, labels, |insns|), |Layout(insns, labels, k + 1)|);
            at < |list| && list[if at == |list| - 1 then 0 else at + 1] == EntryOf(head, insns, labels, k + 1)
  {
    LayoutAt(insns, labels, k, |insns|);
    if k + 1 < |insns| {
      LayoutAt(insns, labels, k + 1, |insns|);
    }
  }

  lemma SpotInFront(head: Node, insns: seq<Node>, labels: map<nat, Node>, k: nat)
    requires k < |insns|
    ensures var (list, at) := ([head] + Layout(insns, labels, |insns|), |Layout(insns, labels, k + 1)|);
            0 < at < |list| && list[at - 1] == if k in labels then labels[k] else if k == 0 then head else insns[k - 1]
  {
    LayoutAt(insns, labels, k, |insns|);
    if k > 0 {
      LayoutAt(insns, labels, k - 1, |insns|);
    }
  }

  lemma RingAt(s: seq<Node>, i: nat)
    requires Ring(s) && 0 < i < |s|
    ensures s[i].prev == s[i - 1] && s[i - 1].next == s[i] && s[i].next == s[if i == |s| - 1 then 0 else i + 1]
  {
  }

  /** Whether one of the first i instructions refers to the label of instruction a. */
  ghost predicate TargetedBy(diss: seq<Dis>, i: nat, a: nat)
    requires i <= |diss|
  {
    exists j :: 0 <= j < i && HasLabel(diss[j]) && diss[j].labeladdr == a
  }

  class Context {
    const head: Node
    ghost var list: seq<Node>
    ghost var insns: seq<Node>
    ghost var labels: map<nat, Node>

    /** The list holds the instructions in order, and in front of some of them one label. */
    ghost predicate Valid()
      reads this, list, insns, labels.Values
    {
      && list == [head] + Layout(insns, labels, |insns|)
      && Ring(list)
      && head.data == Head
      && (forall k :: 0 <= k < |insns| ==> insns[k].data.InsnStmt?)
      && (forall k :: k in labels ==> k < |insns| && labels[k].data.LabelStmt?)
    }

    /** Where a walk that has seen k instructions continues. */
    ghost function Entry(k: nat): Node
      requires k <= |insns|
      reads this
    {
      if k in labels then labels[k] else if k < |insns| then insns[k] else head
    }

    lemma First()
      requires Valid()
      ensures head.next == Entry(0)
    {
      if |insns| > 0 {
        LayoutAt(insns, labels, 0, |insns|);
        assert list[1] == Entry(0);
      }
    }

    lemma Distinct(j: nat, k: nat)
      requires Valid() && j < k < |insns|
      ensures insns[j] != insns[k]
    {
      Spots(head, insns, labels, j);
      Spots(head, insns, labels, k);
      LayoutAt(insns, labels, j, k + 1);
      LayoutAt(insns, labels, k, k + 1);
      LayoutLonger(insns, labels, j + 1, k);
    }

    /** What follows instruction k. */
    lemma Behind(k: nat)
      requires Valid() && k < |insns|
      ensures insns[k].next == Entry(k + 1)
    {
      Spots(head, insns, labels, k);
      RingAt(list, |Layout(insns, labels, k + 1)|);
    }

    /** What stands in front of instruction k. */
    lemma InFront(k: nat)
      requires Valid() && k < |insns|
      ensures k in labels ==> labels[k].next == insns[k] && insns[k].prev == labels[k]
      ensures k !in labels ==> insns[k].prev == if k == 0 then head else insns[k - 1]
    {
      Spots(head, insns, labels, k);
      RingAt(list, |Layout(insns, labels, k + 1)|);
    }

    constructor ()
      ensures Valid() && insns == [] && labels == map[] && fresh(head)
    {
      head := new ListNode<Stmt>(Head);
      insns, labels := [], map[];
      new;
      list := [head];
    }

    /** Append an instruction to a list that has no labels yet. */
    method Append(dis: Dis)
      requires Valid() && labels == map[]
      modifies this`list, this`insns, list`next, list`prev
      ensures Valid() && |insns| == |old(insns)| + 1
      ensures fresh(insns[|old(insns)|]) && insns[|old(insns)|].data == InsnStmt(dis, null)
      ensures insns == old(insns) + [insns[|old(insns)|]] && list == old(list) + [insns[|old(insns)|]]
    {
      var stmt := new ListNode(InsnStmt(dis, null));
      AppendNode(stmt);
    }

    method AppendNode(stmt: Node)
      requires Valid() && labels == map[] && stmt !in list && stmt.data.InsnStmt?
      modifies this`list, this`insns, list`next, list`prev, stmt`next, stmt`prev
      ensures Valid() && insns == old(insns) + [stmt] && list == old(list) + [stmt]
    {
      Extended(head, insns, labels, stmt);
      ListAddTail(stmt, head, list, 0);
      list, insns := list + [stmt], insns + [stmt];
    }

    /** disasm_opcodes */
    method DisasmOpcodes(disasm: Bin -> Result<Dis, DasmError>, code: seq<Bin>)
      returns (error: Option<DasmError>, ghost diss: seq<Dis>)
      requires Valid() && insns == [] && labels == map[]
      modifies this`list, this`insns, head
      ensures Valid() && |insns| == |diss| <= |code|
      ensures forall k :: 0 <= k < |list| ==> list[k] == head || fresh(list[k])
      ensures forall k :: 0 <= k < |insns| ==>
                disasm(code[k]) == Ok(diss[k]) && insns[k].data == InsnStmt(diss[k], null)
      ensures error.None? ==> |diss| == |code|
      ensures error.Some? ==> |diss| < |code| && disasm(code[|diss|]) == Err(error.value)
    {
      diss := [];
      for i := 0 to |code|
        invariant Valid() && |insns| == |diss| == i && labels == map[]
        invariant forall k :: 0 <= k < |list| ==> list[k] == head || fresh(list[k])
        invariant forall k :: 0 <= k < i ==> disasm(code[k]) == Ok(diss[k]) && insns[k].data == InsnStmt(diss[k], null)
      {
        var dis := disasm(code[i]);
        if dis.Err? {
          return Some(dis.error), diss;
        }
        Append(dis.value);
        diss := diss + [dis.value];
      }
      return None, diss;
    }

    /** Put a new label behind the node in front of instruction k. */
    method InsertLabel(k: nat, mark: Node, prev: Node)
      requires Valid() && k < |insns| && k !in labels && prev == insns[k].prev
      requires mark !in list && mark.data.LabelStmt?
      modifies this`list, this`labels, list`next, list`prev, mark`next, mark`prev
      ensures Valid() && labels == old(labels)[k := mark]
      ensures forall j :: 0 <= j < |list| ==> list[j] in old(list) || list[j] == mark
    {
      InFront(k);
      ghost var at := |Layout(insns, labels, k)|;
      Inserted(head, insns, labels, k, mark);
      ListAdd(mark, prev, list, at);
      list, labels := InsertAt(list, at + 1, mark), labels[k := mark];
    }

    /** get_label_at: the label in front of instruction addr, which is created if there is none yet. */
    method GetLabelAt(addr: nat) returns (found: ListNode?<Stmt>)
      requires Valid()
      modifies this`list, this`labels, list`next, list`prev
      ensures Valid()
      ensures found == null <==> addr >= |insns|
      ensures found == null ==> labels == old(labels) && list == old(list)
      ensures found != null ==> labels == old(labels)[addr := found]
      ensures addr in old(labels) ==> labels == old(labels)
      ensures forall j :: 0 <= j < |list| ==> list[j] in old(list) || fresh(list[j])
    {
      var count := 0;
      First();
      var stmt := head.next;
      while stmt != head
        invariant Valid() && labels == old(labels) && list == old(list)
        invariant count <= addr && count <= |insns|
        invariant stmt == Entry(count) || (count < |insns| && stmt == insns[count])
        invariant stmt == head <==> count == |insns|
        decreases |insns| - count, stmt.data.LabelStmt?
      {
        InFront(count);
        if stmt.data.InsnStmt? {
          Behind(count);
          if count == addr {
            var prev := stmt.prev;
            if prev.data.LabelStmt? {
              return prev;
            }
            found := new ListNode(LabelStmt(""));
            InsertLabel(addr, found, prev);
            return;
          }
          count := count + 1;
        }
        stmt := stmt.next;
      }
      return null;
    }

    /** Instruction k refers to the label in front of its target, if it has a target. */
    ghost predicate Refers(k: nat, dis: Dis)
      requires k < |insns|
      reads this, insns
    {
      && insns[k].data.InsnStmt? && insns[k].data.dis == dis
      && (HasLabel(dis) ==> dis.labeladdr in labels && insns[k].data.labelref == labels[dis.labeladdr])
    }

    /** Give one instruction its label. */
    method ResolveReference(stmt: Node, ghost k: nat) returns (ok: bool)
      requires Valid() && k < |insns| && stmt == insns[k]
      modifies this`list, this`labels, list`next, list`prev, stmt`data
      ensures Valid() && forall j :: 0 <= j < |list| ==> list[j] in old(list) || fresh(list[j])
      ensures forall a :: a in old(labels) ==> a in labels && labels[a] == old(labels)[a]
      ensures var dis := old(stmt.data.dis);
              && ok == (HasLabel(dis) ==> dis.labeladdr < |insns|)
              && (ok ==> Refers(k, dis))
              && forall a :: a in labels <==> a in old(labels) || (ok && HasLabel(dis) && a == dis.labeladdr)
    {
      if stmt.data.dis.labelref < 0 {
        return true;
      }
      var found := GetLabelAt(stmt.data.dis.labeladdr);
      if found == null {
        return false;
      }
      SetReference(stmt, found, k);
      return true;
    }

    method SetReference(stmt: Node, mark: Node, ghost k: nat)
      requires Valid() && k < |insns| && stmt == insns[k]
      requires HasLabel(stmt.data.dis) && stmt.data.dis.labeladdr in labels && mark == labels[stmt.data.dis.labeladdr]
      modifies stmt`data
      ensures Valid() && Refers(k, old(stmt.data.dis))
    {
      stmt.data := stmt.data.(labelref := mark);
    }

    /** The labels are those in front of the targets of the first i instructions. */
    ghost predicate LabelsOf(diss: seq<Dis>, i: nat)
      requires i <= |diss|
      reads this
    {
      forall a :: a in labels <==> TargetedBy(diss, i, a)
    }

    /** The references of the first i instructions are resolved. */
    ghost predicate Progress(diss: seq<Dis>, i: nat)
      reads this, list, insns, labels.Values
    {
      && Valid() && i <= |diss| == |insns|
      && LabelsOf(diss, i)
      && (forall k :: 0 <= k < i ==> Refers(k, diss[k]))
      && (forall k :: i <= k < |insns| ==> insns[k].data == InsnStmt(diss[k], null))
    }

    /** A walk over the list that has left i instructions behind stands at stmt. */
    ghost predicate Standing(i: nat, stmt: ListNode?<Stmt>)
      requires i <= |insns|
      reads this
    {
      stmt == Entry(i) || (i < |insns| && stmt == insns[i])
    }

    lemma StandingAt(i: nat, stmt: Node)
      requires Valid() && i <= |insns| && Standing(i, stmt)
      ensures stmt in list && (stmt == head <==> i == |insns|)
      ensures i < |insns| ==> if stmt.data.LabelStmt? then stmt.next == insns[i]
                              else stmt.data.InsnStmt? && stmt == insns[i] && stmt.next == Entry(i + 1)
    {
      if i < |insns| {
        Spots(head, insns, labels, i);
        InFront(i);
        Behind(i);
        assert i in labels ==> labels[i] in list;
      }
    }

    /** A resolved reference leads to the label that stands directly in front of the instruction with
        the number labeladdr. */
    lemma LabelInFront(diss: seq<Dis>, i: nat, k: nat)
      requires Progress(diss, i) && k < i && HasLabel(diss[k])
      ensures diss[k].labeladdr < |insns| && insns[k].data.labelref != null
      ensures var (target, mark) := (insns[diss[k].labeladdr], insns[k].data.labelref);
              mark.data.LabelStmt? && target.prev == mark && mark.next == target
    {
      assert Refers(k, diss[k]);
      InFront(diss[k].labeladdr);
    }

    method ResolveNext(stmt: Node, n: Node, ghost i: nat, ghost diss: seq<Dis>) returns (ok: bool)
      requires Progress(diss, i) && i < |diss| && stmt == insns[i] && stmt.next == n
      modifies this`list, this`labels, list`next, list`prev, stmt`data
      ensures Valid() && forall j :: 0 <= j < |list| ==> list[j] in old(list) || fresh(list[j])
      ensures ok == (HasLabel(diss[i]) ==> diss[i].labeladdr < |diss|)
      ensures ok ==> Progress(diss, i + 1) && Standing(i + 1, n)
    {
      Behind(i);
      forall k | i < k < |insns| ensures insns[k] != stmt {
        Distinct(i, k);
      }
      forall k | 0 <= k < i ensures insns[k] != stmt {
        Distinct(k, i);
      }
      ok := ResolveReference(stmt, i);
    }

    /** First half of resolve_labels: walk the list, which meanwhile gains labels before and behind. */
    method ResolveReferences(ghost diss: seq<Dis>) returns (error: Option<DasmError>)
      requires Progress(diss, 0)
      modifies this`list, this`labels, list`next, list`prev, list`data
      ensures Valid() && forall j :: 0 <= j < |list| ==> list[j] in old(list) || fresh(list[j])
      ensures error.Some? ==> error.value == LabelOutOfBounds && !LabelsInBounds(diss)
      ensures error.None? ==> Progress(diss, |diss|)
    {
      First();
      var stmt := head.next;
      var n := stmt.next;
      ghost var i := 0;
      while stmt != head
        invariant Progress(diss, i) && forall j :: 0 <= j < |list| ==> list[j] in old(list) || fresh(list[j])
        invariant stmt != null && Standing(i, stmt) && n == stmt.next
        decreases |diss| - i, stmt.data.LabelStmt?
      {
        StandingAt(i, stmt);
        if stmt.data.InsnStmt? {
          var ok := ResolveNext(stmt, n, i, diss);
          if !ok {
            return Some(LabelOutOfBounds);
          }
          i := i + 1;
        }
        stmt := n;
        n := n.next;
      }
      StandingAt(i, stmt);
      return None;
    }

    /** The labels in front of the first i instructions have their names. */
    ghost predicate Numbered(diss: seq<Dis>, i: nat)
      reads this, labels.Values
    {
      forall k :: k in labels && k < i ==> labels[k].data == LabelStmt(LabelOf(diss, k))
    }

    lemma DistinctLabels(j: nat, k: nat)
      requires Valid() && j < k && j in labels && k in labels
      ensures labels[j] != labels[k]
    {
      Spots(head, insns, labels, j);
      Spots(head, insns, labels, k);
      LayoutAt(insns, labels, j, k + 1);
      LayoutAt(insns, labels, k, k + 1);
      LayoutLonger(insns, labels, j + 1, k);
    }

    lemma LabelsApart(i: nat)
      requires Valid() && i in labels
      ensures forall k :: k in labels && k < i ==> labels[k] != labels[i]
    {
      forall k | k in labels && k < i ensures labels[k] != labels[i] {
        DistinctLabels(k, i);
      }
    }

    method NameLabel(stmt: Node, count: nat, ghost i: nat, ghost diss: seq<Dis>)
      requires Progress(diss, |diss|) && Numbered(diss, i) && i < |diss|
      requires i in labels && stmt == labels[i] && count == LabelRank(diss, i)
      modifies stmt`data
      ensures Progress(diss, |diss|) && Numbered(diss, i + 1)
    {
      LabelsApart(i);
      assert forall k :: 0 <= k < |insns| ==> insns[k] != stmt;
      stmt.data := LabelStmt(LabelName(count));
    }

    lemma RankStep(diss: seq<Dis>, i: nat)
      requires Progress(diss, |diss|)
      ensures LabelRank(diss, i + 1) == LabelRank(diss, i) + if i in labels then 1 else 0
      ensures i !in labels && Numbered(diss, i) ==> Numbered(diss, i + 1)
    {
      assert Targeted(diss, i) <==> TargetedBy(diss, |diss|, i);
    }

    /** A walk that stands at stmt has numbered the labels it has left behind. */
    ghost predicate Counted(diss: seq<Dis>, i: nat, stmt: ListNode?<Stmt>, count: nat)
      reads this, list, insns, labels.Values
    {
      && Progress(diss, |diss|) && i <= |diss| && stmt != null && Standing(i, stmt)
      && (if stmt == Entry(i) then Numbered(diss, i) && count == LabelRank(diss, i)
          else Numbered(diss, i + 1) && count == LabelRank(diss, i + 1))
    }

    method NameNext(stmt: Node, count: nat, ghost i: nat, ghost diss: seq<Dis>)
      requires Counted(diss, i, stmt, count) && stmt.data.LabelStmt?
      modifies stmt`data
      ensures Counted(diss, i, stmt.next, count + 1) && stmt.next.data.InsnStmt?
    {
      StandingAt(i, stmt);
      RankStep(diss, i);
      NameLabel(stmt, count, i, diss);
    }

    lemma PassInsn(stmt: Node, count: nat, i: nat, diss: seq<Dis>)
      requires Counted(diss, i, stmt, count) && stmt.data.InsnStmt?
      ensures i < |diss| && Counted(diss, i + 1, stmt.next, count)
    {
      StandingAt(i, stmt);
      RankStep(diss, i);
    }

    lemma CountStarts(diss: seq<Dis>)
      requires Progress(diss, |diss|)
      ensures Counted(diss, 0, head.next, 0)
    {
      First();
    }

    lemma CountEnds(diss: seq<Dis>, i: nat, stmt: Node, count: nat)
      requires Counted(diss, i, stmt, count)
      ensures if stmt == head then Numbered(diss, |diss|)
              else i < |diss| && (stmt.data.LabelStmt? || stmt.data.InsnStmt?)
    {
      StandingAt(i, stmt);
    }

    /** Second half of resolve_labels: number the labels in the order of the list. */
    method NameLabels(ghost diss: seq<Dis>)
      requires Progress(diss, |diss|)
      modifies list`data
      ensures Progress(diss, |diss|) && Numbered(diss, |diss|)
    {
      CountStarts(diss);
      var stmt := head.next;
      var count := 0;
      ghost var i: nat := 0;
      while stmt != head
        invariant Counted(diss, i, stmt, count)
        decreases |diss| - i, stmt.data.LabelStmt?
      {
        CountEnds(diss, i, stmt, count);
        if stmt.data.LabelStmt? {
          StandingAt(i, stmt);
          NameNext(stmt, count, i, diss);
          count := count + 1;
        } else {
          PassInsn(stmt, count, i, diss);
          i := i + 1;
        }
        stmt := stmt.next;
      }
      CountEnds(diss, i, stmt, count);
    }

    /** The labels and lines to be printed. */
    ghost predicate Printable(diss: seq<Dis>, names: seq<Option<string>>, texts: seq<Line>)
      reads this, list, insns, labels.Values
    {
      && Progress(diss, |diss|) && Numbered(diss, |diss|) && |names| == |texts| == |diss|
      && (forall k :: 0 <= k < |diss| ==> |diss[k].operands| == 5 && texts[k] == PrintInsn(diss, diss[k]))
      && (forall k :: 0 <= k < |diss| ==> names[k] == if k in labels then Some(LabelOf(diss, k)) else None)
    }

    /** The line for an instruction statement. */
    method PrintInsnStmt(stmt: Node, ghost k: nat, ghost diss: seq<Dis>,
                         ghost names: seq<Option<string>>, ghost texts: seq<Line>)
      returns (line: Line)
      requires Printable(diss, names, texts) && k < |diss| && stmt == insns[k]
      ensures line == texts[k]
    {
      assert Refers(k, diss[k]) && texts[k] == PrintInsn(diss, diss[k]);
      var dis := stmt.data.dis;
      var name := "";
      if dis.labelref >= 0 {
        name := stmt.data.labelref.data.name;
      }
      var args := PrintOperands(dis, name);
      return InsnLine(dis.op, args);
    }

    /** The text of the i instructions left behind, and of the label in front of the next one if the
        walk has passed it. */
    ghost predicate Emitted(names: seq<Option<string>>, texts: seq<Line>, i: nat, stmt: ListNode?<Stmt>,
                            lines: seq<Line>)
      reads this
    {
      && i <= |insns| == |names| == |texts| && stmt != null && Standing(i, stmt)
      && lines == Body(names, texts, i) + if stmt == Entry(i) then [] else LabelLines(names[i])
    }

    lemma EmitLabel(diss: seq<Dis>, names: seq<Option<string>>, texts: seq<Line>, i: nat, stmt: Node, lines: seq<Line>)
      requires Printable(diss, names, texts) && Emitted(names, texts, i, stmt, lines) && stmt.data.LabelStmt?
      ensures Emitted(names, texts, i, stmt.next, lines + [LabelLine(stmt.data.name)])
    {
      StandingAt(i, stmt);
      assert names[i] == Some(stmt.data.name);
    }

    lemma EmitInsn(diss: seq<Dis>, names: seq<Option<string>>, texts: seq<Line>, i: nat, stmt: Node, lines: seq<Line>)
      requires Printable(diss, names, texts) && Emitted(names, texts, i, stmt, lines) && stmt.data.InsnStmt?
      ensures i < |diss| && stmt == insns[i]
      ensures Emitted(names, texts, i + 1, stmt.next, lines + [texts[i]])
    {
      StandingAt(i, stmt);
      assert stmt == Entry(i) ==> names[i] == None;
      assert lines == Body(names, texts, i) + LabelLines(names[i]);
    }

    /** resolve_labels */
    method ResolveLabels(ghost diss: seq<Dis>, ghost names: seq<Option<string>>, ghost texts: seq<Line>)
      returns (error: Option<DasmError>)
      requires Progress(diss, 0) && |names| == |texts| == |diss|
      requires forall k :: 0 <= k < |diss| ==> |diss[k].operands| == 5 && texts[k] == PrintInsn(diss, diss[k])
      requires forall k :: 0 <= k < |diss| ==> names[k] == if Targeted(diss, k) then Some(LabelOf(diss, k)) else None
      modifies this`list, this`labels, list`next, list`prev, list`data
      ensures error == if LabelsInBounds(diss) then None else Some(LabelOutOfBounds)
      ensures error.None? ==> Printable(diss, names, texts)
    {
      error := ResolveReferences(diss);
      if error.None? {
        NameLabels(diss);
        forall k | 0 <= k < |diss| ensures k in labels <==> Targeted(diss, k) {
          assert Targeted(diss, k) <==> TargetedBy(diss, |diss|, k);
        }
        forall k | 0 <= k < |diss| && HasLabel(diss[k]) ensures diss[k].labeladdr < |diss| {
          assert Refers(k, diss[k]);
        }
      }
    }

    method EmitStmt(stmt: Node, lines: seq<Line>, ghost i: nat,
                    ghost diss: seq<Dis>, ghost names: seq<Option<string>>, ghost texts: seq<Line>)
      returns (more: seq<Line>, ghost j: nat)
      requires Printable(diss, names, texts) && Emitted(names, texts, i, stmt, lines) && stmt != head
      ensures i <= j && Emitted(names, texts, j, stmt.next, more)
      ensures i == j ==> stmt == Entry(i) && stmt.next != Entry(i)
    {
      j := if stmt.data.LabelStmt? then i else i + 1;
      StandingAt(i, stmt);
      if stmt.data.LabelStmt? {
        EmitLabel(diss, names, texts, i, stmt, lines);
        more := lines + [LabelLine(stmt.data.name)];
      } else {
        EmitInsn(diss, names, texts, i, stmt, lines);
        var line := PrintInsnStmt(stmt, i, diss, names, texts);
        more := lines + [line];
      }
    }

    /** emit_asm behind its header */
    method EmitBody(ghost diss: seq<Dis>, ghost names: seq<Option<string>>, ghost texts: seq<Line>)
      returns (lines: seq<Line>)
      requires Printable(diss, names, texts)
      ensures lines == Body(names, texts, |diss|)
    {
      First();
      var stmt := head.next;
      lines := [];
      ghost var i: nat := 0;
      while stmt != head
        invariant Emitted(names, texts, i, stmt, lines)
        decreases |diss| - i, stmt == Entry(i)
      {
        lines, i := EmitStmt(stmt, lines, i, diss, names, texts);
        stmt := stmt.next;
      }
      EmittedAll(diss, names, texts, i, lines);
    }

    lemma EmittedAll(diss: seq<Dis>, names: seq<Option<string>>, texts: seq<Line>, i: nat, lines: seq<Line>)
      requires Printable(diss, names, texts) && Emitted(names, texts, i, head, lines)
      ensures lines == Body(names, texts, |diss|)
    {
      StandingAt(i, head);
    }
  }

  /** The operands printed from the first n slots. */
  ghost function Slots(dis: Dis, name: string, n: nat): seq<Operand>
    requires n <= |dis.operands|
  {
    if n == 0 then [] else Slots(dis, name, n - 1) + PrintSlot(dis, n - 1, name)
  }

  method PrintOperands(dis: Dis, name: string) returns (args: seq<Operand>)
    requires |dis.operands| == 5
    ensures args == PrintArgs(dis, name)
    ensures !HasLabel(dis) ==> forall other :: args == PrintArgs(dis, other)
  {
    args := [];
    for i := 0 to 5
      invariant args == Slots(dis, name, i)
    {
      if dis.operands[i].None? && (dis.labelref < 0 || dis.labelref != i) {
        continue;
      }
      args := args + [if dis.labelref >= 0 && dis.labelref == i then Ref(name, Absolute) else dis.operands[i].value];
    }
    assert Slots(dis, name, 5) == PrintArgs(dis, name) by {
      assert Slots(dis, name, 2) == PrintSlot(dis, 0, name) + PrintSlot(dis, 1, name);
      assert Slots(dis, name, 4) == Slots(dis, name, 2) + PrintSlot(dis, 2, name) + PrintSlot(dis, 3, name);
    }
  }

  /** Disassembling up to the first error, or to the end. */
  lemma UpToFirstError(arch: Arch, decodeUnknown: bool, code: seq<Bin>, diss: seq<Dis>)
    requires |diss| <= |code|
    requires forall k :: 0 <= k < |diss| ==> DisInsn(arch, decodeUnknown, code[k]) == Ok(diss[k])
    requires |diss| < |code| ==> DisInsn(arch, decodeUnknown, code[|diss|]).Err?
    ensures |diss| == |code| ==> Disassembled(arch, decodeUnknown, code) == Ok(diss)
    ensures |diss| < |code| ==>
              Disassembled(arch, decodeUnknown, code) == Err(DisInsn(arch, decodeUnknown, code[|diss|]).error)
  {
    var results := DisInsns(arch, decodeUnknown, code);
    assert forall k :: 0 <= k < |diss| ==> results[k] == Ok(diss[k]);
    if |diss| == |code| {
      assert Values(results).value == diss;
    } else {
      FirstError(results, |diss|);
    }
  }

  /** The disassembler from instruction words to assembly text. */
  method DisassembleCode(arch: Arch, decodeUnknown: bool, code: seq<Bin>) returns (r: Result<seq<Line>, DasmError>)
    ensures r == Disassemble(arch, decodeUnknown, code)
  {
    var ctx := new Context();
    var error, diss := ctx.DisasmOpcodes(bin => DisInsn(arch, decodeUnknown, bin), code);
    UpToFirstError(arch, decodeUnknown, code, diss);
    if error.Some? {
      return Err(error.value);
    }
    error := ctx.ResolveLabels(diss, Labels(diss), InsnLines(diss));
    if error.Some? {
      return Err(error.value);
    }
    var body := ctx.EmitBody(diss, Labels(diss), InsnLines(diss));
    return Ok(Header(arch) + body);
  }
}
