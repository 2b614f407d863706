/** The shape of a listing: what erasing its labels leaves, and where the labels stand. */
module ListingShape {
  import opened Wrappers
  import opened Isa
  import opened Listing

  /** The lines that are no labels. */
  function Erased(lines: seq<Line>): seq<Line> {
    if lines == [] then []
    else Erased(lines[..|lines| - 1]) + if lines[|lines| - 1].LabelLine? then [] else [lines[|lines| - 1]]
  }

  lemma {:induction false} ErasedConcat(a: seq<Line>, b: seq<Line>)
    ensures Erased(a + b) == Erased(a) + Erased(b)
  {
    if b == [] {
      assert a + b == a;
    } else {
      ErasedConcat(a, b[..|b| - 1]);
      assert (a + b)[..|a + b| - 1] == a + b[..|b| - 1];
    }
  }

  lemma ErasedOne(line: Line)
    ensures Erased([line]) == if line.LabelLine? then [] else [line]
  {
    var one := [line];
    assert one[..|one| - 1] == [] && Erased([]) == [];
  }

  lemma ErasedStep(front: seq<Line>, name: Option<string>, line: Line)
    requires !line.LabelLine?
    ensures Erased(front + LabelLines(name) + [line]) == Erased(front) + [line]
  {
    ErasedConcat(front + LabelLines(name), [line]);
    ErasedOne(line);
    if name.Some? {
      ErasedConcat(front, [LabelLine(name.value)]);
      ErasedOne(LabelLine(name.value));
    } else {
      assert front + LabelLines(name) == front;
    }
  }

  /** Erasing the labels leaves every instruction, once and in order. */
  lemma {:induction false} ErasedBody(labels: seq<Option<string>>, insns: seq<Line>, n: nat)
    requires n <= |insns| == |labels| && forall k :: 0 <= k < |insns| ==> insns[k].InsnLine?
    ensures Erased(Body(labels, insns, n)) == insns[..n]
  {
    if n > 0 {
      ErasedBody(labels, insns, n - 1);
      ErasedStep(Body(labels, insns, n - 1), labels[n - 1], insns[n - 1]);
      OneMore(insns, n);
    }
  }

  lemma OneMore<T>(s: seq<T>, n: nat)
    requires 0 < n <= |s|
    ensures s[..n] == s[..n - 1] + [s[n - 1]]
  {
  }

  /** The number of labels in front of the first n instructions. */
  function LabelCount(labels: seq<Option<string>>, n: nat): nat
    requires n <= |labels|
  {
    if n == 0 then 0 else LabelCount(labels, n - 1) + if labels[n - 1].Some? then 1 else 0
  }

  lemma {:induction false} BodySize(labels: seq<Option<string>>, insns: seq<Line>, n: nat)
    requires n <= |insns| == |labels|
    ensures |Body(labels, insns, n)| == n + LabelCount(labels, n)
  {
    if n > 0 {
      BodySize(labels, insns, n - 1);
    }
  }

  lemma {:induction false} BodyPrefix(labels: seq<Option<string>>, insns: seq<Line>, m: nat, n: nat)
    requires m <= n <= |insns| == |labels|
    ensures Body(labels, insns, m) <= Body(labels, insns, n)
  {
    if m < n {
      BodyPrefix(labels, insns, m, n - 1);
    }
  }

  /** The last line of an instruction's part of the body, and the line in front of it. */
  lemma LastLines(labels: seq<Option<string>>, insns: seq<Line>, k: nat)
    requires k < |insns| == |labels| && forall j :: 0 <= j < |insns| ==> insns[j].InsnLine?
    ensures var (body, at) := (Body(labels, insns, k + 1), k + LabelCount(labels, k + 1));
            && |body| == at + 1 && body[at] == insns[k]
            && (labels[k].Some? ==> at > 0 && body[at - 1] == LabelLine(labels[k].value))
            && (labels[k].None? && at > 0 ==> body[at - 1].InsnLine?)
  {
    BodySize(labels, insns, k);
    var front := Body(labels, insns, k);
    if k > 0 && labels[k].None? {
      assert front[|front| - 1] == insns[k - 1];
      assert LabelLines(labels[k]) == [];
    }
  }

  /** And where these lines stand in the whole body. */
  lemma LinesAt(labels: seq<Option<string>>, insns: seq<Line>, k: nat)
    requires k < |insns| == |labels| && forall j :: 0 <= j < |insns| ==> insns[j].InsnLine?
    ensures var (body, at) := (Body(labels, insns, |insns|), k + LabelCount(labels, k + 1));
            && at < |body| && body[at] == insns[k]
            && (labels[k].Some? ==> at > 0 && body[at - 1] == LabelLine(labels[k].value))
            && (labels[k].None? && at > 0 ==> body[at - 1].InsnLine?)
  {
    LastLines(labels, insns, k);
    BodyPrefix(labels, insns, k + 1, |insns|);
  }

  lemma {:induction false} CountIsRank(diss: seq<Dis>, n: nat)
    requires n <= |diss|
    ensures LabelCount(Labels(diss), n) == LabelRank(diss, n)
  {
    if n > 0 {
      CountIsRank(diss, n - 1);
    }
  }

  /** Instruction k's line stands behind k instructions and all the labels up to its own, which is the
      line in front of it exactly when some instruction refers to k; no label follows a label. */
  lemma InsnLineAt(diss: seq<Dis>, k: nat)
    requires k < |diss| && forall d :: d in diss ==> |d.operands| == 5
    ensures var (body, at) := (Body(Labels(diss), InsnLines(diss), |diss|), k + LabelRank(diss, k + 1));
            && at < |body| && body[at] == PrintInsn(diss, diss[k])
            && (Targeted(diss, k) ==> at > 0 && body[at - 1] == LabelLine(LabelOf(diss, k)))
            && (!Targeted(diss, k) && at > 0 ==> body[at - 1].InsnLine?)
  {
    CountIsRank(diss, k + 1);
    LinesAt(Labels(diss), InsnLines(diss), k);
  }
}
