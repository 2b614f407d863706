/** Patching a text by the line numbers of the original. */
module TextPatcher {
  import opened Wrappers

  /** A line of the working list; added lines have index -1. */
  datatype TextLine = TextLine(index: int, line: string, deleted: bool)

  /** What a run of edits amounts to: the lines added in front of each original line, and of the dummy
      behind the last, in order, and which original lines are gone. */
  datatype Patch = Patch(original: seq<string>, added: seq<seq<TextLine>>, deleted: seq<bool>)

  ghost predicate Sound(p: Patch) {
    && |p.added| == |p.deleted| == |p.original| + 1 && p.deleted[|p.original|]
    && forall i, j :: 0 <= i < |p.added| && 0 <= j < |p.added[i]| ==> p.added[i][j].index == -1
  }

  ghost function LineAt(p: Patch, i: nat): TextLine
    requires Sound(p) && i < |p.added|
  {
    TextLine(i, if i < |p.original| then p.original[i] else "", p.deleted[i])
  }

  /** The working list up to original line n. */
  ghost function Rendered(p: Patch, n: nat): seq<TextLine>
    requires Sound(p) && n <= |p.added|
  {
    if n == 0 then [] else Rendered(p, n - 1) + p.added[n - 1] + [LineAt(p, n - 1)]
  }

  function Visible(lines: seq<TextLine>): seq<string> {
    if lines == [] then []
    else Visible(lines[..|lines| - 1]) + if lines[|lines| - 1].deleted then [] else [lines[|lines| - 1].line]
  }

  /** The patched text: for each original line the texts added in front of it in the order in which
      they were added, and then the line itself unless it was deleted. */
  ghost function Patched(p: Patch, n: nat): seq<string>
    requires Sound(p) && n <= |p.added|
  {
    if n == 0 then []
    else Patched(p, n - 1) + Visible(p.added[n - 1]) + if p.deleted[n - 1] then [] else [LineAt(p, n - 1).line]
  }

  lemma {:induction false} VisibleConcat(a: seq<TextLine>, b: seq<TextLine>)
    ensures Visible(a + b) == Visible(a) + Visible(b)
  {
    if b == [] {
      assert a + b == a;
    } else {
      VisibleConcat(a, b[..|b| - 1]);
      assert (a + b)[..|a + b| - 1] == a + b[..|b| - 1];
    }
  }

  lemma {:induction false} VisibleRendered(p: Patch, n: nat)
    requires Sound(p) && n <= |p.added|
    ensures Visible(Rendered(p, n)) == Patched(p, n)
  {
    if n > 0 {
      VisibleRendered(p, n - 1);
      VisibleConcat(Rendered(p, n - 1), p.added[n - 1]);
      VisibleConcat(Rendered(p, n - 1) + p.added[n - 1], [LineAt(p, n - 1)]);
      var last := [LineAt(p, n - 1)];
      assert last[..|last| - 1] == [];
    }
  }

  // ---------------------------------------------------------------- where lines are

  lemma {:induction false} RenderedPrefix(p: Patch, i: nat, n: nat)
    requires Sound(p) && i <= n <= |p.added|
    ensures Rendered(p, i) <= Rendered(p, n)
  {
    if i < n {
      RenderedPrefix(p, i, n - 1);
    }
  }

  /** The position of original line i. */
  ghost function Place(p: Patch, i: nat): nat
    requires Sound(p) && i < |p.added|
  {
    |Rendered(p, i)| + |p.added[i]|
  }

  lemma PlaceIs(p: Patch, i: nat, n: nat)
    requires Sound(p) && i < n <= |p.added|
    ensures Place(p, i) < |Rendered(p, n)| && Rendered(p, n)[Place(p, i)] == LineAt(p, i)
    ensures Rendered(p, n)[|Rendered(p, i)|..Place(p, i)] == p.added[i]
  {
    RenderedPrefix(p, i + 1, n);
    var here := Rendered(p, i + 1);
    assert here[|Rendered(p, i)|..Place(p, i)] == p.added[i];
    assert Rendered(p, n)[..|here|] == here;
  }

  /** Lines in front of original line n are added ones or have a smaller number. */
  lemma {:induction false} Smaller(p: Patch, n: nat, k: nat)
    requires Sound(p) && n <= |p.added| && k < |Rendered(p, n)|
    ensures Rendered(p, n)[k].index == -1 || 0 <= Rendered(p, n)[k].index < n
  {
    var front := Rendered(p, n - 1);
    if k < |front| {
      Smaller(p, n - 1, k);
    } else if k < |front| + |p.added[n - 1]| {
      assert Rendered(p, n)[k] == p.added[n - 1][k - |front|];
    }
  }

  predicate FirstAt(lines: seq<TextLine>, number: int, k: nat) {
    k < |lines| && lines[k].index == number && forall j :: 0 <= j < k ==> lines[j].index != number
  }

  /** A non-negative number always finds the original line. */
  lemma FindsOriginal(p: Patch, i: nat)
    requires Sound(p) && i < |p.added|
    ensures FirstAt(Rendered(p, |p.added|), i, Place(p, i))
  {
    var all := Rendered(p, |p.added|);
    PlaceIs(p, i, |p.added|);
    RenderedPrefix(p, i, |p.added|);
    forall j | 0 <= j < Place(p, i) ensures all[j].index != i {
      if j < |Rendered(p, i)| {
        Smaller(p, i, j);
      } else {
        assert all[j] == all[|Rendered(p, i)|..Place(p, i)][j - |Rendered(p, i)|];
      }
    }
  }

  /** Any other number finds nothing, except that -1 finds the first added line. */
  lemma FindsNothing(p: Patch, number: int, k: nat)
    requires Sound(p) && k < |Rendered(p, |p.added|)| && (number < -1 || number >= |p.added|)
    ensures Rendered(p, |p.added|)[k].index != number
  {
    Smaller(p, |p.added|, k);
  }

  /** Nothing has been added in front of the first i lines. */
  lemma {:induction false} NothingAdded(p: Patch, i: nat, k: nat)
    requires Sound(p) && i <= |p.added| && forall j :: 0 <= j < i ==> p.added[j] == []
    requires k < |Rendered(p, i)|
    ensures Rendered(p, i)[k].index >= 0
  {
    if k < |Rendered(p, i - 1)| {
      NothingAdded(p, i - 1, k);
    }
  }

  /** The first original line with an added line in front of it. */
  ghost predicate FirstAdded(p: Patch, i: nat) {
    i < |p.added| && p.added[i] != [] && forall j :: 0 <= j < i ==> p.added[j] == []
  }

  lemma FindsAdded(p: Patch, i: nat)
    requires Sound(p) && FirstAdded(p, i)
    ensures FirstAt(Rendered(p, |p.added|), -1, |Rendered(p, i)|)
  {
    var all := Rendered(p, |p.added|);
    PlaceIs(p, i, |p.added|);
    RenderedPrefix(p, i, |p.added|);
    assert all[|Rendered(p, i)|] == all[|Rendered(p, i)|..Place(p, i)][0];
    forall j | 0 <= j < |Rendered(p, i)| ensures all[j].index != -1 {
      NothingAdded(p, i, j);
    }
  }

  // ---------------------------------------------------------------- edits

  function InsertAt<T>(s: seq<T>, k: nat, more: seq<T>): seq<T>
    requires k <= |s|
  {
    s[..k] + more + s[k..]
  }

  function AsLines(text: seq<string>): (r: seq<TextLine>)
    ensures |r| == |text| && forall j :: 0 <= j < |r| ==> r[j].index == -1
  {
    seq(|text|, j requires 0 <= j < |text| => TextLine(-1, text[j], false))
  }

  /** Lines added at place j of those in front of original line i. */
  ghost function WithAdded(p: Patch, i: nat, j: nat, more: seq<TextLine>): (r: Patch)
    requires Sound(p) && i < |p.added| && j <= |p.added[i]| && forall k :: 0 <= k < |more| ==> more[k].index == -1
    ensures Sound(r)
  {
    p.(added := p.added[i := InsertAt(p.added[i], j, more)])
  }

  lemma {:induction false} AddedElsewhere(p: Patch, i: nat, j: nat, more: seq<TextLine>, n: nat)
    requires Sound(p) && i < |p.added| && j <= |p.added[i]| && n <= i
    requires forall k :: 0 <= k < |more| ==> more[k].index == -1
    ensures Rendered(WithAdded(p, i, j, more), n) == Rendered(p, n)
  {
    if n > 0 {
      AddedElsewhere(p, i, j, more, n - 1);
      assert LineAt(WithAdded(p, i, j, more), n - 1) == LineAt(p, n - 1);
    }
  }

  lemma {:induction false} AddedRendered(p: Patch, i: nat, j: nat, more: seq<TextLine>, n: nat)
    requires Sound(p) && i < |p.added| && j <= |p.added[i]| && i < n <= |p.added|
    requires forall k :: 0 <= k < |more| ==> more[k].index == -1
    ensures |Rendered(p, i)| + j <= |Rendered(p, n)|
    ensures Rendered(WithAdded(p, i, j, more), n) == InsertAt(Rendered(p, n), |Rendered(p, i)| + j, more)
  {
    var (q, m) := (WithAdded(p, i, j, more), n - 1);
    assert LineAt(q, m) == LineAt(p, m);
    if m == i {
      AddedElsewhere(p, i, j, more, i);
      InsertHere(Rendered(p, i), p.added[i], j, more, [LineAt(p, i)]);
    } else {
      AddedRendered(p, i, j, more, m);
      InsertBefore(Rendered(p, m), |Rendered(p, i)| + j, more, p.added[m], [LineAt(p, m)]);
    }
  }

  lemma InsertBefore<T>(s: seq<T>, k: nat, more: seq<T>, added: seq<T>, last: seq<T>)
    requires k <= |s|
    ensures InsertAt(s, k, more) + added + last == InsertAt(s + added + last, k, more)
  {
  }

  lemma InsertHere<T>(start: seq<T>, s: seq<T>, k: nat, more: seq<T>, last: seq<T>)
    requires k <= |s|
    ensures start + InsertAt(s, k, more) + last == InsertAt(start + s + last, |start| + k, more)
  {
  }

  ghost function WithDeleted(p: Patch, i: nat): (r: Patch)
    requires Sound(p) && i < |p.added|
    ensures Sound(r)
  {
    p.(deleted := p.deleted[i := true])
  }

  lemma {:induction false} DeletedRendered(p: Patch, i: nat, n: nat)
    requires Sound(p) && i < |p.added| && n <= |p.added|
    ensures n <= i ==> Rendered(WithDeleted(p, i), n) == Rendered(p, n)
    ensures i < n ==> Place(p, i) < |Rendered(p, n)|
                      && Rendered(WithDeleted(p, i), n) == Rendered(p, n)[Place(p, i) := LineAt(p, i).(deleted := true)]
  {
    if n > 0 {
      DeletedRendered(p, i, n - 1);
    }
  }

  /** The first added line in front of original line i, deleted. */
  ghost function WithoutAdded(p: Patch, i: nat): (r: Patch)
    requires Sound(p) && i < |p.added| && p.added[i] != []
    ensures Sound(r)
  {
    p.(added := p.added[i := p.added[i][0 := p.added[i][0].(deleted := true)]])
  }

  lemma {:induction false} WithoutRendered(p: Patch, i: nat, n: nat)
    requires Sound(p) && i < |p.added| && p.added[i] != [] && n <= |p.added|
    ensures n <= i ==> Rendered(WithoutAdded(p, i), n) == Rendered(p, n)
    ensures i < n ==> |Rendered(p, i)| < |Rendered(p, n)|
                      && Rendered(WithoutAdded(p, i), n)
                         == Rendered(p, n)[|Rendered(p, i)| := p.added[i][0].(deleted := true)]
  {
    if n > 0 {
      WithoutRendered(p, i, n - 1);
      assert LineAt(WithoutAdded(p, i), n - 1) == LineAt(p, n - 1);
    }
  }

  // ---------------------------------------------------------------- the patcher

  /** The text before any edit; the line behind the last is a deleted dummy. */
  ghost function Untouched(text: seq<string>): (p: Patch)
    ensures Sound(p)
  {
    Patch(text, seq(|text| + 1, _ => []), seq(|text| + 1, i => i == |text|))
  }

  lemma {:induction false} UntouchedRendered(text: seq<string>, n: nat)
    requires n <= |text| + 1
    ensures |Rendered(Untouched(text), n)| == n
    ensures forall i :: 0 <= i < n ==> Rendered(Untouched(text), n)[i] == LineAt(Untouched(text), i)
  {
    if n > 0 {
      UntouchedRendered(text, n - 1);
    }
  }

  class Patcher {
    var lines: seq<TextLine>
    ghost var patch: Patch

    ghost predicate Valid()
      reads this
    {
      Sound(patch) && lines == Rendered(patch, |patch.added|)
    }

    constructor (text: seq<string>)
      ensures Valid() && patch == Untouched(text)
    {
      var all: seq<TextLine> := [];
      for i := 0 to |text|
        invariant |all| == i && forall k :: 0 <= k < i ==> all[k] == TextLine(k, text[k], false)
      {
        all := all + [TextLine(i, text[i], false)];
      }
      lines := all + [TextLine(|text|, "", true)];
      patch := Untouched(text);
      UntouchedRendered(text, |text| + 1);
    }

    /** The first line with this index, or the end of the list. */
    method Find(number: int) returns (k: nat)
      ensures k <= |lines| && (k < |lines| ==> FirstAt(lines, number, k))
      ensures k == |lines| ==> forall j :: 0 <= j < |lines| ==> lines[j].index != number
    {
      k := 0;
      while k < |lines| && lines[k].index != number
        invariant k <= |lines| && forall j :: 0 <= j < k ==> lines[j].index != number
      {
        k := k + 1;
      }
    }

    /** What Find finds in a patched text. */
    lemma Found(number: int, k: nat)
      requires Valid() && k <= |lines| && (k < |lines| ==> FirstAt(lines, number, k))
      requires k == |lines| ==> forall j :: 0 <= j < |lines| ==> lines[j].index != number
      ensures 0 <= number < |patch.added| ==> k == Place(patch, number) < |lines|
      ensures number < -1 || number >= |patch.added| ==> k == |lines|
      ensures number == -1 ==> forall i :: FirstAdded(patch, i) ==> k == |Rendered(patch, i)| < |lines|
      ensures number == -1 && k < |lines| ==> exists i :: FirstAdded(patch, i)
    {
      if 0 <= number < |patch.added| {
        FindsOriginal(patch, number);
      } else if number != -1 {
        if k < |lines| {
          FindsNothing(patch, number, k);
        }
      } else {
        forall i | FirstAdded(patch, i) ensures k == |Rendered(patch, i)| < |lines| {
          FindsAdded(patch, i);
        }
        if k < |lines| {
          SomethingAdded(patch, |patch.added|, k);
        }
      }
    }

    /** addText: a number from 0 on is always the number of an original line.  The number -1 is found
        once something has been added, and means the first added line. */
    method AddText(before: int, text: seq<string>) returns (ok: bool)
      requires Valid()
      modifies this
      ensures Valid()
      ensures ok <==> 0 <= before <= |old(patch).original| || (before == -1 && exists i :: FirstAdded(old(patch), i))
      ensures !ok ==> lines == old(lines) && patch == old(patch)
      ensures ok && before >= 0 ==>
                patch == WithAdded(old(patch), before, |old(patch).added[before]|, AsLines(text))
      ensures ok && before == -1 ==>
                exists i :: FirstAdded(old(patch), i) && patch == WithAdded(old(patch), i, 0, AsLines(text))
    {
      var index := Find(before);
      Found(before, index);
      if index >= |lines| {
        return false;
      }
      ghost var (was, at) := (lines, index);
      ghost var more := AsLines(text);
      for j := 0 to |text|
        invariant lines == InsertAt(was, at, more[..j]) && index == at + j
        invariant patch == old(patch)
      {
        lines := lines[..index] + [TextLine(-1, text[j], false)] + lines[index..];
        index := index + 1;
      }
      assert more[..|text|] == more;
      if before >= 0 {
        AddedRendered(patch, before, |patch.added[before]|, more, |patch.added|);
        patch := WithAdded(patch, before, |patch.added[before]|, more);
      } else {
        ghost var i: nat :| FirstAdded(patch, i);
        AddedRendered(patch, i, 0, more, |patch.added|);
        patch := WithAdded(patch, i, 0, more);
      }
      return true;
    }

    /** delLine */
    method DelLine(number: int) returns (ok: bool)
      requires Valid()
      modifies this
      ensures Valid()
      ensures ok <==> 0 <= number <= |old(patch).original| || (number == -1 && exists i :: FirstAdded(old(patch), i))
      ensures !ok ==> lines == old(lines) && patch == old(patch)
      ensures ok && number >= 0 ==> patch == WithDeleted(old(patch), number)
      ensures ok && number == -1 ==> exists i :: FirstAdded(old(patch), i) && patch == WithoutAdded(old(patch), i)
    {
      var index := Find(number);
      Found(number, index);
      if index >= |lines| {
        return false;
      }
      if number >= 0 {
        PlaceIs(patch, number, |patch.added|);
        DeletedRendered(patch, number, |patch.added|);
        patch := WithDeleted(patch, number);
      } else {
        ghost var i: nat :| FirstAdded(patch, i);
        PlaceIs(patch, i, |patch.added|);
        assert lines[|Rendered(patch, i)|..Place(patch, i)][0] == patch.added[i][0];
        WithoutRendered(patch, i, |patch.added|);
        patch := WithoutAdded(patch, i);
      }
      lines := lines[index := lines[index].(deleted := true)];
      return true;
    }

    /** getText, before its lines are joined */
    method GetText() returns (text: seq<string>)
      requires Valid()
      ensures text == Patched(patch, |patch.added|)
    {
      text := [];
      for i := 0 to |lines|
        invariant text == Visible(lines[..i])
      {
        assert lines[..i + 1][..i] == lines[..i];
        if !lines[i].deleted {
          text := text + [lines[i].line];
        }
      }
      assert lines[..|lines|] == lines;
      VisibleRendered(patch, |patch.added|);
    }
  }

  lemma {:induction false} SomethingAdded(p: Patch, n: nat, k: nat)
    requires Sound(p) && n <= |p.added| && k < |Rendered(p, n)| && Rendered(p, n)[k].index == -1
    ensures exists i :: FirstAdded(p, i)
  {
    if forall j :: 0 <= j < n ==> p.added[j] == [] {
      NothingAdded(p, n, k);
    } else {
      var j :| 0 <= j < n && p.added[j] != [];
      LeastAdded(p, j);
    }
  }

  lemma {:induction false} LeastAdded(p: Patch, j: nat)
    requires j < |p.added| && p.added[j] != []
    ensures exists i :: FirstAdded(p, i)
  {
    if i :| 0 <= i < j && p.added[i] != [] {
      LeastAdded(p, i);
    } else {
      assert FirstAdded(p, j);
    }
  }

  // ---------------------------------------------------------------- runs of edits

  /** An edit of an original line; the number behind the last line is allowed. */
  datatype Edit = Add(number: nat, text: seq<string>) | Del(number: nat)

  /** The texts a run of edits adds in front of original line i, in call order. */
  function AddedBefore(edits: seq<Edit>, i: nat): seq<string> {
    if edits == [] then []
    else
      var (front, e) := (AddedBefore(edits[..|edits| - 1], i), edits[|edits| - 1]);
      if e.Add? && e.number == i then front + e.text else front
  }

  predicate DeletedBy(edits: seq<Edit>, i: nat) {
    exists k :: 0 <= k < |edits| && edits[k] == Del(i)
  }

  /** The text after a run of edits, whatever their order across different lines. */
  function Expected(original: seq<string>, edits: seq<Edit>, n: nat): seq<string>
    requires n <= |original| + 1
  {
    if n == 0 then []
    else
      Expected(original, edits, n - 1) + AddedBefore(edits, n - 1)
      + if n - 1 == |original| || DeletedBy(edits, n - 1) then [] else [original[n - 1]]
  }

  /** The patch is what the edits say, line by line. */
  ghost predicate After(p: Patch, original: seq<string>, edits: seq<Edit>) {
    && Sound(p) && p.original == original
    && forall i :: 0 <= i < |p.added| ==>
         p.added[i] == AsLines(AddedBefore(edits, i)) && (p.deleted[i] <==> i == |original| || DeletedBy(edits, i))
  }

  lemma AfterAdd(p: Patch, original: seq<string>, edits: seq<Edit>, number: nat, text: seq<string>)
    requires After(p, original, edits) && number < |p.added|
    ensures After(WithAdded(p, number, |p.added[number]|, AsLines(text)), original, edits + [Add(number, text)])
  {
    var (more, q) := (edits + [Add(number, text)], WithAdded(p, number, |p.added[number]|, AsLines(text)));
    assert more[..|more| - 1] == edits;
    forall i | 0 <= i < |q.added|
      ensures q.added[i] == AsLines(AddedBefore(more, i)) && (q.deleted[i] <==> i == |original| || DeletedBy(more, i))
    {
      DeletedByMore(edits, Add(number, text), i);
    }
  }

  lemma DeletedByMore(edits: seq<Edit>, e: Edit, i: nat)
    ensures DeletedBy(edits + [e], i) <==> DeletedBy(edits, i) || e == Del(i)
  {
    var more := edits + [e];
    if DeletedBy(edits, i) {
      var k :| 0 <= k < |edits| && edits[k] == Del(i);
      assert more[k] == Del(i);
    }
    if e == Del(i) {
      assert more[|edits|] == Del(i);
    }
  }

  lemma AfterDel(p: Patch, original: seq<string>, edits: seq<Edit>, number: nat)
    requires After(p, original, edits) && number < |p.added|
    ensures After(WithDeleted(p, number), original, edits + [Del(number)])
  {
    var (more, q) := (edits + [Del(number)], WithDeleted(p, number));
    assert more[..|more| - 1] == edits;
    forall i | 0 <= i < |q.added|
      ensures q.added[i] == AsLines(AddedBefore(more, i)) && (q.deleted[i] <==> i == |original| || DeletedBy(more, i))
    {
      DeletedByMore(edits, Del(number), i);
    }
  }

  lemma {:induction false} VisibleAsLines(text: seq<string>)
    ensures Visible(AsLines(text)) == text
  {
    if text != [] {
      VisibleAsLines(text[..|text| - 1]);
      assert AsLines(text)[..|text| - 1] == AsLines(text[..|text| - 1]);
    }
  }

  lemma {:induction false} PatchedExpected(p: Patch, original: seq<string>, edits: seq<Edit>, n: nat)
    requires After(p, original, edits) && n <= |p.added|
    ensures Patched(p, n) == Expected(original, edits, n)
  {
    if n > 0 {
      PatchedExpected(p, original, edits, n - 1);
      VisibleAsLines(AddedBefore(edits, n - 1));
    }
  }

  /** Any run of edits with non-negative numbers gives the expected text: numbers always mean lines of
      the original. */
  method RunEdits(original: seq<string>, edits: seq<Edit>) returns (text: seq<string>)
    requires forall e :: e in edits ==> e.number <= |original|
    ensures text == Expected(original, edits, |original| + 1)
  {
    var patcher := new Patcher(original);
    for k := 0 to |edits|
      invariant patcher.Valid() && After(patcher.patch, original, edits[..k])
      invariant fresh(patcher)
    {
      assert edits[..k + 1] == edits[..k] + [edits[k]];
      match edits[k] {
        case Add(number, more) =>
          AfterAdd(patcher.patch, original, edits[..k], number, more);
          var ok := patcher.AddText(number, more);
        case Del(number) =>
          AfterDel(patcher.patch, original, edits[..k], number);
          var ok := patcher.DelLine(number);
      }
    }
    assert edits[..|edits|] == edits;
    PatchedExpected(patcher.patch, original, edits, |original| + 1);
    text := patcher.GetText();
  }

  /** The number -1 means no line of the original, and yet it is found once a line has been added: the
      second line then goes in front of the first one added. */
  method AddTwice(line: string, first: string, second: string) returns (early: bool, late: bool, text: seq<string>)
    ensures !early && late && text == [second, first, line]
  {
    var patcher := new Patcher([line]);
    early := patcher.AddText(-1, [second]);
    var ok := patcher.AddText(0, [first]);
    ghost var p := patcher.patch;
    assert p.added[0] == [TextLine(-1, first, false)] && FirstAdded(p, 0);
    late := patcher.AddText(-1, [second]);
    PatchedTwice(patcher.patch, line, first, second);
    text := patcher.GetText();
  }

  lemma PatchedTwice(p: Patch, line: string, first: string, second: string)
    requires Sound(p) && p.original == [line] && !p.deleted[0] && p.added[1] == []
    requires p.added[0] == [TextLine(-1, second, false), TextLine(-1, first, false)]
    ensures Patched(p, 2) == [second, first, line]
  {
    var more := p.added[0];
    assert Visible(more[..1][..0]) == [] && Visible(more[..1]) == [second] && Visible(more) == [second, first];
    assert Patched(p, 1) == [second, first, line];
  }

  /** Two neighbouring edits may change places unless both add to the same line. */
  predicate Independent(e: Edit, f: Edit) {
    e.number != f.number || e.Del? || f.Del?
  }

  lemma {:induction false} AddedConcat(a: seq<Edit>, b: seq<Edit>, i: nat)
    ensures AddedBefore(a + b, i) == AddedBefore(a, i) + AddedBefore(b, i)
  {
    if b == [] {
      assert a + b == a;
    } else {
      var (front, e) := (b[..|b| - 1], b[|b| - 1]);
      AddedConcat(a, front, i);
      assert (a + b)[..|a + b| - 1] == a + front && (a + b)[|a + b| - 1] == e;
    }
  }

  lemma {:induction false} EditsCommute(original: seq<string>, a: seq<Edit>, e: Edit, f: Edit, b: seq<Edit>, n: nat)
    requires Independent(e, f) && n <= |original| + 1
    ensures Expected(original, a + [e, f] + b, n) == Expected(original, a + [f, e] + b, n)
  {
    if n > 0 {
      var i := n - 1;
      EditsCommute(original, a, e, f, b, i);
      SwapAdded(a, e, f, b, i);
      if DeletedBy(a + [e, f] + b, i) {
        SwapDeleted(a, e, f, b, i);
      } else if DeletedBy(a + [f, e] + b, i) {
        SwapDeleted(a, f, e, b, i);
      }
    }
  }

  lemma SwapAdded(a: seq<Edit>, e: Edit, f: Edit, b: seq<Edit>, i: nat)
    requires Independent(e, f)
    ensures AddedBefore(a + [e, f] + b, i) == AddedBefore(a + [f, e] + b, i)
  {
    AddedConcat(a + [e, f], b, i);
    AddedConcat(a, [e, f], i);
    AddedConcat(a + [f, e], b, i);
    AddedConcat(a, [f, e], i);
    assert [e] + [f] == [e, f] && [f] + [e] == [f, e];
    AddedConcat([e], [f], i);
    AddedConcat([f], [e], i);
    assert AddedBefore([e], i) == [] || AddedBefore([f], i) == [] by {
      assert [e][..0] == [] && [f][..0] == [];
    }
  }

  lemma SwapDeleted(a: seq<Edit>, e: Edit, f: Edit, b: seq<Edit>, i: nat)
    requires DeletedBy(a + [e, f] + b, i)
    ensures DeletedBy(a + [f, e] + b, i)
  {
    var (x, y) := (a + [e, f] + b, a + [f, e] + b);
    var k :| 0 <= k < |x| && x[k] == Del(i);
    var j := if k == |a| then |a| + 1 else if k == |a| + 1 then |a| else k;
    assert y[j] == x[k];
  }
}
