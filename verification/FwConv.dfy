/** The section table of brcm80211 firmware: extracting and replacing one section of the image. */
module FwConv {
  import opened Wrappers
  import opened Bytes

  datatype Section = Section(offset: nat, length: nat, index: nat)

  datatype ConvError = BadHeader | NoSection | DuplicateSection

  /** Python's slice, which stops at the end of the data. */
  function Slice(data: seq<byte>, from: nat, to: nat): seq<byte>
    requires from <= to
  {
    var (i, j) := (if from < |data| then from else |data|, if to < |data| then to else |data|);
    data[i..j]
  }

  predicate InBounds(s: Section, data: seq<byte>) {
    s.offset + s.length <= |data|
  }

  // ---------------------------------------------------------------- the header file

  /** Three little-endian words; higher bits are cut off. */
  function SectionBytes(s: Section): (b: seq<byte>)
    ensures |b| == 12
  {
    Le32(s.offset) + Le32(s.length) + Le32(s.index)
  }

  function SectionAt(hdr: seq<byte>, i: nat): Section
    requires i + 12 <= |hdr|
  {
    Section(FromLe32(hdr[i..i + 4]), FromLe32(hdr[i + 4..i + 8]), FromLe32(hdr[i + 8..i + 12]))
  }

  function HeaderData(sections: seq<Section>): (hdr: seq<byte>)
    ensures |hdr| == 12 * |sections|
  {
    if sections == [] then [] else HeaderData(sections[..|sections| - 1]) + SectionBytes(sections[|sections| - 1])
  }

  /** generateHeaderData */
  method GenerateHeaderData(sections: seq<Section>) returns (hdr: seq<byte>)
    ensures hdr == HeaderData(sections)
  {
    hdr := [];
    for k := 0 to |sections|
      invariant hdr == HeaderData(sections[..k])
    {
      hdr := hdr + SectionBytes(sections[k]);
      assert sections[..k + 1][..k] == sections[..k];
    }
    assert sections[..|sections|] == sections;
  }

  /** The sections of a header in file order. */
  function Sections(hdr: seq<byte>): (r: seq<Section>)
    requires |hdr| % 12 == 0
    ensures |r| == |hdr| / 12
  {
    seq(|hdr| / 12, k requires 0 <= k < |hdr| / 12 => SectionAt(hdr, 12 * k))
  }

  /** The value of four bytes of a header, least significant first. */
  function Little(hdr: seq<byte>, at: nat): nat
    requires at + 4 <= |hdr|
  {
    var b0: nat, b1: nat, b2: nat, b3: nat := hdr[at], hdr[at + 1], hdr[at + 2], hdr[at + 3];
    b0 + b1 * 0x100 + b2 * 0x1_0000 + b3 * 0x100_0000
  }

  /** Each section of a header is its offset, its length and its index. */
  lemma SectionFields(hdr: seq<byte>, k: nat)
    requires |hdr| % 12 == 0 && k < |hdr| / 12
    ensures Sections(hdr)[k] == Section(Little(hdr, 12 * k), Little(hdr, 12 * k + 4), Little(hdr, 12 * k + 8))
  {
    FourBytes(hdr, 12 * k);
    FourBytes(hdr, 12 * k + 4);
    FourBytes(hdr, 12 * k + 8);
  }

  lemma FourBytes(hdr: seq<byte>, at: nat)
    requires at + 4 <= |hdr|
    ensures FromLe32(hdr[at..at + 4]) == Little(hdr, at)
  {
    var b := hdr[at..at + 4];
    assert b[0] == hdr[at] && b[1] == hdr[at + 1] && b[2] == hdr[at + 2] && b[3] == hdr[at + 3];
  }

  // ---------------------------------------------------------------- stable sorting

  /** Put a section behind all those whose key is not larger. */
  function Insert(key: Section -> nat, sorted: seq<Section>, s: Section): (r: seq<Section>)
    ensures |r| == |sorted| + 1
  {
    if sorted == [] || key(sorted[|sorted| - 1]) <= key(s) then sorted + [s]
    else Insert(key, sorted[..|sorted| - 1], s) + [sorted[|sorted| - 1]]
  }

  /** Python's sort: by key, and otherwise in the given order. */
  function Sort(key: Section -> nat, sections: seq<Section>): (r: seq<Section>)
    ensures |r| == |sections|
  {
    if sections == [] then [] else Insert(key, Sort(key, sections[..|sections| - 1]), sections[|sections| - 1])
  }

  predicate IsSorted(key: Section -> nat, s: seq<Section>) {
    forall i, j :: 0 <= i < j < |s| ==> key(s[i]) <= key(s[j])
  }

  /** The sections with one key, in order. */
  function WithKey(key: Section -> nat, s: seq<Section>, k: nat): seq<Section> {
    if s == [] then []
    else WithKey(key, s[..|s| - 1], k) + if key(s[|s| - 1]) == k then [s[|s| - 1]] else []
  }

  lemma {:induction false} WithKeyConcat(key: Section -> nat, a: seq<Section>, b: seq<Section>, k: nat)
    ensures WithKey(key, a + b, k) == WithKey(key, a, k) + WithKey(key, b, k)
  {
    if b == [] {
      assert a + b == a;
    } else {
      var front := b[..|b| - 1];
      WithKeyConcat(key, a, front, k);
      assert (a + b)[..|a + b| - 1] == a + front;
    }
  }

  lemma WithKeyOne(key: Section -> nat, s: Section, k: nat)
    ensures WithKey(key, [s], k) == if key(s) == k then [s] else []
  {
    var one := [s];
    assert one[..|one| - 1] == [];
    assert WithKey(key, [], k) == [];
  }

  lemma {:induction false} InsertSorted(key: Section -> nat, sorted: seq<Section>, s: Section)
    requires IsSorted(key, sorted)
    ensures IsSorted(key, Insert(key, sorted, s))
    ensures forall i :: 0 <= i < |Insert(key, sorted, s)| ==>
              key(Insert(key, sorted, s)[i]) <= key(s)
                || (sorted != [] && key(Insert(key, sorted, s)[i]) <= key(sorted[|sorted| - 1]))
  {
    if sorted != [] && key(sorted[|sorted| - 1]) > key(s) {
      InsertSorted(key, sorted[..|sorted| - 1], s);
    }
  }

  lemma {:induction false} InsertStable(key: Section -> nat, sorted: seq<Section>, s: Section, k: nat)
    requires IsSorted(key, sorted)
    ensures WithKey(key, Insert(key, sorted, s), k) == WithKey(key, sorted, k) + WithKey(key, [s], k)
  {
    if sorted == [] || key(sorted[|sorted| - 1]) <= key(s) {
      WithKeyConcat(key, sorted, [s], k);
    } else {
      var (front, last) := (sorted[..|sorted| - 1], sorted[|sorted| - 1]);
      InsertStable(key, front, s, k);
      WithKeyConcat(key, Insert(key, front, s), [last], k);
      WithKeyConcat(key, front, [last], k);
      assert front + [last] == sorted;
      WithKeyOne(key, s, k);
      WithKeyOne(key, last, k);
      SwapEmpty(WithKey(key, front, k), WithKey(key, [s], k), WithKey(key, [last], k));
    }
  }

  lemma SwapEmpty(a: seq<Section>, b: seq<Section>, c: seq<Section>)
    requires b == [] || c == []
    ensures a + b + c == a + c + b
  {
  }

  /** Sorting orders the sections by key and keeps those with the same key, and their order. */
  lemma {:induction false} SortIsStable(key: Section -> nat, sections: seq<Section>, k: nat)
    ensures IsSorted(key, Sort(key, sections)) && WithKey(key, Sort(key, sections), k) == WithKey(key, sections, k)
  {
    if sections != [] {
      var (front, last) := (sections[..|sections| - 1], sections[|sections| - 1]);
      SortIsStable(key, front, k);
      InsertSorted(key, Sort(key, front), last);
      InsertStable(key, Sort(key, front), last, k);
      WithKeyConcat(key, front, [last], k);
      assert front + [last] == sections;
    }
  }

  lemma {:induction false} InsertMembers(key: Section -> nat, sorted: seq<Section>, s: Section, a: Section)
    ensures a in Insert(key, sorted, s) <==> a in sorted || a == s
  {
    if sorted != [] && key(sorted[|sorted| - 1]) > key(s) {
      InsertMembers(key, sorted[..|sorted| - 1], s, a);
      assert sorted == sorted[..|sorted| - 1] + [sorted[|sorted| - 1]];
    }
  }

  lemma {:induction false} SortMembers(key: Section -> nat, sections: seq<Section>, a: Section)
    ensures a in Sort(key, sections) <==> a in sections
  {
    if sections != [] {
      var (front, last) := (sections[..|sections| - 1], sections[|sections| - 1]);
      SortMembers(key, front, a);
      InsertMembers(key, Sort(key, front), last, a);
      assert sections == front + [last];
    }
  }

  // ---------------------------------------------------------------- looking up and extracting

  function OffsetOf(s: Section): nat {
    s.offset
  }

  function IndexOf(s: Section): nat {
    s.index
  }

  /** parseHeaderFile and parseHeader; a header without sections is not used. */
  function ParseHeader(hdr: seq<byte>, byOffset: bool): Result<seq<Section>, ConvError> {
    if |hdr| % 12 != 0 || hdr == [] then Err(BadHeader)
    else Ok(if byOffset then Sort(OffsetOf, Sections(hdr)) else Sort(IndexOf, Sections(hdr)))
  }

  /** getSectionByIndex */
  function FirstWith(sections: seq<Section>, index: nat): (r: Option<Section>)
    ensures r.Some? ==> r.value in sections && r.value.index == index
    ensures r.None? ==> forall s :: s in sections ==> s.index != index
  {
    if sections == [] then None
    else if sections[0].index == index then Some(sections[0])
    else FirstWith(sections[1..], index)
  }

  method GetSectionByIndex(sections: seq<Section>, index: nat) returns (r: Option<Section>)
    ensures r == FirstWith(sections, index)
  {
    for k := 0 to |sections|
      invariant FirstWith(sections, index) == FirstWith(sections[k..], index)
    {
      if sections[k].index == index {
        return Some(sections[k]);
      }
    }
    return None;
  }

  /** extractSection */
  function Extract(hdr: seq<byte>, bin: seq<byte>, index: nat): Result<seq<byte>, ConvError> {
    var sections :- ParseHeader(hdr, false);
    Contents(FirstWith(sections, index), bin)
  }

  function Contents(found: Option<Section>, bin: seq<byte>): Result<seq<byte>, ConvError> {
    match found
    case None => Err(NoSection)
    case Some(s) => Ok(Slice(bin, s.offset, s.offset + s.length))
  }

  // ---------------------------------------------------------------- merging

  /** The new contents of a section. */
  function Piece(bin: seq<byte>, index: nat, data: seq<byte>, s: Section): seq<byte> {
    if s.index == index then data else Slice(bin, s.offset, s.offset + s.length)
  }

  function NewLength(index: nat, data: seq<byte>, s: Section): nat {
    if s.index == index then |data| else s.length
  }

  /** The sum of the lengths of the first k sections. */
  function NewOffset(index: nat, data: seq<byte>, sections: seq<Section>, k: nat): nat
    requires k <= |sections|
  {
    if k == 0 then 0 else NewOffset(index, data, sections, k - 1) + NewLength(index, data, sections[k - 1])
  }

  function NewSections(index: nat, data: seq<byte>, sections: seq<Section>, k: nat): (r: seq<Section>)
    requires k <= |sections|
    ensures |r| == k
  {
    seq(k, j requires 0 <= j < k =>
      Section(NewOffset(index, data, sections, j), NewLength(index, data, sections[j]), sections[j].index))
  }

  /** The first k parts, one behind the other. */
  function Concat(parts: seq<seq<byte>>, k: nat): seq<byte>
    requires k <= |parts|
  {
    if k == 0 then [] else Concat(parts, k - 1) + parts[k - 1]
  }

  function Pieces(bin: seq<byte>, index: nat, data: seq<byte>, sections: seq<Section>): (p: seq<seq<byte>>)
    ensures |p| == |sections|
  {
    seq(|sections|, k requires 0 <= k < |sections| => Piece(bin, index, data, sections[k]))
  }

  function NewBin(bin: seq<byte>, index: nat, data: seq<byte>, sections: seq<Section>, k: nat): seq<byte>
    requires k <= |sections|
  {
    Concat(Pieces(bin, index, data, sections), k)
  }

  function Occurrences(sections: seq<Section>, index: nat, k: nat): nat
    requires k <= |sections|
  {
    if k == 0 then 0 else Occurrences(sections, index, k - 1) + if sections[k - 1].index == index then 1 else 0
  }

  lemma {:induction false} OccurrencesGrow(sections: seq<Section>, index: nat, j: nat, k: nat)
    requires j <= k <= |sections|
    ensures Occurrences(sections, index, j) <= Occurrences(sections, index, k)
  {
    if j < k {
      OccurrencesGrow(sections, index, j, k - 1);
    }
  }

  lemma NewSectionsStep(index: nat, data: seq<byte>, sections: seq<Section>, k: nat)
    requires k < |sections|
    ensures NewSections(index, data, sections, k + 1)
         == NewSections(index, data, sections, k)
            + [Section(NewOffset(index, data, sections, k), NewLength(index, data, sections[k]), sections[k].index)]
  {
  }

  lemma MergeStep(bin: seq<byte>, index: nat, data: seq<byte>, sections: seq<Section>, k: nat)
    requires k < |sections|
    ensures NewBin(bin, index, data, sections, k + 1)
           == NewBin(bin, index, data, sections, k) + Piece(bin, index, data, sections[k])
    ensures NewOffset(index, data, sections, k + 1)
           == NewOffset(index, data, sections, k) + NewLength(index, data, sections[k])
  {
  }

  /** The image, the sections and the offset after k sections. */
  ghost predicate MergedSoFar(bin: seq<byte>, index: nat, data: seq<byte>, sections: seq<Section>, k: nat,
                              newBin: seq<byte>, newSections: seq<Section>, newOffset: nat) {
    && k <= |sections| && newBin == NewBin(bin, index, data, sections, k)
    && newSections == NewSections(index, data, sections, k) && newOffset == NewOffset(index, data, sections, k)
  }

  lemma MergedMore(bin: seq<byte>, index: nat, data: seq<byte>, sections: seq<Section>, k: nat,
                   newBin: seq<byte>, newSections: seq<Section>, newOffset: nat)
    requires k < |sections| && MergedSoFar(bin, index, data, sections, k, newBin, newSections, newOffset)
    ensures var (s, length) := (sections[k], NewLength(index, data, sections[k]));
            MergedSoFar(bin, index, data, sections, k + 1, newBin + Piece(bin, index, data, s),
                        newSections + [Section(newOffset, length, s.index)], newOffset + length)
  {
    NewSectionsStep(index, data, sections, k);
    MergeStep(bin, index, data, sections, k);
  }

  /** The loop of mergeSection. */
  method MergeAll(sections: seq<Section>, bin: seq<byte>, index: nat, data: seq<byte>)
    returns (r: Result<(seq<Section>, seq<byte>), ConvError>)
    ensures r.Err? ==> r.error == if Occurrences(sections, index, |sections|) == 0 then NoSection else DuplicateSection
    ensures r.Err? <==> Occurrences(sections, index, |sections|) != 1
    ensures r.Ok? ==> r.value.0 == NewSections(index, data, sections, |sections|)
                      && r.value.1 == NewBin(bin, index, data, sections, |sections|)
  {
    var newBin: seq<byte>, newSections: seq<Section>, newOffset: nat, found := [], [], 0, false;
    for k := 0 to |sections|
      invariant MergedSoFar(bin, index, data, sections, k, newBin, newSections, newOffset)
      invariant Occurrences(sections, index, k) == if found then 1 else 0
    {
      var s := sections[k];
      MergedMore(bin, index, data, sections, k, newBin, newSections, newOffset);
      if s.index == index {
        if found {
          OccurrencesGrow(sections, index, k + 1, |sections|);
          return Err(DuplicateSection);
        }
        found := true;
        newBin := newBin + data;
        newSections := newSections + [Section(newOffset, |data|, s.index)];
        newOffset := newOffset + |data|;
      } else {
        newBin := newBin + Slice(bin, s.offset, s.offset + s.length);
        newSections := newSections + [Section(newOffset, s.length, s.index)];
        newOffset := newOffset + s.length;
      }
    }
    if !found {
      return Err(NoSection);
    }
    return Ok((newSections, newBin));
  }

  /** What mergeSection writes: the sections of the image, ordered by offset, with one of them replaced. */
  ghost function Merged(hdr: seq<byte>, bin: seq<byte>, index: nat, data: seq<byte>)
    : Result<(seq<byte>, seq<byte>), ConvError> {
    var sections :- ParseHeader(hdr, true);
    var (n, count) := (|sections|, Occurrences(sections, index, |sections|));
    if count == 0 then Err(NoSection)
    else if count > 1 then Err(DuplicateSection)
    else Ok((HeaderData(NewSections(index, data, sections, n)), NewBin(bin, index, data, sections, n)))
  }

  /** mergeSection */
  method MergeSection(hdr: seq<byte>, bin: seq<byte>, index: nat, data: seq<byte>)
    returns (r: Result<(seq<byte>, seq<byte>), ConvError>)
    ensures r == Merged(hdr, bin, index, data)
  {
    var parsed := ParseHeader(hdr, true);
    if parsed.Err? {
      return Err(parsed.error);
    }
    var merged := MergeAll(parsed.value, bin, index, data);
    if merged.Err? {
      return Err(merged.error);
    }
    var newHdr := GenerateHeaderData(merged.value.0);
    return Ok((newHdr, merged.value.1));
  }

  /** The slice of a section is as long as the section says. */
  predicate Whole(bin: seq<byte>, index: nat, s: Section) {
    s.index == index || InBounds(s, bin) || s.length == 0
  }

  predicate AllWhole(bin: seq<byte>, index: nat, sections: seq<Section>, k: nat)
    requires k <= |sections|
  {
    k == 0 || (AllWhole(bin, index, sections, k - 1) && Whole(bin, index, sections[k - 1]))
  }

  lemma {:induction false} WholePrefix(bin: seq<byte>, index: nat, sections: seq<Section>, k: nat, n: nat)
    requires k <= n <= |sections| && AllWhole(bin, index, sections, n)
    ensures AllWhole(bin, index, sections, k)
  {
    if k < n {
      WholePrefix(bin, index, sections, k, n - 1);
    }
  }

  lemma PieceLength(bin: seq<byte>, index: nat, data: seq<byte>, s: Section)
    ensures |Piece(bin, index, data, s)| <= NewLength(index, data, s)
    ensures |Piece(bin, index, data, s)| == NewLength(index, data, s) <==> Whole(bin, index, s)
  {
  }

  /** The new image is as long as its header says exactly when no section reaches beyond the old one. */
  lemma {:induction false} MergedSize(bin: seq<byte>, index: nat, data: seq<byte>, sections: seq<Section>, k: nat)
    requires k <= |sections|
    ensures |NewBin(bin, index, data, sections, k)| <= NewOffset(index, data, sections, k)
    ensures |NewBin(bin, index, data, sections, k)| == NewOffset(index, data, sections, k)
            <==> AllWhole(bin, index, sections, k)
  {
    if k > 0 {
      MergedSize(bin, index, data, sections, k - 1);
      MergeStep(bin, index, data, sections, k - 1);
      PieceLength(bin, index, data, sections[k - 1]);
    }
  }

  /** Every part is the slice between the ends of the parts in front of it and of its own. */
  lemma {:induction false} ConcatSlice(parts: seq<seq<byte>>, k: nat, n: nat)
    requires k < n <= |parts|
    ensures |Concat(parts, k)| <= |Concat(parts, k + 1)| <= |Concat(parts, n)|
    ensures Concat(parts, n)[|Concat(parts, k)|..|Concat(parts, k + 1)|] == parts[k]
  {
    if k < n - 1 {
      ConcatSlice(parts, k, n - 1);
      FrontSlice(Concat(parts, n - 1), parts[n - 1], |Concat(parts, k)|, |Concat(parts, k + 1)|);
    }
  }

  lemma FrontSlice(front: seq<byte>, part: seq<byte>, a: nat, b: nat)
    requires a <= b <= |front|
    ensures (front + part)[a..b] == front[a..b]
  {
  }

  /** The new sections are laid out one behind the other, and each slices its contents out of the new
      image. */
  lemma MergedLayout(bin: seq<byte>, index: nat, data: seq<byte>, sections: seq<Section>, k: nat, n: nat)
    requires k < n <= |sections| && AllWhole(bin, index, sections, n)
    ensures |NewBin(bin, index, data, sections, n)| == NewOffset(index, data, sections, n)
    ensures var (a, b) := (NewOffset(index, data, sections, k), NewOffset(index, data, sections, k + 1));
            a <= b <= NewOffset(index, data, sections, n)
            && NewBin(bin, index, data, sections, n)[a..b] == Piece(bin, index, data, sections[k])
  {
    WholePrefix(bin, index, sections, k, n);
    WholePrefix(bin, index, sections, k + 1, n);
    MergedSize(bin, index, data, sections, k);
    MergedSize(bin, index, data, sections, k + 1);
    MergedSize(bin, index, data, sections, n);
    ConcatSlice(Pieces(bin, index, data, sections), k, n);
  }

  /** What section k of the new layout holds. */
  lemma NewContents(bin: seq<byte>, index: nat, data: seq<byte>, sections: seq<Section>, k: nat)
    requires k < |sections| && AllWhole(bin, index, sections, |sections|)
    ensures Contents(Some(NewSections(index, data, sections, |sections|)[k]),
                     NewBin(bin, index, data, sections, |sections|))
         == Ok(Piece(bin, index, data, sections[k]))
  {
    var (a, b) := (NewOffset(index, data, sections, k), NewOffset(index, data, sections, k + 1));
    MergedLayout(bin, index, data, sections, k, |sections|);
    MergeStep(bin, index, data, sections, k);
    SliceInside(NewBin(bin, index, data, sections, |sections|), a, b);
    assert NewSections(index, data, sections, |sections|)[k] == Section(a, b - a, sections[k].index);
  }

  lemma SliceInside(data: seq<byte>, from: nat, to: nat)
    requires from <= to <= |data|
    ensures Slice(data, from, to) == data[from..to]
  {
  }

  // ---------------------------------------------------------------- round trips

  predicate Is32Bit(s: Section) {
    s.offset < 0x1_0000_0000 && s.length < 0x1_0000_0000 && s.index < 0x1_0000_0000
  }

  lemma {:induction false} HeaderAt(sections: seq<Section>, k: nat)
    requires k < |sections|
    ensures HeaderData(sections)[12 * k..12 * k + 12] == SectionBytes(sections[k])
  {
    var n := |sections| - 1;
    if k < n {
      HeaderAt(sections[..n], k);
      assert HeaderData(sections)[12 * k..12 * k + 12] == HeaderData(sections[..n])[12 * k..12 * k + 12];
    }
  }

  lemma SectionBack(hdr: seq<byte>, i: nat, s: Section)
    requires i + 12 <= |hdr| && hdr[i..i + 12] == SectionBytes(s) && Is32Bit(s)
    ensures SectionAt(hdr, i) == s
  {
    var b := hdr[i..i + 12];
    SliceOf(hdr, i, 12, 0, 4);
    SliceOf(hdr, i, 12, 4, 8);
    SliceOf(hdr, i, 12, 8, 12);
    assert b[0..4] == Le32(s.offset) && b[4..8] == Le32(s.length) && b[8..12] == Le32(s.index);
    Le32Back(s.offset);
    Le32Back(s.length);
    Le32Back(s.index);
  }

  /** Parsing undoes generating on 32-bit fields, up to the sorting that parsing adds. */
  lemma HeaderBack(sections: seq<Section>)
    requires forall s :: s in sections ==> Is32Bit(s)
    ensures Sections(HeaderData(sections)) == sections
  {
    forall k | 0 <= k < |sections| ensures Sections(HeaderData(sections))[k] == sections[k] {
      HeaderAt(sections, k);
      SectionBack(HeaderData(sections), 12 * k, sections[k]);
    }
  }

  /** All sections with this index are the same one. */
  predicate OnlyOne(sections: seq<Section>, index: nat) {
    forall s, t :: s in sections && t in sections && s.index == index && t.index == index ==> s == t
  }

  /** Sorting does not change which section an index means. */
  lemma SameFirst(key: Section -> nat, sections: seq<Section>, index: nat)
    requires OnlyOne(sections, index)
    ensures FirstWith(Sort(key, sections), index) == FirstWith(sections, index)
  {
    var (a, b) := (FirstWith(Sort(key, sections), index), FirstWith(sections, index));
    if a.Some? {
      SortMembers(key, sections, a.value);
    }
    if b.Some? {
      SortMembers(key, sections, b.value);
    }
  }

  /** The first section with an index is the first of all with that index. */
  lemma {:induction false} FirstIsHead(sections: seq<Section>, x: nat)
    ensures var all := WithKey(IndexOf, sections, x);
            FirstWith(sections, x) == if all == [] then None else Some(all[0])
  {
    if sections != [] {
      FirstIsHead(sections[1..], x);
      WithKeyOne(IndexOf, sections[0], x);
      WithKeyConcat(IndexOf, [sections[0]], sections[1..], x);
      assert [sections[0]] + sections[1..] == sections;
    }
  }

  /** Sorting by index never changes which section an index means. */
  lemma IndexSorted(sections: seq<Section>, x: nat)
    ensures FirstWith(Sort(IndexOf, sections), x) == FirstWith(sections, x)
  {
    SortIsStable(IndexOf, sections, x);
    FirstIsHead(sections, x);
    FirstIsHead(Sort(IndexOf, sections), x);
  }

  lemma {:induction false} FirstIsAt(sections: seq<Section>, index: nat) returns (k: nat)
    requires FirstWith(sections, index).Some?
    ensures k < |sections| && FirstWith(sections, index) == Some(sections[k])
    ensures forall j :: 0 <= j < k ==> sections[j].index != index
  {
    if sections[0].index == index {
      k := 0;
    } else {
      k := FirstIsAt(sections[1..], index);
      k := k + 1;
    }
  }

  lemma {:induction false} FirstAt(sections: seq<Section>, index: nat, k: nat)
    requires k < |sections| && sections[k].index == index && forall j :: 0 <= j < k ==> sections[j].index != index
    ensures FirstWith(sections, index) == Some(sections[k])
  {
    if k > 0 {
      FirstAt(sections[1..], index, k - 1);
    }
  }

  /** In the new image the index means the section at the same place of the new layout. */
  lemma NewFirst(index: nat, data: seq<byte>, sections: seq<Section>, x: nat) returns (k: nat)
    requires FirstWith(sections, x).Some?
    ensures k < |sections| && FirstWith(sections, x) == Some(sections[k])
    ensures FirstWith(NewSections(index, data, sections, |sections|), x)
           == Some(NewSections(index, data, sections, |sections|)[k])
  {
    k := FirstIsAt(sections, x);
    FirstAt(NewSections(index, data, sections, |sections|), x, k);
  }

  /** No two sections have this index. */
  predicate Once(sections: seq<Section>, index: nat) {
    forall i, j :: 0 <= i < j < |sections| && sections[i].index == index ==> sections[j].index != index
  }

  lemma OnceIsOnlyOne(sections: seq<Section>, index: nat)
    requires Once(sections, index)
    ensures OnlyOne(sections, index)
  {
  }

  /** In whatever order the sections are, an index that occurs once means the same one. */
  lemma SortedSame(hdr: seq<byte>, x: nat)
    requires ParseHeader(hdr, true).Ok? && Once(ParseHeader(hdr, true).value, x)
    ensures FirstWith(ParseHeader(hdr, true).value, x) == FirstWith(Sections(hdr), x)
  {
    var (all, sorted) := (Sections(hdr), ParseHeader(hdr, true).value);
    OnceIsOnlyOne(sorted, x);
    forall s, t | s in all && t in all && s.index == x && t.index == x ensures s == t {
      SortMembers(OffsetOf, all, s);
      SortMembers(OffsetOf, all, t);
    }
    SameFirst(OffsetOf, all, x);
  }

  /** A new header, read back, finds the sections it was made of. */
  lemma NewHeaderFinds(sections: seq<Section>, x: nat)
    requires sections != [] && forall s :: s in sections ==> Is32Bit(s)
    ensures var parsed := ParseHeader(HeaderData(sections), false);
            parsed.Ok? && FirstWith(parsed.value, x) == FirstWith(sections, x)
  {
    HeaderBack(sections);
    IndexSorted(sections, x);
  }

  lemma {:induction false} NoneFirst(sections: seq<Section>, index: nat)
    requires forall k :: 0 <= k < |sections| ==> sections[k].index != index
    ensures FirstWith(sections, index) == None
  {
    if sections != [] {
      NoneFirst(sections[1..], index);
    }
  }

  /** Looking up a section in a header that has been merged. */
  lemma MergedFirst(index: nat, data: seq<byte>, sections: seq<Section>, x: nat) returns (k: Option<nat>)
    requires sections != [] && forall s :: s in NewSections(index, data, sections, |sections|) ==> Is32Bit(s)
    ensures var now := ParseHeader(HeaderData(NewSections(index, data, sections, |sections|)), false);
            && now.Ok?
            && if k.None? then FirstWith(sections, x) == FirstWith(now.value, x) == None
               else k.value < |sections| && sections[k.value].index == x
                    && FirstWith(sections, x) == Some(sections[k.value])
                    && FirstWith(now.value, x) == Some(NewSections(index, data, sections, |sections|)[k.value])
  {
    var more := NewSections(index, data, sections, |sections|);
    NewHeaderFinds(more, x);
    if FirstWith(sections, x).Some? {
      var at := NewFirst(index, data, sections, x);
      k := Some(at);
    } else {
      forall j | 0 <= j < |more| ensures more[j].index != x {
        assert sections[j] in sections;
      }
      NoneFirst(more, x);
      k := None;
    }
  }

  lemma {:induction false} Occurs(sections: seq<Section>, index: nat, n: nat)
    requires n <= |sections| && Occurrences(sections, index, n) > 0
    ensures exists k :: 0 <= k < n && sections[k].index == index
  {
    if sections[n - 1].index != index {
      Occurs(sections, index, n - 1);
    }
  }

  /** The header and the image that a merge writes. */
  ghost predicate MergesTo(hdr: seq<byte>, bin: seq<byte>, index: nat, data: seq<byte>, sections: seq<Section>,
                           newHdr: seq<byte>, newBin: seq<byte>) {
    && ParseHeader(hdr, true) == Ok(sections) && sections != [] && Occurrences(sections, index, |sections|) == 1
    && newHdr == HeaderData(NewSections(index, data, sections, |sections|))
    && newBin == NewBin(bin, index, data, sections, |sections|)
  }

  /** Extracting from what mergeSection writes: the new data for the merged index; for any other the old
      contents of the first section with that index in the order of their offsets. */
  lemma ExtractMerged(hdr: seq<byte>, bin: seq<byte>, index: nat, data: seq<byte>, x: nat)
    requires Merged(hdr, bin, index, data).Ok?
    requires var sections := ParseHeader(hdr, true).value;
             && AllWhole(bin, index, sections, |sections|)
             && forall s :: s in NewSections(index, data, sections, |sections|) ==> Is32Bit(s)
    ensures var (newHdr, newBin) := Merged(hdr, bin, index, data).value;
            Extract(newHdr, newBin, x)
            == if x == index then Ok(data) else Contents(FirstWith(ParseHeader(hdr, true).value, x), bin)
  {
    var sections := ParseHeader(hdr, true).value;
    var (newHdr, newBin) := Merged(hdr, bin, index, data).value;
    MergedIs(hdr, bin, index, data);
    ExtractAfterMerge(hdr, bin, index, data, sections, newHdr, newBin, x);
  }

  lemma MergedIs(hdr: seq<byte>, bin: seq<byte>, index: nat, data: seq<byte>)
    requires Merged(hdr, bin, index, data).Ok?
    ensures var (newHdr, newBin) := Merged(hdr, bin, index, data).value;
            MergesTo(hdr, bin, index, data, ParseHeader(hdr, true).value, newHdr, newBin)
  {
  }

  lemma ExtractAfterMerge(hdr: seq<byte>, bin: seq<byte>, index: nat, data: seq<byte>, sections: seq<Section>,
                          newHdr: seq<byte>, newBin: seq<byte>, x: nat)
    requires MergesTo(hdr, bin, index, data, sections, newHdr, newBin) && AllWhole(bin, index, sections, |sections|)
    requires forall s :: s in NewSections(index, data, sections, |sections|) ==> Is32Bit(s)
    ensures Extract(newHdr, newBin, x) == if x == index then Ok(data) else Contents(FirstWith(sections, x), bin)
  {
    var k := MergedFirst(index, data, sections, x);
    if k.Some? {
      NewContents(bin, index, data, sections, k.value);
      PieceContents(bin, index, data, sections[k.value]);
    } else {
      Occurs(sections, index, |sections|);
    }
  }

  lemma PieceContents(bin: seq<byte>, index: nat, data: seq<byte>, s: Section)
    ensures Ok(Piece(bin, index, data, s)) == if s.index == index then Ok(data) else Contents(Some(s), bin)
  {
  }

  /** Extracting takes the first section with the index in the order of the file. */
  lemma ExtractIsFirst(hdr: seq<byte>, bin: seq<byte>, x: nat)
    requires ParseHeader(hdr, false).Ok?
    ensures Extract(hdr, bin, x) == Contents(FirstWith(Sections(hdr), x), bin)
  {
    IndexSorted(Sections(hdr), x);
  }

  /** Merging leaves what another index extracts exactly when the first section with it in the file and
      the first by offset hold the same; a single one always does. */
  lemma OthersKept(hdr: seq<byte>, bin: seq<byte>, index: nat, data: seq<byte>, x: nat)
    requires Merged(hdr, bin, index, data).Ok? && x != index
    requires var sections := ParseHeader(hdr, true).value;
             && AllWhole(bin, index, sections, |sections|)
             && forall s :: s in NewSections(index, data, sections, |sections|) ==> Is32Bit(s)
    ensures var (newHdr, newBin) := Merged(hdr, bin, index, data).value;
            var (inFile, byOffset) := (FirstWith(Sections(hdr), x), FirstWith(ParseHeader(hdr, true).value, x));
            && (Extract(newHdr, newBin, x) == Extract(hdr, bin, x)
                <==> Contents(inFile, bin) == Contents(byOffset, bin))
            && (Once(ParseHeader(hdr, true).value, x) ==> inFile == byOffset)
  {
    ExtractMerged(hdr, bin, index, data, x);
    ExtractIsFirst(hdr, bin, x);
    if Once(ParseHeader(hdr, true).value, x) {
      SortedSame(hdr, x);
    }
  }

  // ---------------------------------------------------------------- two headers it goes wrong for

  lemma SortThree(key: Section -> nat, a: Section, b: Section, c: Section)
    ensures key(a) <= key(b) ==> Sort(key, [a, b]) == [a, b]
    ensures key(b) <= key(c) < key(a) ==> Sort(key, [a, b, c]) == [b, c, a]
  {
    var two, three := [a, b], [a, b, c];
    assert two[..1] == [a] && [a][..0] == [] && three[..2] == two;
    assert Sort(key, []) == [] && Sort(key, [a]) == [a];
    if key(b) < key(a) {
      assert Insert(key, [], b) == [b] && [a][..0] == [];
      assert Sort(key, two) == [b, a];
      if key(b) <= key(c) < key(a) {
        assert [b, a][..1] == [b] && Insert(key, [b], c) == [b, c];
      }
    }
  }

  lemma ParsedBack(sections: seq<Section>)
    requires sections != [] && forall s :: s in sections ==> Is32Bit(s)
    ensures ParseHeader(HeaderData(sections), true) == Ok(Sort(OffsetOf, sections))
  {
    HeaderBack(sections);
  }

  /** A section of two bytes in an image of one: the last of the new sections ends one byte behind the
      new image. */
  lemma HeaderDisagrees(b: byte, data: seq<byte>)
    ensures Merged(HeaderData([Section(0, 0, 0), Section(0, 2, 1)]), [b], 0, data)
         == Ok((HeaderData([Section(0, |data|, 0), Section(|data|, 2, 1)]), data + [b]))
  {
    var (s, t) := (Section(0, 0, 0), Section(0, 2, 1));
    var was := [s, t];
    ParsedBack(was);
    SortThree(OffsetOf, s, t, t);
    MergedTwo(b, data, was);
  }

  lemma MergedTwo(b: byte, data: seq<byte>, was: seq<Section>)
    requires was == [Section(0, 0, 0), Section(0, 2, 1)]
    ensures Occurrences(was, 0, 2) == 1 && NewBin([b], 0, data, was, 2) == data + [b]
    ensures NewSections(0, data, was, 2) == [Section(0, |data|, 0), Section(|data|, 2, 1)]
  {
    var parts := Pieces([b], 0, data, was);
    assert Occurrences(was, 0, 1) == 1 && NewOffset(0, data, was, 1) == |data|;
    assert parts[0] == data && parts[1] == [b] && Concat(parts, 1) == [] + data == data;
  }

  /** With the index 7 twice, merging index 3 changes what 7 extracts: from the first in the file to the
      first by offset. */
  lemma FirstChanges(was: seq<Section>, p: byte, q: byte, data: seq<byte>)
    requires was == [Section(1, 1, 7), Section(0, 1, 7), Section(0, 0, 3)] && |data| < 0xFFFF_0000
    ensures var merged := Merged(HeaderData(was), [p, q], 3, data);
            && merged.Ok? && Extract(HeaderData(was), [p, q], 7) == Ok([q])
            && Extract(merged.value.0, merged.value.1, 7) == Ok([p])
  {
    ThreeParsed(was);
    FirstInFile(was, p, q);
    FirstByOffset(HeaderData(was), [was[1], was[2], was[0]], p, q, data);
  }

  lemma FirstInFile(was: seq<Section>, p: byte, q: byte)
    requires |was| == 3 && was[0] == Section(1, 1, 7)
    requires Sections(HeaderData(was)) == was && ParseHeader(HeaderData(was), false).Ok?
    ensures Extract(HeaderData(was), [p, q], 7) == Ok([q])
  {
    ExtractIsFirst(HeaderData(was), [p, q], 7);
    FirstAt(was, 7, 0);
    assert Slice([p, q], 1, 2) == [q];
  }

  lemma FirstByOffset(hdr: seq<byte>, sections: seq<Section>, p: byte, q: byte, data: seq<byte>)
    requires sections == [Section(0, 1, 7), Section(0, 0, 3), Section(1, 1, 7)] && |data| < 0xFFFF_0000
    requires ParseHeader(hdr, true) == Ok(sections)
    ensures var merged := Merged(hdr, [p, q], 3, data);
            merged.Ok? && Extract(merged.value.0, merged.value.1, 7) == Ok([p])
  {
    ThreeMerge([p, q], data, sections);
    ExtractMerged(hdr, [p, q], 3, data, 7);
    FirstAt(sections, 7, 0);
    assert Slice([p, q], 0, 1) == [p];
  }

  lemma ThreeParsed(was: seq<Section>)
    requires was == [Section(1, 1, 7), Section(0, 1, 7), Section(0, 0, 3)]
    ensures ParseHeader(HeaderData(was), true) == Ok([was[1], was[2], was[0]])
    ensures Sections(HeaderData(was)) == was && ParseHeader(HeaderData(was), false).Ok?
  {
    HeaderBack(was);
    SortThree(OffsetOf, was[0], was[1], was[2]);
    assert was == [was[0], was[1], was[2]];
  }

  lemma ThreeMerge(bin: seq<byte>, data: seq<byte>, sections: seq<Section>)
    requires sections == [Section(0, 1, 7), Section(0, 0, 3), Section(1, 1, 7)] && |data| < 0xFFFF_0000 && |bin| == 2
    ensures Occurrences(sections, 3, 3) == 1 && AllWhole(bin, 3, sections, 3)
    ensures forall s :: s in NewSections(3, data, sections, 3) ==> Is32Bit(s)
  {
    assert sections[0].index == 7 && sections[1].index == 3 && sections[2].index == 7;
    assert Occurrences(sections, 3, 1) == 0;
    assert Occurrences(sections, 3, 2) == 1;
    assert NewOffset(3, data, sections, 1) == 1;
    assert NewOffset(3, data, sections, 2) == 1 + |data|;
    assert AllWhole(bin, 3, sections, 0) && Whole(bin, 3, sections[0]);
    assert AllWhole(bin, 3, sections, 1) && Whole(bin, 3, sections[1]);
    assert AllWhole(bin, 3, sections, 2) && Whole(bin, 3, sections[2]);
  }
}
