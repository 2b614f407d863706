/** The SPROM tool: finding, showing and changing values in an image. */
module Sprom {
  import opened Wrappers
  import opened Bits
  import opened Bytes
  import SpromCrc

  /** struct var_entry: where a kind of value is found in the images of some revisions. */
  datatype Entry = Entry(revMask: word, kind: nat, length: nat, offset: nat, mask: word, shift: nat)

  /** struct cmdline_vparm: a value to be set, or to be shown. */
  datatype Param =
    | RawParam(isSet: bool, at: nat, raw: byte)
    | Param(isSet: bool, kind: nat, value: word, mac: seq<byte>, ccode: seq<byte>)

  /** What display_value prints. */
  datatype Shown =
    | Flag(on: bool)
    | Hex(digits: nat, number: word)
    | Country(first: byte, second: byte)
    | Mac(address: seq<byte>)

  /** display_value returns silently for a value that the revision does not have, and exits for a length
      it cannot print. */
  datatype DisplayError = NoEntry | BadLength

  // ---------------------------------------------------------------- finding an entry

  predicate IsFor(e: Entry, revBit: word, kind: nat) {
    BitAnd(e.revMask, revBit) != 0 && e.kind == kind
  }

  /** The first entry for a kind of value in a revision. */
  function Located(table: seq<Entry>, revBit: word, kind: nat): (r: Option<Entry>)
    ensures r.None? ==> forall i :: 0 <= i < |table| ==> !IsFor(table[i], revBit, kind)
    ensures r.Some? ==> r.value in table
    ensures r.Some? ==> exists i :: 0 <= i < |table| && table[i] == r.value && IsFor(table[i], revBit, kind)
                                    && forall j :: 0 <= j < i ==> !IsFor(table[j], revBit, kind)
  {
    if table == [] then None
    else if IsFor(table[|table| - 1], revBit, kind) then
      var before := Located(table[..|table| - 1], revBit, kind);
      if before.Some? then before else Some(table[|table| - 1])
    else Located(table[..|table| - 1], revBit, kind)
  }

  lemma FirstIsLocated(table: seq<Entry>, revBit: word, kind: nat, i: nat)
    requires i < |table| && IsFor(table[i], revBit, kind) && forall j :: 0 <= j < i ==> !IsFor(table[j], revBit, kind)
    ensures Located(table, revBit, kind) == Some(table[i])
  {
    var r := Located(table, revBit, kind);
    var k :| 0 <= k < |table| && table[k] == r.value && IsFor(table[k], revBit, kind)
             && forall j :: 0 <= j < k ==> !IsFor(table[j], revBit, kind);
    assert k == i;
  }

  /** The revision is among those that the entry is for: bit `rev` of its mask is set. */
  predicate HasRevision(e: Entry, rev: nat) {
    e.revMask / Pow2(rev) % 2 == 1
  }

  /** Entry i is the first one for the revision and the kind of value. */
  predicate IsFirst(table: seq<Entry>, rev: nat, kind: nat, i: nat) {
    && i < |table| && table[i].kind == kind && HasRevision(table[i], rev)
    && forall j :: 0 <= j < i ==> !(table[j].kind == kind && HasRevision(table[j], rev))
  }

  /** `BIT(rev)` */
  function BitOfRevision(rev: nat): word {
    ShiftLeft(1, rev) % 0x1_0000_0000
  }

  lemma RevisionBit(rev: nat)
    requires rev < 32
    ensures BitOfRevision(rev) == Pow2(rev)
  {
    ShiftedOne(1, rev);
  }

  lemma ShiftedOne(one: nat, n: nat)
    requires one == 1 && n < 32
    ensures ShiftLeft(one, n) % 0x1_0000_0000 == Pow2(n)
  {
    ShiftLeftMul(one, n);
    Pow32();
    PowerOrder(n, 32);
  }

  lemma ForRevision(e: Entry, rev: nat, kind: nat)
    requires rev < 32
    ensures IsFor(e, BitOfRevision(rev), kind) <==> e.kind == kind && HasRevision(e, rev)
  {
    RevisionBit(rev);
    AndPower(e.revMask, rev);
  }

  /** What is located is the first entry with bit `rev` in its mask and the right kind, if there is one. */
  lemma LocatedIsFirst(table: seq<Entry>, rev: nat, kind: nat)
    requires rev < 32
    ensures forall i: nat :: IsFirst(table, rev, kind, i) ==> Located(table, BitOfRevision(rev), kind) == Some(table[i])
    ensures Located(table, BitOfRevision(rev), kind).Some? ==> exists i: nat :: IsFirst(table, rev, kind, i)
  {
    forall e: Entry ensures IsFor(e, BitOfRevision(rev), kind) <==> e.kind == kind && HasRevision(e, rev) {
      ForRevision(e, rev, kind);
    }
    forall i: nat | IsFirst(table, rev, kind, i) ensures Located(table, BitOfRevision(rev), kind) == Some(table[i]) {
      FirstIsLocated(table, BitOfRevision(rev), kind, i);
    }
    if Located(table, BitOfRevision(rev), kind).Some? {
      var i :| 0 <= i < |table| && IsFor(table[i], BitOfRevision(rev), kind)
               && forall j :: 0 <= j < i ==> !IsFor(table[j], BitOfRevision(rev), kind);
      assert IsFirst(table, rev, kind, i);
    }
  }

  method LocateItemRev(table: seq<Entry>, revBit: word, kind: nat) returns (r: Option<Entry>)
    ensures r == Located(table, revBit, kind)
  {
    for i := 0 to |table|
      invariant forall j :: 0 <= j < i ==> !IsFor(table[j], revBit, kind)
    {
      if IsFor(table[i], revBit, kind) {
        FirstIsLocated(table, revBit, kind, i);
        return Some(table[i]);
      }
    }
    return None;
  }

  // ---------------------------------------------------------------- values in an image

  /** The bytes an entry covers. */
  function Extent(e: Entry): nat {
    if e.length == 34 then 6 else if e.length == 32 then 4 else 2
  }

  /** Entries the tool can handle, inside the image. */
  predicate Usable(size: nat, e: Entry) {
    e.length <= 34 && e.mask < 0x1_0000 && e.offset + Extent(e) <= size
  }

  function PutWord(image: seq<byte>, at: nat, w: nat): (r: seq<byte>)
    requires at + 2 <= |image|
    ensures |r| == |image|
  {
    image[at := w % 0x100][at + 1 := w / 0x100 % 0x100]
  }

  function GetWord(image: seq<byte>, at: nat): (w: nat)
    requires at + 2 <= |image|
    ensures w < 0x1_0000
  {
    var low: nat, high: nat := image[at], image[at + 1];
    low + high * 0x100
  }

  /** The bits of a value in its word, truncated to 16 bits but not masked. */
  function Placed(e: Entry, v: word): nat {
    ShiftLeft(v, e.shift) % 0x1_0000
  }

  function NewWord(was: nat, e: Entry, v: word): nat {
    if e.length < 16 then BitOr(BitClear(was, e.mask), Placed(e, v)) else v
  }

  function MacBytes(mac: seq<byte>): seq<byte>
    requires |mac| == 6
  {
    [mac[1], mac[0], mac[3], mac[2], mac[5], mac[4]]
  }

  predicate WellFormed(p: Param) {
    p.RawParam? || (|p.mac| == 6 && |p.ccode| == 2)
  }

  /** modify_value on a located entry. */
  function Written(image: seq<byte>, e: Entry, p: Param): (r: seq<byte>)
    requires Usable(|image|, e) && p.Param? && WellFormed(p)
    ensures |r| == |image|
  {
    if e.length < 32 then PutWord(image, e.offset, NewWord(GetWord(image, e.offset), e, p.value))
    else if e.length == 32 then PutWord(PutWord(image, e.offset, p.value), e.offset + 2, p.value / 0x1_0000)
    else if e.length == 34 then image[..e.offset] + MacBytes(p.mac) + image[e.offset + 6..]
    else image[e.offset + 1 := p.ccode[0]][e.offset := p.ccode[1]]
  }

  function Blank(c: byte): byte {
    if c == 0 then 0x20 else c
  }

  function FieldOf(e: Entry, w: nat): nat {
    ShiftRight(BitAnd(w, e.mask), e.shift)
  }

  /** What is printed of a field of less than 32 bits. */
  function ShowField(length: nat, field: nat): Result<Shown, DisplayError> {
    match length
    case 1 => Ok(Flag(field != 0))
    case 4 => Ok(Hex(1, field % 0x10))
    case 5 => Ok(Hex(2, field % 0x20))
    case 8 => Ok(Hex(2, field % 0x100))
    case 16 => Ok(Hex(4, field % 0x1_0000_0000))
    case _ => Err(BadLength)
  }

  /** display_value on a located entry. */
  function Display(image: seq<byte>, e: Entry): Result<Shown, DisplayError>
    requires Usable(|image|, e)
  {
    if e.length < 32 then ShowField(e.length, FieldOf(e, GetWord(image, e.offset)))
    else match e.length
      case 32 => Ok(Hex(8, GetWord(image, e.offset) + 0x1_0000 * GetWord(image, e.offset + 2)))
      case 33 => Ok(Country(Blank(image[e.offset + 1]), Blank(image[e.offset])))
      case _ => Ok(Mac(MacBytes(image[e.offset..e.offset + 6])))
  }

  /** What a parameter asks for. */
  function Intended(e: Entry, p: Param): Result<Shown, DisplayError>
    requires p.Param? && WellFormed(p)
  {
    match e.length
    case 1 => Ok(Flag(p.value == 1))
    case 4 => Ok(Hex(1, p.value))
    case 5 => Ok(Hex(2, p.value))
    case 8 => Ok(Hex(2, p.value))
    case 16 => Ok(Hex(4, p.value))
    case 32 => Ok(Hex(8, p.value))
    case 33 => Ok(Country(Blank(p.ccode[0]), Blank(p.ccode[1])))
    case 34 => Ok(Mac(p.mac))
    case _ => Err(BadLength)
  }

  /** The bits of a value that reach its field, moved back: the others are shifted out, cut off or
      outside the mask. */
  function Reaching(e: Entry, v: word): nat {
    FieldOf(e, if e.length < 16 then Placed(e, v) else v % 0x1_0000)
  }

  /** All of the value reaches its field and is printed. */
  predicate Fits(e: Entry, v: word) {
    match e.length
    case 1 => Reaching(e, v) > 0 <==> v == 1
    case 4 => Reaching(e, v) % 0x10 == v
    case 5 => Reaching(e, v) % 0x20 == v
    case 8 => Reaching(e, v) % 0x100 == v
    case 16 => Reaching(e, v) % 0x1_0000_0000 == v
    case _ => true
  }

  lemma PutGet(image: seq<byte>, at: nat, w: nat, other: nat)
    requires at + 2 <= |image| && other + 2 <= |image|
    ensures other == at ==> GetWord(PutWord(image, at, w), other) == w % 0x1_0000
    ensures other + 2 <= at || at + 2 <= other ==> GetWord(PutWord(image, at, w), other) == GetWord(image, other)
  {
    assert w % 0x1_0000 == w % 0x100 + w / 0x100 % 0x100 * 0x100;
  }

  lemma NewWordBound(was: nat, e: Entry, v: word)
    requires was < 0x1_0000 && e.length < 16
    ensures NewWord(was, e, v) < 0x1_0000
  {
    Pow32();
    ClearBound(was, e.mask);
    OrBound(BitClear(was, e.mask), Placed(e, v), 16);
  }

  /** The word of a short entry after writing. */
  lemma WordWritten(image: seq<byte>, e: Entry, p: Param)
    requires Usable(|image|, e) && p.Param? && WellFormed(p) && e.length < 32
    ensures var was := GetWord(image, e.offset);
            GetWord(Written(image, e, p), e.offset)
            == if e.length < 16 then BitOr(BitClear(was, e.mask), Placed(e, p.value)) else p.value % 0x1_0000
  {
    var was := GetWord(image, e.offset);
    PutGet(image, e.offset, NewWord(was, e, p.value), e.offset);
    if e.length < 16 {
      NewWordBound(was, e, p.value);
    }
  }

  lemma LongBack(image: seq<byte>, e: Entry, p: Param)
    requires Usable(|image|, e) && p.Param? && WellFormed(p) && e.length == 32
    ensures Display(Written(image, e, p), e) == Ok(Hex(8, p.value))
  {
    var half := PutWord(image, e.offset, p.value);
    PutGet(image, e.offset, p.value, e.offset);
    PutGet(half, e.offset + 2, p.value / 0x1_0000, e.offset);
    PutGet(half, e.offset + 2, p.value / 0x1_0000, e.offset + 2);
  }

  /** Whatever the word held before, what is shown is the part of the value that reaches the field. */
  lemma ShortBack(image: seq<byte>, e: Entry, p: Param)
    requires Usable(|image|, e) && p.Param? && WellFormed(p) && e.length < 32
    ensures Display(Written(image, e, p), e) == ShowField(e.length, Reaching(e, p.value))
  {
    WordWritten(image, e, p);
    if e.length < 16 {
      MaskedBack(GetWord(image, e.offset), e.mask, Placed(e, p.value));
    }
  }

  lemma MacBack(image: seq<byte>, e: Entry, p: Param)
    requires Usable(|image|, e) && p.Param? && WellFormed(p) && e.length == 34
    ensures Display(Written(image, e, p), e) == Ok(Mac(p.mac))
  {
    assert Written(image, e, p)[e.offset..e.offset + 6] == MacBytes(p.mac);
    assert MacBytes(MacBytes(p.mac)) == p.mac;
  }

  /** Which byte of the image holds which part of a value that has been set: words low-order byte first, and
      the bytes of MAC addresses and country codes exchanged in pairs. */
  lemma WrittenBytes(image: seq<byte>, e: Entry, p: Param)
    requires Usable(|image|, e) && p.Param? && WellFormed(p)
    ensures var (now, o) := (Written(image, e, p), e.offset);
            && (e.length == 34 ==> && now[o + 1] == p.mac[0] && now[o] == p.mac[1] && now[o + 3] == p.mac[2]
                                   && now[o + 2] == p.mac[3] && now[o + 5] == p.mac[4] && now[o + 4] == p.mac[5])
            && (e.length == 33 ==> now[o + 1] == p.ccode[0] && now[o] == p.ccode[1])
            && (e.length == 32 ==> && now[o] == p.value % 0x100 && now[o + 1] == p.value / 0x100 % 0x100
                                   && now[o + 2] == p.value / 0x1_0000 % 0x100 && now[o + 3] == p.value / 0x100_0000)
            && (16 <= e.length < 32 ==> now[o] == p.value % 0x100 && now[o + 1] == p.value / 0x100 % 0x100)
  {
    if e.length == 34 {
      SixBytes(image, e.offset, MacBytes(p.mac));
    } else if e.length == 32 {
      LongBytes(image, e.offset, p.value);
    }
  }

  lemma SixBytes(image: seq<byte>, o: nat, six: seq<byte>)
    requires o + 6 <= |image| && |six| == 6
    ensures forall k :: 0 <= k < 6 ==> (image[..o] + six + image[o + 6..])[o + k] == six[k]
  {
  }

  lemma LongBytes(image: seq<byte>, o: nat, v: word)
    requires o + 4 <= |image|
    ensures var now := PutWord(PutWord(image, o, v), o + 2, v / 0x1_0000);
            && now[o] == v % 0x100 && now[o + 1] == v / 0x100 % 0x100
            && now[o + 2] == v / 0x1_0000 % 0x100 && now[o + 3] == v / 0x100_0000
  {
    assert v / 0x1_0000 / 0x100 == v / 0x100_0000 < 0x100;
  }

  /** And how the bytes are shown. */
  lemma DisplayedBytes(image: seq<byte>, e: Entry)
    requires Usable(|image|, e)
    ensures var (o, shown) := (e.offset, Display(image, e));
            && (e.length == 34 ==>
                  shown == Ok(Mac([image[o + 1], image[o], image[o + 3], image[o + 2], image[o + 5], image[o + 4]])))
            && (e.length == 33 && image[o] != 0 && image[o + 1] != 0 ==> shown == Ok(Country(image[o + 1], image[o])))
            && (e.length == 32 ==>
                  var b0: nat, b1: nat, b2: nat, b3: nat := image[o], image[o + 1], image[o + 2], image[o + 3];
                  shown == Ok(Hex(8, b0 + b1 * 0x100 + b2 * 0x1_0000 + b3 * 0x100_0000)))
  {
  }

  lemma FieldShown(e: Entry, p: Param)
    requires p.Param? && WellFormed(p) && e.length < 32
    ensures ShowField(e.length, Reaching(e, p.value)) == Intended(e, p) <==> Fits(e, p.value)
  {
  }

  /** A value that has been set is shown again exactly when it fits, whatever was there before. */
  lemma ReadBack(image: seq<byte>, e: Entry, p: Param)
    requires Usable(|image|, e) && p.Param? && WellFormed(p)
    ensures Display(Written(image, e, p), e) == Intended(e, p) <==> Fits(e, p.value)
  {
    if e.length < 32 {
      ShortBack(image, e, p);
      FieldShown(e, p);
    } else if e.length == 32 {
      LongBack(image, e, p);
    } else if e.length == 34 {
      MacBack(image, e, p);
    }
  }

  /** The mask of the entry is n ones at its shift. */
  predicate IsField(e: Entry, n: nat) {
    e.shift + n <= 16 && e.mask == Run(e.shift, n)
  }

  /** Of a value the low bits reach their field, as many as it has. */
  lemma FieldReached(e: Entry, v: word, n: nat)
    requires e.length < 16 && IsField(e, n)
    ensures Reaching(e, v) == v % Pow2(n)
  {
    var w := ShiftLeft(v, e.shift);
    Pow32();
    RunBound(e.shift, n);
    PowerOrder(e.shift + n, 16);
    AndMod(e.mask, w, 16);
    AndSym(e.mask, w);
    AndSym(e.mask, w % 0x1_0000);
    ShiftedBack(v, e.shift, n);
  }

  /** Exactly the values below the size of the field, and not longer than printed, fit. */
  lemma FieldFits(e: Entry, v: word, n: nat)
    requires IsField(e, n) && e.length in {4, 5, 8}
    ensures Fits(e, v) <==> v < Pow2(n) && v < Pow2(e.length)
  {
    FieldReached(e, v, n);
    assert Pow2(4) == 0x10 && Pow2(5) == 0x20 && Pow2(8) == 0x100;
    ModFits(v, Pow2(n), Pow2(e.length));
  }

  lemma ModFits(v: nat, a: nat, b: nat)
    requires a > 0 && b > 0
    ensures v % a % b == v <==> v < a && v < b
  {
    ModLess(v, a);
    ModLess(v % a, b);
  }

  lemma ModLess(x: nat, m: nat)
    requires m > 0
    ensures x % m < m && x % m <= x && (x < m ==> x % m == x)
  {
    if x < m {
      ModUnique(x, m, 0, x);
    }
  }

  /** Setting a value changes no byte outside its entry; the bits of its word outside the mask gain those
      of the value that are outside, for the value is not masked. */
  lemma WriteStaysInside(image: seq<byte>, e: Entry, p: Param)
    requires Usable(|image|, e) && p.Param? && WellFormed(p)
    ensures forall i :: 0 <= i < |image| && !(e.offset <= i < e.offset + Extent(e)) ==>
              Written(image, e, p)[i] == image[i]
    ensures e.length < 16 ==>
              BitClear(GetWord(Written(image, e, p), e.offset), e.mask)
              == BitOr(BitClear(GetWord(image, e.offset), e.mask), BitClear(Placed(e, p.value), e.mask))
  {
    if e.length < 16 {
      WordWritten(image, e, p);
      MaskedBack(GetWord(image, e.offset), e.mask, Placed(e, p.value));
    }
  }

  predicate Disjoint(e: Entry, f: Entry) {
    e.offset + Extent(e) <= f.offset || f.offset + Extent(f) <= e.offset
  }

  /** Entries in different bytes, or in different bits of the same word. */
  predicate Apart(e: Entry, f: Entry) {
    Disjoint(e, f) || (e.offset == f.offset && e.length < 16 && f.length < 16 && BitAnd(e.mask, f.mask) == 0)
  }

  /** No bit of the value is placed on a bit of the other entry. */
  predicate Spares(e: Entry, v: word, f: Entry) {
    Apart(e, f) && (Disjoint(e, f) || BitAnd(Placed(e, v), f.mask) == 0)
  }

  lemma DisplaySame(image: seq<byte>, other: seq<byte>, f: Entry)
    requires |image| == |other| && Usable(|image|, f)
    requires forall i :: f.offset <= i < f.offset + Extent(f) ==> image[i] == other[i]
    ensures Display(image, f) == Display(other, f)
  {
    if f.length == 32 {
      assert GetWord(image, f.offset + 2) == GetWord(other, f.offset + 2);
    } else if f.length == 34 {
      assert image[f.offset..f.offset + 6] == other[f.offset..f.offset + 6];
    }
  }

  /** The bits of another entry in the same word gain those of the value that are placed on them. */
  lemma OtherBits(image: seq<byte>, e: Entry, p: Param, f: Entry)
    requires Usable(|image|, e) && p.Param? && WellFormed(p) && e.length < 16 && BitAnd(e.mask, f.mask) == 0
    ensures BitAnd(GetWord(Written(image, e, p), e.offset), f.mask)
         == BitOr(BitAnd(GetWord(image, e.offset), f.mask), BitAnd(Placed(e, p.value), f.mask))
  {
    WordWritten(image, e, p);
    MaskedApart(GetWord(image, e.offset), e.mask, Placed(e, p.value), f.mask);
  }

  /** Setting one value does not disturb another one that it spares. */
  lemma WriteKeepsOthers(image: seq<byte>, e: Entry, p: Param, f: Entry)
    requires Usable(|image|, e) && p.Param? && WellFormed(p) && Usable(|image|, f) && Spares(e, p.value, f)
    ensures Display(Written(image, e, p), f) == Display(image, f)
  {
    if Disjoint(e, f) {
      WriteStaysInside(image, e, p);
      DisplaySame(Written(image, e, p), image, f);
    } else {
      OtherBits(image, e, p, f);
    }
  }

  // ---------------------------------------------------------------- all parameters

  /** The table covers only bytes of the buffer, and the parameters only values of the table. */
  predicate Suitable(table: seq<Entry>, size: nat, p: Param) {
    && (forall e :: e in table ==> Usable(size, e)) && WellFormed(p)
    && (p.RawParam? ==> p.at < size)
  }

  /** modify_value: a value that the table does not have is ignored. */
  function Applied(table: seq<Entry>, revBit: word, image: seq<byte>, p: Param): (r: seq<byte>)
    requires Suitable(table, |image|, p)
    ensures |r| == |image|
  {
    match p
    case RawParam(_, at, raw) => image[at := raw]
    case Param(_, kind, _, _, _) =>
      var e := Located(table, revBit, kind);
      if e.Some? then Written(image, e.value, p) else image
  }

  function AllApplied(table: seq<Entry>, revBit: word, image: seq<byte>, params: seq<Param>): (r: seq<byte>)
    requires forall p :: p in params ==> Suitable(table, |image|, p)
    ensures |r| == |image|
  {
    if params == [] then image
    else
      var (front, p) := (AllApplied(table, revBit, image, params[..|params| - 1]), params[|params| - 1]);
      if p.isSet then Applied(table, revBit, front, p) else front
  }

  function Bits8(image: seq<byte>): (r: seq<bv8>)
    ensures |r| == |image|
  {
    seq(|image|, i requires 0 <= i < |image| => image[i] as bv8)
  }

  predicate Valid(image: seq<byte>) {
    |image| > 0 && SpromCrc.IsValid(Bits8(image))
  }

  /** The checksum put into the last of the first `size` bytes. */
  function Sealed(image: seq<byte>, size: nat): (r: seq<byte>)
    requires 0 < size <= |image|
    ensures |r| == |image|
  {
    image[size - 1 := SpromCrc.ImageCrc(Bits8(image[..size])) as byte]
  }

  lemma SealedIsValid(image: seq<byte>, size: nat)
    requires 0 < size <= |image|
    ensures Valid(Sealed(image, size)[..size])
  {
    var crc := SpromCrc.ImageCrc(Bits8(image[..size]));
    var now := Bits8(Sealed(image, size)[..size]);
    assert now[..size - 1] == Bits8(image[..size])[..size - 1];
    assert now[size - 1] == (crc as byte) as bv8 == crc;
  }

  predicate AnySet(params: seq<Param>) {
    exists p :: p in params && p.isSet
  }

  /** The parameter sets a raw byte outside f, or a value that spares f. */
  predicate LeavesAlone(table: seq<Entry>, revBit: word, p: Param, f: Entry) {
    match p
    case RawParam(isSet, at, _) => isSet ==> at < f.offset || f.offset + Extent(f) <= at
    case Param(isSet, kind, value, _, _) =>
      var e := Located(table, revBit, kind);
      isSet && e.Some? ==> Spares(e.value, value, f)
  }

  /** What the tool shows of a kind of value. */
  function Displayed(table: seq<Entry>, revBit: word, image: seq<byte>, kind: nat): Result<Shown, DisplayError>
    requires forall e :: e in table ==> Usable(|image|, e)
  {
    var e := Located(table, revBit, kind);
    if e.None? then Err(NoEntry) else Display(image, e.value)
  }

  /** In front of the checksum: no later parameter overwrites the value. */
  lemma {:induction false} AppliedShows(table: seq<Entry>, revBit: word, image: seq<byte>, params: seq<Param>, k: nat,
                                        f: Entry)
    requires (forall p :: p in params ==> Suitable(table, |image|, p)) && k < |params|
    requires params[k].Param? && params[k].isSet && Located(table, revBit, params[k].kind) == Some(f)
    requires forall j :: k < j < |params| ==> LeavesAlone(table, revBit, params[j], f)
    ensures Usable(|image|, f) && WellFormed(params[k])
    ensures Display(AllApplied(table, revBit, image, params), f) == Intended(f, params[k]) <==> Fits(f, params[k].value)
  {
    var n := |params| - 1;
    var (front, p) := (AllApplied(table, revBit, image, params[..n]), params[n]);
    assert Suitable(table, |image|, p) && Suitable(table, |image|, params[k]);
    if k == n {
      ReadBack(front, f, p);
    } else {
      AppliedShows(table, revBit, image, params[..n], k, f);
      if p.isSet {
        OtherKept(table, revBit, front, p, f);
      }
    }
  }

  lemma OtherKept(table: seq<Entry>, revBit: word, image: seq<byte>, p: Param, f: Entry)
    requires Suitable(table, |image|, p) && p.isSet && Usable(|image|, f) && LeavesAlone(table, revBit, p, f)
    ensures Display(Applied(table, revBit, image, p), f) == Display(image, f)
  {
    match p
    case RawParam(_, at, raw) => DisplaySame(Applied(table, revBit, image, p), image, f);
    case Param(_, kind, _, _, _) =>
      var e := Located(table, revBit, kind);
      if e.Some? {
        WriteKeepsOthers(image, e.value, p, f);
      }
  }

  lemma SealedKeeps(image: seq<byte>, size: nat, f: Entry)
    requires 0 < size <= |image| && Usable(|image|, f)
    requires size - 1 < f.offset || f.offset + Extent(f) <= size - 1
    ensures Display(Sealed(image, size), f) == Display(image, f)
  {
    DisplaySame(Sealed(image, size), image, f);
  }

  /** What modify_sprom leaves is shown as it was set: a value that no later parameter and not the
      checksum overwrites is displayed as asked for, exactly when it fits. */
  lemma SetThenShow(table: seq<Entry>, revBit: word, image: seq<byte>, size: nat, params: seq<Param>, k: nat, f: Entry)
    requires (forall p :: p in params ==> Suitable(table, |image|, p)) && k < |params| && 0 < size <= |image|
    requires params[k].Param? && params[k].isSet && Located(table, revBit, params[k].kind) == Some(f)
    requires forall j :: k < j < |params| ==> LeavesAlone(table, revBit, params[j], f)
    requires size - 1 < f.offset || f.offset + Extent(f) <= size - 1
    ensures AnySet(params) && WellFormed(params[k]) && forall e :: e in table ==> Usable(|image|, e)
    ensures var left := Sealed(AllApplied(table, revBit, image, params), size);
            && Valid(left[..size])
            && (Displayed(table, revBit, left, params[k].kind) == Intended(f, params[k]) <==> Fits(f, params[k].value))
  {
    assert Suitable(table, |image|, params[k]) && params[k] in params;
    AppliedShows(table, revBit, image, params, k, f);
    SealedIsValid(AllApplied(table, revBit, image, params), size);
    SealedKeeps(AllApplied(table, revBit, image, params), size, f);
  }

  /** An image in the tool's buffer. */
  class Tool {
    const table: seq<Entry>
    const bytes: array<byte>
    var size: nat
    var rev: nat

    constructor (table: seq<Entry>, bytes: array<byte>, size: nat, rev: nat)
      ensures this.table == table && this.bytes == bytes && this.size == size && this.rev == rev
    {
      this.table, this.bytes, this.size, this.rev := table, bytes, size, rev;
    }

    function RevBit(): word
      reads this`rev
    {
      BitOfRevision(rev)
    }

    /** sprom_crc */
    method Crc() returns (crc: bv8)
      requires 0 < size <= bytes.Length
      ensures crc == SpromCrc.ImageCrc(Bits8(bytes[..size]))
    {
      crc := 0xFF;
      ghost var image := Bits8(bytes[..size]);
      for i := 0 to size - 1
        invariant crc == SpromCrc.Register(0xFF, image[..i])
      {
        SpromCrc.Crc8IsFeed(crc, bytes[i] as bv8);
        crc := SpromCrc.Crc8(crc, bytes[i] as bv8);
        assert image[..i + 1][..i] == image[..i];
      }
      crc := crc ^ 0xFF;
    }

    /** validate_input */
    method ValidateInput(force: bool) returns (error: bool)
      requires 0 < size <= bytes.Length
      ensures error <==> !Valid(bytes[..size]) && !force
    {
      var crc := Crc();
      error := crc != bytes[size - 1] as bv8 && !force;
    }

    /** Write a value into its entry. */
    method WriteEntry(e: Entry, p: Param)
      requires Usable(bytes.Length, e) && p.Param? && WellFormed(p)
      modifies bytes
      ensures bytes[..] == Written(old(bytes[..]), e, p)
    {
      var o := e.offset;
      if e.length < 32 {
        var low: nat, high: nat := bytes[o], bytes[o + 1];
        var value := NewWord(low + high * 0x100, e, p.value);
        bytes[o] := value % 0x100;
        bytes[o + 1] := value / 0x100 % 0x100;
      } else if e.length == 32 {
        bytes[o] := p.value % 0x100;
        bytes[o + 1] := p.value / 0x100 % 0x100;
        bytes[o + 2] := p.value / 0x1_0000 % 0x100;
        bytes[o + 3] := p.value / 0x100_0000 % 0x100;
      } else if e.length == 34 {
        bytes[o + 1] := p.mac[0];
        bytes[o] := p.mac[1];
        bytes[o + 3] := p.mac[2];
        bytes[o + 2] := p.mac[3];
        bytes[o + 5] := p.mac[4];
        bytes[o + 4] := p.mac[5];
      } else {
        bytes[o + 1] := p.ccode[0];
        bytes[o] := p.ccode[1];
      }
    }

    /** modify_value */
    method ModifyValue(p: Param)
      requires Suitable(table, bytes.Length, p)
      modifies bytes
      ensures bytes[..] == Applied(table, RevBit(), old(bytes[..]), p)
      ensures rev < 32 && p.Param? ==> forall i: nat :: IsFirst(table, rev, p.kind, i) ==>
                bytes[..] == Written(old(bytes[..]), table[i], p)
      ensures rev < 32 && p.Param? && (forall i: nat :: !IsFirst(table, rev, p.kind, i)) ==> bytes[..] == old(bytes[..])
      ensures p.RawParam? ==> && bytes[p.at] == p.raw
                              && forall k :: 0 <= k < bytes.Length && k != p.at ==> bytes[k] == old(bytes[k])
    {
      if rev < 32 && p.Param? {
        LocatedIsFirst(table, rev, p.kind);
      }
      match p {
        case RawParam(_, at, raw) => bytes[at] := raw;
        case Param(_, kind, _, _, _) =>
          var found := LocateItemRev(table, RevBit(), kind);
          if found.Some? {
            WriteEntry(found.value, p);
          }
      }
    }

    /** modify_sprom: whatever has been modified, the image is valid afterwards. */
    method ModifySprom(params: seq<Param>) returns (modified: bool)
      requires 0 < size <= bytes.Length && forall p :: p in params ==> Suitable(table, bytes.Length, p)
      modifies bytes
      ensures modified == AnySet(params)
      ensures var image := AllApplied(table, RevBit(), old(bytes[..]), params);
              bytes[..] == if modified then Sealed(image, size) else old(bytes[..])
      ensures modified ==> Valid(bytes[..size])
    {
      modified := false;
      for i := 0 to |params|
        invariant bytes[..] == AllApplied(table, RevBit(), old(bytes[..]), params[..i])
        invariant modified == AnySet(params[..i])
        invariant !modified ==> bytes[..] == old(bytes[..])
      {
        assert params[..i + 1][..i] == params[..i];
        if params[i].isSet {
          ModifyValue(params[i]);
          modified := true;
          assert params[i] in params[..i + 1];
        }
      }
      assert params[..|params|] == params;
      if modified {
        ghost var image := bytes[..];
        var crc := Crc();
        assert image[..size] == bytes[..size];
        bytes[size - 1] := crc as byte;
        assert bytes[..size] == bytes[..][..size];
        SealedIsValid(image, size);
      }
    }

    /** display_value */
    method DisplayValue(p: Param) returns (shown: Result<Shown, DisplayError>)
      requires p.Param? && Suitable(table, bytes.Length, p)
      ensures shown == Displayed(table, RevBit(), bytes[..], p.kind)
      ensures rev < 32 ==> forall i: nat :: IsFirst(table, rev, p.kind, i) ==> shown == Display(bytes[..], table[i])
      ensures rev < 32 && (forall i: nat :: !IsFirst(table, rev, p.kind, i)) ==> shown == Err(NoEntry)
    {
      if rev < 32 {
        LocatedIsFirst(table, rev, p.kind);
      }
      var found := LocateItemRev(table, RevBit(), p.kind);
      if found.None? {
        return Err(NoEntry);
      }
      var (e, o) := (found.value, found.value.offset);
      var low: nat, high: nat, value: nat := bytes[o], bytes[o + 1], 0;
      if e.length < 32 {
        value := ShiftRight(BitAnd(low + high * 0x100, e.mask), e.shift);
      } else if e.length == 32 {
        var third: nat, fourth: nat := bytes[o + 2], bytes[o + 3];
        value := low + high * 0x100 + third * 0x1_0000 + fourth * 0x100_0000;
      }
      match e.length {
        case 1 => return Ok(Flag(value != 0));
        case 4 => return Ok(Hex(1, value % 0x10));
        case 5 => return Ok(Hex(2, value % 0x20));
        case 8 => return Ok(Hex(2, value % 0x100));
        case 16 => return Ok(Hex(4, value % 0x1_0000_0000));
        case 32 => return Ok(Hex(8, value));
        case 33 =>
          var first := if high == 0 then ' ' as byte else bytes[o + 1];
          var second := if low == 0 then ' ' as byte else bytes[o];
          return Ok(Country(first, second));
        case 34 => return Ok(Mac([bytes[o + 1], bytes[o], bytes[o + 3], bytes[o + 2], bytes[o + 5], bytes[o + 4]]));
        case _ => return Err(BadLength);
      }
    }
  }
}
