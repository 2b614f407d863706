/** The stream of initial values: two writers, one reader, records of four or six bytes. */
module Initvals {
  import opened Wrappers
  import opened Bits
  import opened Bytes

  datatype IvError = OffsetTooBig | ValueTooBig | BadSize | Truncated | NoHeader | WrongType | WrongVersion

  /** One initial value: a register offset, a size of 2 or 4 bytes, and a value. */
  datatype Iv = Iv(offset: nat, size: nat, value: nat)

  /** What a record can hold. */
  predicate Storable(iv: Iv) {
    iv.offset < 0x8000 && if iv.size == 4 then iv.value < 0x1_0000_0000 else iv.size == 2 && iv.value < 0x1_0000
  }

  /** Bit 15 of the first two bytes tells the records of six bytes from those of four. */
  function EncodeIv(iv: Iv): (b: seq<byte>)
    requires Storable(iv)
    ensures |b| == 2 + iv.size
  {
    if iv.size == 4 then Be16(iv.offset + 0x8000) + Be32(iv.value) else Be16(iv.offset) + Be16(iv.value)
  }

  /** The bytes of a record, most significant first. */
  lemma RecordBytes(iv: Iv)
    requires Storable(iv)
    ensures var (o, v) := (iv.offset, iv.value);
            EncodeIv(iv)
            == if iv.size == 4
               then [o / 0x100 + 0x80, o % 0x100, v / 0x100_0000, v / 0x1_0000 % 0x100, v / 0x100 % 0x100, v % 0x100]
               else [o / 0x100, o % 0x100, v / 0x100, v % 0x100]
  {
    assert (iv.offset + 0x8000) / 0x100 == iv.offset / 0x100 + 0x80
        && (iv.offset + 0x8000) % 0x100 == iv.offset % 0x100;
  }

  ghost predicate AllStorable(ivs: seq<Iv>) {
    forall k :: 0 <= k < |ivs| ==> Storable(ivs[k])
  }

  function Encode(ivs: seq<Iv>): seq<byte>
    requires forall k :: 0 <= k < |ivs| ==> Storable(ivs[k])
  {
    if ivs == [] then [] else Encode(ivs[..|ivs| - 1]) + EncodeIv(ivs[|ivs| - 1])
  }

  lemma EncodeMore(ivs: seq<Iv>, iv: Iv)
    requires AllStorable(ivs) && Storable(iv)
    ensures AllStorable(ivs + [iv]) && Encode(ivs + [iv]) == Encode(ivs) + EncodeIv(iv)
  {
    assert (ivs + [iv])[..|ivs|] == ivs;
  }

  /** The first results are these records. */
  ghost predicate GoodSoFar(all: seq<Result<Iv, IvError>>, ivs: seq<Iv>, out: seq<byte>) {
    && |ivs| <= |all| && AllStorable(ivs) && out == Encode(ivs)
    && forall k :: 0 <= k < |ivs| ==> all[k] == Ok(ivs[k])
  }

  /** One more record, or the first error. */
  lemma GoodMore(all: seq<Result<Iv, IvError>>, ivs: seq<Iv>, out: seq<byte>)
    requires GoodSoFar(all, ivs, out) && |ivs| < |all| && (all[|ivs|].Ok? ==> Storable(all[|ivs|].value))
    ensures var iv := all[|ivs|];
            if iv.Err? then Values(all) == Err(iv.error) else GoodSoFar(all, ivs + [iv.value], out + EncodeIv(iv.value))
  {
    if all[|ivs|].Err? {
      FirstError(all, |ivs|);
    } else {
      EncodeMore(ivs, all[|ivs|].value);
    }
  }

  lemma AllGood(all: seq<Result<Iv, IvError>>, ivs: seq<Iv>, out: seq<byte>)
    requires GoodSoFar(all, ivs, out) && |ivs| == |all|
    ensures Values(all) == Ok(ivs) && AllStorable(ivs) && out == Encode(ivs)
  {
    assert Values(all).value == ivs;
  }

  // ---------------------------------------------------------------- the reader

  /** The record at the front of the data. */
  function FrontIv(data: seq<byte>): (r: Result<Iv, IvError>)
    ensures r.Ok? ==> Storable(r.value) && 2 + r.value.size <= |data|
  {
    if |data| < 2 then Err(Truncated)
    else
      var w := FromBe16(data[..2]);
      if w >= 0x8000 then if |data| < 6 then Err(Truncated) else Ok(Iv(w - 0x8000, 4, FromBe32(data[2..6])))
      else if |data| < 4 then Err(Truncated) else Ok(Iv(w, 2, FromBe16(data[2..4])))
  }

  function Decode(data: seq<byte>): Result<seq<Iv>, IvError> {
    if data == [] then Ok([])
    else
      var iv :- FrontIv(data);
      var rest :- Decode(data[2 + iv.size..]);
      Ok([iv] + rest)
  }

  /** The loop of the dumper. */
  method DumpIvs(data: seq<byte>) returns (r: Result<seq<Iv>, IvError>)
    ensures r == Decode(data)
  {
    var ivs: seq<Iv>, idx := [], 0;
    while idx < |data|
      invariant idx <= |data| && DecodedSoFar(data, idx, ivs)
    {
      if |data| - idx < 2 {
        return Err(Truncated);
      }
      var high: nat, low: nat := data[idx], data[idx + 1];
      var w := high * 0x100 + low;
      if w >= 0x8000 {
        if |data| - idx < 6 {
          return Err(Truncated);
        }
        var b2: nat, b3: nat, b4: nat, b5: nat := data[idx + 2], data[idx + 3], data[idx + 4], data[idx + 5];
        var iv := Iv(w - 0x8000, 4, b2 * 0x100_0000 + b3 * 0x1_0000 + b4 * 0x100 + b5);
        DecodedMore(data, idx, ivs, iv);
        ivs, idx := ivs + [iv], idx + 6;
      } else {
        if |data| - idx < 4 {
          return Err(Truncated);
        }
        var b2: nat, b3: nat := data[idx + 2], data[idx + 3];
        var iv := Iv(w, 2, b2 * 0x100 + b3);
        DecodedMore(data, idx, ivs, iv);
        ivs, idx := ivs + [iv], idx + 4;
      }
    }
    assert ivs + [] == ivs;
    return Ok(ivs);
  }

  lemma DecodedMore(data: seq<byte>, idx: nat, ivs: seq<Iv>, iv: Iv)
    requires idx < |data| && DecodedSoFar(data, idx, ivs) && FrontIv(data[idx..]) == Ok(iv)
    ensures idx + 2 + iv.size <= |data| && DecodedSoFar(data, idx + 2 + iv.size, ivs + [iv])
  {
    assert data[idx..][2 + iv.size..] == data[idx + 2 + iv.size..];
    var rest := Decode(data[idx + 2 + iv.size..]);
    if rest.Ok? {
      assert ivs + ([iv] + rest.value) == ivs + [iv] + rest.value;
    }
  }

  /** The records in front of idx are known; decoding fails or succeeds with the rest. */
  ghost predicate DecodedSoFar(data: seq<byte>, idx: nat, ivs: seq<Iv>)
    requires idx <= |data|
  {
    var rest := Decode(data[idx..]);
    if rest.Err? then Decode(data) == rest else Decode(data).Ok? && Decode(data).value == ivs + rest.value
  }

  // ---------------------------------------------------------------- unique decodability

  lemma FrontBack(iv: Iv, rest: seq<byte>)
    requires Storable(iv)
    ensures FrontIv(EncodeIv(iv) + rest) == Ok(iv)
  {
    var data := EncodeIv(iv) + rest;
    if iv.size == 4 {
      assert data[..2] == Be16(iv.offset + 0x8000) && data[2..6] == Be32(iv.value);
      Be16Back(iv.offset + 0x8000);
      Be32Back(iv.value);
    } else {
      assert data[..2] == Be16(iv.offset) && data[2..4] == Be16(iv.value);
      Be16Back(iv.offset);
      Be16Back(iv.value);
    }
  }

  lemma {:induction false} EncodeFront(iv: Iv, ivs: seq<Iv>)
    requires Storable(iv) && AllStorable(ivs)
    ensures AllStorable([iv] + ivs) && Encode([iv] + ivs) == EncodeIv(iv) + Encode(ivs)
  {
    if ivs == [] {
      assert [iv] + ivs == [] + [iv];
      EncodeMore([], iv);
    } else {
      var (front, last) := (ivs[..|ivs| - 1], ivs[|ivs| - 1]);
      EncodeFront(iv, front);
      assert ([iv] + ivs)[..|ivs|] == [iv] + front;
      Regroup(EncodeIv(iv), Encode(front), EncodeIv(last));
    }
  }

  lemma Regroup(a: seq<byte>, b: seq<byte>, c: seq<byte>)
    ensures (a + b) + c == a + (b + c)
  {
  }

  /** Decoding gives back the list that was encoded. */
  lemma {:induction false} DecodeEncode(ivs: seq<Iv>)
    requires AllStorable(ivs)
    ensures Decode(Encode(ivs)) == Ok(ivs)
  {
    if ivs != [] {
      var (iv, rest) := (ivs[0], ivs[1..]);
      DecodeEncode(rest);
      EncodeFront(iv, rest);
      assert ivs == [iv] + rest;
      DecodeFront(iv, Encode(rest));
    }
  }

  lemma DecodeFront(iv: Iv, data: seq<byte>)
    requires Storable(iv) && Decode(data).Ok?
    ensures Decode(EncodeIv(iv) + data) == Ok([iv] + Decode(data).value)
  {
    FrontBack(iv, data);
    assert (EncodeIv(iv) + data)[2 + iv.size..] == data;
  }

  lemma FrontBytes(data: seq<byte>)
    requires FrontIv(data).Ok?
    ensures var iv := FrontIv(data).value; EncodeIv(iv) == data[..2 + iv.size]
  {
    var iv := FrontIv(data).value;
    FromBe16Back(data[..2]);
    if iv.size == 4 {
      FromBe32Back(data[2..6]);
      assert data[..6] == data[..2] + data[2..6];
    } else {
      FromBe16Back(data[2..4]);
      assert data[..4] == data[..2] + data[2..4];
    }
  }

  /** Whatever decodes is the encoding of what it decodes to. */
  lemma {:induction false} EncodeDecode(data: seq<byte>)
    requires Decode(data).Ok?
    ensures AllStorable(Decode(data).value) && Encode(Decode(data).value) == data
  {
    if data != [] {
      var iv := FrontIv(data).value;
      var rest := data[2 + iv.size..];
      EncodeDecode(rest);
      EncodeFront(iv, Decode(rest).value);
      FrontBytes(data);
      assert data == data[..2 + iv.size] + rest;
    }
  }

  function Total(ivs: seq<Iv>): nat {
    if ivs == [] then 0 else Total(ivs[..|ivs| - 1]) + 2 + ivs[|ivs| - 1].size
  }

  lemma {:induction false} EncodedSize(ivs: seq<Iv>)
    requires AllStorable(ivs)
    ensures |Encode(ivs)| == Total(ivs) && 4 * |ivs| <= |Encode(ivs)| <= 6 * |ivs|
  {
    if ivs != [] {
      EncodedSize(ivs[..|ivs| - 1]);
    }
  }

  // ---------------------------------------------------------------- the firmware cutter as a writer

  function Reversed2(b: seq<byte>): (r: seq<byte>)
    requires |b| == 2
    ensures |r| == 2
  {
    [b[1], b[0]]
  }

  function Reversed4(b: seq<byte>): (r: seq<byte>)
    requires |b| == 4
    ensures |r| == 4
  {
    [b[3], b[2], b[1], b[0]]
  }

  /** struct iv: register, size and value, big-endian unless the file is marked otherwise. */
  function InputIv(le: bool, b: seq<byte>): (iv: Iv)
    requires |b| == 8
    ensures iv.value < 0x1_0000_0000
  {
    var (reg, size, val) := (b[0..2], b[2..4], b[4..8]);
    if le then Iv(FromBe16(Reversed2(reg)), FromBe16(Reversed2(size)), FromBe32(Reversed4(val)))
    else Iv(FromBe16(reg), FromBe16(size), FromBe32(val))
  }

  /** A record of the input is the register, the size and the value, each most significant byte first, or
      least significant byte first in files that are marked so. */
  lemma InputFields(o: nat, s: nat, v: nat)
    requires o < 0x1_0000 && s < 0x1_0000 && v < 0x1_0000_0000
    ensures InputIv(false, [o / 0x100, o % 0x100, s / 0x100, s % 0x100,
                            v / 0x100_0000, v / 0x1_0000 % 0x100, v / 0x100 % 0x100, v % 0x100]) == Iv(o, s, v)
    ensures InputIv(true, [o % 0x100, o / 0x100, s % 0x100, s / 0x100,
                           v % 0x100, v / 0x100 % 0x100, v / 0x1_0000 % 0x100, v / 0x100_0000]) == Iv(o, s, v)
  {
    BigFields(Be16(o), Be16(s), Be32(v), o, s, v);
    LittleFields(Be16(o), Be16(s), Be32(v), o, s, v);
  }

  lemma BigFields(a: seq<byte>, b: seq<byte>, c: seq<byte>, o: nat, s: nat, v: nat)
    requires o < 0x1_0000 && s < 0x1_0000 && v < 0x1_0000_0000 && a == Be16(o) && b == Be16(s) && c == Be32(v)
    ensures InputIv(false, a + b + c) == Iv(o, s, v)
  {
    var r := a + b + c;
    assert r[0..2] == a && r[2..4] == b && r[4..8] == c;
    Be16Back(o);
    Be16Back(s);
    Be32Back(v);
  }

  lemma LittleFields(a: seq<byte>, b: seq<byte>, c: seq<byte>, o: nat, s: nat, v: nat)
    requires o < 0x1_0000 && s < 0x1_0000 && v < 0x1_0000_0000 && a == Be16(o) && b == Be16(s) && c == Be32(v)
    ensures InputIv(true, Reversed2(a) + Reversed2(b) + Reversed4(c)) == Iv(o, s, v)
  {
    var r := Reversed2(a) + Reversed2(b) + Reversed4(c);
    assert r[0..2] == Reversed2(a) && r[2..4] == Reversed2(b) && r[4..8] == Reversed4(c);
    assert Reversed2(Reversed2(a)) == a && Reversed2(Reversed2(b)) == b && Reversed4(Reversed4(c)) == c;
    Be16Back(o);
    Be16Back(s);
    Be32Back(v);
  }

  /** The checks of build_ivs. */
  function Checked(iv: Iv): (r: Result<Iv, IvError>)
    requires iv.value < 0x1_0000_0000
    ensures r.Ok? <==> Storable(iv)
    ensures r.Ok? ==> r.value == iv
  {
    if iv.offset >= 0x8000 then Err(OffsetTooBig)
    else if iv.size == 4 then Ok(iv)
    else if iv.size != 2 then Err(BadSize)
    else if iv.value > 0xFFFF then Err(ValueTooBig) else Ok(iv)
  }

  /** A record of eight bytes. */
  function InputRecord(le: bool, b: seq<byte>): (r: Result<Iv, IvError>)
    ensures r.Ok? ==> Storable(r.value)
  {
    if |b| != 8 then Err(Truncated) else Checked(InputIv(le, b))
  }

  /** What `read` makes of each record of eight bytes. */
  function ReadAll(read: seq<byte> -> Result<Iv, IvError>, input: seq<byte>): (r: seq<Result<Iv, IvError>>)
    ensures |r| == |input| / 8
  {
    seq(|input| / 8, k requires 0 <= k < |input| / 8 => read(input[8 * k..8 * k + 8]))
  }

  /** The records of the input, or the first error in it; what is left at the end is ignored. */
  function InputIvs(le: bool, input: seq<byte>): (r: Result<seq<Iv>, IvError>)
    ensures r.Ok? ==> |r.value| == |input| / 8 && AllStorable(r.value)
  {
    var all := ReadAll(b => InputRecord(le, b), input);
    assert forall k :: 0 <= k < |all| && all[k].Ok? ==> Storable(all[k].value);
    Values(all)
  }

  /** Whatever is read can be stored. */
  ghost predicate ReadsStorable(read: seq<byte> -> Result<Iv, IvError>) {
    forall b: seq<byte> :: read(b).Ok? ==> Storable(read(b).value)
  }

  lemma ReadMore(read: seq<byte> -> Result<Iv, IvError>, input: seq<byte>, ivs: seq<Iv>, out: seq<byte>)
    requires ReadsStorable(read) && GoodSoFar(ReadAll(read, input), ivs, out) && |ivs| < |input| / 8
    ensures var iv := read(input[8 * |ivs|..8 * |ivs| + 8]);
            if iv.Err? then Values(ReadAll(read, input)) == Err(iv.error)
            else Storable(iv.value) && GoodSoFar(ReadAll(read, input), ivs + [iv.value], out + EncodeIv(iv.value))
  {
    GoodMore(ReadAll(read, input), ivs, out);
  }

  /** The loop of build_ivs. */
  method BuildAll(read: seq<byte> -> Result<Iv, IvError>, input: seq<byte>) returns (r: Result<seq<byte>, IvError>)
    requires ReadsStorable(read)
    ensures var ivs := Values(ReadAll(read, input));
            if ivs.Err? then r == Err(ivs.error) else AllStorable(ivs.value) && r == Ok(Encode(ivs.value))
  {
    var out: seq<byte> := [];
    ghost var ivs: seq<Iv> := [];
    ghost var all := ReadAll(read, input);
    for i := 0 to |input| / 8
      invariant |ivs| == i && GoodSoFar(all, ivs, out)
    {
      var iv := read(input[8 * i..8 * i + 8]);
      ReadMore(read, input, ivs, out);
      if iv.Err? {
        return Err(iv.error);
      }
      out := out + EncodeIv(iv.value);
      ivs := ivs + [iv.value];
    }
    AllGood(all, ivs, out);
    return Ok(out);
  }

  /** build_ivs: the stream of all records, which is no longer than the input, and their number. */
  method BuildIvs(le: bool, input: seq<byte>) returns (r: Result<(seq<byte>, nat), IvError>)
    ensures match InputIvs(le, input)
            case Err(e) => r == Err(e)
            case Ok(ivs) => r == Ok((Encode(ivs), |ivs|)) && |Encode(ivs)| <= |input|
  {
    var out := BuildAll(b => InputRecord(le, b), input);
    if out.Err? {
      return Err(out.error);
    }
    EncodedSize(InputIvs(le, input).value);
    return Ok((out.value, |input| / 8));
  }

  /** The reader gives back the records of the cutter's input. */
  lemma BuiltStreamDecodes(le: bool, input: seq<byte>)
    requires InputIvs(le, input).Ok?
    ensures Decode(Encode(InputIvs(le, input).value)) == InputIvs(le, input)
    ensures |Encode(InputIvs(le, input).value)| <= |input|
  {
    var ivs := InputIvs(le, input).value;
    DecodeEncode(ivs);
    EncodedSize(ivs);
  }

  // ---------------------------------------------------------------- the assembler as a writer

  /** An operation of an initvals section; all arguments are unsigned ints. */
  datatype IvOp =
    | Mmio16(value: word, offset: word)
    | Mmio32(value: word, offset: word)
    | Phy(value: word, offset: word)
    | Radio(value: word, offset: word)
    | Shm16(value: word, routing: word, offset: word)
    | Shm32(value: word, routing: word, offset: word)
    | Tram(value: word, offset: word)

  function ShmControl(routing: word, offset: nat): Iv {
    Iv(0x160, 4, routing % 0x1_0000 * 0x1_0000 + offset % 0x1_0000)
  }

  /** The writes an operation stands for.  Addresses in shared memory are byte addresses; the halves of
      an unaligned 32-bit value are written one by one. */
  function OpIvs(op: IvOp): seq<Iv> {
    match op
    case Mmio16(value, offset) => [Iv(offset, 2, value)]
    case Mmio32(value, offset) => [Iv(offset, 4, value)]
    case Phy(value, offset) => [Iv(0x3FC, 2, offset), Iv(0x3FE, 2, value)]
    case Radio(value, offset) => [Iv(0x3F6, 2, offset), Iv(0x3FA, 2, value)]
    case Shm16(value, routing, offset) =>
      if routing % 0x100 != 1 then [ShmControl(routing, offset), Iv(0x164, 2, value)]
      else if offset % 4 != 0 then [ShmControl(routing, offset / 4), Iv(0x166, 2, value)]
      else [ShmControl(routing, offset / 4), Iv(0x164, 2, value)]
    case Shm32(value, routing, offset) =>
      if routing % 0x100 != 1 then [ShmControl(routing, offset), Iv(0x164, 4, value)]
      else if offset % 4 != 0 then
        [ShmControl(routing, offset / 4), Iv(0x166, 2, value / 0x1_0000),
         ShmControl(routing, offset / 4 + 1), Iv(0x164, 2, value % 0x1_0000)]
      else [ShmControl(routing, offset / 4), Iv(0x164, 4, value)]
    case Tram(value, offset) => [Iv(0x130, 4, offset), Iv(0x134, 4, value)]
  }

  function SectionIvs(ops: seq<IvOp>): seq<Iv> {
    if ops == [] then [] else SectionIvs(ops[..|ops| - 1]) + OpIvs(ops[|ops| - 1])
  }

  /** initval_to_raw: 16-bit values are cut off, too big offsets are an error. */
  function RawIv(iv: Iv): Result<Iv, IvError> {
    if iv.offset >= 0x8000 then Err(OffsetTooBig)
    else if iv.size == 2 then Ok(Iv(iv.offset, 2, iv.value % 0x1_0000))
    else if iv.size == 4 then Ok(Iv(iv.offset, 4, iv.value % 0x1_0000_0000))
    else Err(BadSize)
  }

  function RawIvs(ivs: seq<Iv>): (r: Result<seq<Iv>, IvError>)
    ensures r.Ok? ==> |r.value| == |ivs| && AllStorable(r.value)
    ensures r.Ok? ==> forall k :: 0 <= k < |ivs| ==> RawIv(ivs[k]) == Ok(r.value[k])
    ensures r.Ok? <==> forall k :: 0 <= k < |ivs| ==> RawIv(ivs[k]).Ok?
  {
    Values(seq(|ivs|, k requires 0 <= k < |ivs| => RawIv(ivs[k])))
  }

  function IvHeader(count: nat): (h: seq<byte>)
    ensures |h| == 8
  {
    ['i' as byte, 1, 0, 0] + Be32(count % 0x1_0000_0000)
  }

  /** The header says what the file is, and the number of records most significant byte first. */
  lemma HeaderBytes(count: nat)
    requires count < 0x1_0000_0000
    ensures IvHeader(count) == [0x69, 1, 0, 0, count / 0x100_0000, count / 0x1_0000 % 0x100, count / 0x100 % 0x100,
                                count % 0x100]
  {
    assert 'i' as byte == 0x69;
  }

  /** The file the assembler writes for a section. */
  function SectionFile(ops: seq<IvOp>): Result<seq<byte>, IvError> {
    var raw :- RawIvs(SectionIvs(ops));
    Ok(IvHeader(|raw|) + Encode(raw))
  }

  class Section {
    var ivals: seq<Iv>
    var count: nat

    ghost predicate Valid()
      reads this
    {
      count == |ivals|
    }

    constructor ()
      ensures Valid() && ivals == []
    {
      ivals, count := [], 0;
    }

    /** assemble_write_mmio */
    method WriteMmio(offset: word, size: nat, value: word)
      requires Valid()
      modifies this
      ensures Valid() && ivals == old(ivals) + [Iv(offset, size, value)]
    {
      ivals := ivals + [Iv(offset, size, value)];
      count := count + 1;
    }

    method WriteControl(routing: word, offset: word)
      requires Valid()
      modifies this
      ensures Valid() && ivals == old(ivals) + [ShmControl(routing, offset)]
    {
      WriteMmio(0x160, 4, routing % 0x1_0000 * 0x1_0000 + offset % 0x1_0000);
    }

    /** shm_write32 */
    method WriteShm32(routing: word, offset: word, value: word)
      requires Valid()
      modifies this
      ensures Valid() && ivals == old(ivals) + OpIvs(Shm32(value, routing, offset))
    {
      var at := offset;
      if routing % 0x100 == 1 {
        if offset % 4 != 0 {
          WriteControl(routing, offset / 4);
          WriteMmio(0x166, 2, value / 0x1_0000);
          WriteControl(routing, offset / 4 + 1);
          WriteMmio(0x164, 2, value % 0x1_0000);
          return;
        }
        at := offset / 4;
      }
      WriteControl(routing, at);
      WriteMmio(0x164, 4, value);
    }

    /** shm_write16 */
    method WriteShm16(routing: word, offset: word, value: word)
      requires Valid()
      modifies this
      ensures Valid() && ivals == old(ivals) + OpIvs(Shm16(value, routing, offset))
    {
      var at := offset;
      if routing % 0x100 == 1 {
        if offset % 4 != 0 {
          WriteControl(routing, offset / 4);
          WriteMmio(0x166, 2, value);
          return;
        }
        at := offset / 4;
      }
      WriteControl(routing, at);
      WriteMmio(0x164, 2, value);
    }

    /** assemble_ival_section */
    method Assemble(ops: seq<IvOp>)
      requires Valid() && ivals == []
      modifies this
      ensures Valid() && ivals == SectionIvs(ops)
    {
      for i := 0 to |ops|
        invariant Valid() && ivals == SectionIvs(ops[..i])
      {
        assert ops[..i + 1][..i] == ops[..i];
        match ops[i] {
          case Mmio16(value, offset) => WriteMmio(offset, 2, value);
          case Mmio32(value, offset) => WriteMmio(offset, 4, value);
          case Phy(value, offset) =>
            WriteMmio(0x3FC, 2, offset);
            WriteMmio(0x3FE, 2, value);
          case Radio(value, offset) =>
            WriteMmio(0x3F6, 2, offset);
            WriteMmio(0x3FA, 2, value);
          case Shm16(value, routing, offset) => WriteShm16(routing, offset, value);
          case Shm32(value, routing, offset) => WriteShm32(routing, offset, value);
          case Tram(value, offset) =>
            WriteMmio(0x130, 4, offset);
            WriteMmio(0x134, 4, value);
        }
      }
      assert ops[..|ops|] == ops;
    }

    /** emit_ival_section */
    method Emit() returns (r: Result<seq<byte>, IvError>)
      requires Valid()
      ensures match RawIvs(ivals)
              case Err(e) => r == Err(e)
              case Ok(raw) => r == Ok(IvHeader(|raw|) + Encode(raw))
    {
      var stream := EmitIvs(ivals);
      if stream.Err? {
        return Err(stream.error);
      }
      return Ok(IvHeader(count) + stream.value);
    }
  }

  /** The raw records of a list, one after the other. */
  method EmitIvs(ivs: seq<Iv>) returns (r: Result<seq<byte>, IvError>)
    ensures match RawIvs(ivs)
            case Err(e) => r == Err(e)
            case Ok(raw) => r == Ok(Encode(raw))
  {
    var stream: seq<byte> := [];
    ghost var raw: seq<Iv> := [];
    ghost var all := seq(|ivs|, k requires 0 <= k < |ivs| => RawIv(ivs[k]));
    for i := 0 to |ivs|
      invariant |raw| == i && GoodSoFar(all, raw, stream)
    {
      var iv := RawIv(ivs[i]);
      GoodMore(all, raw, stream);
      if iv.Err? {
        return Err(iv.error);
      }
      stream := stream + EncodeIv(iv.value);
      raw := raw + [iv.value];
    }
    AllGood(all, raw, stream);
    return Ok(stream);
  }

  // ---------------------------------------------------------------- dumping and assembling again

  /** Reading a file: the header's type and version are looked at, its count is not. */
  function ReadIvFile(file: seq<byte>): Result<seq<Iv>, IvError> {
    if |file| < 8 then Err(NoHeader)
    else if file[0] != 'i' as byte then Err(WrongType)
    else if file[1] != 1 then Err(WrongVersion)
    else Decode(file[8..])
  }

  /** The lines of a dump. */
  function DumpOps(ivs: seq<Iv>): seq<IvOp>
    requires AllWords(ivs)
  {
    seq(|ivs|, k requires 0 <= k < |ivs| =>
      if ivs[k].size == 4 then Mmio32(ivs[k].value, ivs[k].offset) else Mmio16(ivs[k].value, ivs[k].offset))
  }

  predicate AllWords(ivs: seq<Iv>) {
    forall k :: 0 <= k < |ivs| ==> ivs[k].value < 0x1_0000_0000 && ivs[k].offset < 0x1_0000_0000
  }

  lemma {:induction false} DumpedIvs(ivs: seq<Iv>)
    requires AllStorable(ivs)
    ensures AllWords(ivs) && SectionIvs(DumpOps(ivs)) == ivs
  {
    if ivs != [] {
      var front := ivs[..|ivs| - 1];
      DumpedIvs(front);
      assert DumpOps(ivs)[..|ivs| - 1] == DumpOps(front);
      assert ivs == front + [ivs[|ivs| - 1]];
    }
  }

  lemma RawIsSame(ivs: seq<Iv>)
    requires AllStorable(ivs)
    ensures RawIvs(ivs) == Ok(ivs)
  {
    forall k | 0 <= k < |ivs| ensures RawIv(ivs[k]) == Ok(ivs[k]) {
    }
    assert RawIvs(ivs).value == ivs;
  }

  /** Assembling the dump of a file gives the file back exactly when its header holds the number of its
      records and no padding. */
  lemma DumpAssemblesBack(file: seq<byte>)
    requires ReadIvFile(file).Ok?
    ensures var ivs := ReadIvFile(file).value;
            && AllWords(ivs) && SectionFile(DumpOps(ivs)).Ok?
            && SectionFile(DumpOps(ivs)).value[8..] == file[8..]
            && (SectionFile(DumpOps(ivs)).value == file <==> file[..8] == IvHeader(|ivs|))
  {
    var ivs := ReadIvFile(file).value;
    EncodeDecode(file[8..]);
    DumpedIvs(ivs);
    RawIsSame(ivs);
    var out := SectionFile(DumpOps(ivs)).value;
    assert out == IvHeader(|ivs|) + file[8..];
    assert file == file[..8] + file[8..];
    assert out[..8] == IvHeader(|ivs|) && out[8..] == file[8..];
  }

  predicate HasBigOffset(op: IvOp) {
    (op.Mmio16? || op.Mmio32?) && op.offset >= 0x8000
  }

  ghost predicate AllFit(ivs: seq<Iv>) {
    forall k :: 0 <= k < |ivs| ==> RawIv(ivs[k]).Ok?
  }

  lemma AllFitConcat(a: seq<Iv>, b: seq<Iv>)
    ensures AllFit(a + b) <==> AllFit(a) && AllFit(b)
  {
    if AllFit(a + b) {
      assert forall k :: 0 <= k < |b| ==> b[k] == (a + b)[|a| + k];
      assert forall k :: 0 <= k < |a| ==> a[k] == (a + b)[k];
    }
  }

  lemma OpFits(op: IvOp)
    ensures AllFit(OpIvs(op)) <==> !HasBigOffset(op)
  {
    assert HasBigOffset(op) ==> RawIv(OpIvs(op)[0]).Err?;
  }

  lemma {:induction false} SectionFits(ops: seq<IvOp>)
    ensures AllFit(SectionIvs(ops)) <==> forall k :: 0 <= k < |ops| ==> !HasBigOffset(ops[k])
  {
    if ops != [] {
      var n := |ops| - 1;
      SectionFits(ops[..n]);
      AllFitConcat(SectionIvs(ops[..n]), OpIvs(ops[n]));
      OpFits(ops[n]);
    }
  }

  /** A section assembles exactly when none of its direct register writes has an offset that is too big,
      and the file then decodes to one record for each write, 16-bit values cut off. */
  lemma SectionAssembles(ops: seq<IvOp>)
    ensures SectionFile(ops).Ok? <==> forall k :: 0 <= k < |ops| ==> !HasBigOffset(ops[k])
    ensures SectionFile(ops).Ok? ==> ReadIvFile(SectionFile(ops).value) == RawIvs(SectionIvs(ops))
  {
    SectionFits(ops);
    if SectionFile(ops).Ok? {
      EncodedReads(RawIvs(SectionIvs(ops)).value);
    }
  }

  lemma BehindHeader(count: nat, stream: seq<byte>)
    ensures ReadIvFile(IvHeader(count) + stream) == Decode(stream)
  {
    assert (IvHeader(count) + stream)[8..] == stream;
  }

  lemma EncodedReads(raw: seq<Iv>)
    requires AllStorable(raw)
    ensures ReadIvFile(IvHeader(|raw|) + Encode(raw)) == Ok(raw)
  {
    DecodeEncode(raw);
    BehindHeader(|raw|, Encode(raw));
  }
}
