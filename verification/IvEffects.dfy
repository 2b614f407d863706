/** What the register writes of an initvals section do to the device (source: assembler/initvals.c).
    The registers of the PHY, of the radio, of shared memory and of the template memory are reached
    through windows: one register selects, another one carries the data. */
module IvEffects {
  import opened Wrappers
  import opened Bytes
  import opened Bits
  import opened Initvals

  /** Shared memory is selected in words of 32 bits, of which each half can be written alone. */
  datatype Cell = Phy(reg: nat) | Radio(reg: nat) | ShmHalf(routing: nat, unit: nat, upper: bool) | Tram(at: nat)

  /** What has been selected last in each window, and what has been stored behind the windows. */
  datatype Device = Device(phy: nat, radio: nat, routing: nat, unit: nat, tram: nat, cells: map<Cell, nat>)

  function Half(d: Device, upper: bool): Cell {
    ShmHalf(d.routing, d.unit, upper)
  }

  /** One write to a register by its offset and size. */
  function AfterWrite(d: Device, iv: Iv): Device {
    var v := if iv.size == 2 then iv.value % 0x1_0000 else iv.value % 0x1_0000_0000;
    match iv.offset
    case 0x3FC => d.(phy := v)
    case 0x3FE => d.(cells := d.cells[Cell.Phy(d.phy) := v])
    case 0x3F6 => d.(radio := v)
    case 0x3FA => d.(cells := d.cells[Cell.Radio(d.radio) := v])
    case 0x160 => d.(routing := v / 0x1_0000, unit := v % 0x1_0000)
    case 0x164 =>
      if iv.size == 2 then d.(cells := d.cells[Half(d, false) := v])
      else d.(cells := d.cells[Half(d, false) := v % 0x1_0000][Half(d, true) := v / 0x1_0000])
    case 0x166 => d.(cells := d.cells[Half(d, true) := v % 0x1_0000])
    case 0x130 => d.(tram := v)
    case 0x134 => d.(cells := d.cells[Cell.Tram(d.tram) := v])
    case _ => d
  }

  function AfterWrites(d: Device, ivs: seq<Iv>): Device {
    if ivs == [] then d else AfterWrite(AfterWrites(d, ivs[..|ivs| - 1]), ivs[|ivs| - 1])
  }

  function Stored(d: Device, cell: Cell, value: nat): Device {
    d.(cells := d.cells[cell := value])
  }

  /** Routing 1 is shared memory, whose addresses count bytes; all other addresses count words. */
  function Selected(d: Device, routing: nat, offset: nat): Device {
    d.(routing := routing % 0x1_0000,
       unit := (if routing % 0x100 == 1 then offset / 4 else offset) % 0x1_0000)
  }

  predicate IsUpper(routing: nat, offset: nat) {
    routing % 0x100 == 1 && offset % 4 != 0
  }

  /** Sixteen bits stored at an address. */
  function Stored16(d: Device, routing: nat, offset: nat, value: nat): Device {
    var s := Selected(d, routing, offset);
    Stored(s, Half(s, IsUpper(routing, offset)), value % 0x1_0000)
  }

  /** Two halves stored in the word at an address. */
  function StoredWord(d: Device, routing: nat, offset: nat, value: nat): Device {
    var s := Selected(d, routing, offset);
    Stored(Stored(s, Half(s, false), value % 0x1_0000), Half(s, true), value / 0x1_0000)
  }

  /** What an operation is for. */
  function Effect(d: Device, op: IvOp): Device {
    match op
    case Mmio16(value, offset) => AfterWrite(d, Iv(offset, 2, value))
    case Mmio32(value, offset) => AfterWrite(d, Iv(offset, 4, value))
    case Phy(value, offset) => Stored(d.(phy := offset % 0x1_0000), Cell.Phy(offset % 0x1_0000), value % 0x1_0000)
    case Radio(value, offset) =>
      Stored(d.(radio := offset % 0x1_0000), Cell.Radio(offset % 0x1_0000), value % 0x1_0000)
    case Shm16(value, routing, offset) => Stored16(d, routing, offset, value)
    case Shm32(value, routing, offset) =>
      if IsUpper(routing, offset)
      then Stored16(Stored16(d, routing, offset, value / 0x1_0000), routing, offset / 4 * 4 + 4, value)
      else StoredWord(d, routing, offset, value)
    case Tram(value, offset) => Stored(d.(tram := offset), Cell.Tram(offset), value)
  }

  function Effects(d: Device, ops: seq<IvOp>): Device {
    if ops == [] then d else Effect(Effects(d, ops[..|ops| - 1]), ops[|ops| - 1])
  }

  lemma {:induction false} WritesAppend(d: Device, a: seq<Iv>, b: seq<Iv>)
    ensures AfterWrites(d, a + b) == AfterWrites(AfterWrites(d, a), b)
    decreases |b|
  {
    if b == [] {
      assert a + b == a;
    } else {
      var n := |b| - 1;
      WritesAppend(d, a, b[..n]);
      assert (a + b)[..|a + b| - 1] == a + b[..n];
    }
  }

  lemma OneWrite(d: Device, a: Iv)
    ensures AfterWrites(d, [a]) == AfterWrite(d, a)
  {
    assert AfterWrites(d, []) == d;
  }

  lemma TwoWrites(d: Device, a: Iv, b: Iv)
    ensures AfterWrites(d, [a, b]) == AfterWrite(AfterWrite(d, a), b)
  {
    OneWrite(d, a);
    assert [a, b][..1] == [a];
  }

  lemma FourWrites(d: Device, a: Iv, b: Iv, c: Iv, e: Iv)
    ensures AfterWrites(d, [a, b, c, e]) == AfterWrite(AfterWrite(AfterWrite(AfterWrite(d, a), b), c), e)
  {
    TwoWrites(d, a, b);
    TwoWrites(AfterWrites(d, [a, b]), c, e);
    WritesAppend(d, [a, b], [c, e]);
    assert [a, b] + [c, e] == [a, b, c, e];
  }

  lemma ControlSelects(d: Device, routing: word, offset: nat)
    ensures AfterWrite(d, ShmControl(routing, offset))
            == d.(routing := routing % 0x1_0000, unit := offset % 0x1_0000)
  {
    var r := routing % 0x1_0000;
    var o := offset % 0x1_0000;
    assert (r * 0x1_0000 + o) / 0x1_0000 == r && (r * 0x1_0000 + o) % 0x1_0000 == o;
  }

  /** What selecting an address amounts to, and storing behind it through the lower and the upper half. */
  lemma SelectedStores(d: Device, routing: word, offset: word, value: word)
    ensures var at: word := if routing % 0x100 == 1 then offset / 4 else offset;
            var s := AfterWrite(d, ShmControl(routing, at));
            && s == Selected(d, routing, offset)
            && AfterWrite(s, Iv(0x164, 2, value)) == Stored(s, Half(s, false), value % 0x1_0000)
            && AfterWrite(s, Iv(0x166, 2, value)) == Stored(s, Half(s, true), value % 0x1_0000)
            && AfterWrite(s, Iv(0x164, 4, value)) == StoredWord(d, routing, offset, value)
  {
    ControlSelects(d, routing, if routing % 0x100 == 1 then offset / 4 else offset);
  }

  lemma Shm16Stores(d: Device, op: IvOp)
    requires op.Shm16?
    ensures AfterWrites(d, OpIvs(op)) == Effect(d, op)
  {
    var ivs := OpIvs(op);
    SelectedStores(d, op.routing, op.offset, op.value);
    TwoWrites(d, ivs[0], ivs[1]);
  }

  lemma Shm32Stores(d: Device, op: IvOp)
    requires op.Shm32? && !IsUpper(op.routing, op.offset)
    ensures AfterWrites(d, OpIvs(op)) == Effect(d, op)
  {
    var ivs := OpIvs(op);
    SelectedStores(d, op.routing, op.offset, op.value);
    TwoWrites(d, ivs[0], ivs[1]);
  }

  lemma HalvesStore(d: Device, op: IvOp)
    requires op.Shm32? && IsUpper(op.routing, op.offset)
    ensures AfterWrites(d, OpIvs(op)) == Effect(d, op)
  {
    var ivs := OpIvs(op);
    var high, low := op.value / 0x1_0000, op.value % 0x1_0000;
    SelectedStores(d, op.routing, op.offset, high);
    var half := AfterWrite(AfterWrite(d, ivs[0]), ivs[1]);
    assert half == Stored16(d, op.routing, op.offset, high);
    ControlSelects(half, op.routing, op.offset / 4 + 1);
    assert AfterWrite(AfterWrite(half, ivs[2]), ivs[3])
        == Stored16(half, op.routing, op.offset / 4 * 4 + 4, op.value);
    FourWrites(d, ivs[0], ivs[1], ivs[2], ivs[3]);
  }

  /** The writes an operation is made of do what the operation is for. */
  lemma OpStores(d: Device, op: IvOp)
    ensures AfterWrites(d, OpIvs(op)) == Effect(d, op)
  {
    var ivs := OpIvs(op);
    if op.Shm16? {
      Shm16Stores(d, op);
    } else if op.Shm32? {
      if IsUpper(op.routing, op.offset) { HalvesStore(d, op); } else { Shm32Stores(d, op); }
    } else if op.Mmio16? || op.Mmio32? {
      OneWrite(d, ivs[0]);
    } else {
      TwoWrites(d, ivs[0], ivs[1]);
    }
  }

  lemma RawWrite(d: Device, iv: Iv)
    requires RawIv(iv).Ok?
    ensures AfterWrite(d, RawIv(iv).value) == AfterWrite(d, iv)
  {
    assert RawIv(iv).value.value % 0x1_0000_0000 == RawIv(iv).value.value;
  }

  lemma RawFront(ivs: seq<Iv>, n: nat)
    requires RawIvs(ivs).Ok? && n <= |ivs|
    ensures RawIvs(ivs[..n]) == Ok(RawIvs(ivs).value[..n])
  {
    var front := ivs[..n];
    var raw := RawIvs(ivs).value[..n];
    assert forall k :: 0 <= k < n ==> RawIv(front[k]) == Ok(raw[k]);
    assert RawIvs(front).value == raw;
  }

  /** Cutting values off for the file does not change what the writes do. */
  lemma {:induction false} RawWrites(d: Device, ivs: seq<Iv>)
    requires RawIvs(ivs).Ok?
    ensures AfterWrites(d, RawIvs(ivs).value) == AfterWrites(d, ivs)
  {
    if ivs != [] {
      var n := |ivs| - 1;
      RawFront(ivs, n);
      RawWrites(d, ivs[..n]);
      RawWrite(AfterWrites(d, ivs[..n]), ivs[n]);
    }
  }

  lemma {:induction false} OpsStore(d: Device, ops: seq<IvOp>)
    ensures AfterWrites(d, SectionIvs(ops)) == Effects(d, ops)
  {
    if ops != [] {
      var n := |ops| - 1;
      OpsStore(d, ops[..n]);
      OpStores(Effects(d, ops[..n]), ops[n]);
      WritesAppend(d, SectionIvs(ops[..n]), OpIvs(ops[n]));
    }
  }

  /** Writing the records of an assembled file to the device, in the order of the file, does what the
      operations of the section are for, in the order of the section. */
  lemma FileStores(d: Device, ops: seq<IvOp>)
    requires SectionFile(ops).Ok?
    ensures var ivs := ReadIvFile(SectionFile(ops).value);
            ivs.Ok? && AfterWrites(d, ivs.value) == Effects(d, ops)
  {
    SectionAssembles(ops);
    RawWrites(d, SectionIvs(ops));
    OpsStore(d, ops);
  }

  lemma OneEffect(d: Device, op: IvOp)
    ensures Effects(d, [op]) == Effect(d, op)
  {
    assert Effects(d, []) == d;
  }

  lemma TwoEffects(d: Device, a: IvOp, b: IvOp)
    ensures Effects(d, [a, b]) == Effect(Effect(d, a), b)
  {
    OneEffect(d, a);
    assert [a, b][..1] == [a];
  }

  /** A 32-bit value is stored in shared memory with its low half first when the address is a multiple of
      four, and with its high half first when it is two behind one. */
  lemma HalvesInOrder(d: Device, value: word, routing: word, offset: word)
    requires routing % 0x100 == 1 && offset % 2 == 0 && offset + 2 < 0x1_0000_0000
    ensures var low, high := value % 0x1_0000, value / 0x1_0000;
            var first, second := if offset % 4 == 0 then low else high, if offset % 4 == 0 then high else low;
            Effects(d, [Shm32(value, routing, offset)])
            == Effects(d, [Shm16(first, routing, offset), Shm16(second, routing, offset + 2)])
  {
    var low, high := value % 0x1_0000, value / 0x1_0000;
    var first, second := if offset % 4 == 0 then low else high, if offset % 4 == 0 then high else low;
    OneEffect(d, Shm32(value, routing, offset));
    TwoEffects(d, Shm16(first, routing, offset), Shm16(second, routing, offset + 2));
    StoredInOrder(d, value, routing, offset);
  }

  lemma StoredInOrder(d: Device, value: word, routing: word, offset: word)
    requires routing % 0x100 == 1 && offset % 2 == 0 && offset + 2 < 0x1_0000_0000
    ensures var low, high := value % 0x1_0000, value / 0x1_0000;
            Effect(d, Shm32(value, routing, offset))
            == if offset % 4 == 0 then Stored16(Stored16(d, routing, offset, low), routing, offset + 2, high)
               else Stored16(Stored16(d, routing, offset, high), routing, offset + 2, low)
  {
    if offset % 4 == 0 {
      assert (offset + 2) / 4 == offset / 4;
    } else {
      assert (offset + 2) / 4 == (offset / 4 * 4 + 4) / 4;
    }
  }
}
