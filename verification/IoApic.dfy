/**
The redirection table of the I/O APIC, kernel/src/interrupts/apic/io.rs: bit-packed entries
behind an index/data register pair (sections 3.1 and 3.2.4 of the Intel 82093AA I/O APIC
datasheet). Registers behave like plain memory.
*/
module IoApic {
  import opened Layouts

  datatype DeliveryMode = Fixed | LowestPriority | SystemManaged | Nmi | Init | External

  function ModeCode(m: DeliveryMode): bv32 {
    match m
    case Fixed => 0
    case LowestPriority => 1
    case SystemManaged => 2
    case Nmi => 4
    case Init => 5
    case External => 7
  }

  /** The transmute is defined for six of the eight codes. */
  function ModeOf(code: bv64): Option<DeliveryMode> {
    if code == 0 then Some(Fixed)
    else if code == 1 then Some(LowestPriority)
    else if code == 2 then Some(SystemManaged)
    else if code == 4 then Some(Nmi)
    else if code == 5 then Some(Init)
    else if code == 7 then Some(External)
    else None
  }

  datatype Destination = PhysicalApicId(id: bv8) | LogicalSet(members: bv8)

  /** `DestinationField::new` and `as_u8`. */
  function NewDestination(logical: bool, value: bv8): Destination {
    if logical then LogicalSet(value) else PhysicalApicId(value & 0xF)
  }

  function DestinationByte(d: Destination): bv8 {
    match d
    case PhysicalApicId(id) => id
    case LogicalSet(members) => members
  }

  datatype Entry = Entry(
    vector: bv8,
    mode: DeliveryMode,
    logical: bool,          // destination mode
    pending: bool,          // delivery status
    lowActive: bool,        // polarity
    remoteIrr: bool,
    level: bool,            // trigger mode
    masked: bool,
    destination: Destination)

  function Bit(b: bool): bv32 { if b then 1 else 0 }

  function PackLow(e: Entry): bv32 {
    (e.vector as bv32) | (ModeCode(e.mode) << 8) | (Bit(e.logical) << 11) | (Bit(e.pending) << 12)
    | (Bit(e.lowActive) << 13) | (Bit(e.remoteIrr) << 14) | (Bit(e.level) << 15) | (Bit(e.masked) << 16)
  }

  function PackHigh(e: Entry): bv32 {
    (DestinationByte(e.destination) as bv32) << 24
  }

  /** `read_u64`: the two halves together. */
  function Both(low: bv32, high: bv32): bv64 {
    (low as bv64) | ((high as bv64) << 32)
  }

  function Flag(shifted: bv64): bool { shifted & 1 == 1 }

  /** `read_entry` on the raw value. */
  function Unpack(value: bv64): Option<Entry> {
    match ModeOf((value >> 8) & 7)
    case None => None
    case Some(mode) =>
      var logical := Flag(value >> 11);
      Some(Entry((value & 0xFF) as bv8, mode, logical, Flag(value >> 12), Flag(value >> 13), Flag(value >> 14),
                 Flag(value >> 15), Flag(value >> 16), NewDestination(logical, ((value >> 56) & 0xFF) as bv8)))
  }

  /** The destination matches its mode, and a physical id has four bits. */
  predicate WellFormed(e: Entry) {
    match e.destination
    case PhysicalApicId(id) => !e.logical && id <= 15
    case LogicalSet(_) => e.logical
  }

  /** Writing and reading back returns the entry exactly if it is well formed. */
  lemma RoundTripExact(e: Entry)
    ensures Unpack(Both(PackLow(e), PackHigh(e))) == Some(e) <==> WellFormed(e)
  {
  }

  lemma LowNibble(b: bv8)
    ensures b & 0xF <= 15
  {
  }

  /** What is read is well formed, so writing it back and reading again gives the same entry. */
  lemma ReadThenWrite(value: bv64)
    requires Unpack(value).Some?
    ensures WellFormed(Unpack(value).value)
    ensures var e := Unpack(value).value; Unpack(Both(PackLow(e), PackHigh(e))) == Some(e)
  {
    LowNibble(((value >> 56) & 0xFF) as bv8);
    RoundTripExact(Unpack(value).value);
  }

  /** Reserved bits are written as zero. */
  lemma ReservedBitsClear(e: Entry)
    ensures PackLow(e) & 0xFFFE_0000 == 0 && PackHigh(e) & 0x00FF_FFFF == 0
  {
  }

  /** Unmasked, at the vector, and otherwise as it was. */
  function Mapped(e: Entry, vector: bv8): Entry {
    e.(masked := false, vector := vector)
  }

  // ----- the bits ----------------------------------------------------------------------

  /** The delivery mode codes of section 3.2.4 of the datasheet. */
  predicate CodeFor(mode: DeliveryMode, code: bv32) {
    match code
    case 0 => mode == Fixed
    case 1 => mode == LowestPriority
    case 2 => mode == SystemManaged
    case 4 => mode == Nmi
    case 5 => mode == Init
    case 7 => mode == External
    case _ => false
  }

  /** The fields of an entry are where section 3.2.4 of the datasheet has them, in the low register ... */
  predicate LowFields(low: bv32, e: Entry) {
    && low & 0xFF == e.vector as bv32
    && CodeFor(e.mode, (low >> 8) & 7)
    && ((low >> 11) & 1 == 1 <==> e.logical)
    && ((low >> 12) & 1 == 1 <==> e.pending)
    && ((low >> 13) & 1 == 1 <==> e.lowActive)
    && ((low >> 14) & 1 == 1 <==> e.remoteIrr)
    && ((low >> 15) & 1 == 1 <==> e.level)
    && ((low >> 16) & 1 == 1 <==> e.masked)
  }

  /** ... and in the high register. */
  predicate HighFields(high: bv32, e: Entry) {
    match e.destination
    case PhysicalApicId(id) => (high >> 24) & 0xF == id as bv32
    case LogicalSet(members) => high >> 24 == members as bv32
  }

  /** What is written has its fields in place. */
  lemma PackedFields(e: Entry)
    ensures LowFields(PackLow(e), e) && PackHigh(e) >> 24 == DestinationByte(e.destination) as bv32
  {
  }

  lemma FlagOfLow(low: bv32, high: bv32)
    ensures var v := Both(low, high);
            && (Flag(v >> 11) <==> (low >> 11) & 1 == 1)
            && (Flag(v >> 12) <==> (low >> 12) & 1 == 1)
            && (Flag(v >> 13) <==> (low >> 13) & 1 == 1)
            && (Flag(v >> 14) <==> (low >> 14) & 1 == 1)
            && (Flag(v >> 15) <==> (low >> 15) & 1 == 1)
            && (Flag(v >> 16) <==> (low >> 16) & 1 == 1)
  {
  }

  lemma VectorOfLow(low: bv32, high: bv32)
    ensures ((Both(low, high) & 0xFF) as bv8) as bv32 == low & 0xFF
  {
  }

  lemma ModeOfLow(low: bv32, high: bv32, mode: DeliveryMode)
    requires ModeOf((Both(low, high) >> 8) & 7) == Some(mode)
    ensures CodeFor(mode, (low >> 8) & 7)
  {
  }

  lemma DestinationOfHigh(low: bv32, high: bv32)
    ensures (((Both(low, high) >> 56) & 0xFF) as bv8) as bv32 == high >> 24
    ensures ((((Both(low, high) >> 56) & 0xFF) as bv8) & 0xF) as bv32 == (high >> 24) & 0xF
  {
  }

  lemma UnpackedLow(low: bv32, high: bv32)
    requires Unpack(Both(low, high)).Some?
    ensures LowFields(low, Unpack(Both(low, high)).value)
  {
    FlagOfLow(low, high);
    VectorOfLow(low, high);
    ModeOfLow(low, high, Unpack(Both(low, high)).value.mode);
  }

  lemma UnpackedHigh(low: bv32, high: bv32)
    requires Unpack(Both(low, high)).Some?
    ensures HighFields(high, Unpack(Both(low, high)).value)
  {
    DestinationOfHigh(low, high);
  }

  /** What is read is what the registers hold in those places. */
  lemma UnpackedFields(low: bv32, high: bv32)
    requires Unpack(Both(low, high)).Some?
    ensures var e := Unpack(Both(low, high)).value;
            LowFields(low, e) && HighFields(high, e)
  {
    UnpackedLow(low, high);
    UnpackedHigh(low, high);
  }

  /** What mapping to a vector does to the raw bits of an entry: the vector is in bits 0 to 7, bit 16 is
      clear, bits 8 to 15 and the destination are as they were. */
  predicate RawMapped(low: bv32, high: bv32, low': bv32, high': bv32, vector: bv8) {
    && low' & 0xFF == vector as bv32
    && (low' >> 16) & 1 == 0
    && (low' >> 8) & 7 == (low >> 8) & 7
    && (low' >> 11) & 1 == (low >> 11) & 1
    && (low' >> 12) & 1 == (low >> 12) & 1
    && (low' >> 13) & 1 == (low >> 13) & 1
    && (low' >> 14) & 1 == (low >> 14) & 1
    && (low' >> 15) & 1 == (low >> 15) & 1
    && (high' >> 24) & 0xF == (high >> 24) & 0xF
    && ((low >> 11) & 1 == 1 ==> high' >> 24 == high >> 24)
  }

  lemma SameBit(x: bv32, y: bv32)
    ensures (x & 1 == 1 <==> y & 1 == 1) ==> x & 1 == y & 1
    ensures x & 1 == 0 || x & 1 == 1
  {
  }

  lemma SameCode(mode: DeliveryMode, c: bv32, d: bv32)
    requires CodeFor(mode, c) && CodeFor(mode, d)
    ensures c == d
  {
  }

  lemma MappedLow(low: bv32, low': bv32, e: Entry, vector: bv8)
    requires LowFields(low, e) && LowFields(low', Mapped(e, vector))
    ensures low' & 0xFF == vector as bv32 && (low' >> 16) & 1 == 0
    ensures (low' >> 8) & 7 == (low >> 8) & 7
    ensures (low' >> 11) & 1 == (low >> 11) & 1 && (low' >> 12) & 1 == (low >> 12) & 1
    ensures (low' >> 13) & 1 == (low >> 13) & 1 && (low' >> 14) & 1 == (low >> 14) & 1
    ensures (low' >> 15) & 1 == (low >> 15) & 1
  {
    SameCode(e.mode, (low >> 8) & 7, (low' >> 8) & 7);
    SameBit(low >> 11, low' >> 11);
    SameBit(low >> 12, low' >> 12);
    SameBit(low >> 13, low' >> 13);
    SameBit(low >> 14, low' >> 14);
    SameBit(low >> 15, low' >> 15);
    SameBit(low' >> 16, 0);
  }

  /** Mapping the decoded entry has that effect on the bits. */
  lemma MappedBits(low: bv32, high: bv32, low': bv32, high': bv32, vector: bv8)
    requires Unpack(Both(low, high)).Some?
    requires Unpack(Both(low', high')) == Some(Mapped(Unpack(Both(low, high)).value, vector))
    ensures RawMapped(low, high, low', high', vector)
  {
    var e := Unpack(Both(low, high)).value;
    UnpackedFields(low, high);
    UnpackedFields(low', high');
    ReadThenWrite(Both(low, high));
    MappedLow(low, low', e, vector);
  }

  // ----- the table ---------------------------------------------------------------------

  const SPURIOUS_VECTOR: bv8 := 39
  const REGISTERS: nat := 256

  /** `IOApicRegister::as_u8` of an entry's first half; the second half follows it. */
  function LowRegister(index: nat): nat { 0x10 + 2 * index }

  /** Entry numbers whose registers fit in a byte: the first 120. For others the register number overflows. */
  predicate InTable(index: nat) { LowRegister(index) + 1 < REGISTERS }

  function Value(regs: seq<bv32>, index: nat): bv64
    requires |regs| == REGISTERS && InTable(index)
  {
    Both(regs[LowRegister(index)], regs[LowRegister(index) + 1])
  }

  function EntryAt(regs: seq<bv32>, index: nat): Option<Entry>
    requires |regs| == REGISTERS && InTable(index)
  {
    Unpack(Value(regs, index))
  }

  /** The registers after an entry has been written. */
  function Written(regs: seq<bv32>, index: nat, e: Entry): seq<bv32>
    requires |regs| == REGISTERS && InTable(index)
  {
    regs[LowRegister(index) := PackLow(e)][LowRegister(index) + 1 := PackHigh(e)]
  }

  /** Writing one entry leaves the raw bits of all others, and all other registers, unchanged. */
  lemma WriteFrame(regs: seq<bv32>, index: nat, e: Entry, other: nat)
    requires |regs| == REGISTERS && InTable(index) && InTable(other)
    ensures other != index ==> Value(Written(regs, index, e), other) == Value(regs, other)
    ensures WellFormed(e) ==> EntryAt(Written(regs, index, e), index) == Some(e)
    ensures forall r :: 0 <= r < REGISTERS && r != LowRegister(index) && r != LowRegister(index) + 1 ==>
              Written(regs, index, e)[r] == regs[r]
  {
    RoundTripExact(e);
  }

  /** The first `count` entries have been mapped, the rest of the table is as it was. */
  ghost predicate MappedUpTo(was: seq<bv32>, regs: seq<bv32>, count: nat) {
    && |was| == |regs| == REGISTERS
    && (forall i: nat {:trigger Value(regs, i)} {:trigger Value(was, i)} :: InTable(i) ==>
          && (i >= count ==> Value(regs, i) == Value(was, i))
          && (i < count ==>
                EntryAt(was, i).Some? && EntryAt(regs, i) == Some(Mapped(EntryAt(was, i).value, SPURIOUS_VECTOR))))
    && (forall r :: 0 <= r < 0x10 ==> regs[r] == was[r])
  }

  /** The raw registers of the first `count` entries are mapped to the spurious vector, 39. */
  ghost predicate RawMappedUpTo(was: seq<bv32>, regs: seq<bv32>, count: nat)
    requires |was| == |regs| == 256 && count <= 120
  {
    forall i: nat {:trigger regs[0x10 + 2 * i]} :: i < count ==>
      RawMapped(was[0x10 + 2 * i], was[0x11 + 2 * i], regs[0x10 + 2 * i], regs[0x11 + 2 * i], 39)
  }

  lemma RawTable(was: seq<bv32>, regs: seq<bv32>, count: nat)
    requires MappedUpTo(was, regs, count) && count <= 120
    ensures RawMappedUpTo(was, regs, count)
  {
    forall i: nat {:trigger regs[0x10 + 2 * i]} | i < count
      ensures RawMapped(was[0x10 + 2 * i], was[0x11 + 2 * i], regs[0x10 + 2 * i], regs[0x11 + 2 * i], 39)
    {
      assert Value(regs, i) == Both(regs[0x10 + 2 * i], regs[0x11 + 2 * i]);
      assert Value(was, i) == Both(was[0x10 + 2 * i], was[0x11 + 2 * i]);
      MappedBits(was[0x10 + 2 * i], was[0x11 + 2 * i], regs[0x10 + 2 * i], regs[0x11 + 2 * i], 39);
    }
  }

  class IoApic {
    const registers: array<bv32>
    /** The index register. */
    var select: nat
    var count: nat

    ghost predicate Valid()
      reads this
    {
      registers.Length == REGISTERS && count < 256
    }

    /** How many entries the loops reach: the first one beyond the table panics. */
    function Reach(): nat
      reads this
    {
      if count <= 120 then count else 120
    }

    /** Every entry that is reached has a defined delivery mode. */
    ghost predicate Defined()
      requires Valid()
      reads this, registers
    {
      forall i: nat :: i < Reach() ==> EntryAt(registers[..], i).Some?
    }

    /** The part of `from_addr` that reads the table size; the addition must not overflow a byte. */
    constructor (registers: array<bv32>)
      requires registers.Length == REGISTERS && ((registers[1] >> 16) & 0xFF) as nat < 255
      ensures Valid() && this.registers == registers && count == ((registers[1] >> 16) & 0xFF) as nat + 1
    {
      this.registers := registers;
      select := 1;
      count := ((registers[1] >> 16) & 0xFF) as nat + 1;
    }

    method ReadU32(reg: nat) returns (value: bv32)
      requires Valid() && reg < REGISTERS
      modifies this`select
      ensures value == registers[reg] && select == reg
    {
      select := reg;
      value := registers[select];
    }

    method WriteU32(reg: nat, value: bv32)
      requires Valid() && reg < REGISTERS
      modifies this`select, registers
      ensures registers[..] == old(registers[..])[reg := value] && select == reg
    {
      select := reg;
      registers[select] := value;
    }

    /** `read_entry`; the delivery mode must be a defined one for the transmute to be. */
    method ReadEntry(index: nat) returns (e: Entry)
      requires Valid() && index < Reach() && EntryAt(registers[..], index).Some?
      modifies this`select
      ensures Some(e) == EntryAt(registers[..], index) && WellFormed(e)
      ensures LowFields(registers[0x10 + 2 * index], e) && HighFields(registers[0x11 + 2 * index], e)
    {
      var low := ReadU32(LowRegister(index));
      var high := ReadU32(LowRegister(index) + 1);
      ReadThenWrite(Both(low, high));
      UnpackedFields(low, high);
      e := Unpack(Both(low, high)).value;
    }

    method WriteEntry(index: nat, e: Entry)
      requires Valid() && index < Reach()
      modifies this`select, registers
      ensures registers[..] == Written(old(registers[..]), index, e)
      ensures LowFields(registers[0x10 + 2 * index], e)
      ensures registers[0x11 + 2 * index] >> 24 == DestinationByte(e.destination) as bv32
      ensures forall r :: 0 <= r < 256 && r != 0x10 + 2 * index && r != 0x11 + 2 * index ==>
                registers[r] == old(registers[r])
    {
      PackedFields(e);
      WriteU32(LowRegister(index), PackLow(e));
      WriteU32(LowRegister(index) + 1, PackHigh(e));
    }

    /** `map`, and the body of the loop in `map_all_to_spurious_vectors`. */
    method Map(index: nat, vector: bv8)
      requires Valid() && index < Reach() && EntryAt(registers[..], index).Some?
      modifies this`select, registers
      ensures registers[..] ==
                Written(old(registers[..]), index, Mapped(EntryAt(old(registers[..]), index).value, vector))
      ensures WellFormed(EntryAt(old(registers[..]), index).value)
      ensures RawMapped(old(registers[0x10 + 2 * index]), old(registers[0x11 + 2 * index]),
                        registers[0x10 + 2 * index], registers[0x11 + 2 * index], vector)
      ensures forall r :: 0 <= r < 256 && r != 0x10 + 2 * index && r != 0x11 + 2 * index ==>
                registers[r] == old(registers[r])
    {
      ghost var low, high := registers[0x10 + 2 * index], registers[0x11 + 2 * index];
      var e := ReadEntry(index);
      assert Value(registers[..], index) == Both(low, high);
      e := e.(masked := false, vector := vector);
      WriteEntry(index, e);
      RoundTripExact(e);
      MappedBits(low, high, registers[0x10 + 2 * index], registers[0x11 + 2 * index], vector);
    }

    /** False is the panic at the first entry whose register number overflows. */
    method MapAllToSpuriousVectors() returns (ok: bool)
      requires Valid() && Defined()
      modifies this`select, registers
      ensures ok <==> count <= 120
      ensures MappedUpTo(old(registers[..]), registers[..], Reach())
      ensures RawMappedUpTo(old(registers[..]), registers[..], Reach())
    {
      ghost var was := registers[..];
      for index := 0 to count
        invariant index <= Reach() && MappedUpTo(was, registers[..], index)
      {
        if index >= 120 {
          RawTable(was, registers[..], index);
          return false;
        }
        ghost var before := registers[..];
        assert Value(before, index) == Value(was, index);
        assert EntryAt(was, index).Some?;
        Map(index, SPURIOUS_VECTOR);
        MapNext(was, before, index);
      }
      RawTable(was, registers[..], count);
      ok := true;
    }

    /** `initialize`: with 3 to 120 entries, each ends up unmasked at the spurious vector with its other
        fields as they were; with fewer it panics at once, with more after the first 120. */
    method Initialize() returns (ok: bool)
      requires Valid() && Defined()
      modifies this`select, registers
      ensures ok <==> 3 <= count <= 120
      ensures if count < 3 then registers[..] == old(registers[..])
              else && MappedUpTo(old(registers[..]), registers[..], Reach())
                   && RawMappedUpTo(old(registers[..]), registers[..], Reach())
    {
      if count < 3 { return false; }                               // debug_assert!(index < count)
      ghost var was := registers[..];
      Map(2, SPURIOUS_VECTOR);
      ghost var once := registers[..];
      forall i: nat | i < Reach() ensures EntryAt(once, i).Some? {
        assert EntryAt(was, i).Some?;
        WriteFrame(was, 2, Mapped(EntryAt(was, 2).value, SPURIOUS_VECTOR), i);
      }
      ok := MapAllToSpuriousVectors();
      MapTwice(was, once, registers[..], Reach());
      RawTable(was, registers[..], Reach());
    }
  }

  lemma MapNext(was: seq<bv32>, regs: seq<bv32>, index: nat)
    requires MappedUpTo(was, regs, index) && InTable(index) && EntryAt(regs, index).Some?
    requires WellFormed(EntryAt(regs, index).value)
    ensures MappedUpTo(was, Written(regs, index, Mapped(EntryAt(regs, index).value, SPURIOUS_VECTOR)), index + 1)
  {
    var e := Mapped(EntryAt(regs, index).value, SPURIOUS_VECTOR);
    var regs' := Written(regs, index, e);
    forall i: nat | InTable(i)
      ensures i > index ==> Value(regs', i) == Value(was, i)
      ensures i <= index ==>
                EntryAt(was, i).Some? && EntryAt(regs', i) == Some(Mapped(EntryAt(was, i).value, SPURIOUS_VECTOR))
    {
      WriteFrame(regs, index, e, i);
      assert Value(regs, i) == Value(regs, i);
    }
  }

  lemma MapTwice(was: seq<bv32>, once: seq<bv32>, regs: seq<bv32>, count: nat)
    requires |was| == REGISTERS && 3 <= count <= 120 && EntryAt(was, 2).Some? && WellFormed(EntryAt(was, 2).value)
    requires once == Written(was, 2, Mapped(EntryAt(was, 2).value, SPURIOUS_VECTOR))
    requires MappedUpTo(once, regs, count)
    ensures MappedUpTo(was, regs, count)
  {
    var e := Mapped(EntryAt(was, 2).value, SPURIOUS_VECTOR);
    forall i: nat | InTable(i)
      ensures i >= count ==> Value(regs, i) == Value(was, i)
      ensures i < count ==>
                EntryAt(was, i).Some? && EntryAt(regs, i) == Some(Mapped(EntryAt(was, i).value, SPURIOUS_VECTOR))
    {
      WriteFrame(was, 2, e, i);
      assert Value(once, i) == Value(once, i);
    }
  }
}
