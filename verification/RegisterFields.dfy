/** Typed views of the control and status registers (src/register_fields.rs, src/registers.rs). */
module RegisterFields {
  import opened Results

  datatype PowerMode = Idle | LowPower | Normal | Performance {
    function Bits(): bv32 {
      match this
      case Idle => 0
      case LowPower => 1
      case Normal => 2
      case Performance => 3
    }
  }

  const ENABLE_MASK: bv32 := 1
  const POWERMODE_MASK: bv32 := 6
  const IRQ_ENABLE_MASK: bv32 := 8
  const POWERMODE_SHIFT: bv32 := 1

  /** Every bit that belongs to no field. */
  const RESERVED_MASK: bv32 := 0xFFFF_FFF0

  /** The match on two bits covers all four modes; there is no fifth case to reach. */
  function PowerModeFrom(bits: bv32): (mode: PowerMode)
    ensures mode.Bits() == bits & 3
  {
    var b := bits & 3;
    if b == 0 then Idle
    else if b == 1 then LowPower
    else if b == 2 then Normal
    else Performance
  }

  datatype ControlValue = ControlValue(raw: bv32) {

    predicate Enabled() {
      raw & ENABLE_MASK != 0
    }

    predicate IrqEnabled() {
      raw & IRQ_ENABLE_MASK != 0
    }

    function PowerMode(): PowerMode {
      PowerModeFrom((raw & POWERMODE_MASK) >> POWERMODE_SHIFT)
    }

    function WithEnabled(on: bool): ControlValue {
      ControlValue(if on then raw | ENABLE_MASK else raw & !ENABLE_MASK)
    }

    function WithIrqEnabled(on: bool): ControlValue {
      ControlValue(if on then raw | IRQ_ENABLE_MASK else raw & !IRQ_ENABLE_MASK)
    }

    function WithPowerMode(mode: PowerMode): ControlValue {
      ControlValue((raw & !POWERMODE_MASK) | ((mode.Bits() << POWERMODE_SHIFT) & POWERMODE_MASK))
    }
  }

  /** One use of a setter. */
  datatype Setting = SetEnabled(on: bool) | SetIrqEnabled(on: bool) | SetPowerMode(mode: PowerMode)

  datatype Field = EnableField | IrqField | PowerField

  datatype Reading = Bit(on: bool) | Mode(mode: PowerMode)

  function Apply(c: ControlValue, s: Setting): ControlValue {
    match s
    case SetEnabled(on) => c.WithEnabled(on)
    case SetIrqEnabled(on) => c.WithIrqEnabled(on)
    case SetPowerMode(mode) => c.WithPowerMode(mode)
  }

  /** The control word each setter must leave: bit 0, bit 3, or bits 1 and 2 are replaced. */
  function SetterWord(raw: bv32, s: Setting): bv32 {
    match s
    case SetEnabled(on) => if on then raw | 0x1 else raw & 0xFFFF_FFFE
    case SetIrqEnabled(on) => if on then raw | 0x8 else raw & 0xFFFF_FFF7
    case SetPowerMode(mode) =>
      (raw & 0xFFFF_FFF9)
      | (match mode case Idle => 0x0 case LowPower => 0x2 case Normal => 0x4 case Performance => 0x6)
  }

  /** The control word after the first `k` setters, each replacing the bits it must. */
  function WordAfter(raw: bv32, settings: seq<Setting>, k: nat): bv32
    requires k <= |settings|
  {
    if k == 0 then raw else SetterWord(WordAfter(raw, settings, k - 1), settings[k - 1])
  }

  lemma SettersWriteTheirBits(c: ControlValue, s: Setting)
    ensures Apply(c, s).raw == SetterWord(c.raw, s)
  {
    match s {
      case SetEnabled(on) => EnabledWord(c, on);
      case SetIrqEnabled(on) => IrqWord(c, on);
      case SetPowerMode(mode) => PowerWord(c, mode);
    }
  }

  lemma EnabledWord(c: ControlValue, on: bool)
    ensures c.WithEnabled(on).raw == SetterWord(c.raw, SetEnabled(on))
  {
  }

  lemma IrqWord(c: ControlValue, on: bool)
    ensures c.WithIrqEnabled(on).raw == SetterWord(c.raw, SetIrqEnabled(on))
  {
  }

  lemma PowerWord(c: ControlValue, mode: PowerMode)
    ensures c.WithPowerMode(mode).raw == SetterWord(c.raw, SetPowerMode(mode))
  {
    match mode {
      case Idle => PowerBitsReplaced(c.raw, 0);
      case LowPower => PowerBitsReplaced(c.raw, 1);
      case Normal => PowerBitsReplaced(c.raw, 2);
      case Performance => PowerBitsReplaced(c.raw, 3);
    }
  }

  lemma PowerBitsReplaced(raw: bv32, bits: bv32)
    ensures (raw & !POWERMODE_MASK) | ((bits << POWERMODE_SHIFT) & POWERMODE_MASK) ==
            (raw & 0xFFFF_FFF9) | ((bits << POWERMODE_SHIFT) & 0x6)
  {
  }

  /** The bits each field is read from. */
  lemma FieldsAreTheirBits(c: ControlValue)
    ensures c.Enabled() <==> c.raw & 0x1 == 0x1
    ensures c.IrqEnabled() <==> c.raw & 0x8 == 0x8
    ensures c.PowerMode() == Idle <==> c.raw & 0x6 == 0x0
    ensures c.PowerMode() == LowPower <==> c.raw & 0x6 == 0x2
    ensures c.PowerMode() == Normal <==> c.raw & 0x6 == 0x4
    ensures c.PowerMode() == Performance <==> c.raw & 0x6 == 0x6
  {
  }

  /** A list of setters leaves exactly the word that replacing their bits one after another does. */
  lemma {:induction false} ListsWriteTheirBits(c: ControlValue, settings: seq<Setting>, k: nat)
    requires k <= |settings|
    ensures After(c, settings, k).raw == WordAfter(c.raw, settings, k)
  {
    if k > 0 {
      ListsWriteTheirBits(c, settings, k - 1);
      SettersWriteTheirBits(After(c, settings, k - 1), settings[k - 1]);
    }
  }

  function Target(s: Setting): Field {
    match s
    case SetEnabled(_) => EnableField
    case SetIrqEnabled(_) => IrqField
    case SetPowerMode(_) => PowerField
  }

  function Payload(s: Setting): Reading {
    match s
    case SetEnabled(on) => Bit(on)
    case SetIrqEnabled(on) => Bit(on)
    case SetPowerMode(mode) => Mode(mode)
  }

  function Decode(c: ControlValue, field: Field): Reading {
    match field
    case EnableField => Bit(c.Enabled())
    case IrqField => Bit(c.IrqEnabled())
    case PowerField => Mode(c.PowerMode())
  }

  /** The control value after the first `k` setters. */
  function After(c: ControlValue, settings: seq<Setting>, k: nat): ControlValue
    requires k <= |settings|
  {
    if k == 0 then c else Apply(After(c, settings, k - 1), settings[k - 1])
  }

  function Reserved(c: ControlValue): bv32 {
    c.raw & RESERVED_MASK
  }

  /** A setter writes its own field and no other. */
  lemma SetterWritesOneField(c: ControlValue, s: Setting, field: Field)
    ensures Decode(Apply(c, s), field) == if field == Target(s) then Payload(s) else Decode(c, field)
  {
    match s {
      case SetEnabled(on) => EnabledSetterFields(c, on);
      case SetIrqEnabled(on) => IrqSetterFields(c, on);
      case SetPowerMode(mode) => PowerModeSetterFields(c, mode);
    }
  }

  lemma EnabledSetterFields(c: ControlValue, on: bool)
    ensures c.WithEnabled(on).Enabled() == on
    ensures c.WithEnabled(on).IrqEnabled() == c.IrqEnabled()
    ensures c.WithEnabled(on).PowerMode() == c.PowerMode()
  {
  }

  lemma IrqSetterFields(c: ControlValue, on: bool)
    ensures c.WithIrqEnabled(on).Enabled() == c.Enabled()
    ensures c.WithIrqEnabled(on).IrqEnabled() == on
    ensures c.WithIrqEnabled(on).PowerMode() == c.PowerMode()
  {
  }

  lemma PowerModeSetterFields(c: ControlValue, mode: PowerMode)
    ensures c.WithPowerMode(mode).Enabled() == c.Enabled()
    ensures c.WithPowerMode(mode).IrqEnabled() == c.IrqEnabled()
    ensures c.WithPowerMode(mode).PowerMode() == mode
  {
  }

  /** No setter touches a reserved bit. */
  lemma SetterKeepsReserved(c: ControlValue, s: Setting)
    ensures Reserved(Apply(c, s)) == Reserved(c)
  {
    match s {
      case SetEnabled(on) => if on { ReservedAfterSetting(c.raw, 1); } else { ReservedAfterClearing(c.raw, 1); }
      case SetIrqEnabled(on) => if on { ReservedAfterSetting(c.raw, 8); } else { ReservedAfterClearing(c.raw, 8); }
      case SetPowerMode(mode) =>
        ReservedAfterClearing(c.raw, 6);
        ReservedAfterSetting(c.raw & !6, (mode.Bits() << 1) & 6);
    }
  }

  lemma ReservedAfterSetting(raw: bv32, bits: bv32)
    requires bits & RESERVED_MASK == 0
    ensures (raw | bits) & RESERVED_MASK == raw & RESERVED_MASK
  {
  }

  lemma ReservedAfterClearing(raw: bv32, bits: bv32)
    requires bits & RESERVED_MASK == 0
    ensures (raw & !bits) & RESERVED_MASK == raw & RESERVED_MASK
  {
  }

  /** Setter `t` is the last of the first `k` that names the field. */
  ghost predicate LastSetter(settings: seq<Setting>, t: nat, k: nat, field: Field)
    requires k <= |settings|
  {
    t < k && Target(settings[t]) == field && forall j | t < j < k :: Target(settings[j]) != field
  }

  /**
   After any list of setters each field reads as its last setter wrote it, or as it did
   at first if no setter named it.
   */
  lemma FieldsAreLastSet(c: ControlValue, settings: seq<Setting>, k: nat, field: Field)
    requires k <= |settings|
    ensures forall t: nat | LastSetter(settings, t, k, field) ::
              Decode(After(c, settings, k), field) == Payload(settings[t])
    ensures (forall j | 0 <= j < k :: Target(settings[j]) != field) ==>
              Decode(After(c, settings, k), field) == Decode(c, field)
  {
    var readings := ReadingsFollowSetters(c, settings, k, field);
    LastWriteWins(readings, settings, k, field);
  }

  /** The readings of a field after each of the first `k` setters. */
  lemma {:induction false} ReadingsFollowSetters(c: ControlValue, settings: seq<Setting>, k: nat, field: Field)
    returns (readings: seq<Reading>)
    requires k <= |settings|
    ensures |readings| == k + 1
    ensures readings[0] == Decode(c, field) && readings[k] == Decode(After(c, settings, k), field)
    ensures forall j | 0 <= j < k ::
              readings[j + 1] == if Target(settings[j]) == field then Payload(settings[j]) else readings[j]
  {
    readings := [Decode(After(c, settings, k), field)];
    if k > 0 {
      SetterWritesOneField(After(c, settings, k - 1), settings[k - 1], field);
      var earlier := ReadingsFollowSetters(c, settings, k - 1, field);
      readings := earlier + readings;
    }
  }

  /** Whatever the setters, the reserved bits are the original ones. */
  lemma {:induction false} ReservedBitsAreKept(c: ControlValue, settings: seq<Setting>, k: nat)
    requires k <= |settings|
    ensures Reserved(After(c, settings, k)) == Reserved(c)
  {
    if k > 0 {
      ReservedBitsAreKept(c, settings, k - 1);
      SetterKeepsReserved(After(c, settings, k - 1), settings[k - 1]);
    }
  }

  /** A value that only the setters of its field change shows the last of them. */
  lemma LastWriteWins(readings: seq<Reading>, settings: seq<Setting>, k: nat, field: Field)
    requires k <= |settings| && |readings| == k + 1
    requires forall j | 0 <= j < k ::
               readings[j + 1] == if Target(settings[j]) == field then Payload(settings[j]) else readings[j]
    ensures forall t: nat | LastSetter(settings, t, k, field) :: readings[k] == Payload(settings[t])
    ensures (forall j | 0 <= j < k :: Target(settings[j]) != field) ==> readings[k] == readings[0]
  {
    if k > 0 {
      LastWriteWins(readings[..k], settings, k - 1, field);
      forall t: nat | LastSetter(settings, t, k, field)
        ensures readings[k] == Payload(settings[t])
      {
        assert t < k - 1 ==> LastSetter(settings, t, k - 1, field);
      }
    }
  }

  const STATUS_READY_MASK: bv32 := 1
  const STATUS_FAULT_MASK: bv32 := 4

  datatype StatusSnapshot = StatusSnapshot(raw: bv32) {

    predicate Ready() {
      raw & STATUS_READY_MASK != 0
    }

    predicate Fault() {
      raw & STATUS_FAULT_MASK != 0
    }
  }

  const CONTROL: nat := 0
  const STATUS: nat := 1
  const REQUIRED_REGISTERS: nat := 5

  datatype RegisterBlockError =
    | RegionTooSmall(required: nat, actual: nat)
    | OutOfBounds(index: nat, registerCount: nat)

  class GpuRegisterBlock {
    const words: array<bv32>

    predicate Valid() {
      REQUIRED_REGISTERS <= words.Length
    }

    constructor Over(words: array<bv32>)
      ensures this.words == words
    {
      this.words := words;
    }

    static method FromSlice(words: array<bv32>) returns (r: Result<GpuRegisterBlock, RegisterBlockError>)
      ensures r.Ok? <==> words.Length >= 5
      ensures r.Ok? ==> fresh(r.value) && r.value.Valid() && r.value.words == words
      ensures r.Err? ==> r.error == RegionTooSmall(5, words.Length)
    {
      if words.Length < REQUIRED_REGISTERS {
        return Err(RegionTooSmall(REQUIRED_REGISTERS, words.Length));
      }
      var block := new GpuRegisterBlock.Over(words);
      r := Ok(block);
    }

    method Read(index: nat) returns (r: Result<bv32, RegisterBlockError>)
      ensures r == if index < words.Length then Ok(words[index]) else Err(OutOfBounds(index, words.Length))
    {
      if index >= words.Length {
        return Err(OutOfBounds(index, words.Length));
      }
      r := Ok(words[index]);
    }

    method Write(index: nat, value: bv32) returns (r: Result<(), RegisterBlockError>)
      modifies words
      ensures index < words.Length ==> r == Ok(()) && words[..] == old(words[..])[index := value]
      ensures index >= words.Length ==> r == Err(OutOfBounds(index, words.Length)) && words[..] == old(words[..])
    {
      if index >= words.Length {
        return Err(OutOfBounds(index, words.Length));
      }
      words[index] := value;
      r := Ok(());
    }

    method ReadControl() returns (r: Result<ControlValue, RegisterBlockError>)
      requires Valid()
      ensures r == Ok(ControlValue(words[0]))
    {
      var raw := Read(CONTROL);
      match raw {
        case Ok(word) => r := Ok(ControlValue(word));
        case Err(error) => r := Err(error);
      }
    }

    method WriteControl(value: ControlValue) returns (r: Result<(), RegisterBlockError>)
      requires Valid()
      modifies words
      ensures r == Ok(()) && words[..] == old(words[..])[0 := value.raw]
    {
      r := Write(CONTROL, value.raw);
    }

    /** Reads, updates and writes back the control register; every other register keeps its word. */
    method ModifyControl(update: ControlValue -> ControlValue) returns (r: Result<ControlValue, RegisterBlockError>)
      requires Valid()
      modifies words
      ensures r == Ok(update(ControlValue(old(words[0]))))
      ensures words[..] == old(words[..])[0 := r.value.raw]
    {
      var current := ReadControl();
      match current {
        case Err(error) => r := Err(error);
        case Ok(control) =>
          var updated := update(control);
          var written := WriteControl(updated);
          match written {
            case Err(error) => r := Err(error);
            case Ok(_) => r := Ok(updated);
          }
      }
    }

    method ReadStatus() returns (r: Result<StatusSnapshot, RegisterBlockError>)
      requires Valid()
      ensures r == Ok(StatusSnapshot(words[1]))
    {
      var raw := Read(STATUS);
      match raw {
        case Ok(word) => r := Ok(StatusSnapshot(word));
        case Err(error) => r := Err(error);
      }
    }
  }

  /** Every field of `now` reads as the last of the settings wrote it, or as in `c` if none did. */
  ghost predicate ReadsAsLastSet(c: ControlValue, now: ControlValue, settings: seq<Setting>, field: Field) {
    && (forall t: nat | LastSetter(settings, t, |settings|, field) :: Decode(now, field) == Payload(settings[t]))
    && ((forall j | 0 <= j < |settings| :: Target(settings[j]) != field) ==> Decode(now, field) == Decode(c, field))
  }

  /**
   Any list of setters, each through a `ModifyControl` of its own: the control word shows
   the last setting of every field and its original reserved bits, and no other register
   of the block changes.
   */
  method ApplySettings(block: GpuRegisterBlock, settings: seq<Setting>)
    requires block.Valid()
    modifies block.words
    ensures block.words[1..] == old(block.words[1..])
    ensures var c, now := ControlValue(old(block.words[0])), ControlValue(block.words[0]);
            && now == After(c, settings, |settings|)
            && now.raw == WordAfter(c.raw, settings, |settings|)
            && Reserved(now) == Reserved(c)
            && ReadsAsLastSet(c, now, settings, EnableField)
            && ReadsAsLastSet(c, now, settings, IrqField)
            && ReadsAsLastSet(c, now, settings, PowerField)
  {
    ghost var c := ControlValue(block.words[0]);
    for n := 0 to |settings|
      invariant block.words[..] == old(block.words[..])[0 := After(c, settings, n).raw]
    {
      var _ := block.ModifyControl(control => Apply(control, settings[n]));
    }
    FieldsAreLastSet(c, settings, |settings|, EnableField);
    FieldsAreLastSet(c, settings, |settings|, IrqField);
    FieldsAreLastSet(c, settings, |settings|, PowerField);
    ReservedBitsAreKept(c, settings, |settings|);
    ListsWriteTheirBits(c, settings, |settings|);
  }
}
