/** Structural validation of raw commands (src/command.rs). */
module Command {
  import opened Results
  import opened Words

  const ALIGNMENT: usize := 4
  const MIN_PRIORITY: byte := 0
  const MAX_PRIORITY: byte := 3

  datatype CommandId = CommandId(raw: u64)

  datatype Priority = Priority(level: byte)

  datatype CommandRange = CommandRange(offset: usize, length: usize) {

    predicate Fits() {
      offset + length <= USIZE_MAX
    }

    function End(): usize
      requires Fits()
    {
      Plus(offset, length)
    }
  }

  datatype RawCommand = RawCommand(id: u64, offset: usize, length: usize, priority: byte)

  datatype ValidatedCommand = ValidatedCommand(id: CommandId, range: CommandRange, priority: Priority)

  datatype CommandError =
    | ZeroCommandId
    | ZeroLength
    | MisalignedOffset(offset: usize, requiredAlignment: usize)
    | RangeOverflow(offset: usize, length: usize)
    | InvalidPriority(found: byte, minimum: byte, maximum: byte)

  function NewCommandId(raw: u64): Result<CommandId, CommandError> {
    if raw == 0 then Err(ZeroCommandId) else Ok(CommandId(raw))
  }

  function NewPriority(raw: byte): Result<Priority, CommandError> {
    if !(MIN_PRIORITY <= raw <= MAX_PRIORITY) then
      Err(InvalidPriority(raw, MIN_PRIORITY, MAX_PRIORITY))
    else
      Ok(Priority(raw))
  }

  function NewRange(offset: usize, length: usize): Result<CommandRange, CommandError> {
    if offset % ALIGNMENT != 0 then
      Err(MisalignedOffset(offset, ALIGNMENT))
    else if length == 0 then
      Err(ZeroLength)
    else
      match CheckedAdd(offset, length)
      case None => Err(RangeOverflow(offset, length))
      case Some(_) => Ok(CommandRange(offset, length))
  }

  function TryFrom(raw: RawCommand): Result<ValidatedCommand, CommandError> {
    var id :- NewCommandId(raw.id);
    var range :- NewRange(raw.offset, raw.length);
    var priority :- NewPriority(raw.priority);
    Ok(ValidatedCommand(id, range, priority))
  }

  /** The checks in the order in which they are made, each with the error it reports. */
  predicate ValidationLaw(raw: RawCommand, r: Result<ValidatedCommand, CommandError>) {
    if raw.id == 0 then r == Err(ZeroCommandId)
    else if raw.offset % 4 != 0 then r == Err(MisalignedOffset(raw.offset, 4))
    else if raw.length == 0 then r == Err(ZeroLength)
    else if raw.offset + raw.length > USIZE_MAX then r == Err(RangeOverflow(raw.offset, raw.length))
    else if raw.priority > 3 then r == Err(InvalidPriority(raw.priority, 0, 3))
    else
      r == Ok(ValidatedCommand(CommandId(raw.id), CommandRange(raw.offset, raw.length), Priority(raw.priority)))
  }

  lemma ValidationObeysLaw(raw: RawCommand)
    ensures ValidationLaw(raw, TryFrom(raw))
  {
  }

  /** What the private fields of a validated command promise to every later reader. */
  predicate WellFormed(command: ValidatedCommand) {
    && command.id.raw != 0
    && command.range.offset % ALIGNMENT == 0
    && command.range.length != 0
    && command.range.Fits()
    && command.priority.level <= MAX_PRIORITY
  }

  /** The same four fields with the validation forgotten. */
  function Forget(command: ValidatedCommand): RawCommand {
    RawCommand(command.id.raw, command.range.offset, command.range.length, command.priority.level)
  }

  /**
   Validation and forgetting are inverse: whatever is accepted is well formed and
   says what the client said, and every well-formed command is accepted.
   */
  lemma ValidationRoundTrip(raw: RawCommand, command: ValidatedCommand)
    ensures TryFrom(raw) == Ok(command) <==> WellFormed(command) && Forget(command) == raw
  {
  }
}
