/** Pairing a command with a buffer (src/submission.rs). */
module Submission {
  import opened Results
  import opened Words
  import opened Command
  import opened BufferStore

  datatype ValidatedSubmission = ValidatedSubmission(bufferId: BufferId, command: ValidatedCommand) {

    /** `submission.command().id()` */
    function Id(): CommandId {
      command.id
    }
  }

  datatype SubmissionError =
    | CommandRejected(command: CommandError)
    | BufferRejected(buffer: DriverError)
    | RangeExceedsInitialized(end: usize, initialized: usize)

  /** The `BufferInfo` capability of a buffer table. */
  function Lookup(s: Store): BufferId -> Result<usize, DriverError> {
    id => InitializedLen(s, id)
  }

  /**
   Validate the command, resolve the buffer through any `BufferInfo`, then compare the
   end of the range with the initialized length it reports.
   */
  function ValidateSubmission(lookup: BufferId -> Result<usize, DriverError>, bufferId: BufferId, raw: RawCommand)
    : (r: Result<ValidatedSubmission, SubmissionError>)
    ensures r.Ok? ==>
              && WellFormed(r.value.command) && Forget(r.value.command) == raw
              && r.value.bufferId == bufferId
              && lookup(bufferId).Ok? && raw.offset + raw.length <= lookup(bufferId).value
  {
    match TryFrom(raw)
    case Err(error) => Err(CommandRejected(error))
    case Ok(command) =>
      match lookup(bufferId)
      case Err(error) => Err(BufferRejected(error))
      case Ok(initialized) =>
        var end := command.range.End();
        if end > initialized then
          Err(RangeExceedsInitialized(end, initialized))
        else
          Ok(ValidatedSubmission(bufferId, command))
  }
  /**
   The command is judged before the buffer is looked up, and the buffer before the range;
   the lookup's own error is passed on.
   */
  ghost predicate SubmissionLaw(
    lookup: BufferId -> Result<usize, DriverError>, bufferId: BufferId, raw: RawCommand,
    r: Result<ValidatedSubmission, SubmissionError>)
  {
    forall command | ValidationLaw(raw, command) ::
      if command.Err? then r == Err(CommandRejected(command.error))
      else if lookup(bufferId).Err? then r == Err(BufferRejected(lookup(bufferId).error))
      else if raw.offset + raw.length > lookup(bufferId).value then
        raw.offset + raw.length <= USIZE_MAX
        && r == Err(RangeExceedsInitialized(raw.offset + raw.length, lookup(bufferId).value))
      else r == Ok(ValidatedSubmission(bufferId, command.value))
  }

  /** With any source of buffer information; some result always satisfies the command's law. */
  lemma SubmissionObeysLaw(lookup: BufferId -> Result<usize, DriverError>, bufferId: BufferId, raw: RawCommand)
    ensures SubmissionLaw(lookup, bufferId, raw, ValidateSubmission(lookup, bufferId, raw))
    ensures ValidationLaw(raw, TryFrom(raw))
  {
    ValidationObeysLaw(raw);
  }
}
