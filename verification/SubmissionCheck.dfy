/** Validation against the live device (src/submission.rs with `GpuDevice` as its `BufferInfo`). */
module SubmissionCheck {
  import opened Results
  import opened Command
  import opened BufferStore
  import opened Submission
  import opened DeviceMemory

  /** `validate_submission` with the device as its source of buffer information. */
  method ValidateAgainst(device: GpuDevice, id: BufferId, raw: RawCommand)
    returns (r: Result<ValidatedSubmission, SubmissionError>)
    requires device.Valid()
    ensures r == ValidateSubmission(Lookup(device.View()), id, raw)
    ensures SubmissionLaw(Lookup(device.View()), id, raw, r)
  {
    SubmissionObeysLaw(Lookup(device.View()), id, raw);
    var command := TryFrom(raw);
    if command.Err? {
      return Err(CommandRejected(command.error));
    }
    var initialized := device.InitializedLength(id);
    if initialized.Err? {
      return Err(BufferRejected(initialized.error));
    }
    ValidationRoundTrip(raw, command.value);
    var end := command.value.range.End();
    if end > initialized.value {
      return Err(RangeExceedsInitialized(end, initialized.value));
    }
    r := Ok(ValidatedSubmission(id, command.value));
  }
}
