/**
 * The whole run of `bin2z80 bin_file output_file dump_address run_address`:
 * argument checks, then the two file opens, then the snapshot write.
 */
module Cli {
  import opened Wrappers
  import opened Layout
  import opened Window
  import opened Snapshot

  /** Why a run stops with status -1, each with its own diagnostic. */
  datatype RunError = Usage | InvalidAddress | InvalidRunAddress | CannotOpenInput | CannotOpenOutput

  /** The verdict of the argument checks. */
  datatype Validation = Proceed | Reject(reason: RunError)

  /** The checks on the argument count and the two parsed addresses, in the
      order the tool makes them. A parsed value of zero is rejected, since
      that is also what a failed parse yields. */
  function Validate(argc: int, address: int, run: int): (v: Validation)
    ensures v == Proceed <==> argc == 5 && address != 0 && run != 0
    ensures v == Reject(Usage) <==> argc != 5
    ensures v == Reject(InvalidAddress) <==> argc == 5 && address == 0
    ensures v == Reject(InvalidRunAddress) <==> argc == 5 && address != 0 && run == 0
  {
    if argc != 5 then Reject(Usage)
    else if address == 0 then Reject(InvalidAddress)
    else if run == 0 then Reject(InvalidRunAddress)
    else Proceed
  }

  /** The two files a run opens. */
  datatype FileRole = InputFile | OutputFile

  /** What a run leaves behind: its exit status, the files it tried to open
      in order (an open that failed included), the
      bytes written to the output file (if it got that far) and the failure
      it reported (if any). */
  datatype Outcome = Outcome(
    exitCode: int,
    opensAttempted: seq<FileRole>,
    written: Option<seq<byte>>,
    failure: Option<RunError>)

  /** One run. `input` is the dump file's contents, or None when it cannot
      be opened; `outputCreatable` says whether the output file can be
      created. The dump must fit the window whenever the run gets as far as
      reading it. */
  function Run(argc: int, address: int, run: int, input: Option<seq<byte>>, outputCreatable: bool): (o: Outcome)
    requires Validate(argc, address, run) == Proceed && input.Some? && outputCreatable ==>
      Fits(input.value, address)
    ensures o.exitCode == 0 || o.exitCode == -1
    ensures o.exitCode == 0 <==> o.failure == None
    ensures o.exitCode == 0 <==>
      Validate(argc, address, run) == Proceed && input.Some? && outputCreatable
    ensures Validate(argc, address, run).Reject? ==>
      o.opensAttempted == [] && o.written == None && o.failure == Some(Validate(argc, address, run).reason)
    ensures OutputFile in o.opensAttempted ==> InputFile in o.opensAttempted && input.Some?
    ensures o.written.Some? <==> o.exitCode == 0
    ensures o.exitCode == 0 ==> o.written == Some(Encode(input.value, address, run))
    ensures o.written.Some? ==> |o.written.value| == SnapshotSize
  {
    match Validate(argc, address, run)
    case Reject(reason) => Outcome(-1, [], None, Some(reason))
    case Proceed =>
      if input.None? then Outcome(-1, [InputFile], None, Some(CannotOpenInput))
      else if !outputCreatable then Outcome(-1, [InputFile, OutputFile], None, Some(CannotOpenOutput))
      else Outcome(0, [InputFile, OutputFile], Some(Encode(input.value, address, run)), None)
  }
}
