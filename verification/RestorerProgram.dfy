/**
 wraith-restorer as a program (wraith-rust/src/bin/restorer.rs): what it makes of the file it finds, how
 it exits, and the process that is there when it is done.
 */
module RestorerProgram {
  import opened Wrappers
  import opened Words
  import opened Snapshot
  import opened Machine
  import opened Restorer
  import opened RestorerProofs
  import Teleporter

  /** Protocol buffers as a codec. */
  datatype SnapshotCodec = SnapshotCodec(
    encode: ProcessSnapshot -> seq<byte>, decode: seq<byte> -> Option<ProcessSnapshot>)
  {
    predicate Carries(snap: ProcessSnapshot) { decode(encode(snap)) == Some(snap) }

    /** An empty message has every field at its default. */
    predicate EmptyIsDefault() { decode([]) == Some(ProcessSnapshot(0, "", None, [])) }
  }

  /** The machine the restorer runs on: the stub it forks, if it can, the kernel, the files it reopens for
      the child, and whether some descriptor could not be restored. */
  datatype Destination = Destination(
    host: string, stub: Option<Machine>, kernel: Kernel, files: seq<Opened>, fdFailures: bool)

  /** The restorer's own report, and the process it forked, if it came to that. */
  datatype Ended = Ended(run: Teleporter.RestorerRun, process: Option<Machine>)

  function RunRestorer(
      d: Destination, crc: Crc, codec: SnapshotCodec, file: Option<seq<byte>>, strict: bool): Ended
  {
    var loaded := if file == None then None else codec.decode(file.value);
    if loaded == None || ValidateSnapshot(loaded.value, d.host).Some? || d.stub == None
    then Ended(Teleporter.NotRestored, None)
    else
      var r := Restore(crc, d.stub.value, d.kernel, 0, loaded.value, d.host, d.files);
      if r.result.Failure? then Ended(Teleporter.NotRestored, Some(r.machine))
      else
        var left := if d.fdFailures && strict then Killed(r.machine) else r.machine;
        Ended(Teleporter.Restored(d.fdFailures), Some(left))
  }

  /** The exit status tells whether a restored process is alive: 0 exactly if one is. */
  lemma ExitZeroIffAlive(d: Destination, crc: Crc, codec: SnapshotCodec, file: Option<seq<byte>>, strict: bool)
    ensures var e := RunRestorer(d, crc, codec, file, strict);
            (Teleporter.ExitCode(e.run, strict) == 0 <==> e.process.Some? && e.process.value.alive)
            && (Teleporter.LeavesProcess(e.run, strict) <==> e.process.Some? && e.process.value.alive)
            && (Teleporter.ExitCode(e.run, strict) == 2 <==> strict && d.fdFailures && e.run.Restored?)
            && (Teleporter.ExitCode(e.run, strict) == 1 <==> e.run.NotRestored?)
  {
    hide Restore, ValidateSnapshot;
    if file.Some? && codec.decode(file.value).Some? && d.stub.Some? {
      FailureLeavesNoChild(crc, d.stub.value, d.kernel, 0, codec.decode(file.value).value, d.host, d.files);
    }
  }

  /** Exit status 0 is the success of a restore that is not spoilt by strict descriptor checking. */
  lemma ExitZeroRestored(d: Destination, crc: Crc, codec: SnapshotCodec, file: Option<seq<byte>>, strict: bool)
    requires Teleporter.ExitCode(RunRestorer(d, crc, codec, file, strict).run, strict) == 0
    ensures file.Some? && codec.decode(file.value).Some? && d.stub.Some?
    ensures var r := Restore(crc, d.stub.value, d.kernel, 0, codec.decode(file.value).value, d.host, d.files);
            r.result.Success? && RunRestorer(d, crc, codec, file, strict).process == Some(r.machine)
  {
    hide Restore, ValidateSnapshot;
  }
}
