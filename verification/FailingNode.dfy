/** Marking a device as failing saves its network status and sets it OFFLINE; recovering it puts the
    saved status back. The failing-node table remembers when it happened, for recovery at boot. */
module FailingNode {
  import opened Wrappers
  import opened Identity

  /** The errors that matter here; every other `CHIP_ERROR` is `OtherError`. */
  datatype ChipError = Timeout | ConnectionClosedUnexpectedly | MissingSecureSession | ConnectionAborted | OtherError

  /** The errors after which `check_and_mark_failing_node` marks the device. */
  predicate IsConnectionError(error: ChipError) {
    error != OtherError
  }

  lemma ConnectionErrors(error: ChipError)
    ensures IsConnectionError(error)
      <==> error in {Timeout, ConnectionClosedUnexpectedly, MissingSecureSession, ConnectionAborted}
  {}

  datatype Status = Functional | Interviewing | NonFunctional | Offline

  /** What the registry keeps of one device. `status` and `saved` are `None` when the child is
      absent or has no reported value. `listening` says that endpoint 0 and the resolution
      listener exist, which is what starts an interview. */
  datatype Device = Device(list: NetworkList, status: Option<Status>, saved: Option<Status>, listening: bool)

  /** A device together with its row in the failing-node table: the time it failed. */
  datatype Tracked = Tracked(device: Device, row: Option<nat>)

  /** The table key is primary, so inserting an existing key changes nothing. */
  function Insert<K>(rows: map<K, nat>, key: K, time: nat): (r: map<K, nat>)
  {
    if key in rows then rows else rows[key := time]
  }

  predicate EntersTable(status: Status) {
    status != Interviewing && status != NonFunctional
  }

  function Mark(x: Tracked, seconds: nat): Tracked {
    match x.device.status
    case None => x
    case Some(status) =>
      Tracked(x.device.(status := Some(Offline), saved := Some(status)),
              if EntersTable(status) && x.row.None? then Some(seconds) else x.row)
  }

  function Recover(x: Tracked): Tracked {
    if x.device.status != Some(Offline) || x.device.saved.None? then x
    else Tracked(x.device.(status := x.device.saved, saved := None), None)
  }

  // ---------- whole sequences of failures and recoveries of one device ----------

  datatype Op = Failure(seconds: nat) | Recovery

  function Apply(x: Tracked, op: Op): Tracked {
    match op
    case Failure(seconds) => Mark(x, seconds)
    case Recovery => Recover(x)
  }

  function Run(x: Tracked, ops: seq<Op>): Tracked {
    if ops == [] then x else Apply(Run(x, ops[..|ops| - 1]), ops[|ops| - 1])
  }

  ghost predicate TwoFailuresInARow(ops: seq<Op>) {
    exists i :: 0 <= i < |ops| - 1 && ops[i].Failure? && ops[i + 1].Failure?
  }

  predicate EndsInFailure(ops: seq<Op>) {
    ops != [] && ops[|ops| - 1].Failure?
  }

  /** Online, with nothing saved and no row: a device that has not failed since it was online. */
  predicate Online(x: Tracked) {
    x.device.status.Some? && x.device.status != Some(Offline) && x.device.saved.None? && x.row.None?
  }

  /** The online status is no longer stored anywhere. */
  predicate Stranded(d: Device) {
    d.status == Some(Offline) && d.saved in {None, Some(Offline)}
  }

  /** After any sequence the device is as it was, or one failure away from that, or stranded. */
  lemma {:induction false} RunShape(x: Tracked, ops: seq<Op>)
    requires Online(x)
    ensures !TwoFailuresInARow(ops) ==>
      Run(x, ops) == if EndsInFailure(ops) then Apply(x, ops[|ops| - 1]) else x
    ensures TwoFailuresInARow(ops) ==>
      && Stranded(Run(x, ops).device)
      && (Run(x, ops).row.Some? <==> EndsInFailure(ops))
      && (Run(x, ops).device.saved.Some? <==> EndsInFailure(ops))
  {
    if ops != [] {
      var front := ops[..|ops| - 1];
      RunShape(x, front);
      assert TwoFailuresInARow(ops) <==> TwoFailuresInARow(front) || (EndsInFailure(front) && EndsInFailure(ops)) by {
        if EndsInFailure(front) && EndsInFailure(ops) {
          assert ops[|ops| - 2].Failure? && ops[|ops| - 2 + 1].Failure?;
        }
        if i :| 0 <= i < |front| - 1 && front[i].Failure? && front[i + 1].Failure? {
          assert ops[i].Failure? && ops[i + 1].Failure?;
        }
        if i :| 0 <= i < |ops| - 1 && ops[i].Failure? && ops[i + 1].Failure? && i + 1 < |front| {
          assert front[i].Failure? && front[i + 1].Failure?;
        }
      }
    }
  }

  /** A recovery brings the device back to its last online status exactly when no two failures came
      in a row, and then it restores the device and the table completely. */
  lemma {:induction false} RestoresIffNoDoubleFailure(x: Tracked, ops: seq<Op>)
    requires Online(x)
    ensures Recover(Run(x, ops)).device.status == x.device.status <==> !TwoFailuresInARow(ops)
    ensures !TwoFailuresInARow(ops) ==> Recover(Run(x, ops)) == x
  {
    RunShape(x, ops);
  }

  /** A stranded device stays OFFLINE through every later failure and recovery. */
  lemma {:induction false} StrandedForever(x: Tracked, ops: seq<Op>)
    requires Stranded(x.device)
    ensures Stranded(Run(x, ops).device)
  {
    if ops != [] {
      StrandedForever(x, ops[..|ops| - 1]);
    }
  }

  /** A first failure saves the status, sets OFFLINE, and gives a functional device a row. */
  lemma MarkStores(x: Tracked, seconds: nat)
    requires Online(x)
    ensures Mark(x, seconds).device == x.device.(status := Some(Offline), saved := x.device.status)
    ensures Mark(x, seconds).row == if x.device.status == Some(Functional) then Some(seconds) else None
  {}

  /** The table row after any sequence. The documentation keeps interviewing and non-functional
      nodes out of automatic recovery; that holds exactly until two failures come in a row. Until
      then the row has the time of the failure. */
  lemma {:induction false} RowIff(x: Tracked, ops: seq<Op>)
    requires Online(x)
    ensures Run(x, ops).row.Some?
      <==> EndsInFailure(ops) && (x.device.status == Some(Functional) || TwoFailuresInARow(ops))
    ensures Run(x, ops).row.Some? && !TwoFailuresInARow(ops) ==> Run(x, ops).row.value == ops[|ops| - 1].seconds
  {
    RunShape(x, ops);
    if EndsInFailure(ops) {
      MarkStores(x, ops[|ops| - 1].seconds);
    }
  }

  /** The row keeps the time of the first failure, however many follow without a recovery. */
  lemma {:induction false} FirstFailureTimeStays(x: Tracked, ops: seq<Op>)
    requires x.row.Some? && Recovery !in ops
    ensures Run(x, ops).row == x.row
  {
    if ops != [] {
      FirstFailureTimeStays(x, ops[..|ops| - 1]);
    }
  }
}
