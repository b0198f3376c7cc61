/** The log as bytes: what recovery makes of any prefix of the file. */
module LogFiles {
  import opened Bytes
  import opened Entries
  import opened WalRecords
  import opened Recovery
  import opened TxnMachine
  import opened Transactions
  import opened Replaying

  ghost predicate AllWritable(log: seq<Record>) { forall r :: r in log ==> Writable(r) }

  lemma {:induction false} LogRunPrefix(base: Data, log: seq<Record>, m: nat)
    requires LogRun(base, log).Some? && m <= |log|
    ensures LogRun(base, log[..m]).Some?
    decreases |log|
  {
    if m == |log| {
      assert log[..m] == log;
    } else {
      LogRunPrefix(base, log[..|log| - 1], m);
      assert log[..|log| - 1][..m] == log[..m];
    }
  }

  /** Records after the last commit do not change what is committed. */
  lemma {:induction false} CommittedPrefix(base: Data, log: seq<Record>, m: nat)
    requires LogRun(base, log).Some? && m <= |log| && forall i :: m <= i < |log| ==> !log[i].Commit?
    ensures LogRun(base, log[..m]).Some? && LogRun(base, log[..m]).value.committed == LogRun(base, log).value.committed
    decreases |log|
  {
    if m == |log| {
      assert log[..m] == log;
    } else {
      var n := |log| - 1;
      CommittedPrefix(base, log[..n], m);
      assert log[..n][..m] == log[..m];
    }
  }

  /** What is left of a log file whose last bytes never reached the disk. */
  ghost function LeftOf(crc: Checksum, log: seq<Record>, n: nat): seq<Record>
    requires n <= |FrameAll(crc, log)|
  {
    Scan(crc, FrameAll(crc, log)[..n])
  }

  /** From any byte prefix of the log and any trees: the prefix reads as a serial log again; recovery brings the data to
      what that log commits exactly when the keys it does not log hold it already; and that is all that ever was
      committed when no commit record was cut off. */
  lemma {:induction false} PrefixRecoversIff(crc: Checksum, base: Data, log: seq<Record>, n: nat, left: Data,
                                             order: seq<nat>)
    requires WellSized(base) && LogRun(base, log).Some? && AllWritable(log) && n <= |FrameAll(crc, log)|
    requires Lists(order, ScanLog(LeftOf(crc, log, n)).pending.Keys)
    ensures var rs := LeftOf(crc, log, n);
            var r := ApplyAll(left, ScanLog(rs).redone + UndosOf(ScanLog(rs).pending, order));
            var m := Whole(Frames(crc, log), n);
            && m <= |log| && rs == log[..m] && LogRun(base, rs).Some?
            && (NoOversizeCommit(rs) ==> r.ok && (r.data == LogRun(base, rs).value.committed <==>
                                                  Recoverable(base, rs, left)))
            && ((forall i :: m <= i < |log| ==> !log[i].Commit?) ==>
                  LogRun(base, rs).value.committed == LogRun(base, log).value.committed)
  {
    var m := Whole(Frames(crc, log), n);
    TornTail(crc, log, n);
    LogRunPrefix(base, log, m);
    var rs := log[..m];
    UndoOrderIrrelevant(base, rs, order);
    if NoOversizeCommit(rs) {
      RecoverAnyAt(base, rs, left, Loc([], []));
      RecoveryRightIff(base, rs, left);
    }
    if forall i :: m <= i < |log| ==> !log[i].Commit? {
      CommittedPrefix(base, log, m);
    }
  }

  /** A file that holds the log and perhaps the beginning of one more record. */
  ghost predicate HoldsLog(crc: Checksum, file: Bytes, log: seq<Record>, r: Record, n: nat) {
    && AllWritable(log) && Writable(r) && n < |Frame(crc, r)|
    && file == FrameAll(crc, log) + Frame(crc, r)[..n]
  }

  /** Opening from the two files that a stopped process leaves, in whatever state of whatever run it stopped and
      wherever in a record. */
  method OpenFile(crc: Checksum, targets: set<Bytes>, disk: Data, file: Bytes, ghost past: Past, ghost s: Sys,
                  ghost r: Record, ghost n: nat)
    returns (store: Option<Store>)
    requires Reached(past, s) && s.phase.Down? && s.data == disk && HoldsLog(crc, file, s.log, r, n)
    ensures store.Some? <==> NoOversizeCommit(s.log)
    ensures store.Some? ==> fresh(store.value) && store.value.Valid() && !store.value.locked
                            && store.value.targets == targets
    ensures store.Some? ==> store.value.data == store.value.Committed() == CommittedBy(past.events)
                            && store.value.log == []
  {
    TornAppend(crc, s.log, r, n);
    var log := ScanFile(crc, file);
    store := Replaying.Open(targets, disk, log, past, s);
  }
}
