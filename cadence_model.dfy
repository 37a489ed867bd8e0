/**
 * What the monitoring loop of FastMonitoringService::dowork produces, as a
 * log. One pass of the loop takes a snapshot, then, when the fast-path
 * cadence is due, asks the JSON monitor for its CSV string(s) and writes
 * every non-empty one out, and finally advances snapCounter_.
 *
 * The log records those outputs in order; each entry is tagged with the
 * value snapCounter_ had during that pass.
 */
module CadenceModel {

  /** Which CSV string is asked for: the merged one, or that of one stream. */
  datatype CsvScope = Merged | Stream(index: nat)

  datatype Output =
    | Snapshot(counter: nat, lumi: nat)
    | Csv(counter: nat, path: string, content: string)

  /** The fields the loop reads: fastMonIntervals_, filePerFwkStream_,
      nStreams_, fastPath_ and fastPathList_, and lastGlobalLumi_. The last
      one is written by the lumisection hooks while the loop runs, so it is
      given per pass: `lumiAt(j)` is its value when the pass with
      snapCounter_ == j takes its snapshot. */
  datatype Config = Config(
    intervals: nat,
    perStream: bool,
    nStreams: nat,
    fastPath: string,
    fastPathList: seq<string>,
    lumiAt: nat -> nat)

  /** The CSV string the JSON monitor hands out for a pass and a scope. */
  type CsvSource = (nat, CsvScope) -> string

  /** In per-stream mode, stream i writes to fastPathList_[i]. */
  predicate PathsCover(c: Config) {
    c.perStream ==> c.nStreams <= |c.fastPathList|
  }

  /** The fast-path CSV is produced only when the interval is non-zero and
      divides the snapshot counter. */
  predicate CsvDue(c: Config, counter: nat) {
    c.intervals != 0 && counter % c.intervals == 0
  }

  /** The writes of the second per-stream loop, for streams 0 .. k-1. */
  function StreamWrites(c: Config, csv: CsvSource, counter: nat, k: nat): (r: seq<Output>)
    requires k <= |c.fastPathList|
    ensures |r| <= k
  {
    if k == 0 then []
    else
      var s := csv(counter, Stream(k - 1));
      StreamWrites(c, csv, counter, k - 1)
        + (if |s| > 0 then [Csv(counter, c.fastPathList[k - 1], s)] else [])
  }

  /** The CSV files one pass writes. */
  function CsvWrites(c: Config, csv: CsvSource, counter: nat): (r: seq<Output>)
    requires PathsCover(c)
    ensures !CsvDue(c, counter) ==> r == []
    ensures |r| <= if c.perStream then c.nStreams else 1
  {
    if !CsvDue(c, counter) then []
    else if c.perStream then StreamWrites(c, csv, counter, c.nStreams)
    else
      var s := csv(counter, Merged);
      if |s| > 0 then [Csv(counter, c.fastPath, s)] else []
  }

  /** One pass of the loop with snapCounter_ == counter. */
  function Pass(c: Config, csv: CsvSource, counter: nat): (r: seq<Output>)
    requires PathsCover(c)
    ensures |r| >= 1 && r[0] == Snapshot(counter, c.lumiAt(counter))
  {
    [Snapshot(counter, c.lumiAt(counter))] + CsvWrites(c, csv, counter)
  }

  /** `n` passes, the first with snapCounter_ == start. */
  function Run(c: Config, csv: CsvSource, start: nat, n: nat): (r: seq<Output>)
    requires PathsCover(c)
    ensures |r| >= n
  {
    if n == 0 then [] else Run(c, csv, start, n - 1) + Pass(c, csv, start + n - 1)
  }

  /** The counters of the snapshots in a log, in order. */
  function SnapshotCounters(log: seq<Output>): seq<nat> {
    if log == [] then []
    else
      var last := log[|log| - 1];
      SnapshotCounters(log[..|log| - 1]) + (if last.Snapshot? then [last.counter] else [])
  }

  /** The CSV writes a run of `n` passes from `start` should perform, stated
      independently of the loop structure. */
  ghost predicate Emitted(c: Config, csv: CsvSource, start: nat, n: nat,
                          counter: nat, path: string, content: string)
    requires PathsCover(c)
  {
    && start <= counter < start + n
    && CsvDue(c, counter)
    && |content| > 0
    && if c.perStream then
         exists i :: 0 <= i < c.nStreams && path == c.fastPathList[i] && content == csv(counter, Stream(i))
       else
         path == c.fastPath && content == csv(counter, Merged)
  }

  // ---------------------------------------------------------------------

  lemma {:induction false} SnapshotCountersAppend(a: seq<Output>, b: seq<Output>)
    ensures SnapshotCounters(a + b) == SnapshotCounters(a) + SnapshotCounters(b)
    decreases |b|
  {
    if b == [] {
      assert a + b == a;
    } else {
      var b' := b[..|b| - 1];
      assert (a + b)[..|a + b| - 1] == a + b';
      SnapshotCountersAppend(a, b');
    }
  }

  lemma {:induction false} NoSnapshots(log: seq<Output>)
    requires forall e :: e in log ==> e.Csv?
    ensures SnapshotCounters(log) == []
    decreases |log|
  {
    if log != [] {
      assert log[|log| - 1] in log;
      NoSnapshots(log[..|log| - 1]);
    }
  }

  /** Every per-stream write is a non-empty CSV for the pass's counter. */
  lemma {:induction false} StreamWritesShape(c: Config, csv: CsvSource, counter: nat, k: nat)
    requires k <= |c.fastPathList|
    ensures forall e :: e in StreamWrites(c, csv, counter, k) ==>
      e.Csv? && e.counter == counter && |e.content| > 0
  {
    if k > 0 {
      StreamWritesShape(c, csv, counter, k - 1);
    }
  }

  /** Everything a pass writes after its snapshot is a non-empty CSV for
      the pass's counter. */
  lemma CsvWritesShape(c: Config, csv: CsvSource, counter: nat)
    requires PathsCover(c)
    ensures forall e :: e in CsvWrites(c, csv, counter) ==>
      e.Csv? && e.counter == counter && |e.content| > 0
  {
    if CsvDue(c, counter) && c.perStream {
      StreamWritesShape(c, csv, counter, c.nStreams);
    }
  }

  /** The only snapshot of a pass is the one for its counter and the value
      lastGlobalLumi_ has in that pass. */
  lemma PassSnapshotLumi(c: Config, csv: CsvSource, j: nat)
    requires PathsCover(c)
    ensures forall e :: e in Pass(c, csv, j) && e.Snapshot? ==> e == Snapshot(j, c.lumiAt(j))
  {
    CsvWritesShape(c, csv, j);
  }

  /** Each pass takes exactly one snapshot, for its own counter. */
  lemma PassSnapshot(c: Config, csv: CsvSource, j: nat)
    requires PathsCover(c)
    ensures SnapshotCounters(Pass(c, csv, j)) == [j]
  {
    var w := CsvWrites(c, csv, j);
    CsvWritesShape(c, csv, j);
    NoSnapshots(w);
    var head := [Snapshot(j, c.lumiAt(j))];
    assert SnapshotCounters(head) == [j] by {
      assert head[..0] == [];
    }
    SnapshotCountersAppend(head, w);
  }

  /** `s` is start, start + 1, ..., start + n - 1. */
  predicate Consecutive(s: seq<nat>, start: nat, n: nat) {
    |s| == n && forall i :: 0 <= i < n ==> s[i] == start + i
  }

  lemma ConsecutiveExtend(s: seq<nat>, start: nat, n: nat)
    requires Consecutive(s, start, n)
    ensures Consecutive(s + [start + n], start, n + 1)
  {
  }

  lemma RunSnapshotStep(c: Config, csv: CsvSource, start: nat, n: nat)
    requires PathsCover(c) && n > 0
    ensures SnapshotCounters(Run(c, csv, start, n))
         == SnapshotCounters(Run(c, csv, start, n - 1)) + [start + n - 1]
  {
    var prev := Run(c, csv, start, n - 1);
    var p := Pass(c, csv, start + n - 1);
    assert Run(c, csv, start, n) == prev + p;
    PassSnapshot(c, csv, start + n - 1);
    SnapshotCountersStep(prev, p, start + n - 1);
  }

  lemma SnapshotCountersStep(a: seq<Output>, b: seq<Output>, j: nat)
    requires SnapshotCounters(b) == [j]
    ensures SnapshotCounters(a + b) == SnapshotCounters(a) + [j]
  {
    SnapshotCountersAppend(a, b);
  }

  /** Exactly one snapshot per pass, taken with counters start, start + 1, ...
      in order. */
  lemma {:induction false} SnapshotEveryPass(c: Config, csv: CsvSource, start: nat, n: nat)
    requires PathsCover(c)
    ensures Consecutive(SnapshotCounters(Run(c, csv, start, n)), start, n)
  {
    if n > 0 {
      var prev := SnapshotCounters(Run(c, csv, start, n - 1));
      SnapshotEveryPass(c, csv, start, n - 1);
      ConsecutiveExtend(prev, start, n - 1);
      RunSnapshotStep(c, csv, start, n);
      assert SnapshotCounters(Run(c, csv, start, n)) == prev + [start + (n - 1)];
    }
  }

  /** Every snapshot of a run is taken for the value lastGlobalLumi_ has in
      its own pass. */
  lemma {:induction false} SnapshotsCarryPassLumi(c: Config, csv: CsvSource, start: nat, n: nat)
    requires PathsCover(c)
    ensures forall e :: e in Run(c, csv, start, n) && e.Snapshot? ==> e.lumi == c.lumiAt(e.counter)
  {
    if n > 0 {
      SnapshotsCarryPassLumi(c, csv, start, n - 1);
      PassSnapshotLumi(c, csv, start + n - 1);
    }
  }

  lemma {:induction false} StreamWritesIff(c: Config, csv: CsvSource, counter: nat, k: nat,
                                           path: string, content: string)
    requires k <= |c.fastPathList|
    ensures Csv(counter, path, content) in StreamWrites(c, csv, counter, k)
        <==> |content| > 0 &&
             exists i :: 0 <= i < k && path == c.fastPathList[i] && content == csv(counter, Stream(i))
  {
    if k > 0 {
      StreamWritesIff(c, csv, counter, k - 1, path, content);
      var s := csv(counter, Stream(k - 1));
      if Csv(counter, path, content) in StreamWrites(c, csv, counter, k)
         && Csv(counter, path, content) !in StreamWrites(c, csv, counter, k - 1)
      {
        assert path == c.fastPathList[k - 1] && content == s;
      }
    }
  }

  lemma CsvWritesIff(c: Config, csv: CsvSource, j: nat, counter: nat, path: string, content: string)
    requires PathsCover(c)
    ensures Csv(counter, path, content) in Pass(c, csv, j) <==> Emitted(c, csv, j, 1, counter, path, content)
  {
    CsvWritesShape(c, csv, j);
    if CsvDue(c, j) && c.perStream {
      StreamWritesIff(c, csv, j, c.nStreams, path, content);
      forall i | 0 <= i < c.nStreams
        ensures Csv(j, c.fastPathList[i], csv(j, Stream(i))) in StreamWrites(c, csv, j, c.nStreams)
          || |csv(j, Stream(i))| == 0
      {
        StreamWritesIff(c, csv, j, c.nStreams, c.fastPathList[i], csv(j, Stream(i)));
      }
    }
  }

  /** A CSV write appears in a run exactly when it is due in one of the run's
      passes, carries a non-empty string, and goes where the mode says: to
      fastPathList_[i] with stream i's string in per-stream mode, to fastPath_
      with the merged string otherwise. */
  lemma {:induction false} CsvWrittenIff(c: Config, csv: CsvSource, start: nat, n: nat,
                                         counter: nat, path: string, content: string)
    requires PathsCover(c)
    ensures Csv(counter, path, content) in Run(c, csv, start, n)
        <==> Emitted(c, csv, start, n, counter, path, content)
  {
    if n > 0 {
      CsvWrittenIff(c, csv, start, n - 1, counter, path, content);
      CsvWritesIff(c, csv, start + n - 1, counter, path, content);
      assert Run(c, csv, start, n) == Run(c, csv, start, n - 1) + Pass(c, csv, start + n - 1);
    }
  }

  /** With fastMonIntervals_ == 0 the loop writes no CSV at all, and it never
      writes an empty CSV string. */
  lemma CsvOnlyWhenDue(c: Config, csv: CsvSource, start: nat, n: nat)
    requires PathsCover(c)
    ensures forall e :: e in Run(c, csv, start, n) && e.Csv? ==>
      start <= e.counter < start + n && CsvDue(c, e.counter) && |e.content| > 0
    ensures c.intervals == 0 ==> forall e :: e in Run(c, csv, start, n) ==> e.Snapshot?
  {
    forall e | e in Run(c, csv, start, n) && e.Csv?
      ensures start <= e.counter < start + n && CsvDue(c, e.counter) && |e.content| > 0
    {
      CsvWrittenIff(c, csv, start, n, e.counter, e.path, e.content);
    }
  }

  /** Running m passes and then n more produces the same log as running
      m + n passes at once. */
  lemma {:induction false} RunComposes(c: Config, csv: CsvSource, start: nat, m: nat, n: nat)
    requires PathsCover(c)
    ensures Run(c, csv, start, m + n) == Run(c, csv, start, m) + Run(c, csv, start + m, n)
    decreases n
  {
    if n > 0 {
      RunComposes(c, csv, start, m, n - 1);
      assert start + (m + n) - 1 == (start + m) + n - 1;
    }
  }
}
