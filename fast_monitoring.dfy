/**
 * The stateful parts of FastMonitoringService: the Encoding struct, whose
 * members update its table in place, and the service fields read by
 * shouldWriteFiles and by the monitoring loop dowork.
 */
module FastMonitoring {
  import opened Wrappers
  import EncodingModel
  import CadenceModel

  /** FastMonitoringService::Encoding. Handles are any type `A` with
      equality; `dummiesForReserved` holds the addresses of the placeholder
      descriptors allocated by the constructor, one per reserved slot. */
  class Encoding<A(==)> {
    var quickReference: map<A, nat>
    var decoder: seq<A>
    var reserved: nat
    var current: nat
    var currentReserved: nat
    var dummiesForReserved: seq<A>

    /** The placeholder descriptors are `reserved` distinct objects. */
    ghost predicate Valid()
      reads this
    {
      |dummiesForReserved| == reserved && EncodingModel.Distinct(dummiesForReserved)
    }

    function Model(): EncodingModel.Table<A>
      reads this
    {
      EncodingModel.Table(quickReference, decoder, reserved, current, currentReserved, dummiesForReserved)
    }

    constructor (res: nat, dummies: seq<A>)
      requires |dummies| == res && EncodingModel.Distinct(dummies)
      ensures Valid()
      ensures reserved == res && current == res && currentReserved == 0
      ensures quickReference == map[] && decoder == []
      ensures Model() == EncodingModel.Fresh(res, dummies)
    {
      reserved := res;
      current := res;
      currentReserved := 0;
      quickReference := map[];
      decoder := [];
      dummiesForReserved := dummies;
    }

    /** The code of `a`; a handle never registered encodes to 0. */
    function Encode(a: A): (r: nat)
      reads this
      ensures a !in quickReference ==> r == 0
      ensures a in quickReference ==> r == quickReference[a]
    {
      EncodingModel.Encode(Model(), a)
    }

    /** The handle stored under `index`; for a registered handle's code that
        is the handle itself while the table round-trips. */
    function Decode(index: nat): (r: A)
      reads this
      requires index < |decoder|
      ensures r == decoder[index]
      ensures EncodingModel.RoundTrips(Model()) ==>
        forall a :: a in quickReference && quickReference[a] == index ==> r == a
    {
      EncodingModel.Decode(Model(), index)
    }

    /** The number of decoder_ entries, above every code while the table
        round-trips. */
    function VecSize(): (r: nat)
      reads this
      ensures r == |decoder|
      ensures EncodingModel.RoundTrips(Model()) ==> forall a :: a in quickReference ==> Encode(a) < r
    {
      EncodingModel.VecSize(Model())
    }

    /** Registers `a` under code `i`. The slot written is decoder_'s end when
        it is no longer than `i`, and otherwise slot currentReserved_, which
        must then exist. Proved equal to EncodingModel.FillReserved. */
    method FillReserved(a: A, i: nat)
      requires Valid()
      requires |decoder| <= i || currentReserved < |decoder|
      modifies this`quickReference, this`decoder
      ensures Valid()
      ensures Model() == EncodingModel.FillReserved(old(Model()), a, i)
      ensures Encode(a) == i
      ensures forall b :: b != a ==> Encode(b) == EncodingModel.Encode(old(Model()), b)
      ensures |old(decoder)| <= i ==> decoder == old(decoder) + [a]
      ensures |old(decoder)| > i ==> |decoder| == |old(decoder)| && decoder[currentReserved] == a
    {
      quickReference := quickReference[a := i];
      if |decoder| <= i {
        decoder := decoder + [a];
      } else {
        decoder := decoder[currentReserved := a];
      }
    }

    /** Registers `a` under the next reserved code. Proved equal to
        EncodingModel.UpdateReserved. */
    method UpdateReserved(a: A)
      requires Valid()
      modifies this`quickReference, this`decoder, this`currentReserved
      ensures Valid()
      ensures Model() == EncodingModel.UpdateReserved(old(Model()), a)
      ensures Encode(a) == old(currentReserved)
      ensures currentReserved == old(currentReserved) + 1
      ensures |old(decoder)| == old(currentReserved) ==> decoder == old(decoder) + [a]
      ensures old(currentReserved) < |old(decoder)| ==> decoder == old(decoder)[old(currentReserved) := a]
    {
      FillReserved(a, currentReserved);
      currentReserved := currentReserved + 1;
    }

    /** Fills every reserved slot from currentReserved_ up with its dummy.
        Proved equal to EncodingModel.CompleteReservedWithDummies. */
    method CompleteReservedWithDummies()
      requires Valid()
      modifies this`quickReference, this`decoder
      ensures Valid()
      ensures Model() == EncodingModel.CompleteReservedWithDummies(old(Model()))
      ensures currentReserved == old(currentReserved)
      ensures |old(decoder)| == currentReserved <= reserved ==>
        && VecSize() == reserved
        && decoder[..currentReserved] == old(decoder)
        && forall i :: currentReserved <= i < reserved ==>
             decoder[i] == dummiesForReserved[i] && Encode(dummiesForReserved[i]) == i
    {
      ghost var t0 := Model();
      var i := currentReserved;
      while i < reserved
        invariant currentReserved <= i
        invariant Valid()
        invariant EncodingModel.CompleteFrom(Model(), i) == EncodingModel.CompleteFrom(t0, currentReserved)
        decreases reserved - i
      {
        FillReserved(dummiesForReserved[i], i);
        i := i + 1;
      }
      if |t0.decoder| == t0.currentReserved <= t0.reserved {
        EncodingModel.CompleteReservedFills(t0);
      }
    }

    /** Registers `a` under the next dynamic code, overwriting any code it
        had before. Proved equal to EncodingModel.Update. */
    method Update(a: A)
      requires Valid()
      modifies this`quickReference, this`decoder, this`current
      ensures Valid()
      ensures Model() == EncodingModel.Update(old(Model()), a)
      ensures Encode(a) == old(current)
      ensures current == old(current) + 1
      ensures decoder == old(decoder) + [a]
      ensures forall b :: b != a ==> Encode(b) == EncodingModel.Encode(old(Model()), b)
    {
      quickReference := quickReference[a := current];
      decoder := decoder + [a];
      current := current + 1;
    }
  }

  /** What shouldWriteFiles answers, and what it stores through `proc`. */
  datatype WriteDecision = WriteDecision(write: bool, proc: Option<nat>)

  /** The fields of FastMonitoringService that shouldWriteFiles and dowork
      use. The values the constructor takes come from the configuration. */
  class FastMonitoringService {
    var nStreams: nat
    var fastMonIntervals: nat
    var snapCounter: nat
    var fastPath: string
    var filePerFwkStream: bool
    var emptyLumisectionMode: bool
    var fastPathList: seq<string>

    constructor (nStreams: nat, fastMonIntervals: nat, fastPath: string, filePerFwkStream: bool,
                 fastPathList: seq<string>, emptyLumisectionMode: bool)
      ensures snapCounter == 0
      ensures this.nStreams == nStreams && this.fastMonIntervals == fastMonIntervals
      ensures this.fastPath == fastPath && this.filePerFwkStream == filePerFwkStream
      ensures this.fastPathList == fastPathList
      ensures this.emptyLumisectionMode == emptyLumisectionMode
    {
      this.nStreams := nStreams;
      this.fastMonIntervals := fastMonIntervals;
      this.snapCounter := 0;
      this.fastPath := fastPath;
      this.filePerFwkStream := filePerFwkStream;
      this.fastPathList := fastPathList;
      this.emptyLumisectionMode := emptyLumisectionMode;
    }

    /** The loop's view of the service; `lumiAt` gives lastGlobalLumi_ per
        pass. */
    function Cadence(lumiAt: nat -> nat): CadenceModel.Config
      reads this
    {
      CadenceModel.Config(fastMonIntervals, filePerFwkStream, nStreams, fastPath, fastPathList, lumiAt)
    }

    /** Whether output files are written for `lumi`. The event count and the
        abort flag of a lumisection come from queries not part of this
        model, given as functions; `proc` is the optional out-pointer. */
    function ShouldWriteFiles(lumi: nat, eventsProcessedForLumi: nat -> nat,
                              abortFlagForLumi: nat -> bool, proc: Option<nat>): (r: WriteDecision)
      reads this
      ensures abortFlagForLumi(lumi) ==> !r.write
      ensures eventsProcessedForLumi(lumi) == 0 && !emptyLumisectionMode ==> !r.write
      ensures !abortFlagForLumi(lumi) && (eventsProcessedForLumi(lumi) > 0 || emptyLumisectionMode) ==> r.write
      ensures proc.None? ==> r.proc.None?
      ensures proc.Some? ==> r.proc == Some(eventsProcessedForLumi(lumi))
    {
      var processed := eventsProcessedForLumi(lumi);
      var stored := if proc.Some? then Some(processed) else None;
      WriteDecision(!abortFlagForLumi(lumi) && (processed != 0 || emptyLumisectionMode), stored)
    }

    /** `iterations` passes of the monitoring loop, the stop request coming
        after the last one. `csv` stands for the JSON monitor's CSV strings,
        `lumiAt(j)` for the value lastGlobalLumi_ (written by the lumisection
        hooks on other threads) has when the pass with snapCounter_ == j
        reads it; `log` records the snapshots taken and the CSV files
        written. Proved equal to CadenceModel.Run. */
    method DoWork(iterations: nat, csv: CadenceModel.CsvSource, lumiAt: nat -> nat)
      returns (ghost log: seq<CadenceModel.Output>)
      requires CadenceModel.PathsCover(Cadence(lumiAt))
      modifies this`snapCounter
      ensures snapCounter == old(snapCounter) + iterations
      ensures log == CadenceModel.Run(Cadence(lumiAt), csv, old(snapCounter), iterations)
    {
      ghost var start := snapCounter;
      log := [];
      var n := 0;
      while n < iterations
        invariant n <= iterations
        invariant snapCounter == start + n
        invariant log == CadenceModel.Run(Cadence(lumiAt), csv, start, n)
      {
        ghost var pass := OnePass(csv, lumiAt);
        log := log + pass;
        snapCounter := snapCounter + 1;
        n := n + 1;
      }
    }

    /** The body of the monitoring loop, before snapCounter_ advances: the
        snapshot, then the CSV file(s) when the cadence is due. */
    method OnePass(csv: CadenceModel.CsvSource, lumiAt: nat -> nat)
      returns (ghost out: seq<CadenceModel.Output>)
      requires CadenceModel.PathsCover(Cadence(lumiAt))
      ensures out == CadenceModel.Pass(Cadence(lumiAt), csv, snapCounter)
    {
      ghost var c := Cadence(lumiAt);
      out := [CadenceModel.Snapshot(snapCounter, lumiAt(snapCounter))];
      if fastMonIntervals != 0 && snapCounter % fastMonIntervals == 0 {
        if filePerFwkStream {
          var csvv: seq<string> := [];
          var i := 0;
          while i < nStreams
            invariant i <= nStreams && |csvv| == i
            invariant forall j :: 0 <= j < i ==> csvv[j] == csv(snapCounter, CadenceModel.Stream(j))
          {
            csvv := csvv + [csv(snapCounter, CadenceModel.Stream(i))];
            i := i + 1;
          }
          i := 0;
          while i < nStreams
            invariant i <= nStreams
            invariant out == [CadenceModel.Snapshot(snapCounter, lumiAt(snapCounter))]
                             + CadenceModel.StreamWrites(c, csv, snapCounter, i)
          {
            if |csvv[i]| > 0 {
              out := out + [CadenceModel.Csv(snapCounter, fastPathList[i], csvv[i])];
            }
            i := i + 1;
          }
        } else {
          var s := csv(snapCounter, CadenceModel.Merged);
          if |s| > 0 {
            out := out + [CadenceModel.Csv(snapCounter, fastPath, s)];
          }
        }
      }
    }
  }
}
