/** The MIPTP sender: cutting the data of a job into numbered packages, and the window of those to send. */
module SendJobs {
  import opened Common

  // BYTE, uint16_t
  type Octet = b: int | 0 <= b < 256
  type UInt16 = n: int | 0 <= n < 0x1_0000
  // a 14-bit field
  type Port = n: int | 0 <= n < 0x4000

  const WINDOW_SIZE: UInt16 := 10
  const MAX_DATA_BATCH_SIZE_BYTES := 1492

  // What assigning n to a uint16_t leaves of it.
  function Cut16(n: int): UInt16 {
    n % 0x1_0000
  }

  // ---------------------------------------------------------------- the window

  // base and max after an update with nr
  function Moved(base: UInt16, max: UInt16, nr: UInt16): (UInt16, UInt16) {
    if nr > base then (nr, Cut16(max - base + nr)) else (base, max)
  }

  function MovedAll(base: UInt16, max: UInt16, acks: seq<UInt16>): (UInt16, UInt16) {
    if acks == [] then (base, max)
    else
      var w := MovedAll(base, max, acks[..|acks| - 1]);
      Moved(w.0, w.1, acks[|acks| - 1])
  }

  class SlidingWindow {
    var windowSize: UInt16
    var sequenceBase: UInt16
    var sequenceMax: UInt16

    // SlidingWindow_create
    constructor (base: UInt16, windowSize: UInt16)
      ensures this.windowSize == windowSize && sequenceBase == base && sequenceMax == Cut16(windowSize + 1)
    {
      this.windowSize, sequenceBase, sequenceMax := windowSize, base, Cut16(windowSize + 1);
    }

    method Update(sequenceNr: UInt16)
      modifies this`sequenceBase, this`sequenceMax
      ensures (sequenceBase, sequenceMax) == Moved(old(sequenceBase), old(sequenceMax), sequenceNr)
      ensures sequenceBase == if sequenceNr > old(sequenceBase) then sequenceNr else old(sequenceBase)
      ensures (sequenceMax - sequenceBase) % 0x1_0000 == (old(sequenceMax) - old(sequenceBase)) % 0x1_0000
    {
      SameDistance(sequenceBase, sequenceMax, sequenceNr);
      if sequenceNr > sequenceBase {
        sequenceMax := Cut16((sequenceMax - sequenceBase) + sequenceNr);
        sequenceBase := sequenceNr;
      }
    }
  }

  /** Whatever is acknowledged, in whatever order, the base is the largest number so far, and the window keeps
      its width, modulo the width of the numbers. */
  lemma {:induction false} WindowFollowsLargest(base: UInt16, max: UInt16, acks: seq<UInt16>)
    ensures var w := MovedAll(base, max, acks);
      && w.0 >= base && (forall a :: a in acks ==> a <= w.0) && (w.0 == base || w.0 in acks)
      && Cut16(w.1 - w.0) == Cut16(max - base)
    decreases |acks|
  {
    if acks != [] {
      var n := |acks| - 1;
      WindowFollowsLargest(base, max, acks[..n]);
      var w := MovedAll(base, max, acks[..n]);
      assert acks == acks[..n] + [acks[n]];
      SameDistance(w.0, w.1, acks[n]);
    }
  }

  lemma SameDistance(base: UInt16, max: UInt16, nr: UInt16)
    ensures Cut16(Cut16(max - base + nr) - nr) == Cut16(max - base)
  {
    var d := max - base;
    assert Cut16(d + nr) - nr == d || Cut16(d + nr) - nr == d - 0x1_0000 || Cut16(d + nr) - nr == d + 0x1_0000;
  }

  // ---------------------------------------------------------------- the packages

  datatype Package = Package(port: Port, psn: UInt16, data: seq<Octet>)

  // Where the batch with this number starts.
  function Index(nr: UInt16): UInt16 {
    Cut16(nr * MAX_DATA_BATCH_SIZE_BYTES)
  }

  function Batch(data: seq<Octet>, nr: UInt16): Option<seq<Octet>> {
    var index := Index(nr);
    if index > |data| then None
    else
      var end := index + MAX_DATA_BATCH_SIZE_BYTES;
      Some(data[index..if |data| < end then |data| else end])
  }

  // A package carries 1492 bytes of data from its index on, or what there is.
  ghost predicate HasBatch(package: Package, data: seq<Octet>) {
    var index := (package.psn * 1492) % 0x1_0000;
    && index <= |data|
    && package.data == data[index..if |data| < index + 1492 then |data| else index + 1492]
  }

  // The batches numbered i up to max, as far as there are any.
  function Batches(data: seq<Octet>, i: UInt16, max: UInt16): seq<seq<Octet>>
    decreases max - i
  {
    if i >= max then []
    else
      match Batch(data, i)
      case None => []
      case Some(batch) => [batch] + Batches(data, i + 1, max)
  }

  function Payloads(packages: seq<Package>): seq<seq<Octet>> {
    if packages == [] then [] else Payloads(packages[..|packages| - 1]) + [packages[|packages| - 1].data]
  }

  function Concat(batches: seq<seq<Octet>>): seq<Octet> {
    if batches == [] then [] else batches[0] + Concat(batches[1..])
  }

  class SendJob {
    const port: Port
    const data: array<Octet>
    const dataSize: UInt16
    const window: SlidingWindow

    ghost predicate Valid() {
      data.Length == dataSize
    }

    constructor (port: UInt16, data: seq<Octet>)
      requires |data| < 0x1_0000
      ensures Valid() && this.port == port % 0x4000 && this.data[..] == data && fresh(this.data) && fresh(window)
      ensures window.sequenceBase == 0 && window.sequenceMax == WINDOW_SIZE + 1
    {
      this.port, dataSize := port % 0x4000, |data|;
      this.data := new Octet[|data|](i requires 0 <= i < |data| => data[i]);
      window := new SlidingWindow(0, WINDOW_SIZE);
    }

    method NextPackage(sequenceNr: UInt16) returns (r: Option<Package>)
      requires Valid()
      ensures r.None? <==> Batch(data[..], sequenceNr).None?
      ensures r.Some? ==> r.value == Package(port, sequenceNr, Batch(data[..], sequenceNr).value)
      ensures var index := (sequenceNr * 1492) % 0x1_0000;
        && (r.None? <==> index > dataSize)
        && (r.Some? ==>
              && HasBatch(r.value, data[..])
              && r.value.data == data[index..if dataSize < index + 1492 then dataSize else index + 1492])
    {
      var period := MAX_DATA_BATCH_SIZE_BYTES;
      var index := Cut16(sequenceNr * period);
      if index > dataSize {
        return None;
      }
      var limit := Cut16(if dataSize < index + period then dataSize else index + period);
      var batch := data[index..limit];
      assert batch == data[..][index..limit];
      return Some(Package(port, sequenceNr, batch));
    }

    /** The queue of packages to send, oldest first, numbered one after the other from the base: up to the end of the
        window, or the first number whose index is past the data. */
    method NextPackages() returns (packages: seq<Package>)
      requires Valid()
      ensures Payloads(packages) == Batches(data[..], window.sequenceBase, window.sequenceMax)
      ensures forall k :: 0 <= k < |packages| ==>
        packages[k].psn == window.sequenceBase + k < window.sequenceMax && packages[k].port == port
      ensures forall k :: 0 <= k < |packages| ==> HasBatch(packages[k], data[..])
      ensures var next := window.sequenceBase + |packages|;
        next >= window.sequenceMax || (next * 1492) % 0x1_0000 > dataSize
    {
      hide HasBatch, Batch, Index, Cut16;
      ghost var base, all := window.sequenceBase, Batches(data[..], window.sequenceBase, window.sequenceMax);
      packages := [];
      var i, max := window.sequenceBase, window.sequenceMax;
      while i < max
        invariant i == base + |packages| && (i <= max || i == base)
        invariant Payloads(packages) + Batches(data[..], i, max) == all
        invariant forall k :: 0 <= k < |packages| ==> packages[k].psn == base + k < max && packages[k].port == port
        invariant forall k :: 0 <= k < |packages| ==> HasBatch(packages[k], data[..])
      {
        var package := NextPackage(i);
        if package.None? {
          return;
        }
        OneMorePayload(packages, package.value, Batches(data[..], i + 1, max));
        packages := packages + [package.value];
        i := i + 1;
      }
    }

    method ReceivePackage(psn: UInt16)
      modifies window`sequenceBase, window`sequenceMax
      ensures (window.sequenceBase, window.sequenceMax) == Moved(old(window.sequenceBase), old(window.sequenceMax), psn)
      ensures window.sequenceBase == if psn > old(window.sequenceBase) then psn else old(window.sequenceBase)
    {
      window.Update(psn);
    }

    // The comparison is one of unsigned ints, so that with no packages at all it is made with UINT_MAX.
    method IsComplete() returns (r: bool)
      requires Valid()
      ensures r <==> dataSize > 0 && (window.sequenceBase + 1) * 1492 >= dataSize
    {
      var num := dataSize / MAX_DATA_BATCH_SIZE_BYTES;
      if dataSize % MAX_DATA_BATCH_SIZE_BYTES != 0 {
        num := num + 1;
      }
      r := window.sequenceBase >= (num - 1) % 0x1_0000_0000;
    }
  }

  lemma OneMorePayload(packages: seq<Package>, package: Package, rest: seq<seq<Octet>>)
    ensures Payloads(packages) + ([package.data] + rest) == Payloads(packages + [package]) + rest
  {
    assert (packages + [package])[..|packages|] == packages;
  }

  // ---------------------------------------------------------------- what is sent

  // data_size / 1492, rounded up
  function PackagesNeeded(n: nat): (k: nat)
    ensures (k - 1) * MAX_DATA_BATCH_SIZE_BYTES < n <= k * MAX_DATA_BATCH_SIZE_BYTES || (n == 0 && k == 0)
  {
    (n + MAX_DATA_BATCH_SIZE_BYTES - 1) / MAX_DATA_BATCH_SIZE_BYTES
  }

  // Where batch i would start if indices had no width, but at most at the end.
  function Start(n: nat, i: nat): (s: nat)
    ensures s <= n
  {
    if n < i * MAX_DATA_BATCH_SIZE_BYTES then n else i * MAX_DATA_BATCH_SIZE_BYTES
  }

  lemma StartGrows(n: nat, i: nat, j: nat)
    requires i <= j
    ensures Start(n, i) <= Start(n, j)
  {
  }

  // Up to the last index that fits, a batch is what is between two starts, and there is none at the end only.
  lemma OneBatch(data: seq<Octet>, i: UInt16)
    requires i <= 43
    ensures Start(|data|, i) <= Start(|data|, i + 1)
    ensures match Batch(data, i)
            case None => Start(|data|, i) == |data|
            case Some(batch) => batch == data[Start(|data|, i)..Start(|data|, i + 1)]
    ensures i == 43 && Batch(data, i).Some? ==> 43 * MAX_DATA_BATCH_SIZE_BYTES <= |data|
  {
  }

  lemma BatchesUnroll(data: seq<Octet>, i: UInt16, max: UInt16)
    requires i <= max
    ensures Concat(Batches(data, i, max)) ==
      if i == max || Batch(data, i).None? then []
      else Batch(data, i).value + Concat(Batches(data, i + 1, max))
  {
    if i < max && Batch(data, i).Some? {
      var batch, rest := Batch(data, i).value, Batches(data, i + 1, max);
      assert ([batch] + rest)[1..] == rest;
    }
  }

  lemma Adjoin(data: seq<Octet>, s: nat, m: nat, e: nat)
    requires s <= m <= e <= |data|
    ensures data[s..m] + data[m..e] == data[s..e]
  {
  }

  lemma {:induction false} BatchesAreContiguous(data: seq<Octet>, i: UInt16, max: UInt16)
    requires i <= max && (i <= 43 || i == max)
    requires |data| < 43 * MAX_DATA_BATCH_SIZE_BYTES || max <= 44
    ensures Start(|data|, i) <= Start(|data|, max)
    ensures Concat(Batches(data, i, max)) == data[Start(|data|, i)..Start(|data|, max)]
    decreases max - i
  {
    hide Start, Batch, Batches, Concat;
    var n := |data|;
    StartGrows(n, i, max);
    BatchesUnroll(data, i, max);
    if i < max {
      OneBatch(data, i);
      if Batch(data, i).Some? {
        BatchesAreContiguous(data, i + 1, max);
        Adjoin(data, Start(n, i), Start(n, i + 1), Start(n, max));
      }
    }
  }

  // From 44 on the index wraps around, and what was sent before comes again.
  lemma {:induction false} BatchesRunOver(data: seq<Octet>, i: UInt16, max: UInt16)
    requires i <= 44 < max && 43 * MAX_DATA_BATCH_SIZE_BYTES <= |data| < 0x1_0000
    ensures |Concat(Batches(data, i, max))| > |data| - Start(|data|, i)
    decreases max - i
  {
    BatchesUnroll(data, i, max);
    if i == 44 {
      assert Index(i) == 112 && |Batch(data, i).value| == MAX_DATA_BATCH_SIZE_BYTES;
    } else {
      BatchesRunOver(data, i + 1, max);
    }
  }

  /** The payloads make up the stretch of the data that the window covers, each byte once and in order, exactly
      when the data are shorter than 43 batches or the window does not reach beyond the last index that fits. */
  lemma SegmentsIff(data: seq<Octet>, base: UInt16, max: UInt16)
    requires |data| < 0x1_0000 && base <= max && base <= PackagesNeeded(|data|)
    ensures Start(|data|, base) <= Start(|data|, max)
    ensures Concat(Batches(data, base, max)) == data[Start(|data|, base)..Start(|data|, max)]
      <==> |data| < 43 * MAX_DATA_BATCH_SIZE_BYTES || max <= 44
  {
    hide Batches, Concat;
    var n := |data|;
    if n < 43 * MAX_DATA_BATCH_SIZE_BYTES || max <= 44 {
      assert base <= 44;
      BatchesAreContiguous(data, base, max);
    } else {
      assert base <= 44;
      BatchesRunOver(data, base, max);
    }
  }

  /** For a job over its whole life, whatever acknowledgements of packages it does have arrive in whatever
      order: what it queues is right for as long as the data are short or at most 33 packages acknowledged. */
  lemma JobSendsWindow(data: seq<Octet>, acks: seq<UInt16>)
    requires |data| < 0x1_0000 && forall a :: a in acks ==> a <= PackagesNeeded(|data|)
    ensures var w := MovedAll(0, WINDOW_SIZE + 1, acks);
      && w.1 == w.0 + WINDOW_SIZE + 1 && Start(|data|, w.0) <= Start(|data|, w.1)
      && (Concat(Batches(data, w.0, w.1)) == data[Start(|data|, w.0)..Start(|data|, w.1)]
          <==> |data| < 43 * MAX_DATA_BATCH_SIZE_BYTES || w.0 <= 33)
  {
    hide MovedAll, Batches, Concat, Start;
    var w := MovedAll(0, WINDOW_SIZE + 1, acks);
    WindowFollowsLargest(0, WINDOW_SIZE + 1, acks);
    assert w.0 <= 44;
    SegmentsIff(data, w.0, w.1);
  }
}
