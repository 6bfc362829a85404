/** disk_io_counters: the per-disk mode and the aggregate over the storage devices. */
module DiskIo {
  import opened Text
  import opened Words64

  const SECTOR_SIZE: nat := 512

  /** struct sdiskio_s without the unused busy time. */
  datatype DiskIo = DiskIo(
    readCount: u64, writeCount: u64, readBytes: u64, writeBytes: u64,
    readTime: u64, writeTime: u64, readMerged: u64, writeMerged: u64)

  const ZERO := DiskIo(0, 0, 0, 0, 0, 0, 0, 0)

  /** A line of /proc/diskstats: the device and the first eight statistics, or one on which
      fscanf does not fill its twelve arguments. */
  datatype DiskLine =
    | Malformed
    | Stats(dev: string, readsCompleted: u64, readsMerged: u64, sectorsRead: u64, timeReading: u64,
            writesCompleted: u64, writesMerged: u64, sectorsWritten: u64, timeWriting: u64)

  /** The structure whose counters are c modulo 2^64. */
  function DiskIoOf(c: Counts): DiskIo {
    DiskIo(c[0] % TWO64, c[1] % TWO64, c[2] % TWO64, c[3] % TWO64,
           c[4] % TWO64, c[5] % TWO64, c[6] % TWO64, c[7] % TWO64)
  }

  function CountsOf(s: DiskIo): Counts {
    [s.readCount, s.writeCount, s.readBytes, s.writeBytes, s.readTime, s.writeTime, s.readMerged, s.writeMerged]
  }

  /** What one line reports, sectors scaled to bytes, without any bound. */
  function RecordOf(s: DiskLine): Counts
    requires s.Stats?
  {
    [s.readsCompleted, s.writesCompleted, s.sectorsRead * SECTOR_SIZE, s.sectorsWritten * SECTOR_SIZE,
     s.timeReading, s.timeWriting, s.readsMerged, s.writesMerged]
  }

  /** A line counts per disk always, in the aggregate if its device is a storage device. */
  predicate Qualifies(s: DiskLine, perDisk: bool, storage: set<string>)
    requires s.Stats?
  {
    perDisk || s.dev in storage
  }

  /** The records of the lines that count, up to the first malformed one. */
  function Records(lines: seq<DiskLine>, perDisk: bool, storage: set<string>): seq<Counts> {
    if lines == [] || lines[0].Malformed? then []
    else
      (if Qualifies(lines[0], perDisk, storage) then [RecordOf(lines[0])] else [])
      + Records(lines[1..], perDisk, storage)
  }

  /** The eight in-place additions. */
  function Added(s: DiskIo, c: Counts): DiskIo {
    DiskIo((s.readCount + c[0]) % TWO64, (s.writeCount + c[1]) % TWO64, (s.readBytes + c[2]) % TWO64,
           (s.writeBytes + c[3]) % TWO64, (s.readTime + c[4]) % TWO64, (s.writeTime + c[5]) % TWO64,
           (s.readMerged + c[6]) % TWO64, (s.writeMerged + c[7]) % TWO64)
  }

  lemma PlusIsAdded(a: Counts, b: Counts)
    ensures DiskIoOf(Plus(a, b)) == Added(DiskIoOf(a), b)
  {
    forall i | 0 <= i < 8
      ensures Plus(a, b)[i] % TWO64 == (a[i] % TWO64 + b[i]) % TWO64
    {
      ModPlus(a[i], b[i]);
    }
  }

  lemma AddedToZero(c: Counts)
    ensures Added(ZERO, c) == DiskIoOf(c)
  {
  }

  lemma TotalStep(records: seq<Counts>, c: Counts)
    ensures DiskIoOf(Sum(records + [c])) == Added(DiskIoOf(Sum(records)), c)
  {
    hide DiskIoOf, Added, Plus;
    assert (records + [c])[..|records|] == records;
    PlusIsAdded(Sum(records), c);
  }

  // ---------------------------------------------------------------- the function

  /** The in-place additions at the end of the loop body. */
  method Accumulate(org: array<DiskIo>, at: nat, s: DiskLine)
    requires at < org.Length && s.Stats?
    modifies org
    ensures org[..] == old(org[..])[at := Added(old(org[at]), RecordOf(s))]
  {
    ModPlus(org[at].readBytes, s.sectorsRead * SECTOR_SIZE);
    ModPlus(org[at].writeBytes, s.sectorsWritten * SECTOR_SIZE);
    org[at] := org[at].(readCount := (org[at].readCount + s.readsCompleted) % TWO64);
    org[at] := org[at].(writeCount := (org[at].writeCount + s.writesCompleted) % TWO64);
    org[at] := org[at].(readBytes := (org[at].readBytes + s.sectorsRead * SECTOR_SIZE % TWO64) % TWO64);
    org[at] := org[at].(writeBytes := (org[at].writeBytes + s.sectorsWritten * SECTOR_SIZE % TWO64) % TWO64);
    org[at] := org[at].(readTime := (org[at].readTime + s.timeReading) % TWO64);
    org[at] := org[at].(writeTime := (org[at].writeTime + s.timeWriting) % TWO64);
    org[at] := org[at].(readMerged := (org[at].readMerged + s.readsMerged) % TWO64);
    org[at] := org[at].(writeMerged := (org[at].writeMerged + s.writesMerged) % TWO64);
  }

  /** What the array holds after some records. */
  ghost predicate Counted(org: seq<DiskIo>, perDisk: bool, records: seq<Counts>) {
    if perDisk then |records| <= |org| && forall k | 0 <= k < |records| :: org[k] == DiskIoOf(records[k])
    else |org| > 0 && org[0] == DiskIoOf(Sum(records))
  }

  /** The value returned: the number of records, or in the aggregate 1 if there is any. */
  function Used(perDisk: bool, records: seq<Counts>): nat {
    if perDisk then |records| else if records == [] then 0 else 1
  }

  /** What the array and the result are, field by field: per disk a record for each line, otherwise
      one for all, with their sums. */
  lemma CountedExact(org: seq<DiskIo>, records: seq<Counts>)
    ensures TWO64 == 0x1_0000_0000_0000_0000
    ensures Used(true, records) == |records|
    ensures Used(false, records) == if records == [] then 0 else 1
    ensures Counted(org, true, records) <==>
            && |records| <= |org|
            && forall k | 0 <= k < |records| ::
                 && var c := records[k];
                 && org[k].readCount == c[0] % TWO64 && org[k].writeCount == c[1] % TWO64
                 && org[k].readBytes == c[2] % TWO64 && org[k].writeBytes == c[3] % TWO64
                 && org[k].readTime == c[4] % TWO64 && org[k].writeTime == c[5] % TWO64
                 && org[k].readMerged == c[6] % TWO64 && org[k].writeMerged == c[7] % TWO64
    ensures Counted(org, false, records) <==>
            && |org| > 0
            && var c := Sum(records);
            && org[0].readCount == c[0] % TWO64 && org[0].writeCount == c[1] % TWO64
            && org[0].readBytes == c[2] % TWO64 && org[0].writeBytes == c[3] % TWO64
            && org[0].readTime == c[4] % TWO64 && org[0].writeTime == c[5] % TWO64
            && org[0].readMerged == c[6] % TWO64 && org[0].writeMerged == c[7] % TWO64
  {
    hide Sum;
  }

  lemma {:induction false} RecordsConcat(a: seq<DiskLine>, b: seq<DiskLine>, perDisk: bool, storage: set<string>)
    requires forall k | 0 <= k < |a| :: a[k].Stats?
    ensures Records(a + b, perDisk, storage) == Records(a, perDisk, storage) + Records(b, perDisk, storage)
  {
    hide RecordOf;
    if a == [] {
      assert a + b == b;
    } else {
      assert (a + b)[1..] == a[1..] + b;
      RecordsConcat(a[1..], b, perDisk, storage);
    }
  }

  /** Which lines are counted, and as what: those in front of the first malformed one, per disk all
      of them and otherwise the storage devices, with 512 bytes to a sector. */
  lemma LineCounts(a: seq<DiskLine>, s: DiskLine, b: seq<DiskLine>, perDisk: bool, storage: set<string>)
    requires forall k | 0 <= k < |a| :: a[k].Stats?
    ensures s.Malformed? ==> Records(a + [s] + b, perDisk, storage) == Records(a, perDisk, storage)
    ensures s.Stats? && (perDisk || s.dev in storage) ==>
              Records(a + [s] + b, perDisk, storage) ==
              Records(a, perDisk, storage)
              + [[s.readsCompleted, s.writesCompleted, 512 * s.sectorsRead, 512 * s.sectorsWritten,
                  s.timeReading, s.timeWriting, s.readsMerged, s.writesMerged]]
              + Records(b, perDisk, storage)
    ensures s.Stats? && !(perDisk || s.dev in storage) ==>
              Records(a + [s] + b, perDisk, storage) == Records(a, perDisk, storage) + Records(b, perDisk, storage)
  {
    hide Records;
    RecordsConcat(a, [s] + b, perDisk, storage);
    OneCounts(s, b, perDisk, storage);
    assert a + [s] + b == a + ([s] + b);
    var before, behind := Records(a, perDisk, storage), Records(b, perDisk, storage);
    assert before + [] == before && [] + behind == behind;
    assert s.Stats? ==> before + ([RecordOf(s)] + behind) == before + [RecordOf(s)] + behind;
  }

  lemma OneCounts(s: DiskLine, b: seq<DiskLine>, perDisk: bool, storage: set<string>)
    ensures Records([s] + b, perDisk, storage) ==
            if s.Malformed? then []
            else (if perDisk || s.dev in storage then [RecordOf(s)] else []) + Records(b, perDisk, storage)
  {
    hide RecordOf;
    assert ([s] + b)[1..] == b;
  }

  /** The loop body on a line that counts. */
  method TakeLine(org: array<DiskIo>, perDisk: bool, n: nat, s: DiskLine, ghost before: seq<Counts>)
    returns (m: nat)
    requires s.Stats? && org.Length > 0
    requires Counted(org[..], perDisk, before) && n == Used(perDisk, before)
    requires Used(perDisk, before + [RecordOf(s)]) <= org.Length
    modifies org
    ensures Counted(org[..], perDisk, before + [RecordOf(s)]) && m == Used(perDisk, before + [RecordOf(s)])
    ensures n <= m && forall k | m <= k < org.Length :: org[k] == old(org[k])
  {
    hide RecordOf, Added, DiskIoOf, Sum;
    var ioCounter := 0;
    if perDisk {
      ioCounter := n;
      m := n + 1;
      org[ioCounter] := ZERO;
      AddedToZero(RecordOf(s));
    } else {
      m := 1;
      TotalStep(before, RecordOf(s));
    }
    Accumulate(org, ioCounter, s);
  }

  /** disk_io_counters. None for a file that does not open; readError for a stream left in error.
      Per disk, the array receives every record modulo 2^64; otherwise its first element receives
      the sum over the storage devices modulo 2^64. */
  method DiskIoCounters(org: array<DiskIo>, perDisk: bool, file: Option<seq<DiskLine>>, storage: set<string>,
                        readError: bool) returns (r: int)
    requires org.Length > 0
    requires file.Some? ==> Used(perDisk, Records(file.value, perDisk, storage)) <= org.Length
    modifies org
    ensures file == None ==> r == -1 && org[..] == old(org[..])
    ensures file.Some? ==>
              var records := Records(file.value, perDisk, storage);
              && r == (if readError then -2 else Used(perDisk, records))
              && Counted(org[..], perDisk, records)
              && forall k | 0 < k < org.Length && Used(perDisk, records) <= k :: org[k] == old(org[k])
  {
    if file.None? {
      return -1;
    }
    org[0] := ZERO;
    NothingCounted(org[..], perDisk);
    r := ReadLines(org, perDisk, file.value, storage);
    if readError {
      r := -2;
    }
  }

  /** The fscanf loop. */
  method ReadLines(org: array<DiskIo>, perDisk: bool, lines: seq<DiskLine>, storage: set<string>) returns (n: nat)
    requires org.Length > 0 && Counted(org[..], perDisk, [])
    requires Used(perDisk, Records(lines, perDisk, storage)) <= org.Length
    modifies org
    ensures var records := Records(lines, perDisk, storage);
            && n == Used(perDisk, records)
            && Counted(org[..], perDisk, records)
            && forall k | 0 < k < org.Length && n <= k :: org[k] == old(org[k])
  {
    hide Records, Counted, RecordOf, Used, Qualifies;
    ghost var done, all := [], Records(lines, perDisk, storage);
    NothingUsed(perDisk);
    n := 0;
    var i := 0;
    assert lines[0..] == lines;
    while i < |lines| && lines[i].Stats?
      invariant i <= |lines|
      invariant n == Used(perDisk, done) && Counted(org[..], perDisk, done)
      invariant done + Records(lines[i..], perDisk, storage) == all
      invariant forall k | 0 < k < org.Length && n <= k :: org[k] == old(org[k])
      decreases |lines| - i
    {
      RecordsStep(lines, i, perDisk, storage);
      if Qualifies(lines[i], perDisk, storage) {
        ghost var r := RecordOf(lines[i]);
        ghost var rest := Records(lines[i + 1..], perDisk, storage);
        UsedGrows(perDisk, done, r, rest);
        n := TakeLine(org, perDisk, n, lines[i], done);
        done := done + [r];
      }
      i := i + 1;
    }
    RecordsEnd(lines, i, perDisk, storage);
    assert done + [] == done;
  }

  lemma NothingUsed(perDisk: bool)
    ensures Used(perDisk, []) == 0
  {
  }

  lemma UsedGrows(perDisk: bool, done: seq<Counts>, r: Counts, rest: seq<Counts>)
    ensures done + ([r] + rest) == done + [r] + rest
    ensures Used(perDisk, done + [r]) <= Used(perDisk, done + ([r] + rest))
  {
  }

  lemma RecordsStep(lines: seq<DiskLine>, i: nat, perDisk: bool, storage: set<string>)
    requires i < |lines| && lines[i].Stats?
    ensures Records(lines[i..], perDisk, storage) ==
            var rest := Records(lines[i + 1..], perDisk, storage);
            if Qualifies(lines[i], perDisk, storage) then [RecordOf(lines[i])] + rest else rest
  {
    hide RecordOf;
    assert lines[i..][1..] == lines[i + 1..];
    var rest := Records(lines[i + 1..], perDisk, storage);
    assert [] + rest == rest;
  }

  lemma RecordsEnd(lines: seq<DiskLine>, i: nat, perDisk: bool, storage: set<string>)
    requires i <= |lines| && (i < |lines| ==> lines[i].Malformed?)
    ensures Records(lines[i..], perDisk, storage) == []
  {
  }

  lemma NothingCounted(org: seq<DiskIo>, perDisk: bool)
    requires |org| > 0 && org[0] == ZERO
    ensures Counted(org, perDisk, [])
  {
  }

  // ---------------------------------------------------------------- the two modes compared

  /** The devices of the lines read, in file order: element k of the per-disk mode is theirs. */
  function Devices(lines: seq<DiskLine>): seq<string> {
    if lines == [] || lines[0].Malformed? then [] else [lines[0].dev] + Devices(lines[1..])
  }

  /** The stored counters of the storage devices. */
  function OnStorage(stored: seq<DiskIo>, devices: seq<string>, storage: set<string>): seq<Counts>
    requires |devices| <= |stored|
    decreases |devices|
  {
    if devices == [] then []
    else
      (if devices[0] in storage then [CountsOf(stored[0])] else [])
      + OnStorage(stored[1..], devices[1..], storage)
  }

  lemma CountsOfWrapped(c: Counts)
    ensures CountsOf(DiskIoOf(c)) == Wrapped(c)
  {
  }

  lemma SameWrapped(a: Counts, b: Counts)
    requires Wrapped(a) == Wrapped(b)
    ensures DiskIoOf(a) == DiskIoOf(b)
  {
    assert forall i | 0 <= i < 8 :: a[i] % TWO64 == Wrapped(a)[i] == Wrapped(b)[i] == b[i] % TWO64;
  }

  lemma {:induction false} OnStorageIsFiltered(lines: seq<DiskLine>, storage: set<string>, stored: seq<DiskIo>)
    requires Counted(stored, true, Records(lines, true, storage))
    ensures |Devices(lines)| == |Records(lines, true, storage)| <= |stored|
    ensures OnStorage(stored, Devices(lines), storage) == WrapAll(Records(lines, false, storage))
  {
    hide RecordOf, DiskIoOf, CountsOf, Wrapped;
    if lines != [] && lines[0].Stats? {
      var all, rest := Records(lines, true, storage), Records(lines[1..], true, storage);
      assert all[1..] == rest;
      assert forall k | 0 <= k < |rest| :: stored[1..][k] == stored[k + 1] && all[k + 1] == rest[k];
      OnStorageIsFiltered(lines[1..], storage, stored[1..]);
      CountsOfWrapped(RecordOf(lines[0]));
      assert Devices(lines)[1..] == Devices(lines[1..]);
      WrapAllStep(lines, storage);
    }
  }

  lemma WrapAllStep(lines: seq<DiskLine>, storage: set<string>)
    requires lines != [] && lines[0].Stats?
    ensures WrapAll(Records(lines, false, storage)) ==
            (if lines[0].dev in storage then [Wrapped(RecordOf(lines[0]))] else [])
            + WrapAll(Records(lines[1..], false, storage))
  {
    hide RecordOf, Wrapped;
  }

  /** The aggregate is the sum, modulo 2^64, of what the per-disk mode stores for the storage
      devices of the same file. */
  lemma AggregateIsSum(lines: seq<DiskLine>, storage: set<string>, perDisk: seq<DiskIo>, total: seq<DiskIo>)
    requires Counted(perDisk, true, Records(lines, true, storage))
    requires Counted(total, false, Records(lines, false, storage))
    ensures |Devices(lines)| <= |perDisk|
    ensures total[0] == DiskIoOf(Sum(OnStorage(perDisk, Devices(lines), storage)))
  {
    hide Records, Devices, OnStorage, DiskIoOf;
    OnStorageIsFiltered(lines, storage, perDisk);
    SumOfWrapped(Records(lines, false, storage));
    SameWrapped(Sum(OnStorage(perDisk, Devices(lines), storage)), Sum(Records(lines, false, storage)));
  }

  /** Its count is 1 exactly if the file holds a storage device. */
  lemma {:induction false} AggregateCount(lines: seq<DiskLine>, storage: set<string>)
    ensures Used(false, Records(lines, false, storage)) == 1 <==> exists d | d in Devices(lines) :: d in storage
  {
    hide RecordOf;
    if lines != [] && lines[0].Stats? {
      AggregateCount(lines[1..], storage);
      assert forall d :: d in Devices(lines) <==> d == lines[0].dev || d in Devices(lines[1..]);
      assert lines[0].dev in Devices(lines);
    }
  }
}
