/** net_io_counters: column selection, and the per-interface and aggregate modes. */
module NetIo {
  import opened Text
  import opened Words64

  /** struct snetio_s. */
  datatype NetIo = NetIo(
    iface: string, bytesSent: u64, bytesRecv: u64, packetsSent: u64, packetsRecv: u64,
    errin: u64, errout: u64, dropin: u64, dropout: u64)

  const ZERO := NetIo("", 0, 0, 0, 0, 0, 0, 0, 0)

  /** The structure whose counters are c modulo 2^64, in the order of the columns they come from. */
  function NetIoOf(iface: string, c: Counts): NetIo {
    NetIo(iface, c[4] % TWO64, c[0] % TWO64, c[5] % TWO64, c[1] % TWO64,
          c[2] % TWO64, c[6] % TWO64, c[3] % TWO64, c[7] % TWO64)
  }

  /** A first token is never empty. */
  type Token = t: string | t != "" witness ":"

  /** A line of /proc/net/dev: a heading, or a first token and numeric columns. */
  datatype NetLine = Heading | Counters(token: Token, columns: seq<u64>)

  // ---------------------------------------------------------------- column selection

  /** The column that ends up in data[k]: 0 to 3, then 8 to 11. */
  function Column(k: nat): nat {
    if k < 4 then k else k + 4
  }

  /** data after a line has been read: its columns 0 to 3 and 8 to 11, and what data held before
      where the line has no such column. */
  function Refilled(columns: seq<u64>, data: seq<u64>): (r: seq<u64>)
    requires |data| == 8
    ensures |r| == 8
    ensures forall k | 0 <= k < 4 :: r[k] == if k < |columns| then columns[k] else data[k]
    ensures forall k | 4 <= k < 8 :: r[k] == if k + 4 < |columns| then columns[k + 4] else data[k]
  {
    seq(8, k requires 0 <= k < 8 => if Column(k) < |columns| then columns[Column(k)] else data[k])
  }

  /** The column loop: i counts what is stored, and once four are, the shifting j swallows
      columns until it has run out of bits. */
  method SelectColumns(columns: seq<u64>, data: array<u64>)
    requires data.Length == 8
    modifies data
    ensures data[..] == Refilled(columns, old(data[..]))
  {
    var i, j, t := 0, 16, 0;
    while t < |columns|
      invariant t <= |columns| && t <= 11
      invariant i == if t <= 4 then t else if t <= 8 then 4 else t - 4
      invariant j == if t <= 4 then 16 else if t == 5 then 8 else if t == 6 then 4
                     else if t == 7 then 2 else if t == 8 then 1 else 0
      invariant forall k | 0 <= k < i :: data[k] == columns[Column(k)]
      invariant forall k | i <= k < 8 :: data[k] == old(data[k])
      decreases |columns| - t
    {
      if i > 3 {
        j := j / 2;
        if j != 0 {
          t := t + 1;
          continue;
        }
      }
      data[i] := columns[t];
      i := i + 1;
      t := t + 1;
      if i >= 8 {
        break;
      }
    }
  }

  /** On a line with at least twelve columns these are exactly columns 0 to 3 and 8 to 11. */
  lemma CompleteColumns(columns: seq<u64>, data: seq<u64>)
    requires |columns| >= 12 && |data| == 8
    ensures Refilled(columns, data) == columns[..4] + columns[8..12]
  {
  }

  /** What a line reports depends on nothing but the line exactly if it has twelve columns. */
  lemma CompleteIffIndependent(columns: seq<u64>)
    ensures |columns| >= 12 <==>
            forall d: seq<u64>, e: seq<u64> | |d| == |e| == 8 :: Refilled(columns, d) == Refilled(columns, e)
  {
    if |columns| < 12 {
      var d, e: seq<u64> := [0, 0, 0, 0, 0, 0, 0, 0], [0, 0, 0, 0, 0, 0, 0, 1];
      assert Refilled(columns, d)[7] == 0 && Refilled(columns, e)[7] == 1;
    } else {
      forall d: seq<u64>, e: seq<u64> | |d| == |e| == 8
        ensures Refilled(columns, d) == Refilled(columns, e)
      {
        CompleteColumns(columns, d);
        CompleteColumns(columns, e);
      }
    }
  }

  // ---------------------------------------------------------------- records

  /** What one line reports: the first token without its last character, the colon, and data. */
  datatype Reading = Reading(iface: string, counts: Counts)

  function ReadingOf(line: NetLine, data: seq<u64>): Reading
    requires line.Counters? && |data| == 8
  {
    Reading(line.token[..|line.token| - 1], Refilled(line.columns, data))
  }

  /** The readings of a file in order; data is handed from line to line. */
  function Readings(lines: seq<NetLine>, data: seq<u64>): seq<Reading>
    requires |data| == 8
  {
    if lines == [] then []
    else if lines[0].Heading? then Readings(lines[1..], data)
    else [ReadingOf(lines[0], data)] + Readings(lines[1..], Refilled(lines[0].columns, data))
  }

  function AllCounts(readings: seq<Reading>): (all: seq<Counts>)
    ensures |all| == |readings| && forall i | 0 <= i < |all| :: all[i] == readings[i].counts
  {
    seq(|readings|, i requires 0 <= i < |readings| => readings[i].counts)
  }

  /** The aggregate: the sum counter by counter over all readings, modulo 2^64. */
  function Total(readings: seq<Reading>): NetIo {
    NetIoOf("all", Sum(AllCounts(readings)))
  }

  lemma TotalStep(readings: seq<Reading>, r: Reading)
    ensures Total(readings + [r]) == Added(Total(readings), r.counts)
  {
    hide NetIoOf, Added, Plus;
    var all := AllCounts(readings);
    assert AllCounts(readings + [r]) == all + [r.counts];
    assert (all + [r.counts])[..|all|] == all;
    PlusIsAdded("all", Sum(all), r.counts);
  }

  lemma PlusIsAdded(iface: string, a: Counts, b: Counts)
    ensures NetIoOf(iface, Plus(a, b)) == Added(NetIoOf(iface, a), b)
  {
    forall i | 0 <= i < 8
      ensures Plus(a, b)[i] % TWO64 == (a[i] % TWO64 + b[i]) % TWO64
    {
      ModPlus(a[i], b[i]);
    }
  }

  /** The eight in-place additions. */
  function Added(s: NetIo, c: Counts): NetIo {
    NetIo(s.iface, (s.bytesSent + c[4]) % TWO64, (s.bytesRecv + c[0]) % TWO64,
          (s.packetsSent + c[5]) % TWO64, (s.packetsRecv + c[1]) % TWO64, (s.errin + c[2]) % TWO64,
          (s.errout + c[6]) % TWO64, (s.dropin + c[3]) % TWO64, (s.dropout + c[7]) % TWO64)
  }

  lemma AddedToZero(iface: string, c: Counts)
    ensures Added(ZERO.(iface := iface), c) == NetIoOf(iface, c)
  {
  }

  // ---------------------------------------------------------------- the function

  /** memset(io_counter, 0, ...); strcpy(io_counter->interface, name) */
  method Reset(org: array<NetIo>, at: nat, name: string)
    requires at < org.Length
    modifies org
    ensures org[..] == old(org[..])[at := ZERO.(iface := name)]
  {
    org[at] := ZERO;
    org[at] := org[at].(iface := name);
  }

  /** io_counter->f += data[...], for the eight fields. */
  method Accumulate(org: array<NetIo>, at: nat, data: array<u64>)
    requires at < org.Length && data.Length == 8
    modifies org
    ensures org[..] == old(org[..])[at := Added(old(org[at]), data[..])]
  {
    org[at] := org[at].(bytesRecv := (org[at].bytesRecv + data[0]) % TWO64);
    org[at] := org[at].(packetsRecv := (org[at].packetsRecv + data[1]) % TWO64);
    org[at] := org[at].(errin := (org[at].errin + data[2]) % TWO64);
    org[at] := org[at].(dropin := (org[at].dropin + data[3]) % TWO64);
    org[at] := org[at].(bytesSent := (org[at].bytesSent + data[4]) % TWO64);
    org[at] := org[at].(packetsSent := (org[at].packetsSent + data[5]) % TWO64);
    org[at] := org[at].(errout := (org[at].errout + data[6]) % TWO64);
    org[at] := org[at].(dropout := (org[at].dropout + data[7]) % TWO64);
  }

  /** What the array holds after some readings. */
  ghost predicate Counted(org: seq<NetIo>, perNic: bool, readings: seq<Reading>) {
    if perNic then
      |readings| <= |org|
      && forall k | 0 <= k < |readings| :: org[k] == NetIoOf(readings[k].iface, readings[k].counts)
    else |org| > 0 && org[0] == Total(readings)
  }

  function Used(perNic: bool, readings: seq<Reading>): nat {
    if perNic then |readings| else 1
  }

  /** What the array and the result are, field by field: per interface a record for each reading,
      otherwise one for all, whose fields are the sums over the columns they come from. */
  lemma CountedExact(org: seq<NetIo>, readings: seq<Reading>)
    ensures TWO64 == 0x1_0000_0000_0000_0000
    ensures Used(true, readings) == |readings| && Used(false, readings) == 1
    ensures Counted(org, true, readings) <==>
            && |readings| <= |org|
            && forall k | 0 <= k < |readings| ::
                 && var c := readings[k].counts;
                 && org[k].iface == readings[k].iface
                 && org[k].bytesRecv == c[0] % TWO64 && org[k].packetsRecv == c[1] % TWO64
                 && org[k].errin == c[2] % TWO64 && org[k].dropin == c[3] % TWO64
                 && org[k].bytesSent == c[4] % TWO64 && org[k].packetsSent == c[5] % TWO64
                 && org[k].errout == c[6] % TWO64 && org[k].dropout == c[7] % TWO64
    ensures Counted(org, false, readings) <==>
            && |org| > 0
            && var c := Sum(AllCounts(readings));
            && org[0].iface == "all"
            && org[0].bytesRecv == c[0] % TWO64 && org[0].packetsRecv == c[1] % TWO64
            && org[0].errin == c[2] % TWO64 && org[0].dropin == c[3] % TWO64
            && org[0].bytesSent == c[4] % TWO64 && org[0].packetsSent == c[5] % TWO64
            && org[0].errout == c[6] % TWO64 && org[0].dropout == c[7] % TWO64
  {
    hide Sum, AllCounts;
  }

  /** A heading reports nothing, wherever it stands. */
  lemma {:induction false} HeadingSkipped(a: seq<NetLine>, b: seq<NetLine>, data: seq<u64>)
    requires |data| == 8
    ensures Readings(a + [Heading] + b, data) == Readings(a + b, data)
  {
    hide Refilled;
    if a == [] {
      assert a + [Heading] + b == [Heading] + b && a + b == b;
    } else {
      assert (a + [Heading] + b)[1..] == a[1..] + [Heading] + b && (a + b)[1..] == a[1..] + b;
      HeadingSkipped(a[1..], b, if a[0].Heading? then data else Refilled(a[0].columns, data));
    }
  }

  /** Any other line reports what it leaves in data, under its name without the colon, and hands
      data on. */
  lemma LineHandsOn(token: Token, columns: seq<u64>, rest: seq<NetLine>, data: seq<u64>)
    requires |data| == 8
    ensures var refilled := Refilled(columns, data);
            Readings([Counters(token, columns)] + rest, data) ==
            [Reading(token[..|token| - 1], refilled)] + Readings(rest, refilled)
  {
    hide Refilled;
    assert ([Counters(token, columns)] + rest)[1..] == rest;
  }

  /** A file of complete interface lines: one reading a line, its name without the colon, and
      columns 0 to 3 and 8 to 11. */
  lemma {:induction false} CompleteReadings(lines: seq<NetLine>, data: seq<u64>)
    requires |data| == 8
    requires forall k | 0 <= k < |lines| :: lines[k].Counters? && |lines[k].columns| >= 12
    ensures |Readings(lines, data)| == |lines|
    ensures forall k | 0 <= k < |lines| ::
              && Readings(lines, data)[k].iface + [lines[k].token[|lines[k].token| - 1]] == lines[k].token
              && Readings(lines, data)[k].counts == lines[k].columns[..4] + lines[k].columns[8..12]
  {
    if lines != [] {
      CompleteColumns(lines[0].columns, data);
      hide Refilled;
      CompleteReadings(lines[1..], Refilled(lines[0].columns, data));
      assert forall k | 1 <= k < |lines| :: lines[k] == lines[1..][k - 1];
    }
  }

  /** The line loop of net_io_counters on an interface line. */
  method TakeLine(org: array<NetIo>, perNic: bool, nIfread: nat, line: NetLine, data: array<u64>,
                  ghost before: seq<Reading>, ghost r: Reading) returns (n: nat)
    requires data.Length == 8 && line.Counters?
    requires r == ReadingOf(line, data[..])
    requires Counted(org[..], perNic, before) && nIfread == Used(perNic, before)
    requires Used(perNic, before + [r]) <= org.Length
    modifies org, data
    ensures data[..] == Refilled(line.columns, old(data[..]))
    ensures Counted(org[..], perNic, before + [r]) && n == Used(perNic, before + [r])
    ensures forall k | n <= k < org.Length :: org[k] == old(org[k])
  {
    hide Added, NetIoOf, Total, Refilled, Column;
    n := nIfread;
    var ioCounter := 0;
    if perNic {
      ioCounter := nIfread;
      n := nIfread + 1;
      Reset(org, ioCounter, line.token[..|line.token| - 1]);
      AddedToZero(r.iface, r.counts);
    } else {
      TotalStep(before, r);
    }
    SelectColumns(line.columns, data);
    Accumulate(org, ioCounter, data);
  }

  /** net_io_counters. None for a file that does not open; readError for a stream left in error;
      data is the local array with whatever the stack held. Per interface, the array receives the
      readings; otherwise its first element receives their sum modulo 2^64. */
  method NetIoCounters(org: array<NetIo>, perNic: bool, file: Option<seq<NetLine>>, readError: bool,
                       data: array<u64>) returns (r: int)
    requires data.Length == 8
    requires file.Some? ==> Used(perNic, Readings(file.value, data[..])) <= org.Length
    modifies org, data
    ensures file == None ==> r == -1 && org[..] == old(org[..])
    ensures file.Some? ==>
              var readings := Readings(file.value, old(data[..]));
              && r == (if readError then -2 else Used(perNic, readings))
              && Counted(org[..], perNic, readings)
              && forall k | Used(perNic, readings) <= k < org.Length :: org[k] == old(org[k])
  {
    if file.None? {
      return -1;
    }
    var nIfread := 0;
    if !perNic {
      Reset(org, 0, "all");
      nIfread := 1;
    }
    NothingRead(org[..], perNic);
    nIfread := ReadLines(org, perNic, file.value, data, nIfread);
    r := nIfread;
    if readError {
      r := -2;
    }
  }

  /** The fgets loop. */
  method ReadLines(org: array<NetIo>, perNic: bool, lines: seq<NetLine>, data: array<u64>, start: nat)
    returns (nIfread: nat)
    requires data.Length == 8
    requires Counted(org[..], perNic, []) && start == Used(perNic, [])
    requires Used(perNic, Readings(lines, data[..])) <= org.Length
    modifies org, data
    ensures var readings := Readings(lines, old(data[..]));
            && nIfread == Used(perNic, readings)
            && Counted(org[..], perNic, readings)
            && forall k | nIfread <= k < org.Length :: org[k] == old(org[k])
  {
    hide Counted, Refilled, Readings;
    ghost var done, all := [], Readings(lines, data[..]);
    nIfread := start;
    assert lines[0..] == lines;
    for n := 0 to |lines|
      invariant nIfread == Used(perNic, done) && Counted(org[..], perNic, done)
      invariant done + Readings(lines[n..], data[..]) == all
      invariant forall k | nIfread <= k < org.Length :: org[k] == old(org[k])
    {
      ReadingsStep(lines, n, data[..]);
      if lines[n].Heading? {
        continue;
      }
      ghost var r := ReadingOf(lines[n], data[..]);
      ghost var rest := Readings(lines[n + 1..], r.counts);
      assert done + ([r] + rest) == done + [r] + rest;
      nIfread := TakeLine(org, perNic, nIfread, lines[n], data, done, r);
      done := done + [r];
    }
    ReadingsEnd(lines, data[..]);
    assert done + [] == done;
  }

  lemma ReadingsStep(lines: seq<NetLine>, n: nat, data: seq<u64>)
    requires n < |lines| && |data| == 8
    ensures Readings(lines[n..], data) ==
            if lines[n].Heading? then Readings(lines[n + 1..], data)
            else [ReadingOf(lines[n], data)] + Readings(lines[n + 1..], Refilled(lines[n].columns, data))
  {
    hide Refilled;
    assert lines[n..][1..] == lines[n + 1..];
  }

  lemma ReadingsEnd(lines: seq<NetLine>, data: seq<u64>)
    requires |data| == 8
    ensures Readings(lines[|lines|..], data) == []
  {
  }

  lemma NothingRead(org: seq<NetIo>, perNic: bool)
    requires !perNic ==> |org| > 0 && org[0] == ZERO.(iface := "all")
    ensures Counted(org, perNic, [])
  {
  }

  // ---------------------------------------------------------------- the two modes compared

  /** The first interface line, if there is one, has twelve columns. */
  predicate FirstComplete(lines: seq<NetLine>) {
    lines == [] || (if lines[0].Heading? then FirstComplete(lines[1..]) else |lines[0].columns| >= 12)
  }

  lemma {:induction false} ReadingsAgree(lines: seq<NetLine>, d: seq<u64>, e: seq<u64>)
    requires FirstComplete(lines) && |d| == |e| == 8
    ensures Readings(lines, d) == Readings(lines, e)
  {
    if lines != [] {
      if lines[0].Heading? {
        ReadingsAgree(lines[1..], d, e);
      } else {
        CompleteColumns(lines[0].columns, d);
        CompleteColumns(lines[0].columns, e);
      }
    }
  }

  /** Two arrays that differ by one in the last counter carry that difference through every line
      up to the first complete one, and into the sum as often. */
  lemma {:induction false} Carried(lines: seq<NetLine>, d: seq<u64>, e: seq<u64>) returns (k: nat)
    requires |d| == |e| == 8 && d[7] == 0 && e[7] == 1
    ensures Sum(AllCounts(Readings(lines, e)))[7] == Sum(AllCounts(Readings(lines, d)))[7] + k
    ensures k <= |lines| && (!FirstComplete(lines) ==> k > 0)
  {
    if FirstComplete(lines) {
      ReadingsAgree(lines, d, e);
      k := 0;
    } else if lines[0].Heading? {
      k := Carried(lines[1..], d, e);
    } else {
      var d', e' := Refilled(lines[0].columns, d), Refilled(lines[0].columns, e);
      k := Carried(lines[1..], d', e');
      AllCountsStep(lines, d);
      AllCountsStep(lines, e);
      hide Sum, Readings, Refilled, FirstComplete;
      SumCons(d', AllCounts(Readings(lines[1..], d')), 7);
      SumCons(e', AllCounts(Readings(lines[1..], e')), 7);
      k := k + 1;
    }
  }

  lemma AllCountsStep(lines: seq<NetLine>, data: seq<u64>)
    requires |data| == 8 && lines != [] && lines[0].Counters?
    ensures var refilled := Refilled(lines[0].columns, data);
            AllCounts(Readings(lines, data)) == [refilled] + AllCounts(Readings(lines[1..], refilled))
  {
    hide Refilled;
  }

  /** Without a complete first line even the aggregate depends on what the stack held. */
  lemma TotalsDiffer(lines: seq<NetLine>, d: seq<u64>, e: seq<u64>)
    requires |d| == |e| == 8 && d[7] == 0 && e[7] == 1
    requires !FirstComplete(lines) && |lines| < TWO64
    ensures Total(Readings(lines, d)) != Total(Readings(lines, e))
  {
    hide *;
    var k := Carried(lines, d, e);
    TotalsApart(Readings(lines, d), Readings(lines, e));
  }

  lemma TotalsApart(a: seq<Reading>, b: seq<Reading>)
    requires Sum(AllCounts(a))[7] < Sum(AllCounts(b))[7] < Sum(AllCounts(a))[7] + TWO64
    ensures Total(a) != Total(b)
  {
    ModApart(Sum(AllCounts(a))[7], Sum(AllCounts(b))[7]);
    hide Sum, AllCounts;
    assert Total(a).dropout == Sum(AllCounts(a))[7] % TWO64;
  }

  const LAST_ONE: Counts := [0, 0, 0, 0, 0, 0, 0, 1]

  /** What a call reports, in either mode, is a function of the file exactly if the first
      interface line is complete. (From 2^64 incomplete lines on, differences can cancel in the
      aggregate.) */
  lemma FirstCompleteExact(lines: seq<NetLine>)
    ensures FirstComplete(lines) <==>
            forall d: seq<u64>, e: seq<u64> | |d| == |e| == 8 :: Readings(lines, d) == Readings(lines, e)
    ensures |lines| < TWO64 ==>
              (FirstComplete(lines) <==>
               forall d: seq<u64>, e: seq<u64> | |d| == |e| == 8 ::
                 Total(Readings(lines, d)) == Total(Readings(lines, e)))
  {
    hide Total, Readings, FirstComplete;
    if FirstComplete(lines) {
      forall d: seq<u64>, e: seq<u64> | |d| == |e| == 8
        ensures Readings(lines, d) == Readings(lines, e)
      {
        ReadingsAgree(lines, d, e);
      }
    } else {
      ReadingsDiffer(lines);
      if |lines| < TWO64 {
        TotalsDiffer(lines, ZEROS, LAST_ONE);
      }
    }
  }

  lemma ReadingsDiffer(lines: seq<NetLine>)
    requires !FirstComplete(lines)
    ensures Readings(lines, ZEROS) != Readings(lines, LAST_ONE)
  {
    var k := Carried(lines, ZEROS, LAST_ONE);
    hide FirstComplete, Readings, AllCounts, Sum;
  }

  /** An input on which the two modes can disagree: an interface without a single column. */
  lemma EmptyLineDisagrees()
    ensures var lines := [Counters("lo:", [])];
            Total(Readings(lines, ZEROS)) != Total(Readings(lines, LAST_ONE))
  {
    TotalsDiffer([Counters("lo:", [])], ZEROS, LAST_ONE);
    hide Total, Readings;
  }

  /** The aggregate is the sum of what the per-interface mode stores for the same file: whatever
      the two calls find in their local arrays if the first interface line is complete, and
      otherwise if they find the same. */
  lemma AggregateIsSum(lines: seq<NetLine>, d: seq<u64>, e: seq<u64>, perNic: seq<NetIo>, total: seq<NetIo>)
    requires |d| == |e| == 8 && (FirstComplete(lines) || d == e)
    requires Counted(perNic, true, Readings(lines, d)) && Counted(total, false, Readings(lines, e))
    ensures var stored := perNic[..|Readings(lines, d)|];
            total[0] == NetIoOf("all", Sum(seq(|stored|, i requires 0 <= i < |stored| => CountsOf(stored[i]))))
  {
    if d != e {
      ReadingsAgree(lines, d, e);
    }
    var readings := Readings(lines, d);
    var stored := perNic[..|readings|];
    var counts := seq(|stored|, i requires 0 <= i < |stored| => CountsOf(stored[i]));
    hide Readings, FirstComplete;
    forall i | 0 <= i < |readings|
      ensures counts[i] == WrapAll(AllCounts(readings))[i]
    {
      CountsOfWrapped(readings[i].iface, readings[i].counts);
    }
    assert counts == WrapAll(AllCounts(readings));
    SumOfWrapped(AllCounts(readings));
    SameWrapped("all", Sum(counts), Sum(AllCounts(readings)));
  }

  function CountsOf(s: NetIo): Counts {
    [s.bytesRecv, s.packetsRecv, s.errin, s.dropin, s.bytesSent, s.packetsSent, s.errout, s.dropout]
  }

  lemma CountsOfWrapped(iface: string, c: Counts)
    ensures CountsOf(NetIoOf(iface, c)) == Wrapped(c)
  {
  }

  lemma SameWrapped(iface: string, a: Counts, b: Counts)
    requires Wrapped(a) == Wrapped(b)
    ensures NetIoOf(iface, a) == NetIoOf(iface, b)
  {
    assert forall i | 0 <= i < 8 :: a[i] % TWO64 == Wrapped(a)[i] == Wrapped(b)[i] == b[i] % TWO64;
  }
}
