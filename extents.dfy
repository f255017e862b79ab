/** The extent-chain decoder of logical_sector_numbers: a 25-byte directory record lists
    (logical sector number, run length) triples and may point, by slot index, at a
    further record in the directory region that lists more. */
module Extents {
  import opened Results
  import opened Bytes

  /** Bytes in a directory record; byte 24 is the last one the decoder reads. */
  const RecordLength := 25

  /** Bit of byte 0: set for a continuation record, whose triples fill bytes 0..20;
      clear for a directory entry, whose four triples fill bytes 12..23. */
  const ContinuationShape := 0x01

  /** Bit of byte 0: set when byte 24 is the slot of a further record, clear when byte 24
      is the number of bytes used in the file's last sector. */
  const MoreRecords := 0x20

  /** Continuation hops the model follows before it reports ChainCycle. The source has no
      bound; ChainBoundIsExact shows that this one changes no outcome. */
  const MaxHops := 256

  /** The byte range holding a record's triples. */
  function TripleWindow(rec: seq<Byte>): (w: (nat, nat))
    requires |rec| >= 1
    ensures w.0 % 3 == 0 && w.1 % 3 == 0 && w.0 <= w.1 <= 24
  {
    if HasFlag(rec[0], ContinuationShape) then (0, 7 * 3) else (12, 24)
  }

  /** The pair of the triple (hi, lo, len): logical sector hi * 256 + lo and run length
      len, or nothing when the run length is zero. */
  function PairOf(hi: Byte, lo: Byte, len: Byte): seq<nat> {
    if len > 0 then [(hi as int) * 256 + lo, len] else []
  }

  /** The pairs of the whole triples of t, in order. */
  function Triples(t: seq<Byte>): seq<nat>
    decreases |t|
  {
    if |t| < 3 then []
    else
      var n := |t|;
      Triples(t[..n - 3]) + PairOf(t[n - 3], t[n - 2], t[n - 1])
  }

  /** The pairs one record contributes: seven triples from byte 0 of a continuation
      record, four triples from byte 12 of a directory entry. */
  function Runs(rec: seq<Byte>): seq<nat>
    requires |rec| >= RecordLength
  {
    var w := TripleWindow(rec);
    Triples(rec[w.0..w.1])
  }

  /** One more triple: the pairs of bytes from..i + 3 are those of from..i, then the pair
      of the triple at i. This is the step of the inner loop of logical_sector_numbers. */
  lemma TriplesStep(rec: seq<Byte>, from: nat, i: nat)
    requires from <= i && i + 3 <= |rec|
    ensures Triples(rec[from..i + 3]) == Triples(rec[from..i]) + PairOf(rec[i], rec[i + 1], rec[i + 2])
  {
    var t := rec[from..i + 3];
    assert t[..|t| - 3] == rec[from..i];
  }

  /** The step of the inner loop of logical_sector_numbers as it is written: the triple at
      i appends its pair when its run length is not zero, and nothing otherwise. */
  lemma TripleAppended(rec: seq<Byte>, from: nat, i: nat, before: seq<nat>, after: seq<nat>)
    requires from <= i && i + 3 <= |rec| && before == Triples(rec[from..i])
    requires after == if rec[i + 2] > 0 then before + [(rec[i] as int) * 256 + rec[i + 1], rec[i + 2]] else before
    ensures after == Triples(rec[from..i + 3])
  {
    TriplesStep(rec, from, i);
    if rec[i + 2] == 0 {
      assert before + [] == before;
    }
  }

  /** A directory entry's pairs, triple by triple. */
  lemma EntryRuns(rec: seq<Byte>)
    requires |rec| >= RecordLength && !HasFlag(rec[0], ContinuationShape)
    ensures Runs(rec) == PairOf(rec[12], rec[13], rec[14]) + PairOf(rec[15], rec[16], rec[17]) +
                         PairOf(rec[18], rec[19], rec[20]) + PairOf(rec[21], rec[22], rec[23])
  {
    assert rec[12..12] == [];
    TriplesStep(rec, 12, 12);
    TriplesStep(rec, 12, 15);
    TriplesStep(rec, 12, 18);
    TriplesStep(rec, 12, 21);
  }

  /** A continuation record's pairs, triple by triple. */
  lemma ContinuationRuns(rec: seq<Byte>)
    requires |rec| >= RecordLength && HasFlag(rec[0], ContinuationShape)
    ensures Runs(rec) == PairOf(rec[0], rec[1], rec[2]) + PairOf(rec[3], rec[4], rec[5]) +
                         PairOf(rec[6], rec[7], rec[8]) + PairOf(rec[9], rec[10], rec[11]) +
                         PairOf(rec[12], rec[13], rec[14]) + PairOf(rec[15], rec[16], rec[17]) +
                         PairOf(rec[18], rec[19], rec[20])
  {
    assert Runs(rec) == Triples(rec[0..21]);
    assert Triples(rec[0..0]) == [];
    var p := PairOf(rec[0], rec[1], rec[2]);
    TriplesStep(rec, 0, 0);
    assert Triples(rec[0..3]) == p;
    TriplesStep(rec, 0, 3);
    p := p + PairOf(rec[3], rec[4], rec[5]);
    TriplesStep(rec, 0, 6);
    p := p + PairOf(rec[6], rec[7], rec[8]);
    TriplesStep(rec, 0, 9);
    p := p + PairOf(rec[9], rec[10], rec[11]);
    TriplesStep(rec, 0, 12);
    p := p + PairOf(rec[12], rec[13], rec[14]);
    TriplesStep(rec, 0, 15);
    p := p + PairOf(rec[15], rec[16], rec[17]);
    TriplesStep(rec, 0, 18);
    p := p + PairOf(rec[18], rec[19], rec[20]);
    assert Triples(rec[0..21]) == p;
  }

  /** The record in directory slot j: `data[N + j*M : N + (j+1)*M]`, clamped at the end of
      the buffer as Python clamps it. */
  function Record(data: seq<Byte>, M: nat, N: nat, j: nat): seq<Byte> {
    Slice(data, N + j * M, N + (j + 1) * M)
  }

  /** A record that is complete and points on to another one. */
  predicate Live(rec: seq<Byte>) {
    |rec| >= RecordLength && HasFlag(rec[0], MoreRecords)
  }

  /** recs starts at rec, holds complete records only, and every record but the last
      points on, the last does not. */
  predicate WalkShaped(rec: seq<Byte>, recs: seq<seq<Byte>>) {
    1 <= |recs| && recs[0] == rec &&
    (forall k :: 0 <= k < |recs| ==> |recs[k]| >= RecordLength) &&
    (forall k :: 0 <= k < |recs| - 1 ==> Live(recs[k])) &&
    !Live(recs[|recs| - 1])
  }

  /** The records logical_sector_numbers visits when started on rec, following at most
      `hops` continuation pointers: every record but the last points on, the last does not. */
  function Walk(data: seq<Byte>, M: nat, N: nat, rec: seq<Byte>, hops: nat): (r: Result<seq<seq<Byte>>>)
    ensures r.Success? ==> |r.value| <= hops + 1 && WalkShaped(rec, r.value)
    decreases hops
  {
    if |rec| < RecordLength then Failure(IndexError)
    else if !HasFlag(rec[0], MoreRecords) then Success([rec])
    else if hops == 0 then Failure(ChainCycle)
    else
      match Walk(data, M, N, Record(data, M, N, rec[24]), hops - 1)
      case Success(rest) => Success([rec] + rest)
      case Failure(e) => Failure(e)
  }

  /** The pairs of a sequence of complete records, in order. */
  function AllRuns(recs: seq<seq<Byte>>): seq<nat>
    requires forall k :: 0 <= k < |recs| ==> |recs[k]| >= RecordLength
  {
    if recs == [] then [] else Runs(recs[0]) + AllRuns(recs[1..])
  }

  /** The outcome of logical_sector_numbers started on record rec: the pairs of every
      record visited, then byte 24 of the last one. */
  function Chain(data: seq<Byte>, M: nat, N: nat, rec: seq<Byte>, hops: nat): Result<seq<nat>> {
    match Walk(data, M, N, rec, hops)
    case Success(recs) => Success(AllRuns(recs) + [recs[|recs| - 1][24]])
    case Failure(e) => Failure(e)
  }

  // ---------------------------------------------------------------------------------
  // The records a walk visits

  /** The record the walk moves to from rec. */
  function Next(data: seq<Byte>, M: nat, N: nat, rec: seq<Byte>): seq<Byte> {
    if |rec| >= RecordLength then Record(data, M, N, rec[24]) else []
  }

  /** The k-th record of the walk that starts at rec. */
  function Hop(data: seq<Byte>, M: nat, N: nat, rec: seq<Byte>, k: nat): seq<Byte>
    decreases k
  {
    if k == 0 then rec else Hop(data, M, N, Next(data, M, N, rec), k - 1)
  }

  /** The slot byte a record points on with (0 for a short record). */
  function SlotOf(rec: seq<Byte>): (j: nat)
    ensures j < 256
  {
    if |rec| >= RecordLength then rec[24] else 0
  }

  // ---------------------------------------------------------------------------------
  // Properties of one record

  /** A flat list of (sector number, run length) pairs with run lengths in 1..255 and
      sector numbers below 65536. */
  predicate PairList(r: seq<nat>)
    ensures PairList(r) ==> |r| % 2 == 0
    decreases |r|
  {
    if |r| == 0 then true
    else |r| >= 2 && r[0] < 65536 && 0 < r[1] < 256 && PairList(r[2..])
  }

  lemma {:induction false} PairListAppend(a: seq<nat>, b: seq<nat>)
    requires PairList(a) && PairList(b)
    ensures PairList(a + b)
    decreases |a|
  {
    if |a| > 0 {
      assert (a + b)[2..] == a[2..] + b;
      PairListAppend(a[2..], b);
    } else {
      assert a + b == b;
    }
  }

  lemma PairOfShape(hi: Byte, lo: Byte, len: Byte)
    ensures PairList(PairOf(hi, lo, len)) && |PairOf(hi, lo, len)| <= 2
  {
    var p := PairOf(hi, lo, len);
    if |p| > 0 {
      assert p[2..] == [];
    }
  }

  /** Whole triples give whole pairs, at most one per triple. */
  lemma {:induction false} TriplesShape(t: seq<Byte>)
    ensures PairList(Triples(t)) && |Triples(t)| <= 2 * (|t| / 3)
    decreases |t|
  {
    if |t| >= 3 {
      var n := |t|;
      TriplesShape(t[..n - 3]);
      PairOfShape(t[n - 3], t[n - 2], t[n - 1]);
      PairListAppend(Triples(t[..n - 3]), PairOf(t[n - 3], t[n - 2], t[n - 1]));
      assert (n - 3) / 3 + 1 == n / 3;
    }
  }

  /** A record contributes whole pairs: at most 4 for a directory entry, at most 7 for a
      continuation record. */
  lemma RunsShape(rec: seq<Byte>)
    requires |rec| >= RecordLength
    ensures PairList(Runs(rec))
    ensures |Runs(rec)| <= if HasFlag(rec[0], ContinuationShape) then 2 * 7 else 2 * 4
  {
    var w := TripleWindow(rec);
    TriplesShape(rec[w.0..w.1]);
  }

  /** A directory entry's pairs come from bytes 12..23 only, a continuation record's from
      bytes 0..20 only. */
  lemma RunsReadWindow(r1: seq<Byte>, r2: seq<Byte>)
    requires |r1| >= RecordLength && |r2| >= RecordLength
    requires HasFlag(r1[0], ContinuationShape) == HasFlag(r2[0], ContinuationShape)
    requires if HasFlag(r1[0], ContinuationShape) then r1[0..21] == r2[0..21] else r1[12..24] == r2[12..24]
    ensures Runs(r1) == Runs(r2)
  {
    assert TripleWindow(r1) == TripleWindow(r2);
  }

  // ---------------------------------------------------------------------------------
  // Properties of the walk

  lemma {:induction false} AllRunsShape(recs: seq<seq<Byte>>)
    requires forall k :: 0 <= k < |recs| ==> |recs[k]| >= RecordLength
    ensures PairList(AllRuns(recs))
    decreases |recs|
  {
    if recs != [] {
      AllRunsShape(recs[1..]);
      RunsShape(recs[0]);
      PairListAppend(Runs(recs[0]), AllRuns(recs[1..]));
    }
  }

  /** The output is a flat list of pairs, every run length in 1..255, followed by one
      trailing byte count; so its length is odd. */
  lemma ChainShape(data: seq<Byte>, M: nat, N: nat, rec: seq<Byte>, hops: nat)
    requires Chain(data, M, N, rec, hops).Success?
    ensures var r := Chain(data, M, N, rec, hops).value;
      |r| % 2 == 1 && PairList(r[..|r| - 1]) && r[|r| - 1] < 256
  {
    var recs := Walk(data, M, N, rec, hops).value;
    var body := AllRuns(recs);
    var last := recs[|recs| - 1][24];
    AllRunsShape(recs);
    PairListThenCount(body, last);
    assert Chain(data, M, N, rec, hops).value == body + [last];
  }

  lemma PairListThenCount(body: seq<nat>, last: nat)
    requires PairList(body)
    ensures var r := body + [last]; |r| % 2 == 1 && PairList(r[..|r| - 1]) && r[|r| - 1] == last
  {
    var r := body + [last];
    assert r[..|r| - 1] == body;
  }

  /** Putting a record in front puts its pairs in front. */
  lemma AllRunsCons(rec: seq<Byte>, recs: seq<seq<Byte>>)
    requires forall k :: 0 <= k < |recs| ==> |recs[k]| >= RecordLength
    requires |rec| >= RecordLength
    ensures AllRuns([rec] + recs) == Runs(rec) + AllRuns(recs)
  {
    assert ([rec] + recs)[1..] == recs;
  }

  /** A complete record that does not point on is the whole chain. */
  lemma ChainOfOneRecord(data: seq<Byte>, M: nat, N: nat, rec: seq<Byte>, hops: nat)
    requires |rec| >= RecordLength && !HasFlag(rec[0], MoreRecords)
    ensures Chain(data, M, N, rec, hops) == Success(Runs(rec) + [rec[24]])
  {
    var recs := [rec];
    assert Walk(data, M, N, rec, hops) == Success(recs);
    assert recs[1..] == [];
    assert AllRuns(recs) == Runs(rec) + AllRuns([]);
    assert recs[|recs| - 1][24] == rec[24];
    assert Chain(data, M, N, rec, hops) == Success(AllRuns(recs) + [recs[|recs| - 1][24]]);
    var want: seq<nat> := Runs(rec) + [rec[24]];
    assert AllRuns(recs) + [recs[|recs| - 1][24]] == want;
  }

  lemma {:induction false} HopStep(data: seq<Byte>, M: nat, N: nat, rec: seq<Byte>, k: nat)
    ensures Hop(data, M, N, rec, k + 1) == Next(data, M, N, Hop(data, M, N, rec, k))
    decreases k
  {
    if k > 0 {
      HopStep(data, M, N, Next(data, M, N, rec), k - 1);
    }
  }

  /** A successful walk visits exactly the records Hop(rec, 0), Hop(rec, 1), ...: it starts
      at rec and moves to the slot named by byte 24 of each record, and it stops at the first
      complete record that does not point on. */
  lemma {:induction false} WalkVisitsHops(data: seq<Byte>, M: nat, N: nat, rec: seq<Byte>, hops: nat)
    requires Walk(data, M, N, rec, hops).Success?
    ensures var recs := Walk(data, M, N, rec, hops).value;
      forall k :: 0 <= k < |recs| ==> recs[k] == Hop(data, M, N, rec, k)
    decreases hops
  {
    var recs := Walk(data, M, N, rec, hops).value;
    if !Live(rec) {
      assert recs == [rec];
    } else {
      assert hops > 0;
      var next := Next(data, M, N, rec);
      assert next == Record(data, M, N, rec[24]);
      WalkVisitsHops(data, M, N, next, hops - 1);
      var rest := Walk(data, M, N, next, hops - 1).value;
      assert recs == [rec] + rest;
      forall k | 0 <= k < |recs|
        ensures recs[k] == Hop(data, M, N, rec, k)
      {
        if k > 0 {
          assert recs[k] == rest[k - 1];
        }
      }
    }
  }

  /** The walk's trailing byte is byte 24 of the first record that does not point on. */
  lemma ChainEndsWithTerminalByte(data: seq<Byte>, M: nat, N: nat, rec: seq<Byte>, hops: nat)
    requires Chain(data, M, N, rec, hops).Success?
    ensures exists k :: (0 <= k <= hops &&
      (forall i :: 0 <= i < k ==> Live(Hop(data, M, N, rec, i))) &&
      |Hop(data, M, N, rec, k)| >= RecordLength && !Live(Hop(data, M, N, rec, k)) &&
      Chain(data, M, N, rec, hops).value[|Chain(data, M, N, rec, hops).value| - 1] == Hop(data, M, N, rec, k)[24])
  {
    var recs := Walk(data, M, N, rec, hops).value;
    WalkVisitsHops(data, M, N, rec, hops);
    var k := |recs| - 1;
    assert forall i :: 0 <= i < k ==> Live(Hop(data, M, N, rec, i)) by {
      forall i | 0 <= i < k ensures Live(Hop(data, M, N, rec, i)) {
        assert recs[i] == Hop(data, M, N, rec, i);
      }
    }
    assert recs[k] == Hop(data, M, N, rec, k);
  }

  lemma {:induction false} CycleMeansLive(data: seq<Byte>, M: nat, N: nat, rec: seq<Byte>, hops: nat)
    requires Walk(data, M, N, rec, hops) == Failure(ChainCycle)
    ensures forall i :: 0 <= i <= hops ==> Live(Hop(data, M, N, rec, i))
    decreases hops
  {
    assert Live(rec);
    if hops > 0 {
      var next := Next(data, M, N, rec);
      CycleMeansLive(data, M, N, next, hops - 1);
      forall i | 0 <= i <= hops
        ensures Live(Hop(data, M, N, rec, i))
      {
        if i > 0 {
          assert Hop(data, M, N, rec, i) == Hop(data, M, N, next, i - 1);
        }
      }
    }
  }

  lemma {:induction false} LiveMeansCycle(data: seq<Byte>, M: nat, N: nat, rec: seq<Byte>, hops: nat)
    requires forall i :: 0 <= i <= hops ==> Live(Hop(data, M, N, rec, i))
    ensures Walk(data, M, N, rec, hops) == Failure(ChainCycle)
    decreases hops
  {
    assert Live(Hop(data, M, N, rec, 0));
    if hops > 0 {
      var next := Next(data, M, N, rec);
      forall i | 0 <= i <= hops - 1
        ensures Live(Hop(data, M, N, next, i))
      {
        assert Hop(data, M, N, rec, i + 1) == Hop(data, M, N, next, i);
      }
      LiveMeansCycle(data, M, N, next, hops - 1);
    }
  }

  /** The first hops + 1 records a walk from rec would visit are all complete and all
      point on. */
  predicate AllLive(data: seq<Byte>, M: nat, N: nat, rec: seq<Byte>, hops: nat) {
    forall i :: 0 <= i <= hops ==> Live(Hop(data, M, N, rec, i))
  }

  /** The walk runs out of hops exactly when the first hops + 1 records it would visit are
      all complete and all point on. */
  lemma ChainCycleIff(data: seq<Byte>, M: nat, N: nat, rec: seq<Byte>, hops: nat)
    ensures Chain(data, M, N, rec, hops) == Failure(ChainCycle) <==> AllLive(data, M, N, rec, hops)
  {
    assert Chain(data, M, N, rec, hops) == Failure(ChainCycle) <==> Walk(data, M, N, rec, hops) == Failure(ChainCycle);
    if Walk(data, M, N, rec, hops) == Failure(ChainCycle) {
      CycleMeansLive(data, M, N, rec, hops);
    }
    if AllLive(data, M, N, rec, hops) {
      LiveMeansCycle(data, M, N, rec, hops);
    }
  }

  /** More hops never change a walk that ended within fewer. */
  lemma {:induction false} WalkHopsMonotone(data: seq<Byte>, M: nat, N: nat, rec: seq<Byte>, hops: nat, more: nat)
    requires hops <= more
    requires Walk(data, M, N, rec, hops) != Failure(ChainCycle)
    ensures Walk(data, M, N, rec, more) == Walk(data, M, N, rec, hops)
    decreases hops
  {
    if |rec| >= RecordLength && HasFlag(rec[0], MoreRecords) {
      var next := Record(data, M, N, rec[24]);
      assert hops > 0;
      WalkHopsMonotone(data, M, N, next, hops - 1, more - 1);
      assert Walk(data, M, N, next, more - 1) == Walk(data, M, N, next, hops - 1);
    }
  }

  // ---------------------------------------------------------------------------------
  // The hop bound is exact

  /** Among more than n values in 0..n-1 two are equal. */
  lemma {:induction false} Pigeonhole(s: seq<int>, n: nat)
    requires n >= 1 && |s| > n
    requires forall i :: 0 <= i < |s| ==> 0 <= s[i] < n
    ensures exists p, q :: 0 <= p < q < |s| && s[p] == s[q]
    decreases n
  {
    if n == 1 {
      assert s[0] == 0 == s[1];
    } else if k :| 0 <= k < |s| && s[k] == n - 1 {
      if k2 :| 0 <= k2 < |s| && k2 != k && s[k2] == n - 1 {
        if k < k2 {
          assert s[k] == s[k2];
        } else {
          assert s[k2] == s[k];
        }
      } else {
        var t := s[..k] + s[k + 1..];
        assert forall i :: 0 <= i < |t| ==> t[i] == (if i < k then s[i] else s[i + 1]);
        Pigeonhole(t, n - 1);
        var p, q :| 0 <= p < q < |t| && t[p] == t[q];
        var p', q' := (if p < k then p else p + 1), (if q < k then q else q + 1);
        assert s[p'] == s[q'];
      }
    } else {
      Pigeonhole(s, n - 1);
    }
  }

  /** Once two visited records point on to the same slot, the walk repeats itself. */
  lemma {:induction false} HopsRepeat(data: seq<Byte>, M: nat, N: nat, rec: seq<Byte>, p: nat, q: nat, m: nat)
    requires p < q
    requires Live(Hop(data, M, N, rec, p)) && Live(Hop(data, M, N, rec, q))
    requires SlotOf(Hop(data, M, N, rec, p)) == SlotOf(Hop(data, M, N, rec, q))
    ensures Hop(data, M, N, rec, p + 1 + m) == Hop(data, M, N, rec, q + 1 + m)
    decreases m
  {
    if m == 0 {
      var a, b := Hop(data, M, N, rec, p), Hop(data, M, N, rec, q);
      HopStep(data, M, N, rec, p);
      HopStep(data, M, N, rec, q);
      assert a[24] == SlotOf(a) == SlotOf(b) == b[24];
      assert Next(data, M, N, a) == Record(data, M, N, a[24]);
      assert Next(data, M, N, b) == Record(data, M, N, b[24]);
    } else {
      HopsRepeat(data, M, N, rec, p, q, m - 1);
      var a, b := Hop(data, M, N, rec, p + m), Hop(data, M, N, rec, q + m);
      assert a == b;
      HopStep(data, M, N, rec, p + m);
      HopStep(data, M, N, rec, q + m);
      assert Hop(data, M, N, rec, p + m + 1) == Next(data, M, N, a);
      assert Hop(data, M, N, rec, q + m + 1) == Next(data, M, N, b);
    }
  }

  lemma {:induction false} AllHopsLive(data: seq<Byte>, M: nat, N: nat, rec: seq<Byte>, p: nat, q: nat, n: nat)
    requires p < q <= MaxHops
    requires forall i :: 0 <= i <= MaxHops ==> Live(Hop(data, M, N, rec, i))
    requires SlotOf(Hop(data, M, N, rec, p)) == SlotOf(Hop(data, M, N, rec, q))
    ensures Live(Hop(data, M, N, rec, n))
    decreases n
  {
    if n > MaxHops {
      var m := n - q - 1;
      HopsRepeat(data, M, N, rec, p, q, m);
      AllHopsLive(data, M, N, rec, p, q, p + 1 + m);
    }
  }

  /** The hop bound changes no outcome: with more hops the walk gives the same result, and
      when it runs out of MaxHops hops it runs out of any number of hops, that is, the
      source's loop never ends. */
  lemma ChainBoundIsExact(data: seq<Byte>, M: nat, N: nat, rec: seq<Byte>)
    ensures forall more :: more >= MaxHops ==>
      Chain(data, M, N, rec, more) == Chain(data, M, N, rec, MaxHops)
    ensures Chain(data, M, N, rec, MaxHops) == Failure(ChainCycle) ==>
      forall hops :: Chain(data, M, N, rec, hops) == Failure(ChainCycle)
  {
    if Chain(data, M, N, rec, MaxHops) == Failure(ChainCycle) {
      CycleMeansLive(data, M, N, rec, MaxHops);
      var slots := seq(MaxHops + 1, i requires 0 <= i <= MaxHops => SlotOf(Hop(data, M, N, rec, i)));
      Pigeonhole(slots, 256);
      var p, q :| 0 <= p < q < |slots| && slots[p] == slots[q];
      forall n: nat
        ensures Live(Hop(data, M, N, rec, n))
      {
        AllHopsLive(data, M, N, rec, p, q, n);
      }
      forall hops: nat
        ensures Chain(data, M, N, rec, hops) == Failure(ChainCycle)
      {
        LiveMeansCycle(data, M, N, rec, hops);
      }
    } else {
      forall more: nat | more >= MaxHops
        ensures Chain(data, M, N, rec, more) == Chain(data, M, N, rec, MaxHops)
      {
        WalkHopsMonotone(data, M, N, rec, MaxHops, more);
      }
    }
  }
}
