/**
 The polling loop of the APDS-9960 session: read STATUS, and when its PVALID bit is set,
 read PDATA and print it; go round again until a transaction fails.
 */
module Polling {
  import opened Bus
  import opened Register

  /** STATUS register of the APDS-9960. */
  const StatusReg: Byte := 0x93
  /** PDATA register: the proximity reading. */
  const DataReg: Byte := 0x9C
  /** PVALID, the bit of STATUS that says PDATA holds a new reading. */
  const PValidBit: Byte := 0x02

  /** The C expression `v & m` on two `u8` values. */
  function Mask(v: Byte, m: Byte): Byte {
    ((v as bv8) & (m as bv8)) as int
  }

  /** `pvalid &= 0x2` leaves 0x02 when bit 1 of STATUS is set and 0 when it is clear. */
  lemma PValidMask(status: Byte)
    ensures Mask(status, PValidBit) == if (status / 2) % 2 == 1 then PValidBit else 0
  {
  }

  /** The most an iteration asks of the bus: select STATUS, read it, select PDATA, read it. */
  const IterationOps: seq<Op> := [WriteOp(StatusReg), ReadOp, WriteOp(DataReg), ReadOp]

  /** A STATUS access, alone or followed by a PDATA access, asks no more of the bus
      than one iteration may. */
  lemma IterationPrefix(a: seq<Txn>, b: seq<Txn>)
    ensures Ops(a) <= [WriteOp(StatusReg), ReadOp] ==> Ops(a) <= IterationOps
    ensures Ops(a) == [WriteOp(StatusReg), ReadOp] && Ops(b) <= [WriteOp(DataReg), ReadOp]
            ==> Ops(a + b) <= IterationOps
  {
    OpsConcat(a, b);
  }

  /** The transactions begin with a STATUS read that succeeded with PVALID set. */
  predicate StatusValid(ts: seq<Txn>) {
    |ts| >= 2 && Ok(ts[0]) && Ok(ts[1]) && Mask(ts[1].reply.data, PValidBit) != 0
  }

  /** The state one pass of the loop body leaves: transactions, script, `result`,
      `pvalid`, `pdata`, and the values it printed. */
  datatype Iteration = Iteration(
    issued: seq<Txn>, rest: seq<Reply>, result: int, pvalid: Byte, pdata: Byte, emitted: seq<Byte>)

  /** One pass of the loop body. PDATA is read only after a STATUS read that succeeded
      with PVALID set, and `pdata` is printed whenever PDATA was attempted, whether or
      not its read succeeded. */
  function PollStep(s: seq<Reply>, pvalid: Byte, pdata: Byte): (r: Iteration)
    ensures Consumes(s, r.issued, r.rest)
    ensures 0 < |r.issued| && Ops(r.issued) <= IterationOps
    ensures r.result == 0 || r.result == -1
    ensures r.result == 0 ==> AllOk(r.issued) && |r.rest| == |s| - |r.issued|
    ensures r.result == 0 ==> |r.issued| == 2 || |r.issued| == 4
    ensures r.result == -1 ==> StopsAtFirstFailure(r.issued)
    ensures |r.issued| > 2 <==> StatusValid(r.issued)
    ensures r.emitted == if |r.issued| > 2 then [r.pdata] else []
    ensures r.pdata == if |r.issued| > 2 && r.result == 0 then r.issued[3].reply.data else pdata
    ensures r.pvalid == Mask(if |r.issued| >= 2 && Ok(r.issued[1]) then r.issued[1].reply.data else pvalid, PValidBit)
  {
    var st := ReadReg8(s, StatusReg, pvalid);
    var masked := Mask(st.value, PValidBit);
    if st.result != -1 && masked != 0 then
      var d := ReadReg8(st.rest, DataReg, pdata);
      ConsumesThen(s, st.issued, st.rest, d.issued, d.rest);
      OpsConcat(st.issued, d.issued);
      var issued := st.issued + d.issued;
      IterationPrefix(st.issued, d.issued);
      assert issued[0] == st.issued[0] && issued[1] == st.issued[1] && issued[2] == d.issued[0];
      assert |d.issued| == 2 ==> issued[3] == d.issued[1];
      if d.result == 0 then
        AllOkConcat(st.issued, d.issued);
        Iteration(issued, d.rest, d.result, masked, d.value, [d.value])
      else
        StopsAfter(st.issued, d.issued);
        Iteration(issued, d.rest, d.result, masked, d.value, [d.value])
    else
      assert |st.issued| == 2 ==> st.issued[1].reply == Replies(st.issued)[1];
      IterationPrefix(st.issued, []);
      Iteration(st.issued, st.rest, st.result, masked, pdata, [])
  }

  /** An iteration whose STATUS select and read go through with PVALID clear reads
      nothing more and prints nothing. */
  lemma IdleIteration(s: seq<Reply>, pvalid: Byte, pdata: Byte)
    requires |s| >= 2 && Transferred(s[0]) && Transferred(s[1])
    requires Mask(s[1].data, PValidBit) == 0
    ensures var r := PollStep(s, pvalid, pdata);
      r.result == 0 && r.rest == s[2..] && r.emitted == [] && r.pdata == pdata && r.pvalid == 0
  {
    var st := ReadReg8(s, StatusReg, pvalid);
    assert st.issued[1].reply == Replies(st.issued)[1] == Consumed(s, 2)[1];
  }

  /** An iteration whose four transactions all go through, with PVALID set, prints the
      byte PDATA returned and keeps it in `pdata`. */
  lemma ReadingIteration(s: seq<Reply>, pvalid: Byte, pdata: Byte)
    requires |s| >= 4 && Transferred(s[0]) && Transferred(s[1]) && Transferred(s[2]) && Transferred(s[3])
    requires Mask(s[1].data, PValidBit) != 0
    ensures var r := PollStep(s, pvalid, pdata);
      r.result == 0 && r.rest == s[4..] && r.emitted == [s[3].data] && r.pdata == s[3].data
  {
    var st := ReadReg8(s, StatusReg, pvalid);
    assert st.issued[1].reply == Replies(st.issued)[1] == Consumed(s, 2)[1];
    var d := ReadReg8(st.rest, DataReg, pdata);
    assert st.rest == s[2..];
    assert d.issued[1].reply == Replies(d.issued)[1] == Consumed(s[2..], 2)[1];
  }

  /** What the loop leaves when it stops: transactions, script, `pvalid`, `pdata` and
      every value it printed, in order. */
  datatype PollRun = PollRun(issued: seq<Txn>, rest: seq<Reply>, pvalid: Byte, pdata: Byte, emitted: seq<Byte>)

  /** The loop `while (result != -1) { ... }`, entered after a successful setup. It runs
      the body until a transaction fails, and that failure is the last transaction. */
  function Poll(s: seq<Reply>, pvalid: Byte, pdata: Byte): (r: PollRun)
    ensures Consumes(s, r.issued, r.rest)
    ensures StopsAtFirstFailure(r.issued)
    ensures Ops(r.issued)[0] == WriteOp(StatusReg)
    decreases |s|
  {
    var it := PollStep(s, pvalid, pdata);
    assert Ops(it.issued)[0] == IterationOps[0];
    if it.result == -1 then
      PollRun(it.issued, it.rest, it.pvalid, it.pdata, it.emitted)
    else
      var tail := Poll(it.rest, it.pvalid, it.pdata);
      ConsumesThen(s, it.issued, it.rest, tail.issued, tail.rest);
      StopsAfter(it.issued, tail.issued);
      OpsConcat(it.issued, tail.issued);
      PollRun(it.issued + tail.issued, tail.rest, tail.pvalid, tail.pdata, it.emitted + tail.emitted)
  }

  /** What the loop prints is what its first pass prints, followed, when that pass
      succeeded, by what the rest of the loop prints. */
  lemma PollEmitted(s: seq<Reply>, pvalid: Byte, pdata: Byte)
    ensures var it := PollStep(s, pvalid, pdata);
      Poll(s, pvalid, pdata).emitted
        == if it.result == -1 then it.emitted else it.emitted + Poll(it.rest, it.pvalid, it.pdata).emitted
  {
  }

  /** Having issued `done` and printed `shown`, the loop with `pvalid` and `pdata` on
      script `s` completes the run `p`. */
  predicate Resumes(p: PollRun, done: seq<Txn>, shown: seq<Byte>, s: seq<Reply>, pvalid: Byte, pdata: Byte) {
    var q := Poll(s, pvalid, pdata);
    p.issued == done + q.issued && p.rest == q.rest && p.emitted == shown + q.emitted
  }

  /** One pass of the loop body keeps the run on course: after a pass that ends with
      `result` 0 the loop resumes from the state it leaves, and after one that ends
      with -1 the run is complete. */
  lemma ResumeStep(p: PollRun, done: seq<Txn>, shown: seq<Byte>, s: seq<Reply>, pvalid: Byte, pdata: Byte)
    requires Resumes(p, done, shown, s, pvalid, pdata)
    ensures var it := PollStep(s, pvalid, pdata);
      && (it.result == 0 ==>
           |it.rest| < |s| && Resumes(p, done + it.issued, shown + it.emitted, it.rest, it.pvalid, it.pdata))
      && (it.result == -1 ==>
           p.issued == done + it.issued && p.rest == it.rest && p.emitted == shown + it.emitted)
  {
    var it := PollStep(s, pvalid, pdata);
    if it.result == 0 {
      var tail := Poll(it.rest, it.pvalid, it.pdata);
      AppendTwice(done, it.issued, tail.issued);
      AppendTwice(shown, it.emitted, tail.emitted);
    }
  }

  /** The loop issues exactly the transactions up to and including the first reply in
      the script that is not a transfer: nothing follows the first failure. */
  lemma PollRunsToFirstFailure(s: seq<Reply>, pvalid: Byte, pdata: Byte)
    ensures |Poll(s, pvalid, pdata).issued| == FirstFailure(s) + 1
    ensures Poll(s, pvalid, pdata).rest == Drop(s, FirstFailure(s) + 1)
  {
    var r := Poll(s, pvalid, pdata);
    StopIndex(s, r.issued, r.rest);
  }

  /** The transaction selects PDATA. */
  predicate SelectsData(t: Txn) {
    OpOf(t) == WriteOp(DataReg)
  }

  /** The number of PDATA selects in a trace. */
  function Selects(ts: seq<Txn>): nat {
    if ts == [] then 0 else (if SelectsData(ts[0]) then 1 else 0) + Selects(ts[1..])
  }

  lemma {:induction false} SelectsConcat(a: seq<Txn>, b: seq<Txn>)
    ensures Selects(a + b) == Selects(a) + Selects(b)
  {
    if a == [] {
      assert a + b == b;
    } else {
      assert (a + b)[1..] == a[1..] + b;
      SelectsConcat(a[1..], b);
    }
  }

  /** The bytes of the PDATA reads that succeeded, in trace order. */
  function DataBytes(ts: seq<Txn>): seq<Byte> {
    if |ts| < 2 then []
    else if SelectsData(ts[0]) && Ok(ts[0]) && ts[1].Read? && Ok(ts[1]) then [ts[1].reply.data] + DataBytes(ts[2..])
    else DataBytes(ts[1..])
  }

  /** The trace ends with a failed PDATA select or a failed PDATA read. */
  predicate StoppedInDataPhase(ts: seq<Txn>) {
    |ts| > 0 && (SelectsData(ts[|ts| - 1]) || (|ts| > 1 && SelectsData(ts[|ts| - 2])))
  }

  /** The last of `ds`, or `d` when there is none: what `pdata` holds after those reads. */
  function LastOr(d: Byte, ds: seq<Byte>): Byte {
    if ds == [] then d else ds[|ds| - 1]
  }

  /** The transactions of one iteration follow `IterationOps` position by position. */
  lemma IterationShape(ts: seq<Txn>)
    requires Ops(ts) <= IterationOps
    ensures |ts| <= 4
    ensures forall i :: 0 <= i < |ts| ==> OpOf(ts[i]) == IterationOps[i]
  {
    forall i | 0 <= i < |ts|
      ensures OpOf(ts[i]) == IterationOps[i]
    {
      assert OpOf(ts[i]) == Ops(ts)[i];
    }
  }

  /** An iteration selects PDATA once if it gets past the STATUS read, and never otherwise. */
  lemma IterationSelects(ts: seq<Txn>)
    requires 0 < |ts| && Ops(ts) <= IterationOps
    ensures Selects(ts) == if |ts| > 2 then 1 else 0
  {
    IterationShape(ts);
    assert Selects(ts) == Selects(ts[1..]);
    assert |ts| >= 2 ==> Selects(ts[1..]) == Selects(ts[2..]);
    assert |ts| >= 3 ==> Selects(ts[2..]) == 1 + Selects(ts[3..]);
    assert |ts| >= 4 ==> Selects(ts[3..]) == Selects(ts[4..]);
    assert Selects(ts[|ts|..]) == 0;
  }

  /** The PDATA bytes of an iteration followed by later iterations: the iteration's own
      byte, if both its PDATA transactions went through, then those of the rest. */
  lemma IterationData(ts: seq<Txn>, tail: seq<Txn>)
    requires 0 < |ts| && Ops(ts) <= IterationOps
    requires tail == [] || |ts| == 2 || |ts| == 4
    requires tail != [] ==> OpOf(tail[0]) == WriteOp(StatusReg)
    ensures DataBytes(ts + tail)
         == (if |ts| == 4 && Ok(ts[2]) && Ok(ts[3]) then [ts[3].reply.data] else []) + DataBytes(tail)
  {
    IterationShape(ts);
    var u := ts + tail;
    // the STATUS select and the STATUS read contribute nothing
    assert u[1..] == ts[1..] + tail;
    assert |u| >= 2 ==> DataBytes(u) == DataBytes(u[1..]);
    if |ts| >= 2 {
      assert u[2..] == ts[2..] + tail;
      assert |u[1..]| >= 2 ==> DataBytes(u[1..]) == DataBytes(u[2..]);
      if |ts| == 2 {
        assert u[2..] == tail;
      }
    }
    if |ts| >= 3 {
      assert u[3..] == ts[3..] + tail;
    }
    if |ts| == 4 {
      assert u[4..] == tail;
      if Ok(ts[2]) && Ok(ts[3]) {
        assert DataBytes(u[2..]) == [ts[3].reply.data] + DataBytes(u[4..]);
      } else {
        assert DataBytes(u[2..]) == DataBytes(u[3..]);
        assert |u[3..]| >= 2 ==> DataBytes(u[3..]) == DataBytes(u[4..]);
      }
    }
  }

  /** A trace stops in the PDATA phase of its last iteration exactly when that
      iteration got past its STATUS read. */
  lemma IterationStops(ts: seq<Txn>, tail: seq<Txn>)
    requires 0 < |ts| && Ops(ts) <= IterationOps
    requires tail == [] || |ts| == 2 || |ts| == 4
    requires tail != [] ==> OpOf(tail[0]) == WriteOp(StatusReg)
    ensures StoppedInDataPhase(ts + tail) == if tail == [] then |ts| > 2 else StoppedInDataPhase(tail)
  {
    IterationShape(ts);
    var u := ts + tail;
    if tail == [] {
      assert u == ts;
      assert SelectsData(ts[|ts| - 1]) <==> |ts| == 3;
      assert |ts| > 1 ==> (SelectsData(ts[|ts| - 2]) <==> |ts| == 4);
    } else if |tail| == 1 {
      assert u[|u| - 1] == tail[0];
      assert u[|u| - 2] == ts[|ts| - 1];
    } else {
      assert u[|u| - 1] == tail[|tail| - 1] && u[|u| - 2] == tail[|tail| - 2];
    }
  }

  /** What the loop prints: every byte a PDATA read returned, in order, and, when the
      loop stopped in a PDATA select or read, one more value, the `pdata` left over from
      the last good read (or its value before the loop) because the print is unguarded. */
  lemma {:induction false} PollEmission(s: seq<Reply>, pvalid: Byte, pdata: Byte)
    ensures var r := Poll(s, pvalid, pdata);
      r.emitted == DataBytes(r.issued)
                   + (if StoppedInDataPhase(r.issued) then [LastOr(pdata, DataBytes(r.issued))] else [])
    decreases |s|
  {
    var r := Poll(s, pvalid, pdata);
    var it := PollStep(s, pvalid, pdata);
    if it.result == -1 {
      assert r.issued == it.issued && r.emitted == it.emitted;
      IterationData(it.issued, []);
      IterationStops(it.issued, []);
      assert it.issued + [] == it.issued;
      assert DataBytes(it.issued) == [];
    } else {
      var tail := Poll(it.rest, it.pvalid, it.pdata);
      assert r.issued == it.issued + tail.issued && r.emitted == it.emitted + tail.emitted;
      PollEmission(it.rest, it.pvalid, it.pdata);
      EmissionStep(it.issued, tail.issued, pdata, it.pdata, it.emitted, tail.emitted);
    }
  }

  /** One complete iteration in front of the rest of the loop keeps the description of
      what is printed. */
  lemma EmissionStep(b: seq<Txn>, tail: seq<Txn>, pdata: Byte, next: Byte, eb: seq<Byte>, et: seq<Byte>)
    requires |b| == 2 || |b| == 4
    requires AllOk(b) && Ops(b) <= IterationOps
    requires tail != [] && OpOf(tail[0]) == WriteOp(StatusReg)
    requires next == if |b| == 4 then b[3].reply.data else pdata
    requires eb == if |b| == 4 then [next] else []
    requires et == DataBytes(tail) + (if StoppedInDataPhase(tail) then [LastOr(next, DataBytes(tail))] else [])
    ensures eb + et == DataBytes(b + tail)
                       + (if StoppedInDataPhase(b + tail) then [LastOr(pdata, DataBytes(b + tail))] else [])
  {
    IterationData(b, tail);
    IterationStops(b, tail);
    var ds := DataBytes(tail);
    assert |b| == 4 ==> Ok(b[2]) && Ok(b[3]);
    if |b| == 4 {
      assert DataBytes(b + tail) == [next] + ds;
      assert LastOr(pdata, [next] + ds) == LastOr(next, ds);
    } else {
      assert DataBytes(b + tail) == ds;
    }
  }

  /** Besides the unguarded last print, the loop prints once per iteration whose STATUS
      read succeeded with PVALID set: the prints number the PDATA selects. */
  lemma {:induction false} PollEmitsPerValidStatus(s: seq<Reply>, pvalid: Byte, pdata: Byte)
    ensures |Poll(s, pvalid, pdata).emitted| == Selects(Poll(s, pvalid, pdata).issued)
    decreases |s|
  {
    var it := PollStep(s, pvalid, pdata);
    IterationSelects(it.issued);
    if it.result == -1 {
    } else {
      var tail := Poll(it.rest, it.pvalid, it.pdata);
      PollEmitsPerValidStatus(it.rest, it.pvalid, it.pdata);
      SelectsConcat(it.issued, tail.issued);
    }
  }

  /** The PDATA select at position `j` comes right after a STATUS select and a STATUS
      read that succeeded with PVALID set. */
  predicate GuardedSelect(ts: seq<Txn>, j: int)
    requires 0 <= j < |ts|
  {
    2 <= j && OpOf(ts[j - 2]) == WriteOp(StatusReg) && StatusValid(ts[j - 2..])
  }

  /** Every PDATA select in the trace is guarded. */
  predicate DataReadsGuarded(ts: seq<Txn>) {
    forall j :: 0 <= j < |ts| && SelectsData(ts[j]) ==> GuardedSelect(ts, j)
  }

  /** In the loop's trace, PDATA is selected only after a valid STATUS read. */
  lemma {:induction false} PollGuardsDataReads(s: seq<Reply>, pvalid: Byte, pdata: Byte)
    ensures DataReadsGuarded(Poll(s, pvalid, pdata).issued)
    decreases |s|
  {
    var r := Poll(s, pvalid, pdata);
    var it := PollStep(s, pvalid, pdata);
    if it.result == -1 {
      assert r.issued == it.issued;
      GuardStep(it.issued, []);
      assert it.issued + [] == it.issued;
    } else {
      var tail := Poll(it.rest, it.pvalid, it.pdata);
      assert r.issued == it.issued + tail.issued;
      PollGuardsDataReads(it.rest, it.pvalid, it.pdata);
      GuardStep(it.issued, tail.issued);
    }
  }

  /** A PDATA select inside an iteration is its third transaction, after a STATUS
      select and a STATUS read that found PVALID set. */
  lemma GuardInIteration(b: seq<Txn>, tail: seq<Txn>, j: nat)
    requires j < |b| && Ops(b) <= IterationOps
    requires |b| > 2 ==> StatusValid(b)
    requires SelectsData(b[j])
    ensures GuardedSelect(b + tail, j)
  {
    var ts := b + tail;
    assert OpOf(b[j]) == Ops(b)[j];
    assert j == 2;
    assert OpOf(b[0]) == Ops(b)[0];
    assert ts[0] == b[0] && ts[1] == b[1];
    assert ts[j - 2..] == ts;
  }

  /** A guarded PDATA select stays guarded with transactions put in front. */
  lemma GuardInTail(b: seq<Txn>, tail: seq<Txn>, k: nat)
    requires k < |tail| && GuardedSelect(tail, k)
    ensures GuardedSelect(b + tail, |b| + k)
  {
    var ts := b + tail;
    var j := |b| + k;
    assert ts[j - 2] == tail[k - 2] && ts[j - 1] == tail[k - 1];
    assert ts[j - 2..][0] == tail[k - 2..][0] && ts[j - 2..][1] == tail[k - 2..][1];
  }

  /** An iteration that selects PDATA only after a valid STATUS read, in front of a trace
      where every PDATA select is guarded, gives a trace where every one is. */
  lemma GuardStep(b: seq<Txn>, tail: seq<Txn>)
    requires 0 < |b| && Ops(b) <= IterationOps
    requires |b| > 2 ==> StatusValid(b)
    requires DataReadsGuarded(tail)
    ensures DataReadsGuarded(b + tail)
  {
    var ts := b + tail;
    forall j | 0 <= j < |ts| && SelectsData(ts[j])
      ensures GuardedSelect(ts, j)
    {
      if j < |b| {
        assert ts[j] == b[j];
        GuardInIteration(b, tail, j);
      } else {
        assert ts[j] == tail[j - |b|];
        GuardInTail(b, tail, j - |b|);
      }
    }
  }

  /** A STATUS select at position `j` whose STATUS read succeeded with PVALID set is
      followed by a PDATA select two positions on. */
  predicate StatusFollowed(ts: seq<Txn>, j: int)
    requires 0 <= j < |ts|
  {
    OpOf(ts[j]) == WriteOp(StatusReg) && StatusValid(ts[j..]) ==> j + 2 < |ts| && SelectsData(ts[j + 2])
  }

  /** Every valid STATUS access in the trace leads to a PDATA select. */
  predicate ValidStatusesFollowed(ts: seq<Txn>) {
    forall j :: 0 <= j < |ts| ==> StatusFollowed(ts, j)
  }

  /** In the loop's trace, every STATUS read that succeeded with PVALID set is followed
      by a PDATA select: with `PollGuardsDataReads`, PDATA selects and valid STATUS
      accesses are in one-to-one correspondence. */
  lemma {:induction false} PollValidStatusesFollowed(s: seq<Reply>, pvalid: Byte, pdata: Byte)
    ensures ValidStatusesFollowed(Poll(s, pvalid, pdata).issued)
    decreases |s|
  {
    var r := Poll(s, pvalid, pdata);
    var it := PollStep(s, pvalid, pdata);
    if it.result == -1 {
      assert r.issued == it.issued;
      FollowStep(it.issued, []);
      assert it.issued + [] == it.issued;
    } else {
      var tail := Poll(it.rest, it.pvalid, it.pdata);
      assert r.issued == it.issued + tail.issued;
      PollValidStatusesFollowed(it.rest, it.pvalid, it.pdata);
      FollowStep(it.issued, tail.issued);
    }
  }

  /** Inside an iteration only the first transaction selects STATUS, and when its read
      found PVALID set the iteration goes on to select PDATA. */
  lemma FollowInIteration(b: seq<Txn>, tail: seq<Txn>, j: nat)
    requires j < |b| && Ops(b) <= IterationOps
    requires |b| > 2 <==> StatusValid(b)
    requires |b| == 2 || |b| == 4 || tail == []
    ensures StatusFollowed(b + tail, j)
  {
    IterationShape(b);
    var ts := b + tail;
    assert ts[j] == b[j];
    if j == 0 {
      assert ts[0..] == ts;
      if |b| > 2 {
        assert ts[2] == b[2];
      } else if |b| == 2 {
        assert ts[1] == b[1];
      } else {
        assert ts == b;
      }
    }
  }

  /** A followed STATUS access stays followed with transactions put in front. */
  lemma FollowInTail(b: seq<Txn>, tail: seq<Txn>, k: nat)
    requires k < |tail| && StatusFollowed(tail, k)
    ensures StatusFollowed(b + tail, |b| + k)
  {
    var ts := b + tail;
    var j := |b| + k;
    assert ts[j] == tail[k];
    assert ts[j..] == tail[k..];
    if k + 2 < |tail| {
      assert ts[j + 2] == tail[k + 2];
    }
  }

  /** An iteration in front of a trace whose valid STATUS accesses are all followed
      gives a trace where every one is. */
  lemma FollowStep(b: seq<Txn>, tail: seq<Txn>)
    requires 0 < |b| && Ops(b) <= IterationOps
    requires |b| > 2 <==> StatusValid(b)
    requires |b| == 2 || |b| == 4 || tail == []
    requires ValidStatusesFollowed(tail)
    ensures ValidStatusesFollowed(b + tail)
  {
    var ts := b + tail;
    forall j | 0 <= j < |ts|
      ensures StatusFollowed(ts, j)
    {
      if j < |b| {
        FollowInIteration(b, tail, j);
      } else {
        assert StatusFollowed(tail, j - |b|);
        FollowInTail(b, tail, j - |b|);
      }
    }
  }
}
