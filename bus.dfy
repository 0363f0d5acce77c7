/**
 The single-byte bus behind the i2c-dev file descriptor, seen as a value.

 The device answers every transaction with a `Reply`, drawn in order from a script of
 upcoming replies; a transaction issued after the script has run out fails. Every
 operation of the driver is described by a function from that script to the
 transactions it issues (`issued`, in order, each with the reply it got) and the
 script that remains (`rest`). `Device.Handle` performs the same operations in place.
 */
module Bus {

  /** An unsigned 8-bit value: the source's `u8`. */
  type Byte = b: int | 0 <= b < 256

  /** What one single-byte read(2) or write(2) reports: the count it returns and, for a
      read, the byte it left in the buffer. For a write only the count matters. */
  datatype Reply = Reply(count: int, data: Byte)

  /** The reply to a transaction issued once the scripted replies have run out. */
  const Exhausted: Reply := Reply(-1, 0)

  /** The call moved exactly the one byte it asked for; a short transfer (0) and an
      I/O error (-1) are failures alike. */
  predicate Transferred(r: Reply) {
    r.count == 1
  }

  /** One bus transaction as the log records it. */
  datatype Txn = Read(reply: Reply) | Write(value: Byte, reply: Reply)

  predicate Ok(t: Txn) {
    Transferred(t.reply)
  }

  /** A transaction without its reply: what the driver asked the bus to do. */
  datatype Op = ReadOp | WriteOp(value: Byte)

  function OpOf(t: Txn): Op {
    match t
    case Read(_) => ReadOp
    case Write(v, _) => WriteOp(v)
  }

  function Ops(ts: seq<Txn>): seq<Op> {
    seq(|ts|, i requires 0 <= i < |ts| => OpOf(ts[i]))
  }

  function Replies(ts: seq<Txn>): seq<Reply> {
    seq(|ts|, i requires 0 <= i < |ts| => ts[i].reply)
  }

  /** The reply the next transaction gets. */
  function Next(s: seq<Reply>): Reply {
    if s == [] then Exhausted else s[0]
  }

  /** The first `n` replies the bus hands out, failures once the script has run out. */
  function Consumed(s: seq<Reply>, n: nat): seq<Reply> {
    seq(n, i => if 0 <= i < |s| then s[i] else Exhausted)
  }

  /** The script left after `n` transactions. */
  function Drop(s: seq<Reply>, n: nat): seq<Reply> {
    if n <= |s| then s[n..] else []
  }

  /** `issued` took its replies from the front of `s`, in order, skipping none and
      inventing none, and `rest` is what is left. */
  predicate Consumes(s: seq<Reply>, issued: seq<Txn>, rest: seq<Reply>) {
    Replies(issued) == Consumed(s, |issued|) && rest == Drop(s, |issued|)
  }

  predicate AllOk(ts: seq<Txn>) {
    forall i :: 0 <= i < |ts| ==> Ok(ts[i])
  }

  /** The run ended on its first failed transaction. */
  predicate StopsAtFirstFailure(ts: seq<Txn>) {
    && |ts| > 0
    && !Ok(ts[|ts| - 1])
    && forall i :: 0 <= i < |ts| - 1 ==> Ok(ts[i])
  }

  /** The position of the first reply in `s` that is not a transfer (|s| if there is none). */
  function FirstFailure(s: seq<Reply>): (k: nat)
    ensures k <= |s|
    ensures forall i :: 0 <= i < k ==> Transferred(s[i])
    ensures k < |s| ==> !Transferred(s[k])
  {
    if s == [] || !Transferred(s[0]) then 0 else 1 + FirstFailure(s[1..])
  }

  /** Running two stretches of transactions one after the other consumes the script
      as one stretch does. */
  lemma ConsumesThen(s: seq<Reply>, a: seq<Txn>, m: seq<Reply>, b: seq<Txn>, r: seq<Reply>)
    requires Consumes(s, a, m) && Consumes(m, b, r)
    ensures Consumes(s, a + b, r)
  {
    var n := |a| + |b|;
    forall i | 0 <= i < n
      ensures Replies(a + b)[i] == Consumed(s, n)[i]
    {
      if i < |a| {
        assert Replies(a)[i] == Consumed(s, |a|)[i];
      } else {
        assert Replies(b)[i - |a|] == Consumed(m, |b|)[i - |a|];
      }
    }
  }

  /** A stretch that ends at its first failure has exactly as many transactions as
      there are transfers at the head of the script, plus the failing one. */
  lemma StopIndex(s: seq<Reply>, ts: seq<Txn>, rest: seq<Reply>)
    requires Consumes(s, ts, rest)
    ensures StopsAtFirstFailure(ts) ==> |ts| == FirstFailure(s) + 1
  {
    if StopsAtFirstFailure(ts) {
      var k := FirstFailure(s);
      var last := |ts| - 1;
      forall i | 0 <= i < last
        ensures i < |s| && Transferred(s[i])
      {
        assert Replies(ts)[i] == Consumed(s, |ts|)[i];
      }
      assert Replies(ts)[last] == Consumed(s, |ts|)[last];
      assert ts[last].reply == Replies(ts)[last];
      assert last < |s| ==> !Transferred(s[last]);
      assert last <= k;
      assert k <= last;
    }
  }

  /** Transactions that all succeeded each used a real scripted reply. */
  lemma AllOkShrinks(s: seq<Reply>, ts: seq<Txn>, rest: seq<Reply>)
    requires Consumes(s, ts, rest)
    ensures AllOk(ts) ==> |ts| <= FirstFailure(s) && |rest| == |s| - |ts|
  {
    if AllOk(ts) {
      forall i | 0 <= i < |ts|
        ensures i < |s| && Transferred(s[i])
      {
        assert Ok(ts[i]);
        assert ts[i].reply == Replies(ts)[i] == Consumed(s, |ts|)[i];
      }
      var k := FirstFailure(s);
      if |ts| > 0 {
        assert |ts| - 1 < |s|;
      }
      assert |ts| <= k;
    }
  }

  /** A successful stretch followed by one that stops at its first failure stops at
      its first failure. */
  lemma StopsAfter(a: seq<Txn>, b: seq<Txn>)
    ensures AllOk(a) && StopsAtFirstFailure(b) ==> StopsAtFirstFailure(a + b)
  {
    if AllOk(a) && StopsAtFirstFailure(b) {
      forall i | 0 <= i < |a + b| - 1
        ensures Ok((a + b)[i])
      {
        if i >= |a| {
          assert (a + b)[i] == b[i - |a|];
        }
      }
    }
  }

  /** Appending to a log in two steps appends the two stretches in one. */
  lemma AppendTwice<T>(a: seq<T>, b: seq<T>, c: seq<T>)
    ensures (a + b) + c == a + (b + c)
  {
  }

  lemma OpsConcat(a: seq<Txn>, b: seq<Txn>)
    ensures Ops(a + b) == Ops(a) + Ops(b)
  {
  }

  lemma AllOkConcat(a: seq<Txn>, b: seq<Txn>)
    ensures AllOk(a) && AllOk(b) ==> AllOk(a + b)
  {
    if AllOk(a) && AllOk(b) {
      forall i | 0 <= i < |a + b|
        ensures Ok((a + b)[i])
      {
        if i >= |a| {
          assert (a + b)[i] == b[i - |a|];
        }
      }
    }
  }

  /** What `I2CReadByte` leaves behind: the transactions, the script, the return code
      and the value of `*pvalue`. */
  datatype ReadAccess = ReadAccess(issued: seq<Txn>, rest: seq<Reply>, result: int, value: Byte)

  /** What a write leaves behind: the transactions, the script and the return code. */
  datatype WriteAccess = WriteAccess(issued: seq<Txn>, rest: seq<Reply>, result: int)

  /** `I2CReadByte`: one read of one byte. It returns 0 and stores the byte only when
      exactly one byte came back; otherwise it returns -1 and `*pvalue` keeps its value. */
  function ReadByte(s: seq<Reply>, pvalue: Byte): (r: ReadAccess)
    ensures Consumes(s, r.issued, r.rest)
    ensures Ops(r.issued) == [ReadOp]
    ensures r.result == 0 || r.result == -1
    ensures r.result == 0 <==> AllOk(r.issued)
    ensures r.value == if r.result == 0 then r.issued[0].reply.data else pvalue
  {
    var reply := Next(s);
    var issued := [Read(reply)];
    assert Replies(issued) == Consumed(s, 1);
    assert Ok(issued[0]) == Transferred(reply);
    if reply.count != 1 then ReadAccess(issued, Drop(s, 1), -1, pvalue)
    else ReadAccess(issued, Drop(s, 1), 0, reply.data)
  }

  /** `I2CWriteByte`: one write of `value`. It returns 0 exactly when the byte went out,
      -1 otherwise. */
  function WriteByte(s: seq<Reply>, value: Byte): (r: WriteAccess)
    ensures Consumes(s, r.issued, r.rest)
    ensures Ops(r.issued) == [WriteOp(value)]
    ensures r.result == 0 || r.result == -1
    ensures r.result == 0 <==> AllOk(r.issued)
  {
    var reply := Next(s);
    var issued := [Write(value, reply)];
    assert Replies(issued) == Consumed(s, 1);
    assert Ok(issued[0]) == Transferred(reply);
    if reply.count != 1 then WriteAccess(issued, Drop(s, 1), -1)
    else WriteAccess(issued, Drop(s, 1), 0)
  }
}
