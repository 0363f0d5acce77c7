/**
 The device session of `main`: read the identity register, program the proximity
 engine, then poll. Every way out of `main` follows a failed transaction.
 */
module Session {
  import opened Bus
  import opened Register
  import opened Polling

  /** ID register of the APDS-9960. */
  const IdReg: Byte := 0x92

  /** One configuration write: a register and the value programmed into it. */
  datatype Setting = Setting(reg: Byte, value: Byte)

  /** The setup `main` performs, in order: proximity low threshold (PILT) 0, proximity
      high threshold (PIHT) 175, interrupt persistence (PERS) 0xC0, and ENABLE 0x25
      (PIEN, PEN and PON). */
  const Config: seq<Setting> :=
    [Setting(0x89, 0), Setting(0x8B, 175), Setting(0x8C, 0xC0), Setting(0x80, 0x25)]

  /** The bytes a run of `settings` writes, in order: each register, then its value. */
  function SettingOps(settings: seq<Setting>): seq<Op> {
    if settings == [] then []
    else [WriteOp(settings[0].reg), WriteOp(settings[0].value)] + SettingOps(settings[1..])
  }

  /** The chain `if (result != -1) result = combinedI2CWriteReg8(...)`, entered with a
      `result` that is not -1: the writes go out in order, and after the first failed
      transaction no further register is written. */
  function Configure(s: seq<Reply>, settings: seq<Setting>): (r: WriteAccess)
    ensures Consumes(s, r.issued, r.rest)
    ensures r.result == 0 || r.result == -1
    ensures r.result == 0 ==> AllOk(r.issued) && Ops(r.issued) == SettingOps(settings)
    ensures r.result == -1 ==> StopsAtFirstFailure(r.issued) && Ops(r.issued) <= SettingOps(settings)
    decreases |settings|
  {
    if settings == [] then
      assert Replies([]) == Consumed(s, 0);
      WriteAccess([], s, 0)
    else
      var w := WriteReg8(s, settings[0].reg, settings[0].value);
      var head := [WriteOp(settings[0].reg), WriteOp(settings[0].value)];
      assert SettingOps(settings) == head + SettingOps(settings[1..]);
      if w.result == -1 then
        w
      else
        var tail := Configure(w.rest, settings[1..]);
        ConsumesThen(s, w.issued, w.rest, tail.issued, tail.rest);
        OpsConcat(w.issued, tail.issued);
        if tail.result == 0 then
          AllOkConcat(w.issued, tail.issued);
          WriteAccess(w.issued + tail.issued, tail.rest, tail.result)
        else
          StopsAfter(w.issued, tail.issued);
          WriteAccess(w.issued + tail.issued, tail.rest, tail.result)
  }

  /** One guarded statement of the chain: the first write happens; if it failed the
      chain ends with it, otherwise the chain goes on with the remaining settings. */
  lemma ConfigureFirst(s: seq<Reply>, settings: seq<Setting>)
    requires settings != []
    ensures var w := WriteReg8(s, settings[0].reg, settings[0].value);
      var tail := Configure(w.rest, settings[1..]);
      && (w.result == -1 ==> Configure(s, settings) == w)
      && (w.result != -1 ==>
            Configure(s, settings) == WriteAccess(w.issued + tail.issued, tail.rest, tail.result))
  {
  }

  /** The last setup statement: the ENABLE write alone. */
  lemma SetupFrom3(m: seq<Reply>)
    ensures Configure(m, Config[3..]) == WriteReg8(m, 0x80, 0x25)
  {
    var w4 := WriteReg8(m, 0x80, 0x25);
    ConfigureFirst(m, Config[3..]);
    assert Config[3..][1..] == [];
    assert w4.issued + [] == w4.issued;
  }

  /** The last two setup statements: ENABLE is written only after PERS succeeded. */
  lemma SetupFrom2(m: seq<Reply>)
    ensures var w3 := WriteReg8(m, 0x8C, 0xC0);
      var w4 := WriteReg8(w3.rest, 0x80, 0x25);
      var c := Configure(m, Config[2..]);
      && (w3.result == -1 ==> c == w3)
      && (w3.result != -1 ==> c == WriteAccess(w3.issued + w4.issued, w4.rest, w4.result))
  {
    var w3 := WriteReg8(m, 0x8C, 0xC0);
    ConfigureFirst(m, Config[2..]);
    assert Config[2..][1..] == Config[3..];
    SetupFrom3(w3.rest);
  }

  /** The last three setup statements, each after the previous one succeeded. */
  lemma SetupFrom1(m: seq<Reply>)
    ensures var w2 := WriteReg8(m, 0x8B, 175);
      var w3 := WriteReg8(w2.rest, 0x8C, 0xC0);
      var w4 := WriteReg8(w3.rest, 0x80, 0x25);
      var c := Configure(m, Config[1..]);
      && (w2.result == -1 ==> c == w2)
      && (w2.result != -1 && w3.result == -1 ==> c == WriteAccess(w2.issued + w3.issued, w3.rest, -1))
      && (w2.result != -1 && w3.result != -1 ==>
            c == WriteAccess(w2.issued + w3.issued + w4.issued, w4.rest, w4.result))
  {
    var w2 := WriteReg8(m, 0x8B, 175);
    var w3 := WriteReg8(w2.rest, 0x8C, 0xC0);
    var w4 := WriteReg8(w3.rest, 0x80, 0x25);
    ConfigureFirst(m, Config[1..]);
    assert Config[1..][1..] == Config[2..];
    SetupFrom2(w2.rest);
    AppendTwice(w2.issued, w3.issued, w4.issued);
  }

  /** `Configure` on the four settings of `main` is the four guarded statements written
      out: each write happens only after the previous one succeeded, and the chain's
      transactions are those of the writes that happened, in order. */
  lemma SetupUnrolled(s: seq<Reply>)
    ensures var w1 := WriteReg8(s, 0x89, 0);
      var w2 := WriteReg8(w1.rest, 0x8B, 175);
      var w3 := WriteReg8(w2.rest, 0x8C, 0xC0);
      var w4 := WriteReg8(w3.rest, 0x80, 0x25);
      var c := Configure(s, Config);
      && (w1.result == -1 ==> c == w1)
      && (w1.result != -1 && w2.result == -1 ==>
            c == WriteAccess(w1.issued + w2.issued, w2.rest, -1))
      && (w1.result != -1 && w2.result != -1 && w3.result == -1 ==>
            c == WriteAccess(w1.issued + w2.issued + w3.issued, w3.rest, -1))
      && (w1.result != -1 && w2.result != -1 && w3.result != -1 ==>
            c == WriteAccess(w1.issued + w2.issued + w3.issued + w4.issued, w4.rest, w4.result))
  {
    var w1 := WriteReg8(s, 0x89, 0);
    var w2 := WriteReg8(w1.rest, 0x8B, 175);
    var w3 := WriteReg8(w2.rest, 0x8C, 0xC0);
    var w4 := WriteReg8(w3.rest, 0x80, 0x25);
    ConfigureFirst(s, Config);
    SetupFrom1(w1.rest);
    AppendTwice(w1.issued, w2.issued, w3.issued);
    AppendTwice(w1.issued + w2.issued, w3.issued, w4.issued);
    AppendTwice(w1.issued, w2.issued + w3.issued, w4.issued);
    AppendTwice(w1.issued, w2.issued, w3.issued + w4.issued);
  }

  datatype Option<T> = None | Some(value: T)

  /** How `main` ends: its transactions, the script left, the exit status, the device
      identity it printed (if it got one) and the proximity values it printed. */
  datatype Outcome = Outcome(
    issued: seq<Txn>, rest: seq<Reply>, exit: int, identity: Option<Byte>, readings: seq<Byte>)

  /** `main` from the identity read on, on an open handle addressed to the sensor, with
      `pvalid` and `pdata` holding whatever the uninitialised locals hold. The session
      ends on a failed transaction, whichever phase it is in; it exits with -1 exactly
      when the identity read failed, and with 0 otherwise. */
  function Run(s: seq<Reply>, pvalid: Byte, pdata: Byte): (r: Outcome)
    ensures Consumes(s, r.issued, r.rest)
    ensures StopsAtFirstFailure(r.issued)
    ensures r.exit == 0 || r.exit == -1
    ensures r.exit == -1 <==> r.identity == None
    ensures r.exit == -1 ==> r.readings == []
  {
    var id := ReadReg8(s, IdReg, 0);
    if id.result < 0 then
      Outcome(id.issued, id.rest, -1, None, [])
    else
      var cfg := Configure(id.rest, Config);
      ConsumesThen(s, id.issued, id.rest, cfg.issued, cfg.rest);
      if cfg.result == -1 then
        StopsAfter(id.issued, cfg.issued);
        Outcome(id.issued + cfg.issued, cfg.rest, 0, Some(id.value), [])
      else
        var p := Poll(cfg.rest, pvalid, pdata);
        ConsumesThen(s, id.issued + cfg.issued, cfg.rest, p.issued, p.rest);
        AllOkConcat(id.issued, cfg.issued);
        StopsAfter(id.issued + cfg.issued, p.issued);
        Outcome(id.issued + cfg.issued + p.issued, p.rest, 0, Some(id.value), p.emitted)
  }

  /** The setup writes, in the fixed order of the register map. */
  lemma ConfigOrder()
    ensures SettingOps(Config)
         == [WriteOp(0x89), WriteOp(0), WriteOp(0x8B), WriteOp(175),
             WriteOp(0x8C), WriteOp(0xC0), WriteOp(0x80), WriteOp(0x25)]
  {
    assert Config[1..][1..][1..][1..] == [];
  }

  /** What `main` asks of the bus before the loop: the identity read, then setup. */
  function Prologue(): seq<Op> {
    [WriteOp(IdReg), ReadOp] + SettingOps(Config)
  }

  /** `main` issues exactly the transactions up to and including the first reply that
      is not a transfer: it never carries on past a failure. */
  lemma RunsToFirstFailure(s: seq<Reply>, pvalid: Byte, pdata: Byte)
    ensures |Run(s, pvalid, pdata).issued| == FirstFailure(s) + 1
    ensures Run(s, pvalid, pdata).rest == Drop(s, FirstFailure(s) + 1)
  {
    var r := Run(s, pvalid, pdata);
    StopIndex(s, r.issued, r.rest);
  }

  /** A failed identity read ends the session with -1 before any configuration
      register is written, and nothing is printed but the error. */
  lemma IdentityFailureIsFatal(s: seq<Reply>, pvalid: Byte, pdata: Byte)
    requires FirstFailure(s) < 2
    ensures var r := Run(s, pvalid, pdata);
      r.exit == -1 && r.identity == None && r.readings == [] && Ops(r.issued) <= [WriteOp(IdReg), ReadOp]
  {
    var id := ReadReg8(s, IdReg, 0);
    AllOkShrinks(s, id.issued, id.rest);
    assert id.result == -1;
  }

  /** A failed setup write ends the session before the loop: nothing is polled or
      printed after the identity, no later register is written, and, since `main`
      falls off its end, the exit status is 0. */
  lemma SetupFailureSkipsPolling(s: seq<Reply>, pvalid: Byte, pdata: Byte)
    requires 2 <= FirstFailure(s) < |Prologue()|
    ensures var r := Run(s, pvalid, pdata);
      && r.exit == 0 && r.identity == Some(s[1].data) && r.readings == []
      && Ops(r.issued) <= Prologue()
  {
    ConfigOrder();
    IdentitySucceeds(s);
    var r := Run(s, pvalid, pdata);
    var id := ReadReg8(s, IdReg, 0);
    var cfg := Configure(id.rest, Config);
    ConsumesThen(s, id.issued, id.rest, cfg.issued, cfg.rest);
    AllOkConcat(id.issued, cfg.issued);
    AllOkShrinks(s, id.issued + cfg.issued, cfg.rest);
    assert |Ops(cfg.issued)| == |cfg.issued|;
    assert cfg.result == -1;
    OpsConcat(id.issued, cfg.issued);
    assert r.issued == id.issued + cfg.issued;
  }

  /** A script whose first two replies are transfers lets the identity read succeed:
      it selects the ID register, reads the second reply's byte and uses two replies. */
  lemma IdentitySucceeds(s: seq<Reply>)
    requires 2 <= FirstFailure(s)
    ensures var id := ReadReg8(s, IdReg, 0);
      && id.result == 0 && id.value == s[1].data && AllOk(id.issued)
      && Ops(id.issued) == [WriteOp(IdReg), ReadOp] && |id.issued| == 2 && id.rest == Drop(s, 2)
  {
    var id := ReadReg8(s, IdReg, 0);
    StopIndex(s, id.issued, id.rest);
    assert id.result == 0;
    assert id.issued[1].reply == Replies(id.issued)[1] == Consumed(s, 2)[1];
  }

  /** Transfers that do not reach the first failure leave a script whose first
      failure is that much nearer. */
  lemma FirstFailureDrop(s: seq<Reply>, n: nat)
    requires n <= FirstFailure(s)
    ensures FirstFailure(Drop(s, n)) == FirstFailure(s) - n
    decreases n
  {
    if n > 0 {
      assert Drop(s, n) == Drop(s[1..], n - 1);
      FirstFailureDrop(s[1..], n - 1);
    }
  }

  /** A script that holds transfers for all eight setup writes lets the setup succeed,
      and the setup then uses exactly eight replies. */
  lemma ConfigureSucceeds(m: seq<Reply>)
    requires |SettingOps(Config)| <= FirstFailure(m)
    ensures var cfg := Configure(m, Config);
      && cfg.result == 0 && Ops(cfg.issued) == SettingOps(Config) && AllOk(cfg.issued)
      && cfg.rest == Drop(m, |SettingOps(Config)|)
  {
    ConfigOrder();
    var cfg := Configure(m, Config);
    StopIndex(m, cfg.issued, cfg.rest);
    assert |Ops(cfg.issued)| == |cfg.issued|;
  }

  /** When the script holds transfers for the whole prologue, the identity read and
      the setup both succeed, and together they issue the prologue and leave the
      script from its eleventh reply on. */
  lemma PrologueSucceeds(s: seq<Reply>)
    requires |Prologue()| <= FirstFailure(s)
    ensures var id := ReadReg8(s, IdReg, 0);
      var cfg := Configure(id.rest, Config);
      && id.result == 0 && id.value == s[1].data && cfg.result == 0
      && |id.issued + cfg.issued| == |Prologue()| && Ops(id.issued + cfg.issued) == Prologue()
      && AllOk(id.issued + cfg.issued) && cfg.rest == Drop(s, |Prologue()|)
  {
    ConfigOrder();
    IdentitySucceeds(s);
    var id := ReadReg8(s, IdReg, 0);
    FirstFailureDrop(s, 2);
    ConfigureSucceeds(id.rest);
    var cfg := Configure(id.rest, Config);
    assert |Ops(cfg.issued)| == |cfg.issued|;
    assert s[2..][8..] == s[10..];
    OpsConcat(id.issued, cfg.issued);
    AllOkConcat(id.issued, cfg.issued);
  }

  /** When identity and setup succeed, the session is: identity read, the eight setup
      writes in order, then the polling loop on the rest of the script, whose prints
      are the session's readings. */
  lemma PollingFollowsSetup(s: seq<Reply>, pvalid: Byte, pdata: Byte)
    requires |Prologue()| <= FirstFailure(s)
    ensures var r := Run(s, pvalid, pdata);
      var p := Poll(Drop(s, |Prologue()|), pvalid, pdata);
      && r.exit == 0 && r.identity == Some(s[1].data)
      && |r.issued| > |Prologue()| && Ops(r.issued[..|Prologue()|]) == Prologue()
      && AllOk(r.issued[..|Prologue()|])
      && r.issued[|Prologue()|..] == p.issued && r.readings == p.emitted
  {
    PrologueSucceeds(s);
    var id := ReadReg8(s, IdReg, 0);
    var cfg := Configure(id.rest, Config);
    var head := id.issued + cfg.issued;
    var p := Poll(cfg.rest, pvalid, pdata);
    var r := Run(s, pvalid, pdata);
    assert r.issued == head + p.issued;
    assert r.issued[..|head|] == head;
    assert r.issued[|head|..] == p.issued;
  }

  /** The identity byte is printed but never compared with anything: two scripts that
      differ only in the byte the ID register returns give the same transactions, the
      same exit status and the same readings. */
  lemma IdentityNotValidated(s: seq<Reply>, a: Byte, b: Byte, pvalid: Byte, pdata: Byte)
    requires |s| >= 2
    ensures var r1 := Run(s[1 := Reply(s[1].count, a)], pvalid, pdata);
      var r2 := Run(s[1 := Reply(s[1].count, b)], pvalid, pdata);
      && r1.exit == r2.exit && r1.readings == r2.readings && Ops(r1.issued) == Ops(r2.issued)
      && r1.identity.Some? == r2.identity.Some?
  {
    var s1 := s[1 := Reply(s[1].count, a)];
    var s2 := s[1 := Reply(s[1].count, b)];
    assert s1[2..] == s2[2..];
    assert s1[1..][0].count == s2[1..][0].count;
    var id1 := ReadReg8(s1, IdReg, 0);
    var id2 := ReadReg8(s2, IdReg, 0);
    assert id1.result == id2.result && Ops(id1.issued) == Ops(id2.issued);
    if id1.result == 0 {
      assert id1.rest == s1[2..] == s2[2..] == id2.rest;
      OpsConcat(id1.issued, Configure(id1.rest, Config).issued);
      OpsConcat(id2.issued, Configure(id2.rest, Config).issued);
      var cfg := Configure(id1.rest, Config);
      if cfg.result != -1 {
        var p := Poll(cfg.rest, pvalid, pdata);
        OpsConcat(id1.issued + cfg.issued, p.issued);
        OpsConcat(id2.issued + cfg.issued, p.issued);
      }
    }
  }

  /** A bus on which every transfer succeeds, with these bytes for the reads: the
      identity 0xAB, STATUS 0x00, then STATUS 0x02 with PDATA 10, then STATUS 0x02 with
      PDATA 20; after that the bus fails. */
  function ScenarioScript(): seq<Reply> {
    var ok := Reply(1, 0);
    [ok, Reply(1, 0xAB), ok, ok, ok, ok, ok, ok, ok, ok] + ScenarioPollScript()
  }

  /** The part of that script the polling loop sees. */
  function ScenarioPollScript(): seq<Reply> {
    [Reply(1, 0), Reply(1, 0x00)] + ScenarioReadingsScript()
  }

  /** Its last two iterations: two valid STATUS reads, each followed by a PDATA read. */
  function ScenarioReadingsScript(): seq<Reply> {
    var ok := Reply(1, 0);
    [ok, Reply(1, 0x02), ok, Reply(1, 10), ok, Reply(1, 0x02), ok, Reply(1, 20)]
  }

  /** The two valid iterations print 10 and 20, then the next STATUS select fails. */
  lemma ScenarioReadings(pdata: Byte)
    ensures Poll(ScenarioReadingsScript(), 0, pdata).emitted == [10, 20]
  {
    var q := ScenarioReadingsScript();
    var it1 := PollStep(q, 0, pdata);
    ReadingIteration(q, 0, pdata);
    PollEmitted(q, 0, pdata);
    var it2 := PollStep(q[4..], it1.pvalid, 10);
    ReadingIteration(q[4..], it1.pvalid, 10);
    PollEmitted(q[4..], it1.pvalid, 10);
    assert q[4..][4..] == [];
    var st := ReadReg8([], StatusReg, it2.pvalid);
    assert st.result == -1;
    PollEmitted([], it2.pvalid, 20);
  }

  /** STATUS 0x00 prints nothing; what follows prints 10 and 20. */
  lemma ScenarioPoll(pvalid: Byte, pdata: Byte)
    ensures Poll(ScenarioPollScript(), pvalid, pdata).emitted == [10, 20]
  {
    var q := ScenarioPollScript();
    ScenarioReadings(pdata);
    assert q[2..] == ScenarioReadingsScript();
    IdleIteration(q, pvalid, pdata);
  }

  /** A script made only of transfers has no failure before its end. */
  lemma NoFailure(s: seq<Reply>)
    ensures (forall i :: 0 <= i < |s| ==> Transferred(s[i])) ==> FirstFailure(s) == |s|
  {
  }

  /** Every reply of that script is a transfer. */
  lemma ScenarioNeverFails()
    ensures FirstFailure(ScenarioScript()) == |ScenarioScript()|
  {
    var s := ScenarioScript();
    var q := ScenarioPollScript();
    assert forall i :: 0 <= i < |q| ==> Transferred(q[i]);
    assert forall i :: 0 <= i < |s| ==> Transferred(s[i]);
    NoFailure(s);
  }

  /** The identity register answers 0xAB, and the loop sees the script from its
      eleventh reply on. */
  lemma ScenarioPrologue()
    ensures Drop(ScenarioScript(), |Prologue()|) == ScenarioPollScript()
    ensures ScenarioScript()[1].data == 0xAB
  {
    ConfigOrder();
    assert |Prologue()| == 10;
    assert ScenarioScript()[10..] == ScenarioPollScript();
  }

  /** On that bus the session prints the identity 0xAB, then 10 and 20, and ends with
      one transaction more than the script holds: the STATUS select that fails. */
  lemma TwoReadingsScenario(pvalid: Byte, pdata: Byte)
    ensures var r := Run(ScenarioScript(), pvalid, pdata);
      r.exit == 0 && r.identity == Some(0xAB) && r.readings == [10, 20]
      && |r.issued| == |ScenarioScript()| + 1
  {
    var s := ScenarioScript();
    ScenarioNeverFails();
    ScenarioPrologue();
    PollingFollowsSetup(s, pvalid, pdata);
    RunsToFirstFailure(s, pvalid, pdata);
    ScenarioPoll(pvalid, pdata);
  }
}
