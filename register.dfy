/**
 The register access protocol: select a register by writing its address, then move
 the value byte. The second step is attempted only when the first went through.
 */
module Register {
  import opened Bus

  /** `combinedI2CReadReg8`: write `reg`, then read the value into `*pvalue`. */
  function ReadReg8(s: seq<Reply>, reg: Byte, pvalue: Byte): (r: ReadAccess)
    ensures Consumes(s, r.issued, r.rest)
    ensures Ops(r.issued) <= [WriteOp(reg), ReadOp]
    ensures |r.issued| == (if Transferred(Next(s)) then 2 else 1)
    ensures r.result == 0 || r.result == -1
    ensures r.result == 0 ==> |r.issued| == 2 && AllOk(r.issued) && |r.rest| == |s| - 2
    ensures r.result == -1 ==> StopsAtFirstFailure(r.issued)
    ensures r.value == if r.result == 0 then r.issued[1].reply.data else pvalue
  {
    var w := WriteByte(s, reg);
    if w.result >= 0 then
      var rd := ReadByte(w.rest, pvalue);
      ConsumesThen(s, w.issued, w.rest, rd.issued, rd.rest);
      assert Ops(w.issued + rd.issued) == Ops(w.issued) + Ops(rd.issued);
      assert (w.issued + rd.issued)[1] == rd.issued[0];
      ReadAccess(w.issued + rd.issued, rd.rest, rd.result, rd.value)
    else
      assert w.issued[0].reply == Replies(w.issued)[0];
      ReadAccess(w.issued, w.rest, w.result, pvalue)
  }

  /** `combinedI2CWriteReg8`: write `reg`, then write `value`. */
  function WriteReg8(s: seq<Reply>, reg: Byte, value: Byte): (r: WriteAccess)
    ensures Consumes(s, r.issued, r.rest)
    ensures Ops(r.issued) <= [WriteOp(reg), WriteOp(value)]
    ensures |r.issued| == (if Transferred(Next(s)) then 2 else 1)
    ensures r.result == 0 || r.result == -1
    ensures r.result == 0 ==> |r.issued| == 2 && AllOk(r.issued) && |r.rest| == |s| - 2
    ensures r.result == -1 ==> StopsAtFirstFailure(r.issued)
  {
    var w := WriteByte(s, reg);
    if w.result >= 0 then
      var v := WriteByte(w.rest, value);
      ConsumesThen(s, w.issued, w.rest, v.issued, v.rest);
      assert Ops(w.issued + v.issued) == Ops(w.issued) + Ops(v.issued);
      WriteAccess(w.issued + v.issued, v.rest, v.result)
    else
      assert w.issued[0].reply == Replies(w.issued)[0];
      WriteAccess(w.issued, w.rest, w.result)
  }
}
