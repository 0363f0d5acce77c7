/**
 The driver as the C program runs it: an open i2c-dev handle on which every call
 performs one transaction in place. The handle holds the replies the sensor is still
 going to give (`script`), the transactions issued so far (`log`) and whether the file
 descriptor has been closed. Each method is specified by the function of the same name
 in `Bus`, `Register`, `Polling` or `Session`: it appends that function's transactions
 to the log and leaves that function's remaining script, so every property proved of
 the functions holds of the handle.
 */
module Device {
  import opened Bus
  import Register
  import opened Polling
  import opened Session

  class Handle {
    /** Replies the device will give to the coming transactions, in order. */
    var script: seq<Reply>
    /** Every transaction issued on this handle, oldest first, with its reply. */
    var log: seq<Txn>
    /** `close(fd)` has been called. */
    var closed: bool

    /** A handle on which open(2) and the I2C_SLAVE ioctl have succeeded. */
    constructor (replies: seq<Reply>)
      ensures script == replies && log == [] && !closed
    {
      script := replies;
      log := [];
      closed := false;
    }

    /** `I2CReadByte(fd, pvalue)`, with `*pvalue` passed in and handed back. */
    method ReadByte(pvalue: Byte) returns (result: int, value: Byte)
      requires !closed
      modifies this
      ensures var r := Bus.ReadByte(old(script), pvalue);
        log == old(log) + r.issued && script == r.rest && !closed
        && result == r.result && value == r.value
    {
      var reply := Next(script);
      log := log + [Read(reply)];
      script := Drop(script, 1);
      if reply.count != 1 {
        result, value := -1, pvalue;
      } else {
        result, value := 0, reply.data;
      }
    }

    /** `I2CWriteByte(fd, value)`. */
    method WriteByte(value: Byte) returns (result: int)
      requires !closed
      modifies this
      ensures var r := Bus.WriteByte(old(script), value);
        log == old(log) + r.issued && script == r.rest && !closed && result == r.result
    {
      var reply := Next(script);
      log := log + [Write(value, reply)];
      script := Drop(script, 1);
      if reply.count != 1 {
        result := -1;
      } else {
        result := 0;
      }
    }

    /** `combinedI2CReadReg8(fd, reg, pvalue)`. */
    method ReadReg8(reg: Byte, pvalue: Byte) returns (result: int, value: Byte)
      requires !closed
      modifies this
      ensures var r := Register.ReadReg8(old(script), reg, pvalue);
        log == old(log) + r.issued && script == r.rest && !closed
        && result == r.result && value == r.value
    {
      result := WriteByte(reg);
      value := pvalue;
      if result >= 0 {
        ghost var mid := log;
        result, value := ReadByte(value);
        assert log == old(log) + (mid[|old(log)|..] + log[|mid|..]);
      }
    }

    /** `combinedI2CWriteReg8(fd, reg, value)`. */
    method WriteReg8(reg: Byte, value: Byte) returns (result: int)
      requires !closed
      modifies this
      ensures var r := Register.WriteReg8(old(script), reg, value);
        log == old(log) + r.issued && script == r.rest && !closed && result == r.result
    {
      result := WriteByte(reg);
      if result >= 0 {
        ghost var mid := log;
        result := WriteByte(value);
        assert log == old(log) + (mid[|old(log)|..] + log[|mid|..]);
      }
    }

    /** `close(fd)`. */
    method Close()
      modifies this
      ensures closed && script == old(script) && log == old(log)
    {
      closed := true;
    }

    /** The four setup statements of `main`, entered after a successful identity read
        (so with `result` 0): PILT, PIHT, PERS and ENABLE are written as `Configure`
        writes them, and none after the first failure. */
    method Setup() returns (result: int)
      requires !closed
      modifies this
      ensures var c := Configure(old(script), Config);
        log == old(log) + c.issued && script == c.rest && !closed && result == c.result
    {
      ghost var w1 := Register.WriteReg8(script, 0x89, 0);
      ghost var w2 := Register.WriteReg8(w1.rest, 0x8B, 175);
      ghost var w3 := Register.WriteReg8(w2.rest, 0x8C, 0xC0);
      ghost var w4 := Register.WriteReg8(w3.rest, 0x80, 0x25);
      SetupUnrolled(script);
      AppendTwice(log, w1.issued, w2.issued);
      AppendTwice(log, w1.issued + w2.issued, w3.issued);
      AppendTwice(log, w1.issued + w2.issued + w3.issued, w4.issued);
      result := 0;
      if result != -1 {
        result := WriteReg8(0x89, 0);       // proximity low threshold
      }
      if result != -1 {
        result := WriteReg8(0x8B, 175);     // proximity high threshold
      }
      if result != -1 {
        result := WriteReg8(0x8C, 0xC0);    // proximity interrupt persistence
      }
      if result != -1 {
        result := WriteReg8(0x80, 0x25);    // ENABLE: PIEN, PEN, PON
      }
    }

    /** One pass of the loop body: read STATUS into `pvalid` and mask it, and if that
        worked and PVALID is set, read PDATA into `pdata` and print it. It does what
        `PollStep` describes; `emitted` is what it printed. */
    method PollIteration(pvalid0: Byte, pdata0: Byte)
      returns (result: int, pvalid: Byte, pdata: Byte, emitted: seq<Byte>)
      requires !closed
      modifies this
      ensures var it := PollStep(old(script), pvalid0, pdata0);
        && log == old(log) + it.issued && script == it.rest && !closed
        && result == it.result && pvalid == it.pvalid && pdata == it.pdata && emitted == it.emitted
    {
      ghost var st := Register.ReadReg8(script, StatusReg, pvalid0);
      pdata, emitted := pdata0, [];
      // first read PVALID
      result, pvalid := ReadReg8(StatusReg, pvalid0);
      pvalid := Mask(pvalid, PValidBit);
      // then read PDATA
      if result != -1 && pvalid != 0 {
        ghost var d := Register.ReadReg8(script, DataReg, pdata);
        result, pdata := ReadReg8(DataReg, pdata);
        emitted := [pdata];
        AppendTwice(old(log), st.issued, d.issued);
      }
    }

    /** The loop `while (fd > 0 && result != -1)` with its body, entered with `result`
        0 and the current `pvalid` and `pdata`: it does what `Poll` describes and
        returns the values it printed. */
    method PollLoop(pvalid0: Byte, pdata0: Byte) returns (readings: seq<Byte>)
      requires !closed
      modifies this
      ensures var p := Poll(old(script), pvalid0, pdata0);
        log == old(log) + p.issued && script == p.rest && !closed && readings == p.emitted
    {
      var result := 0;
      var pvalid, pdata := pvalid0, pdata0;
      readings := [];
      ghost var p := Poll(script, pvalid0, pdata0);
      ghost var done: seq<Txn> := [];
      assert [] + p.issued == p.issued && [] + p.emitted == p.emitted;
      while result != -1
        invariant !closed
        invariant log == old(log) + done
        invariant result == 0 || result == -1
        invariant result == 0 ==> Resumes(p, done, readings, script, pvalid, pdata)
        invariant result == -1 ==> p.issued == done && p.rest == script && p.emitted == readings
        decreases if result == -1 then 0 else |script| + 1
      {
        ResumeStep(p, done, readings, script, pvalid, pdata);
        ghost var it := PollStep(script, pvalid, pdata);
        var emitted;
        result, pvalid, pdata, emitted := PollIteration(pvalid, pdata);
        readings := readings + emitted;
        AppendTwice(old(log), done, it.issued);
        done := done + it.issued;
      }
    }

    /** `main` from the identity read to its end, with `pvalid` and `pdata` the values
        the uninitialised locals start with. It does to the handle what `Session.Run`
        describes, and closes it. */
    method Run(pvalid: Byte, pdata: Byte) returns (exit: int, identity: Option<Byte>, readings: seq<Byte>)
      requires !closed
      modifies this
      ensures var r := Session.Run(old(script), pvalid, pdata);
        && log == old(log) + r.issued && script == r.rest && closed
        && exit == r.exit && identity == r.identity && readings == r.readings
    {
      var devId: Byte := 0;
      var result;
      ghost var id := Register.ReadReg8(script, IdReg, devId);
      result, devId := ReadReg8(IdReg, devId);
      if result >= 0 {
        identity := Some(devId);
      } else {
        Close();
        return -1, None, [];
      }
      // Setup
      ghost var cfg := Configure(script, Config);
      result := Setup();
      AppendTwice(old(log), id.issued, cfg.issued);
      readings := [];
      if result != -1 {
        ghost var poll := Poll(script, pvalid, pdata);
        readings := PollLoop(pvalid, pdata);
        AppendTwice(old(log), id.issued + cfg.issued, poll.issued);
      }
      Close();
      exit := 0;
    }
  }
}
