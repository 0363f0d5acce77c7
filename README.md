# APDS-9960 proximity polling over i2c-dev, in Dafny

`i2creadwrite.c` talks to an APDS-9960 proximity sensor through a Linux i2c-dev file
descriptor. Every bus access is a single-byte `read(2)` or `write(2)`. A register is
read by writing its address and then reading one byte. It is written by writing the
address and then the value. In both cases the second transaction is attempted only
when the first one succeeded. `main` runs these steps in order:

1. It reads the identity register 0x92.
2. It programs four registers: PILT 0x89 := 0, PIHT 0x8B := 175, PERS 0x8C := 0xC0,
   ENABLE 0x80 := 0x25.
3. It polls until a transaction fails. Each pass reads STATUS 0x93 and keeps the PVALID
   bit (`& 0x02`). When that bit is set, it reads PDATA 0x9C and prints it.

The model has a value layer and a stateful layer.

**The bus as a value.** The sensor's answers form a *script*: a sequence of `Reply`
values. Each reply holds the count `read`/`write` returned and the byte left in the
buffer. A count other than 1 is a failure, as the C code's `!= 1` test makes it. A
transaction issued after the script has run out fails.

Every operation is a function from the script to:
- the transactions it issued (`issued`, each with the reply it got),
- the script that remains (`rest`),
- the C results: return code, `*pvalue`, `pvalid`, `pdata` and printed values.

`Consumes` states that the transactions took their replies from the front of the
script, in order. The modules are:
- `Bus`: the byte primitives.
- `Register`: the register protocol.
- `Polling`: the loop body and the loop.
- `Session`: `main` after the handle is open.

**The handle as state.** `Device.Handle` performs the same steps in place, the way
the C program does. It is a class whose fields are:
- `script`: the replies still to come,
- `log`: the transactions issued so far,
- `closed`: whether `close(fd)` has been called.

Its methods mirror the C functions statement by statement. The setup is written as
four guarded calls and the poll as a `while` loop. Each method is proved to append
exactly the transactions of the matching function to `log` and to leave that
function's remaining script. So every lemma below also holds of the handle.

## Model

| member | source | states |
|---|---|---|
| Bus.ReadByte | i2creadwrite.c:63-79 | exactly one read is issued; the result is 0 exactly when that transfer moved one byte, else -1; `*pvalue` becomes the byte read on success and keeps its old value on failure |
| Bus.WriteByte | i2creadwrite.c:87-99 | exactly one write of `value` is issued; the result is 0 exactly when it transferred one byte, else -1 |
| Register.ReadReg8 | i2creadwrite.c:105-114 | the first transaction is a write of `reg`; the read follows only if that write succeeded (2 transactions, else 1); the result is 0 only when both succeeded; `*pvalue` is the byte read, or unchanged on any failure |
| Register.WriteReg8 | i2creadwrite.c:120-129 | the first transaction is a write of `reg`; the write of `value` follows only if it succeeded (2 transactions, else 1); the result is 0 only when both succeeded |
| Bus.FirstFailure | i2creadwrite.c:68 | the index of the first reply that is not a one-byte transfer: every earlier reply is one, and the reply at that index is not |
| Bus.StopIndex | i2creadwrite.c:164-184 | a run of transactions that ends at its first failure has exactly as many transactions as the script has leading transfers, plus one |
| Session.Configure | i2creadwrite.c:164-171 | the `if (result != -1)` chain: on success it wrote every register and then its value, in order, all successfully; on failure it stopped at the first failed transaction, and what it wrote is a prefix of that sequence |
| Session.ConfigOrder | i2creadwrite.c:164-171 | the setup writes are, in order, 0x89 0, 0x8B 175, 0x8C 0xC0, 0x80 0x25 |
| Session.SetupUnrolled | i2creadwrite.c:164-171 | the chain on the four settings is the four guarded statements written out: each write happens only when every earlier one succeeded, the chain ends with the first write that failed, and its transactions are those of the writes that happened, in order |
| Session.ConfigureSucceeds | i2creadwrite.c:164-171 | on a bus that transfers all eight setup bytes, the setup returns 0, writes every register and its value in order, and uses exactly eight replies |
| Polling.PValidMask | i2creadwrite.c:178 | `pvalid &= 0x2` yields 0x02 when bit 1 of STATUS is set and 0 otherwise |
| Polling.PollStep | i2creadwrite.c:176-183 | one pass reads STATUS and masks it; PDATA is read exactly when the STATUS read succeeded with PVALID set; `pdata` is printed whenever PDATA was attempted, even if that read failed; the pass issues 2 or 4 transactions on success and ends at its first failure otherwise |
| Polling.IdleIteration | i2creadwrite.c:177-180 | a pass whose STATUS read succeeds with PVALID clear uses two replies, prints nothing and leaves `pdata` alone |
| Polling.ReadingIteration | i2creadwrite.c:177-183 | a pass whose four transactions succeed with PVALID set uses four replies and prints the PDATA byte |
| Polling.Poll | i2creadwrite.c:175-184 | the loop ends on a failed transaction, which is its last one, and its first transaction selects STATUS |
| Polling.ResumeStep | i2creadwrite.c:175-184 | after a pass that returns 0 the loop resumes from the state the pass left and the script has shrunk; after a pass that returns -1 the run is complete |
| Polling.PollRunsToFirstFailure | i2creadwrite.c:175 | the loop issues exactly the transactions up to and including the script's first failed reply, and no transaction after it |
| Polling.PollEmitsPerValidStatus | i2creadwrite.c:180-183 | the number of values printed equals the number of PDATA selects in the loop's trace |
| Polling.PollGuardsDataReads | i2creadwrite.c:177-181 | every PDATA select in the loop's trace comes right after a STATUS select and a STATUS read that succeeded with PVALID set |
| Polling.PollValidStatusesFollowed | i2creadwrite.c:177-181 | every STATUS select whose STATUS read succeeded with PVALID set is followed, two transactions on, by a PDATA select; with `Polling.PollGuardsDataReads` this pairs each PDATA select with exactly one valid STATUS access, so the prints number the passes that found PVALID set |
| Polling.PollEmission | i2creadwrite.c:180-183 | the printed values are the bytes of the successful PDATA reads, in order; if the loop stopped inside a PDATA access, one more value follows: the last good PDATA byte, or the initial `pdata` if there was none |
| Session.Run | i2creadwrite.c:152-185 | `main` ends on its first failed transaction; the exit status is -1 exactly when the identity read failed and 0 otherwise; nothing is printed from the loop after an identity failure |
| Session.IdentitySucceeds | i2creadwrite.c:154-156 | when the first two replies are transfers, the identity read returns 0 with the second reply's byte, after selecting register 0x92 and reading once |
| Session.PrologueSucceeds | i2creadwrite.c:154-171 | when the script transfers the first ten bytes, the identity read and the setup both succeed, issue exactly the identity read and the eight setup writes, and leave the script from its eleventh reply on |
| Session.RunsToFirstFailure | i2creadwrite.c:154-185 | `main` issues exactly the transactions up to and including the first failed reply |
| Session.IdentityFailureIsFatal | i2creadwrite.c:154-161 | when the identity select or read fails, `main` exits with -1, prints no identity or readings, and issues nothing beyond those two transactions |
| Session.SetupFailureSkipsPolling | i2creadwrite.c:164-175 | when a setup write fails, the loop is never entered: no readings, no transaction beyond the setup sequence, the identity byte printed, and exit 0 |
| Session.PollingFollowsSetup | i2creadwrite.c:154-184 | when identity and setup succeed, the trace is the identity read, the eight setup writes in order, then exactly the loop run on the remaining script, and the readings are the loop's prints |
| Session.IdentityNotValidated | i2creadwrite.c:154-156 | the identity byte is never compared with anything: changing it changes neither the transactions, nor the exit status, nor the readings |
| Session.ScenarioReadings | i2creadwrite.c:175-184 | two passes with STATUS 0x02 and PDATA 10 and 20, then a failing bus, print 10 and 20 |
| Session.ScenarioPoll | i2creadwrite.c:175-184 | adding a first pass with STATUS 0x00 prints nothing more |
| Session.ScenarioNeverFails | i2creadwrite.c:154-184 | in the scenario script every reply is a transfer, so the session ends only when the script runs out |
| Session.ScenarioPrologue | i2creadwrite.c:154-171 | in the scenario script the identity byte is 0xAB, and the loop sees the script from its eleventh reply on |
| Session.TwoReadingsScenario | i2creadwrite.c:152-185 | identity 0xAB, STATUS 0x00 / 0x02 / 0x02 with PDATA 10 and 20, then bus failure: exit 0, identity 0xAB printed, readings exactly 10 then 20, and one transaction beyond the script (the failed STATUS select) |
| Device.Handle.constructor | i2creadwrite.c:142-150 | a handle after a successful open and I2C_SLAVE ioctl: the given replies to come, nothing issued, not closed |
| Device.Handle.ReadByte | i2creadwrite.c:63-79 | appends `Bus.ReadByte`'s transaction to the log and returns its result and `*pvalue` |
| Device.Handle.WriteByte | i2creadwrite.c:87-99 | appends `Bus.WriteByte`'s transaction to the log and returns its result |
| Device.Handle.ReadReg8 | i2creadwrite.c:105-114 | calls the handle's byte methods as `combinedI2CReadReg8` does; the log, the script, the result and `*pvalue` are those of `Register.ReadReg8` |
| Device.Handle.WriteReg8 | i2creadwrite.c:120-129 | calls the handle's byte methods as `combinedI2CWriteReg8` does; the log, the script and the result are those of `Register.WriteReg8` |
| Device.Handle.Close | i2creadwrite.c:159 | marks the handle closed and issues no transaction |
| Device.Handle.Setup | i2creadwrite.c:163-171 | the four guarded `if (result != -1)` setup statements leave exactly the log, the script and the result of `Session.Configure` on the four settings, so a failed write stops all later ones |
| Device.Handle.PollIteration | i2creadwrite.c:176-183 | the loop body leaves the log, the script, `result`, `pvalid`, `pdata` and the printed values of `Polling.PollStep` |
| Device.Handle.PollLoop | i2creadwrite.c:175-184 | the `while` loop leaves the log, the script and the printed values of `Polling.Poll` |
| Device.Handle.Run | i2creadwrite.c:152-185 | `main` after the open leaves the log, the script, the exit status, the identity and the readings of `Session.Run`, and closes the handle on both exits |

## Left out

- open(2) and the I2C_SLAVE ioctl (lines 142-150) are not modelled; the constructor of `Device.Handle` stands for a handle on which both succeeded.
- The global `fd` and the loop's `fd > 0` test (line 175) are left out: the handle is an object, and the model assumes the descriptor is positive. Line 142 rejects only a negative descriptor, so if open(2) returned 0 (possible when stdin is closed), the identity read and the setup would run, the loop would be skipped, the descriptor closed and `main` would exit with 0. That run is not modelled.
- The text of `perror` and `printf` is left out. `Outcome.identity` records that the identity line was printed and `readings` records the proximity lines.
- Timing is left out. The C loop busy-polls without delay, and the model has no clock.
- The effect of the register values on the sensor is left out. The model only sees the bytes on the bus, through a script of replies fixed in advance. So a device that remembers what was written, which a write-then-read round trip would need, is not modelled.
- The uninitialised locals `pvalid` and `pdata` (lines 173-174) are parameters: their starting values are arbitrary. Only `pdata`'s can be observed. It is printed when the first PDATA access fails before any PDATA read succeeded (`Polling.PollEmission`).
- The loop never ends while every transaction succeeds. Its model `Polling.Poll` is defined by recursion on the script's length, and the script is finite, so it describes every run that ends. A run that never fails is not modelled.

## Where the code does not do what it evidently means to do

The model follows the code in the place below.

- **Stale readings.** A proximity value should be printed only when it was read. But `printf("%d\n", pdata)` at line 182 is not guarded by the result of the PDATA read at line 181. So when that read (or its select) fails, the previous `pdata` is printed once more before the loop ends, or the uninitialised value if no PDATA read has succeeded yet. `Polling.PollStep` and `Polling.PollEmission` state this behaviour.

The exit status follows the code as well: `main` returns -1 when open, the I2C_SLAVE ioctl or the identity read fails. After a failed configuration write it skips the loop, closes the descriptor and falls off the end of `main`, which exits with 0. `Session.Run` and `Session.SetupFailureSkipsPolling` state this.
