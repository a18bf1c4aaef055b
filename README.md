# La Spaziale S50 robot: Modbus register layer

A Dafny model of `LaSpazialeCoffeeMachine`, the Modbus RTU driver for the
La Spaziale S50-QSS espresso robot. The file is `test_communction.py`. The
driver adds four things on top of a Modbus master:

- a fixed register map: the serial number, firmware version, group status,
  sensor fault, purge countdown, machine-blocked and group-count registers,
  and the command, water and MAT registers;
- the decoders that turn 16-bit register words into Python values;
- a guard on every per-group operation that raises `ValueError` for a group
  outside 1..3 before any bus transaction;
- `wait_until_group_is_free`, a loop that polls a group's status until it
  reads free, a read fails, or a deadline passes.

Modules, one per concern:

- `Bits`: Python's `>>` and `&` on non-negative integers, defined bit by bit.
  Lemmas tie them to division and remainder: masking with `2^n - 1` keeps the
  remainder modulo `2^n`, and masking with `2^k` tests bit `k`.
- `Decimal`: `str()` of a non-negative integer, and its inverse.
- `Registers`: the addresses, the 16-bit `Word` type, the group guard, the
  per-group banks `base + (g - 1)`, and the coffee command codes.
- `Transport`: the requests the driver issues and the replies it gets back.
- `Decoders`: serial number, firmware version, group selection, busy test and
  the `== 1` tests, each with its inverse or reference definition.
- `Polling`: the outcome of the wait loop as a function of the busy readings
  it sees.
- `Machine`: the class. It holds the device as an oracle,
  `bus: (nat, Request) -> Reply`, which is the reply to the n-th transaction
  of the session given its request. It also holds `log`, the transactions
  issued so far. Each method's contract gives its result and its new `log`.
  So "no transaction happened" reads `log == old(log)`.

The error paths follow the code. A failed reply and an exception raised by
the library are one outcome, `Failed`. A read then returns `None` and a
write returns `False`. `result.registers[0]` on an empty register list
raises `IndexError`, and the driver's `except Exception` turns that into
`None` as well (`Transport.FirstRegister`). A `ValueError` for a bad group is
`Machine.Outcome.GroupOutOfRange`. The wait loop calls `is_group_busy` only
inside its body, so a bad group escapes from it only when the deadline
allows at least one pass. With no passes the wait returns `False`.

The sensor-fault and machine-blocked tests compare the register with `== 1`
rather than testing it for nonzero, so a reading of 2 counts as no fault and
as not blocked (`Decoders.IsOneOf`). Every per-group operation of the file
bounds groups to 1..3.

## Model

| member | source | states |
|---|---|---|
| `Bits.Shr` | test_communction.py:54 | `a >> n` is `a / 2^n` |
| `Bits.And` | test_communction.py:55 | `a & b` is at most either operand; its meaning as a mask is given by `Bits.AndLowMask` and `Bits.AndSingleBit` |
| `Bits.AndLowMask` | test_communction.py:55 | `a & (2^n - 1)` is `a % 2^n`, so `& 0xFF` keeps the low byte |
| `Bits.AndSingleBit` | test_communction.py:79-86 | `a & 2^k` is `2^k` if bit k of `a` is set and 0 otherwise |
| `Bits.LowBitsNonZero` | test_communction.py:228-229 | `a % 2^n != 0` iff one of bits 0..n-1 of `a` is set |
| `Bits.DistinctPow2Disjoint` | test_communction.py:151-160 | two different powers of two share no bit |
| `Bits.Pow2Injective` | test_communction.py:151-160 | different bit positions give different powers of two |
| `Decimal.Format` | test_communction.py:56 | `str(n)` is a non-empty string of digits; it starts with `0` only for `n == 0`, which gives `"0"` |
| `Decimal.ParseFormat` | test_communction.py:56 | parsing `str(n)` gives back `n` |
| `Decimal.FormatInjective` | test_communction.py:56 | different numbers have different decimal strings |
| `Registers.GroupRegister` | test_communction.py:70 | `base + (g - 1)` for a group 1..3 lies in `base .. base + 2` |
| `Registers.ValidGroup` | test_communction.py:67-68 | the guard `group_num < 1 or group_num > 3` (repeated at lines 94, 110, 162 and 210) admits exactly 1, 2 and 3; `Registers.GroupOfRegister` only returns such groups |
| `Registers.GroupOfRegister` | test_communction.py:70 | the inverse address-to-group map only returns groups in 1..3 |
| `Registers.GroupRegisterRoundTrip` | test_communction.py:70 | the inverse map recovers the group from its register |
| `Registers.GroupOfRegisterRoundTrip` | test_communction.py:70 | a register the inverse map accepts is the register of the group it names |
| `Registers.GroupRegisterInjective` | test_communction.py:70 | within a bank, different groups get different registers |
| `Registers.StatusRegister` | test_communction.py:215 | the status register of a group lies in 256..258 |
| `Registers.SensorFaultRegister` | test_communction.py:97 | the sensor-fault register of a group lies in 260..262 |
| `Registers.PurgeCountdownRegister` | test_communction.py:113 | the purge-countdown register of a group lies in 264..266 |
| `Registers.CommandRegister` | test_communction.py:165 | the command register of a group lies in 512..514 |
| `Registers.RegistersDistinct` | test_communction.py:37-285 | the serial block 0..9 ends below the firmware register 11, which lies below every bank; the status, fault, countdown and command banks are pairwise disjoint; no bank register is 269, 270, 516 or 517 |
| `Registers.CommandCode` | test_communction.py:151-160 | each of the nine commands is coded as `2^k` for its own bit k (1, 2, 4, ..., 256) |
| `Registers.CommandOfCode` | test_communction.py:151-160 | decoding a value gives a command with that code, and gives none when no command has that code |
| `Registers.CommandCodeRoundTrip` | test_communction.py:151-160 | decoding a command's code gives the command back |
| `Registers.CommandCodesDisjoint` | test_communction.py:151-160 | different commands have different codes that share no bit |
| `Transport.FirstRegister` | test_communction.py:53 | `registers[0]` exists exactly when the read succeeded with a non-empty register list; otherwise the `IndexError` is caught and gives no value |
| `Transport.WriteAccepted` | test_communction.py:169 | `not result.isError()`, as at lines 274 and 286: a write succeeds iff its reply is not `Failed` |
| `Decoders.HighByte` | test_communction.py:41 | `reg >> 8` of a 16-bit word is a byte: `reg / 256` |
| `Decoders.LowByte` | test_communction.py:41 | `reg & 0xFF` is `reg % 256` |
| `Decoders.SerialChars` | test_communction.py:41 | the unstripped serial has exactly two characters per register |
| `Decoders.SerialCharsAt` | test_communction.py:41 | characters 2i and 2i+1 are the high and the low byte of register i |
| `Decoders.StripTrailingNul` | test_communction.py:42 | `rstrip('\x00')` returns a prefix that does not end in NUL, and everything it removes is NUL |
| `Decoders.StripTrailingNulUnique` | test_communction.py:42 | those three properties determine the stripped string |
| `Decoders.DecodeSerial` | test_communction.py:41-42 | the serial is a prefix of the two-characters-per-register string, does not end in NUL, and only NULs follow it |
| `Decoders.SerialCharsPack` | test_communction.py:41 | decoding the registers that pack a byte text, high byte first, gives back the text |
| `Decoders.SerialRoundTrip` | test_communction.py:40-42 | a serial padded with NULs to the register width reads back as itself |
| `Decoders.SerialExample` | test_communction.py:37-42 | a 17-character serial in the ten serial registers, padded with three NULs, reads back unpadded |
| `Decoders.DecodeFirmware` | test_communction.py:53-55 | `major*256 + minor == reg`, with `major = (reg >> 8) & 0xFF` and `minor = reg & 0xFF` both bytes |
| `Decoders.VersionString` | test_communction.py:56 | `f"{major}.{minor}"` contains the dot, and `Decoders.FirmwareStringRoundTrip` parses it back to the register |
| `Decoders.FirmwareStringRoundTrip` | test_communction.py:53-56 | parsing `f"{major}.{minor}"` gives back the register |
| `Decoders.FirmwareStringInjective` | test_communction.py:53-56 | different registers give different version strings |
| `Decoders.SelectionBit` | test_communction.py:78-87 | each of the 8 selection flags is set iff its bit 0..7 of the status word is set |
| `Decoders.DecodeSelection` | test_communction.py:78-87 | the eight `bool(status & mask)` flags; `Decoders.SelectionBit` proves flag k is bit k |
| `Decoders.LowBitList` | test_communction.py:78-87 | the list of the low n bits, element k being bit k |
| `Decoders.BitListValue` | test_communction.py:78-87 | the value of n bits is below `2^n` |
| `Decoders.BitListValueOfLowBits` | test_communction.py:78-87 | the low n bits of `w` are worth `w % 2^n` |
| `Decoders.LowBitsOfBitListValue` | test_communction.py:78-87 | reading back the bits of a bit list's value gives the list |
| `Decoders.SelectionIsLowByte` | test_communction.py:77-87 | the 8 flags, in bit order, are the bits of the low byte of the status word and are worth `status % 256` |
| `Decoders.EncodeSelection` | test_communction.py:77-87 | the status byte that carries a selection is below 256 |
| `Decoders.SelectionRoundTrip` | test_communction.py:77-87 | decoding the encoded selection gives it back, for all 256 combinations |
| `Decoders.SelectionIgnoresHighByte` | test_communction.py:77-87 | bits 8..15 of the status word do not affect the selection |
| `Decoders.BusyIffAnyFlag` | test_communction.py:226-229 | busy (`status & 0xFF != 0`) iff some selection flag is set, iff `status % 256 != 0` |
| `Decoders.IsBusyStatus` | test_communction.py:228-229 | `(status & 0xFF) != 0`; `Decoders.BusyIffAnyFlag` proves it holds iff some selection flag is set |
| `Decoders.SerialNumberOf` | test_communction.py:36-42 | a serial comes back iff the read succeeded, and it has at most two characters per register |
| `Decoders.FirmwareVersionOf` | test_communction.py:50-56 | a version string comes back iff the first register was read, and it parses back to that register |
| `Decoders.SelectionOf` | test_communction.py:73-87 | a selection comes back iff the first register was read, and it encodes that register's low byte |
| `Decoders.IsOneOf` | test_communction.py:100-103 | the fault (or blocked) test is `Some(true)` iff the register read is exactly 1 |
| `Decoders.BusyOf` | test_communction.py:218-231 | `None` iff the status read failed; otherwise true iff the low byte is nonzero |
| `Decoders.BusyAgreesWithSelection` | test_communction.py:218-231 | `is_group_busy` and `get_group_selection` fail on the same replies, and busy means some flag is set |
| `Polling.Wait` | test_communction.py:250-265 | at most one read per pass; ends timed out iff every pass was taken and the last reading was busy |
| `Polling.WaitStopsAtFirstNonBusy` | test_communction.py:250-259 | the first non-busy reading, at position k, ends the wait after k+1 reads: false on an error, true on free |
| `Polling.WaitTimesOut` | test_communction.py:250-265 | only busy readings: the deadline passes after one read per pass, and the result is false |
| `Polling.WaitOutcomes` | test_communction.py:250-265 | free iff a free reading follows only busy ones; failed iff an error reading follows only busy ones; timed out iff all readings are busy |
| `Polling.BusyThreeTimesThenFree` | test_communction.py:250-262 | busy three times and then free: true after exactly four reads |
| `Machine.LaSpazialeCoffeeMachine.constructor` | test_communction.py:6-23 | a new session uses the given device and has issued no transaction |
| `Machine.StatusRead` | test_communction.py:214-217 | the busy check reads one register, and that register belongs to the status bank of the given group |
| `Machine.LaSpazialeCoffeeMachine.Transact` | test_communction.py:37 | one transaction: the request is logged, and the reply is the device's answer to the next transaction number |
| `Machine.LaSpazialeCoffeeMachine.ReadRegisters` | test_communction.py:73 | logs one `read_holding_registers(address, count)` and returns the device's reply |
| `Machine.LaSpazialeCoffeeMachine.Write` | test_communction.py:168-169 | logs one `write_register(address, value)`; true iff the reply is not an error |
| `Machine.LaSpazialeCoffeeMachine.GetSerialNumber` | test_communction.py:34-45 | one read of 10 registers at 0, decoded as the serial or `None` |
| `Machine.LaSpazialeCoffeeMachine.GetFirmwareVersion` | test_communction.py:47-59 | one read of register 11, decoded as `major.minor` or `None` |
| `Machine.LaSpazialeCoffeeMachine.GetGroupSelection` | test_communction.py:62-90 | bad group: `ValueError`, no transaction; else one read of 256+(g-1) and its 8 flags or `None` |
| `Machine.LaSpazialeCoffeeMachine.GetSensorFault` | test_communction.py:92-106 | bad group: `ValueError`, no transaction; else one read of 260+(g-1), true iff it is 1, or `None` |
| `Machine.LaSpazialeCoffeeMachine.GetPurgeCountdown` | test_communction.py:108-122 | bad group: `ValueError`, no transaction; else one read of 264+(g-1), returning the register or `None` |
| `Machine.LaSpazialeCoffeeMachine.IsMachineBlocked` | test_communction.py:124-133 | one read of register 269, true iff it is 1, or `None` |
| `Machine.LaSpazialeCoffeeMachine.GetNumberOfGroups` | test_communction.py:135-144 | one read of register 270, returning the register or `None` |
| `Machine.LaSpazialeCoffeeMachine.IsGroupBusy` | test_communction.py:206-234 | bad group: `ValueError`, no transaction; else one read of 256+(g-1), busy iff its low byte is nonzero, `None` on error |
| `Machine.LaSpazialeCoffeeMachine.WaitUntilGroupIsFree` | test_communction.py:236-265 | the result and the status reads issued are those of `Polling.Wait` on the device's successive replies; a bad group raises on the first pass and issues nothing |
| `Machine.LaSpazialeCoffeeMachine.SendCoffeeCommand` | test_communction.py:147-172 | bad group: `ValueError`, no transaction; else exactly one write of the command to 512+(g-1), true iff it succeeded |
| `Machine.LaSpazialeCoffeeMachine.DeliverSingleShort` | test_communction.py:174-176 | one write of 1 to the group's command register, or `ValueError` with no write |
| `Machine.LaSpazialeCoffeeMachine.DeliverSingleLong` | test_communction.py:178-180 | one write of 2 to the group's command register, or `ValueError` with no write |
| `Machine.LaSpazialeCoffeeMachine.DeliverDoubleShort` | test_communction.py:182-184 | one write of 4 to the group's command register, or `ValueError` with no write |
| `Machine.LaSpazialeCoffeeMachine.DeliverDoubleLong` | test_communction.py:186-188 | one write of 8 to the group's command register, or `ValueError` with no write |
| `Machine.LaSpazialeCoffeeMachine.DeliverSingleMedium` | test_communction.py:190-192 | one write of 32 to the group's command register, or `ValueError` with no write |
| `Machine.LaSpazialeCoffeeMachine.DeliverDoubleMedium` | test_communction.py:194-196 | one write of 64 to the group's command register, or `ValueError` with no write |
| `Machine.LaSpazialeCoffeeMachine.StopDelivery` | test_communction.py:198-200 | one write of 128 to the group's command register, or `ValueError` with no write |
| `Machine.LaSpazialeCoffeeMachine.StartPurge` | test_communction.py:202-204 | one write of 256 to the group's command register, or `ValueError` with no write |
| `Machine.LaSpazialeCoffeeMachine.SendWaterCommand` | test_communction.py:267-277 | exactly one write of `set_num` to register 516, true iff it succeeded |
| `Machine.LaSpazialeCoffeeMachine.SendMatCommand` | test_communction.py:279-289 | exactly one write of `set_num` to register 517, true iff it succeeded |
| `Machine.BusyThenFreeScenario` | test_communction.py:236-265 | group 2 reports a purge for three reads and then idle: the wait returns true after exactly four transactions |
| `Machine.OutOfRangeScenario` | test_communction.py:67-68 | with an out-of-range group, all fourteen per-group operations (selection, fault, countdown, busy, the command, its eight wrappers and the wait) raise and no transaction reaches the device |

## Left out

- Building the pymodbus client, `connect`, `disconnect` and the serial
  parameters (port, 9600 baud, 8N1, 1 s timeout, slave address 1) are not
  modelled (test_communction.py:14-31). They are I/O over a foreign
  library. The device is the `bus` oracle instead.
- Modbus RTU framing, CRC and the slave address belong to the Modbus library.
  They are not modelled.
- Machine.LaSpazialeCoffeeMachine.WaitUntilGroupIsFree: does not model the
  wall clock. `time.time()`, `time.sleep(check_interval)` and the float
  `timeout` are replaced by `polls`, the number of passes the deadline test
  admits. How many passes a given timeout and interval allow depends on
  real time, so the model does not relate `polls` to `timeout` and
  `check_interval`.
- `print` diagnostics are left out. So is the distinction between the
  exceptions the library can raise: every exception is the `Failed` reply.
- `main()` is not modelled (test_communction.py:292-411). It is a demo
  script with register dumps and formatting, and has no logic of its own.
- Register values are taken to be 16-bit words (`Registers.Word`), as a Modbus
  holding register is. Write values are passed on unchecked, as in the
  source. Whether the library rejects an out-of-range value is up to the
  `bus` oracle.
- Decoders.SerialNumberOf: the source asks for 10 registers, but the decoder
  accepts any number, as the list comprehension does. The model does not
  assume the device returns exactly 10.
