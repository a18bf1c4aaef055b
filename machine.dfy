/** `LaSpazialeCoffeeMachine`: one Modbus transaction per call, with the
    group-number guard in front of every per-group operation and the
    bounded wait for a group to become free. */
module Machine {
  import opened Wrappers
  import opened Registers
  import opened Transport
  import opened Decoders
  import opened Polling

  /** A `ValueError` raised for a group number outside 1..3, or the value
      the operation returned. */
  datatype Outcome<T> = GroupOutOfRange | Returned(value: T)

  /** The one-register read `is_group_busy` issues. */
  function StatusRead(groupNum: int): (req: Request)
    requires ValidGroup(groupNum)
    ensures req.ReadHoldingRegisters? && req.count == 1
    ensures GroupOfRegister(STATUS_BASE, req.address) == Some(groupNum)
  {
    GroupRegisterRoundTrip(STATUS_BASE, groupNum);
    ReadHoldingRegisters(StatusRegister(groupNum), 1)
  }

  /** `n` copies of the request `req` */
  function Repeat(req: Request, n: nat): (reqs: seq<Request>)
    ensures |reqs| == n && forall j :: 0 <= j < n ==> reqs[j] == req
  {
    seq(n, _ => req)
  }

  /** What the busy checks of a wait see, when the first of them is the
      transaction number `start` of the session. */
  function StatusReadings(bus: (nat, Request) -> Reply, start: nat, groupNum: int, polls: nat)
    : (readings: seq<Option<bool>>)
    requires ValidGroup(groupNum)
    ensures |readings| == polls
    ensures forall j :: 0 <= j < polls ==> readings[j] == BusyOf(bus(start + j, StatusRead(groupNum)))
  {
    seq(polls, j requires 0 <= j < polls => BusyOf(bus(start + j, StatusRead(groupNum))))
  }

  class LaSpazialeCoffeeMachine {
    /** The device behind the serial line: its reply to the `n`-th
        transaction of the session, given the request. */
    const bus: (nat, Request) -> Reply
    /** Every transaction issued so far, in order. */
    var log: seq<Request>

    constructor (bus: (nat, Request) -> Reply)
      ensures this.bus == bus && log == []
    {
      this.bus := bus;
      log := [];
    }

    /** The reply the next transaction receives. */
    function NextReply(req: Request): (reply: Reply)
      reads this
    {
      bus(|log|, req)
    }

    method Transact(req: Request) returns (reply: Reply)
      modifies this
      ensures log == old(log) + [req]
      ensures reply == old(NextReply(req))
    {
      reply := bus(|log|, req);
      log := log + [req];
    }

    method ReadRegisters(address: nat, count: nat) returns (reply: Reply)
      modifies this
      ensures log == old(log) + [ReadHoldingRegisters(address, count)]
      ensures reply == old(NextReply(ReadHoldingRegisters(address, count)))
    {
      reply := Transact(ReadHoldingRegisters(address, count));
    }

    /** `write_register(address, value)`, reporting whether it succeeded */
    method Write(address: nat, value: int) returns (ok: bool)
      modifies this
      ensures log == old(log) + [WriteRegister(address, value)]
      ensures ok == WriteAccepted(old(NextReply(WriteRegister(address, value))))
    {
      var reply := Transact(WriteRegister(address, value));
      ok := WriteAccepted(reply);
    }

    // -------------------------------------------------------------------
    // Identification

    method GetSerialNumber() returns (serial: Option<string>)
      modifies this
      ensures log == old(log) + [ReadHoldingRegisters(SERIAL_NUMBER_ADDRESS, SERIAL_NUMBER_COUNT)]
      ensures serial == SerialNumberOf(old(NextReply(ReadHoldingRegisters(SERIAL_NUMBER_ADDRESS, SERIAL_NUMBER_COUNT))))
    {
      var reply := ReadRegisters(SERIAL_NUMBER_ADDRESS, SERIAL_NUMBER_COUNT);
      serial := SerialNumberOf(reply);
    }

    method GetFirmwareVersion() returns (version: Option<string>)
      modifies this
      ensures log == old(log) + [ReadHoldingRegisters(FIRMWARE_VERSION_ADDRESS, 1)]
      ensures version == FirmwareVersionOf(old(NextReply(ReadHoldingRegisters(FIRMWARE_VERSION_ADDRESS, 1))))
    {
      var reply := ReadRegisters(FIRMWARE_VERSION_ADDRESS, 1);
      version := FirmwareVersionOf(reply);
    }

    // -------------------------------------------------------------------
    // Machine and group state

    method GetGroupSelection(groupNum: int) returns (r: Outcome<Option<GroupSelection>>)
      modifies this
      ensures !ValidGroup(groupNum) ==> r == GroupOutOfRange && log == old(log)
      ensures ValidGroup(groupNum) ==>
        log == old(log) + [StatusRead(groupNum)] &&
        r == Returned(SelectionOf(old(NextReply(StatusRead(groupNum)))))
    {
      if groupNum < 1 || groupNum > 3 {
        return GroupOutOfRange;
      }
      var reply := ReadRegisters(StatusRegister(groupNum), 1);
      r := Returned(SelectionOf(reply));
    }

    method GetSensorFault(groupNum: int) returns (r: Outcome<Option<bool>>)
      modifies this
      ensures !ValidGroup(groupNum) ==> r == GroupOutOfRange && log == old(log)
      ensures ValidGroup(groupNum) ==>
        var req := ReadHoldingRegisters(SensorFaultRegister(groupNum), 1);
        log == old(log) + [req] && r == Returned(IsOneOf(old(NextReply(req))))
    {
      if groupNum < 1 || groupNum > 3 {
        return GroupOutOfRange;
      }
      var reply := ReadRegisters(SensorFaultRegister(groupNum), 1);
      r := Returned(IsOneOf(reply));
    }

    method GetPurgeCountdown(groupNum: int) returns (r: Outcome<Option<Word>>)
      modifies this
      ensures !ValidGroup(groupNum) ==> r == GroupOutOfRange && log == old(log)
      ensures ValidGroup(groupNum) ==>
        var req := ReadHoldingRegisters(PurgeCountdownRegister(groupNum), 1);
        log == old(log) + [req] && r == Returned(FirstRegister(old(NextReply(req))))
    {
      if groupNum < 1 || groupNum > 3 {
        return GroupOutOfRange;
      }
      var reply := ReadRegisters(PurgeCountdownRegister(groupNum), 1);
      r := Returned(FirstRegister(reply));
    }

    method IsMachineBlocked() returns (blocked: Option<bool>)
      modifies this
      ensures log == old(log) + [ReadHoldingRegisters(MACHINE_BLOCKED_ADDRESS, 1)]
      ensures blocked == IsOneOf(old(NextReply(ReadHoldingRegisters(MACHINE_BLOCKED_ADDRESS, 1))))
    {
      var reply := ReadRegisters(MACHINE_BLOCKED_ADDRESS, 1);
      blocked := IsOneOf(reply);
    }

    method GetNumberOfGroups() returns (groups: Option<Word>)
      modifies this
      ensures log == old(log) + [ReadHoldingRegisters(NUMBER_OF_GROUPS_ADDRESS, 1)]
      ensures groups == FirstRegister(old(NextReply(ReadHoldingRegisters(NUMBER_OF_GROUPS_ADDRESS, 1))))
    {
      var reply := ReadRegisters(NUMBER_OF_GROUPS_ADDRESS, 1);
      groups := FirstRegister(reply);
    }

    method IsGroupBusy(groupNum: int) returns (r: Outcome<Option<bool>>)
      modifies this
      ensures !ValidGroup(groupNum) ==> r == GroupOutOfRange && log == old(log)
      ensures ValidGroup(groupNum) ==>
        log == old(log) + [StatusRead(groupNum)] &&
        r == Returned(BusyOf(old(NextReply(StatusRead(groupNum)))))
    {
      if groupNum < 1 || groupNum > 3 {
        return GroupOutOfRange;
      }
      var reply := ReadRegisters(StatusRegister(groupNum), 1);
      r := Returned(BusyOf(reply));
    }

    /** Polls the group's status until it reads free, a read fails, or the
        deadline passes; `polls` is the number of passes the deadline
        admits. An out-of-range group raises on the first pass, so it
        escapes only when there is one. */
    method WaitUntilGroupIsFree(groupNum: int, polls: nat) returns (r: Outcome<bool>)
      modifies this
      ensures !ValidGroup(groupNum) ==>
        r == (if polls == 0 then Returned(false) else GroupOutOfRange) && log == old(log)
      ensures ValidGroup(groupNum) ==>
        var w := Wait(StatusReadings(bus, |old(log)|, groupNum, polls));
        r == Returned(w.outcome == BecameFree) &&
        log == old(log) + Repeat(StatusRead(groupNum), w.polled)
    {
      ghost var readings := if ValidGroup(groupNum) then StatusReadings(bus, |log|, groupNum, polls) else [];
      var i := 0;
      while i < polls
        invariant i <= polls
        invariant !ValidGroup(groupNum) ==> i == 0 && log == old(log)
        invariant ValidGroup(groupNum) ==>
          readings == StatusReadings(bus, |old(log)|, groupNum, polls) &&
          log == old(log) + Repeat(StatusRead(groupNum), i) &&
          BusyBefore(readings, i)
      {
        var busy := IsGroupBusy(groupNum);
        if busy.GroupOutOfRange? {
          return GroupOutOfRange;
        }
        assert busy.value == readings[i];
        if busy.value.None? {
          WaitStopsAtFirstNonBusy(readings, i);
          assert log == old(log) + Repeat(StatusRead(groupNum), i + 1);
          return Returned(false);
        }
        if !busy.value.value {
          WaitStopsAtFirstNonBusy(readings, i);
          assert log == old(log) + Repeat(StatusRead(groupNum), i + 1);
          return Returned(true);
        }
        i := i + 1;
      }
      if ValidGroup(groupNum) {
        WaitTimesOut(readings);
      }
      r := Returned(false);
    }

    // -------------------------------------------------------------------
    // Commands

    method SendCoffeeCommand(groupNum: int, command: int) returns (r: Outcome<bool>)
      modifies this
      ensures !ValidGroup(groupNum) ==> r == GroupOutOfRange && log == old(log)
      ensures ValidGroup(groupNum) ==>
        var req := WriteRegister(CommandRegister(groupNum), command);
        log == old(log) + [req] && r == Returned(WriteAccepted(old(NextReply(req))))
    {
      if groupNum < 1 || groupNum > 3 {
        return GroupOutOfRange;
      }
      var ok := Write(CommandRegister(groupNum), command);
      r := Returned(ok);
    }

    /** The effect shared by every named command wrapper. */
    ghost predicate SentCommand(groupNum: int, c: CoffeeCommand, r: Outcome<bool>, log0: seq<Request>)
      reads this
    {
      if !ValidGroup(groupNum) then r == GroupOutOfRange && log == log0
      else
        var req := WriteRegister(CommandRegister(groupNum), CommandCode(c));
        log == log0 + [req] && r == Returned(WriteAccepted(bus(|log0|, req)))
    }

    method DeliverSingleShort(groupNum: int) returns (r: Outcome<bool>)
      modifies this
      ensures SentCommand(groupNum, SingleShort, r, old(log))
    {
      r := SendCoffeeCommand(groupNum, 1);
    }

    method DeliverSingleLong(groupNum: int) returns (r: Outcome<bool>)
      modifies this
      ensures SentCommand(groupNum, SingleLong, r, old(log))
    {
      r := SendCoffeeCommand(groupNum, 2);
    }

    method DeliverDoubleShort(groupNum: int) returns (r: Outcome<bool>)
      modifies this
      ensures SentCommand(groupNum, DoubleShort, r, old(log))
    {
      r := SendCoffeeCommand(groupNum, 4);
    }

    method DeliverDoubleLong(groupNum: int) returns (r: Outcome<bool>)
      modifies this
      ensures SentCommand(groupNum, DoubleLong, r, old(log))
    {
      r := SendCoffeeCommand(groupNum, 8);
    }

    method DeliverSingleMedium(groupNum: int) returns (r: Outcome<bool>)
      modifies this
      ensures SentCommand(groupNum, SingleMedium, r, old(log))
    {
      r := SendCoffeeCommand(groupNum, 32);
    }

    method DeliverDoubleMedium(groupNum: int) returns (r: Outcome<bool>)
      modifies this
      ensures SentCommand(groupNum, DoubleMedium, r, old(log))
    {
      r := SendCoffeeCommand(groupNum, 64);
    }

    method StopDelivery(groupNum: int) returns (r: Outcome<bool>)
      modifies this
      ensures SentCommand(groupNum, Registers.StopDelivery, r, old(log))
    {
      r := SendCoffeeCommand(groupNum, 128);
    }

    method StartPurge(groupNum: int) returns (r: Outcome<bool>)
      modifies this
      ensures SentCommand(groupNum, Registers.StartPurge, r, old(log))
    {
      r := SendCoffeeCommand(groupNum, 256);
    }

    /** `set_num`: 1 for SET 1, 2 for SET 2, 0 to stop; any other value is
        passed to the bus as it is. */
    method SendWaterCommand(setNum: int) returns (ok: bool)
      modifies this
      ensures log == old(log) + [WriteRegister(WATER_COMMAND_ADDRESS, setNum)]
      ensures ok == WriteAccepted(old(NextReply(WriteRegister(WATER_COMMAND_ADDRESS, setNum))))
    {
      ok := Write(WATER_COMMAND_ADDRESS, setNum);
    }

    method SendMatCommand(setNum: int) returns (ok: bool)
      modifies this
      ensures log == old(log) + [WriteRegister(MAT_COMMAND_ADDRESS, setNum)]
      ensures ok == WriteAccepted(old(NextReply(WriteRegister(MAT_COMMAND_ADDRESS, setNum))))
    {
      ok := Write(MAT_COMMAND_ADDRESS, setNum);
    }
  }

  /** A device whose group 2 reports a purge (bit 7) for three reads and
      then an idle status: waiting with a 30-pass deadline succeeds after
      exactly four status reads. */
  method BusyThenFreeScenario() returns (r: Outcome<bool>, transactions: nat)
    ensures r == Returned(true) && transactions == 4
  {
    var bus := (n: nat, req: Request) => if n < 3 then Answer([0x80]) else Answer([0]);
    var m := new LaSpazialeCoffeeMachine(bus);
    ghost var readings := StatusReadings(bus, 0, 2, 30);
    assert FirstRegister(Answer([0x80])) == Some(0x80) && FirstRegister(Answer([0])) == Some(0);
    assert forall j :: 0 <= j < 3 ==> readings[j] == Some(true);
    assert readings[3] == Some(false);
    assert readings[..4] == [Some(true), Some(true), Some(true), Some(false)];
    BusyThreeTimesThenFree(readings);
    r := m.WaitUntilGroupIsFree(2, 30);
    transactions := |m.log|;
  }

  /** An out-of-range group never reaches the bus, whatever the device. */
  method OutOfRangeScenario(bus: (nat, Request) -> Reply, groupNum: int) returns (allRaised: bool, transactions: nat)
    requires !ValidGroup(groupNum)
    ensures allRaised && transactions == 0
  {
    var m := new LaSpazialeCoffeeMachine(bus);
    var s := m.GetGroupSelection(groupNum);
    var f := m.GetSensorFault(groupNum);
    var p := m.GetPurgeCountdown(groupNum);
    var b := m.IsGroupBusy(groupNum);
    var c := m.SendCoffeeCommand(groupNum, CommandCode(SingleShort));
    var d1 := m.DeliverSingleShort(groupNum);
    var d2 := m.DeliverSingleLong(groupNum);
    var d3 := m.DeliverDoubleShort(groupNum);
    var d4 := m.DeliverDoubleLong(groupNum);
    var d5 := m.DeliverSingleMedium(groupNum);
    var d6 := m.DeliverDoubleMedium(groupNum);
    var d7 := m.StopDelivery(groupNum);
    var d8 := m.StartPurge(groupNum);
    var w := m.WaitUntilGroupIsFree(groupNum, 30);
    allRaised := s.GroupOutOfRange? && f.GroupOutOfRange? && p.GroupOutOfRange? && b.GroupOutOfRange?
                 && c.GroupOutOfRange? && d1.GroupOutOfRange? && d2.GroupOutOfRange? && d3.GroupOutOfRange?
                 && d4.GroupOutOfRange? && d5.GroupOutOfRange? && d6.GroupOutOfRange? && d7.GroupOutOfRange?
                 && d8.GroupOutOfRange? && w.GroupOutOfRange?;
    transactions := |m.log|;
  }
}
