/** The S50 holding-register map: fixed addresses, the per-group banks
    indexed by a group number 1..3, and the coffee command codes. */
module Registers {
  import opened Bits
  import opened Wrappers

  /** A Modbus holding register holds 16 bits. */
  type Word = w: nat | w < 0x1_0000
  type Byte = b: nat | b < 0x100

  const SERIAL_NUMBER_ADDRESS: nat := 0
  const SERIAL_NUMBER_COUNT: nat := 10
  const FIRMWARE_VERSION_ADDRESS: nat := 11
  const STATUS_BASE: nat := 256
  const SENSOR_FAULT_BASE: nat := 260
  const PURGE_COUNTDOWN_BASE: nat := 264
  const MACHINE_BLOCKED_ADDRESS: nat := 269
  const NUMBER_OF_GROUPS_ADDRESS: nat := 270
  const COMMAND_BASE: nat := 512
  const WATER_COMMAND_ADDRESS: nat := 516
  const MAT_COMMAND_ADDRESS: nat := 517
  const GROUP_COUNT: nat := 3

  /** The guard every per-group operation runs before touching the bus:
      anything below 1 or above 3 raises `ValueError`. */
  predicate ValidGroup(groupNum: int)
  {
    !(groupNum < 1 || groupNum > GROUP_COUNT)
  }

  /** `base + (group_num - 1)` */
  function GroupRegister(base: nat, groupNum: int): (address: nat)
    requires ValidGroup(groupNum)
    ensures base <= address < base + GROUP_COUNT
  {
    base + (groupNum - 1)
  }

  /** The group a register of a bank belongs to, if any: the inverse of
      `GroupRegister`. */
  function GroupOfRegister(base: nat, address: nat): (g: Option<int>)
    ensures g.Some? ==> ValidGroup(g.value)
  {
    if base <= address < base + GROUP_COUNT then Some(address - base + 1) else None
  }

  lemma GroupRegisterRoundTrip(base: nat, groupNum: int)
    requires ValidGroup(groupNum)
    ensures GroupOfRegister(base, GroupRegister(base, groupNum)) == Some(groupNum)
  {
  }

  lemma {:induction false} GroupOfRegisterRoundTrip(base: nat, address: nat)
    requires GroupOfRegister(base, address).Some?
    ensures GroupRegister(base, GroupOfRegister(base, address).value) == address
  {
  }

  /** Each bank maps the three groups to three different registers. */
  lemma GroupRegisterInjective(base: nat, g1: int, g2: int)
    requires ValidGroup(g1) && ValidGroup(g2)
    requires GroupRegister(base, g1) == GroupRegister(base, g2)
    ensures g1 == g2
  {
    GroupRegisterRoundTrip(base, g1);
    GroupRegisterRoundTrip(base, g2);
  }

  function StatusRegister(groupNum: int): (address: nat)
    requires ValidGroup(groupNum)
    ensures 256 <= address <= 258
  {
    GroupRegister(STATUS_BASE, groupNum)
  }

  function SensorFaultRegister(groupNum: int): (address: nat)
    requires ValidGroup(groupNum)
    ensures 260 <= address <= 262
  {
    GroupRegister(SENSOR_FAULT_BASE, groupNum)
  }

  function PurgeCountdownRegister(groupNum: int): (address: nat)
    requires ValidGroup(groupNum)
    ensures 264 <= address <= 266
  {
    GroupRegister(PURGE_COUNTDOWN_BASE, groupNum)
  }

  function CommandRegister(groupNum: int): (address: nat)
    requires ValidGroup(groupNum)
    ensures 512 <= address <= 514
  {
    GroupRegister(COMMAND_BASE, groupNum)
  }

  /** The registers the driver addresses do not overlap: the serial block
      0..9 ends below the firmware register 11, which lies below the group
      banks; the four banks are pairwise disjoint; and no bank register is
      one of the fixed registers 269, 270, 516 and 517. */
  lemma RegistersDistinct(g1: int, g2: int)
    requires ValidGroup(g1) && ValidGroup(g2)
    ensures SERIAL_NUMBER_ADDRESS + SERIAL_NUMBER_COUNT <= FIRMWARE_VERSION_ADDRESS < StatusRegister(g1)
    ensures StatusRegister(g1) != SensorFaultRegister(g2)
    ensures StatusRegister(g1) != PurgeCountdownRegister(g2)
    ensures SensorFaultRegister(g1) != PurgeCountdownRegister(g2)
    ensures CommandRegister(g1) !in {StatusRegister(g2), SensorFaultRegister(g2), PurgeCountdownRegister(g2)}
    ensures {StatusRegister(g1), SensorFaultRegister(g1), PurgeCountdownRegister(g1), CommandRegister(g1)}
      !! {MACHINE_BLOCKED_ADDRESS, NUMBER_OF_GROUPS_ADDRESS, WATER_COMMAND_ADDRESS, MAT_COMMAND_ADDRESS}
  {
  }

  /** The values `send_coffee_command` writes; each selects one action. */
  datatype CoffeeCommand =
    | SingleShort
    | SingleLong
    | DoubleShort
    | DoubleLong
    | NoAction
    | SingleMedium
    | DoubleMedium
    | StopDelivery
    | StartPurge

  /** The bit a command sets in the command register. */
  function CommandBit(c: CoffeeCommand): (k: nat)
    ensures k < 9
  {
    match c
    case SingleShort => 0
    case SingleLong => 1
    case DoubleShort => 2
    case DoubleLong => 3
    case NoAction => 4
    case SingleMedium => 5
    case DoubleMedium => 6
    case StopDelivery => 7
    case StartPurge => 8
  }

  function CommandCode(c: CoffeeCommand): (v: Word)
    ensures v == Pow2(CommandBit(c))
  {
    Pow2Table();
    match c
    case SingleShort => 1
    case SingleLong => 2
    case DoubleShort => 4
    case DoubleLong => 8
    case NoAction => 16
    case SingleMedium => 32
    case DoubleMedium => 64
    case StopDelivery => 128
    case StartPurge => 256
  }

  function CommandOfCode(v: int): (c: Option<CoffeeCommand>)
    ensures c.Some? ==> CommandCode(c.value) == v
    ensures c.None? ==> forall d :: CommandCode(d) != v
  {
    if v == 1 then Some(SingleShort)
    else if v == 2 then Some(SingleLong)
    else if v == 4 then Some(DoubleShort)
    else if v == 8 then Some(DoubleLong)
    else if v == 16 then Some(NoAction)
    else if v == 32 then Some(SingleMedium)
    else if v == 64 then Some(DoubleMedium)
    else if v == 128 then Some(StopDelivery)
    else if v == 256 then Some(StartPurge)
    else None
  }

  lemma CommandCodeRoundTrip(c: CoffeeCommand)
    ensures CommandOfCode(CommandCode(c)) == Some(c)
  {
  }

  /** Different commands have different codes, and no two codes share a
      bit: each code is a power of two of its own. */
  lemma CommandCodesDisjoint(c: CoffeeCommand, d: CoffeeCommand)
    requires c != d
    ensures CommandCode(c) != CommandCode(d)
    ensures And(CommandCode(c), CommandCode(d)) == 0
  {
    if CommandCode(c) == CommandCode(d) {
      Pow2Injective(CommandBit(c), CommandBit(d));
    }
    DistinctPow2Disjoint(CommandBit(c), CommandBit(d));
  }
}
