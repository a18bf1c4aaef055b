/** The Modbus master the driver talks to, seen only through the requests
    it is given and the replies it returns. Framing, CRC, the slave address
    and the serial line belong to the Modbus library and are not modelled. */
module Transport {
  import opened Wrappers
  import opened Registers

  datatype Request =
    | ReadHoldingRegisters(address: nat, count: nat)
    | WriteRegister(address: nat, value: int)

  /** `Failed` stands for both an error response (`isError()`) and an
      exception raised by the library: the driver treats them alike. */
  datatype Reply = Failed | Answer(registers: seq<Word>)

  /** `result.registers[0]` of a successful read; an empty register list
      raises `IndexError`, which the driver catches like any other
      exception, so it yields no value. */
  function FirstRegister(reply: Reply): (w: Option<Word>)
    ensures w.Some? <==> reply.Answer? && reply.registers != []
    ensures w.Some? ==> w.value == reply.registers[0]
  {
    match reply
    case Failed => None
    case Answer(regs) => if regs == [] then None else Some(regs[0])
  }

  /** `not result.isError()` */
  predicate WriteAccepted(reply: Reply)
  {
    !reply.Failed?
  }
}
