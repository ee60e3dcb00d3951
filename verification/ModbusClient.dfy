/** A Modbus TCP client and the device behind it (src/reader/modbus/mod.rs, src/reader/modbus/tcp.rs). */
module ModbusClient {
  import opened Wrappers
  import opened Domain
  import opened Coalescing

  const MAX_COILS_PER_READ: u16 := 2000

  datatype ReadError =
    | CountOutOfRange(count: u16)
    | NotConnected
    | Transport(message: string)

  /**
   How the transport answers, as any function of the moment and of the request. The moment
   is the number of reader calls made before, so registers may change and failures may
   come and go between any two calls.
   */
  datatype Device = Device(
    registers: (nat, RegisterType, u16, u16) -> Result<seq<u16>, ReadError>,
    bits: (nat, RegisterType, u16, u16) -> Result<seq<bool>, ReadError>)

  /** One call of the reader interface. */
  datatype Call = Call(kind: RegisterType, addr: u16, count: u16)

  /** The client at one moment: what it talks to, and whether a transport handle exists. */
  datatype Link = Link(device: Device, connected: bool)

  function ValidateRegisterCount(count: u16): Result<(), ReadError> {
    if count == 0 || count > MAX_REGISTERS_PER_READ then Err(CountOutOfRange(count)) else Ok(())
  }

  function ValidateCoilCount(count: u16): Result<(), ReadError> {
    if count == 0 || count > MAX_COILS_PER_READ then Err(CountOutOfRange(count)) else Ok(())
  }

  /** The outcome of a register read at moment `n`. */
  function RegistersAt(link: Link, n: nat, kind: RegisterType, addr: u16, count: u16): Result<seq<u16>, ReadError> {
    if count == 0 || count > MAX_REGISTERS_PER_READ then Err(CountOutOfRange(count))
    else if !link.connected then Err(NotConnected)
    else link.device.registers(n, kind, addr, count)
  }

  /** The outcome of a bit read at moment `n`. */
  function BitsAt(link: Link, n: nat, kind: RegisterType, addr: u16, count: u16): Result<seq<bool>, ReadError> {
    if count == 0 || count > MAX_COILS_PER_READ then Err(CountOutOfRange(count))
    else if !link.connected then Err(NotConnected)
    else link.device.bits(n, kind, addr, count)
  }

  /** The client, with the calls made on it so far. */
  class ModbusTcpClient {
    const device: Device
    var connected: bool
    var calls: seq<Call>

    constructor (device: Device)
      ensures this.device == device && !connected && calls == []
    {
      this.device := device;
      connected, calls := false, [];
    }

    function At(): Link
      reads this
    {
      Link(device, connected)
    }

    /** A handle that is replaced is closed first. `reachable` is the outcome of the handshake. */
    method Connect(reachable: bool) returns (ok: bool)
      modifies this`connected
      ensures ok == connected == reachable
    {
      if connected {
        Disconnect();
      }
      if reachable {
        connected := true;
      }
      ok := reachable;
    }

    method Disconnect()
      modifies this`connected
      ensures !connected
    {
      connected := false;
    }

    /** `ctx`: the transport, if there is a handle to it. */
    function Context(): Result<Device, ReadError>
      reads this
    {
      if connected then Ok(device) else Err(NotConnected)
    }

    method ReadHoldingRegisters(addr: u16, count: u16) returns (r: Result<seq<u16>, ReadError>)
      modifies this`calls
      ensures calls == old(calls) + [Call(Holding, addr, count)]
      ensures !(1 <= count <= 125) ==> r == Err(CountOutOfRange(count))
      ensures 1 <= count <= 125 && !connected ==> r == Err(NotConnected)
      ensures 1 <= count <= 125 && connected ==> r == device.registers(|old(calls)|, Holding, addr, count)
      ensures r == RegistersAt(At(), |old(calls)|, Holding, addr, count)
    {
      var now := |calls|;
      calls := calls + [Call(Holding, addr, count)];
      var _ :- ValidateRegisterCount(count);
      var context :- Context();
      r := context.registers(now, Holding, addr, count);
    }

    method ReadInputRegisters(addr: u16, count: u16) returns (r: Result<seq<u16>, ReadError>)
      modifies this`calls
      ensures calls == old(calls) + [Call(Input, addr, count)]
      ensures !(1 <= count <= 125) ==> r == Err(CountOutOfRange(count))
      ensures 1 <= count <= 125 && !connected ==> r == Err(NotConnected)
      ensures 1 <= count <= 125 && connected ==> r == device.registers(|old(calls)|, Input, addr, count)
      ensures r == RegistersAt(At(), |old(calls)|, Input, addr, count)
    {
      var now := |calls|;
      calls := calls + [Call(Input, addr, count)];
      var _ :- ValidateRegisterCount(count);
      var context :- Context();
      r := context.registers(now, Input, addr, count);
    }

    method ReadCoils(addr: u16, count: u16) returns (r: Result<seq<bool>, ReadError>)
      modifies this`calls
      ensures calls == old(calls) + [Call(Coil, addr, count)]
      ensures !(1 <= count <= 2000) ==> r == Err(CountOutOfRange(count))
      ensures 1 <= count <= 2000 && !connected ==> r == Err(NotConnected)
      ensures 1 <= count <= 2000 && connected ==> r == device.bits(|old(calls)|, Coil, addr, count)
      ensures r == BitsAt(At(), |old(calls)|, Coil, addr, count)
    {
      var now := |calls|;
      calls := calls + [Call(Coil, addr, count)];
      var _ :- ValidateCoilCount(count);
      var context :- Context();
      r := context.bits(now, Coil, addr, count);
    }

    method ReadDiscreteInputs(addr: u16, count: u16) returns (r: Result<seq<bool>, ReadError>)
      modifies this`calls
      ensures calls == old(calls) + [Call(Discrete, addr, count)]
      ensures !(1 <= count <= 2000) ==> r == Err(CountOutOfRange(count))
      ensures 1 <= count <= 2000 && !connected ==> r == Err(NotConnected)
      ensures 1 <= count <= 2000 && connected ==> r == device.bits(|old(calls)|, Discrete, addr, count)
      ensures r == BitsAt(At(), |old(calls)|, Discrete, addr, count)
    {
      var now := |calls|;
      calls := calls + [Call(Discrete, addr, count)];
      var _ :- ValidateCoilCount(count);
      var context :- Context();
      r := context.bits(now, Discrete, addr, count);
    }
  }

  /**
   A read does not depend on the device exactly when its count is out of range or there is
   no connection: such a read is refused without asking.
   */
  lemma {:induction false} RefusedUnasked(connected: bool, n: nat, kind: RegisterType, addr: u16, count: u16)
    ensures !(1 <= count <= 125) || !connected
       <==> forall a: Device, b: Device :: RegistersAt(Link(a, connected), n, kind, addr, count) == RegistersAt(Link(b, connected), n, kind, addr, count)
    ensures !(1 <= count <= 2000) || !connected
       <==> forall a: Device, b: Device :: BitsAt(Link(a, connected), n, kind, addr, count) == BitsAt(Link(b, connected), n, kind, addr, count)
  {
    var silent := Device((n, kind, addr, count) => Ok([]), (n, kind, addr, count) => Ok([]));
    var broken := Device((n, kind, addr, count) => Err(Transport("")), (n, kind, addr, count) => Err(Transport("")));
    var a, b := Link(silent, connected), Link(broken, connected);
    assert 1 <= count <= 125 && connected ==> RegistersAt(a, n, kind, addr, count) != RegistersAt(b, n, kind, addr, count);
    assert 1 <= count <= 2000 && connected ==> BitsAt(a, n, kind, addr, count) != BitsAt(b, n, kind, addr, count);
  }

  // ----- devices that answer from one register bank -----

  /**
   A successful answer is the requested slice of the registers of that moment: any part of
   it would have been answered by the same registers.
   */
  ghost predicate Consistent(device: Device) {
    forall n: nat, kind, addr: u16, count: u16 ::
      device.registers(n, kind, addr, count).Ok? ==> SlicesAgree(device, n, kind, addr, count)
  }

  ghost predicate SlicesAgree(device: Device, n: nat, kind: RegisterType, addr: u16, count: u16)
    requires device.registers(n, kind, addr, count).Ok?
  {
    var regs := device.registers(n, kind, addr, count).value;
    |regs| == count && forall a: u16, c: u16 :: PartAgrees(device, n, kind, addr, regs, a, c)
  }

  ghost predicate PartAgrees(device: Device, n: nat, kind: RegisterType, addr: u16, regs: seq<u16>, a: u16, c: u16) {
    addr <= a && a + c <= addr + |regs| && 1 <= c ==>
      device.registers(n, kind, a, c) == Ok(regs[a - addr..a - addr + c])
  }

  /** A register bank that may change at every moment, with moments and registers that fail. */
  function BankDevice(bank: (nat, RegisterType, int) -> u16, fails: (nat, RegisterType, int) -> bool): Device {
    Device(
      (n: nat, kind: RegisterType, addr: u16, count: u16) =>
        if exists a: int | addr <= a < addr + count :: fails(n, kind, a) then Err(Transport("exception"))
        else Ok(seq(count, k requires 0 <= k < count => bank(n, kind, addr + k))),
      (n: nat, kind: RegisterType, addr: u16, count: u16) =>
        if exists a: int | addr <= a < addr + count :: fails(n, kind, a) then Err(Transport("exception"))
        else Ok(seq(count, k requires 0 <= k < count => bank(n, kind, addr + k) != 0)))
  }

  lemma {:induction false} BankLength(bank: (nat, RegisterType, int) -> u16, fails: (nat, RegisterType, int) -> bool,
      n: nat, kind: RegisterType, addr: u16, count: u16)
    requires BankDevice(bank, fails).registers(n, kind, addr, count).Ok?
    ensures |BankDevice(bank, fails).registers(n, kind, addr, count).value| == count
  {
  }

  lemma {:induction false} BankSlice(bank: (nat, RegisterType, int) -> u16, fails: (nat, RegisterType, int) -> bool,
      n: nat, kind: RegisterType, addr: u16, count: u16, a: u16, c: u16)
    requires BankDevice(bank, fails).registers(n, kind, addr, count).Ok?
    ensures PartAgrees(BankDevice(bank, fails), n, kind, addr, BankDevice(bank, fails).registers(n, kind, addr, count).value, a, c)
  {
    var regs := BankDevice(bank, fails).registers(n, kind, addr, count).value;
    var part := seq(c, k requires 0 <= k < c => bank(n, kind, a + k));
    if addr <= a && a + c <= addr + count && 1 <= c {
      forall k | 0 <= k < c ensures part[k] == regs[a - addr + k] {
        assert addr + (a - addr + k) == a + k;
      }
      assert part == regs[a - addr..a - addr + c];
    }
  }

  lemma {:induction false} BankSlicesAgree(bank: (nat, RegisterType, int) -> u16, fails: (nat, RegisterType, int) -> bool,
      n: nat, kind: RegisterType, addr: u16, count: u16)
    requires BankDevice(bank, fails).registers(n, kind, addr, count).Ok?
    ensures SlicesAgree(BankDevice(bank, fails), n, kind, addr, count)
  {
    hide BankDevice, PartAgrees;
    var device := BankDevice(bank, fails);
    var regs := device.registers(n, kind, addr, count).value;
    BankLength(bank, fails, n, kind, addr, count);
    forall a: u16, c: u16 ensures PartAgrees(device, n, kind, addr, regs, a, c) {
      BankSlice(bank, fails, n, kind, addr, count, a, c);
    }
  }

  /** Every such bank, with any failure schedule, is a consistent device. */
  lemma {:induction false} BankIsConsistent(bank: (nat, RegisterType, int) -> u16, fails: (nat, RegisterType, int) -> bool)
    ensures Consistent(BankDevice(bank, fails))
  {
    hide BankDevice, SlicesAgree;
    var device := BankDevice(bank, fails);
    forall n: nat, kind, addr: u16, count: u16 | device.registers(n, kind, addr, count).Ok?
      ensures SlicesAgree(device, n, kind, addr, count)
    {
      BankSlicesAgree(bank, fails, n, kind, addr, count);
    }
  }
}
