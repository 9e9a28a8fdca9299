/** The registers of the virtual devices that the guest reaches with emulated loads and stores. */
module Devices {
  import opened Words
  import opened Decoder
  import opened TimerSpec

  const CLINT_MTIMECMP: nat := 0x0200_4000
  const CLINT_MTIME: nat := 0x0200_BFF8
  const PLIC_UART_PRIORITY: nat := 0x0C00_0028
  const PLIC_ENABLE: nat := 0x0C00_2000
  const PLIC_THRESHOLD: nat := 0x0C20_0000
  const UART_DATA: nat := 0x1000_0000
  const UART_IER: nat := 0x1000_0001
  const UART_LSR: nat := 0x1000_0005

  type Byte = b: nat | b < 256

  /** What the host's devices would answer now. */
  datatype Host = Host(now: Word, uartLsr: Byte, uartRbr: Byte)

  /** `virtual_mmdev_load`: the value read, unless the address or the width is not supported. */
  function LoadDevice(address: Word, width: nat, g: GuestTimer, host: Host): (v: Option<Word>)
    ensures v.Some? ==> v.value < Modulus(width)
  {
    if address == CLINT_MTIMECMP && width == 8 then Some(g.deadline)
    else if address == CLINT_MTIME && width == 8 then Some(VirtualTime(g, host.now))
    else if address == UART_IER && width == 1 then Some(0)
    else if address == PLIC_ENABLE && width == 4 then Some(0)
    // The transmitter is always empty; bit 0 says whether data can be read.
    else if address == UART_LSR && width == 1 then Some(0x60 + host.uartLsr % 2)
    else if address == UART_DATA && width == 1 then Some(host.uartRbr)
    else None
  }

  /** `virtual_mmdev_store`: whether the store is supported. */
  predicate StoreSupported(address: Word, width: nat) {
    || (address == CLINT_MTIMECMP && width == 8)
    || (address == PLIC_UART_PRIORITY && width == 4)
    || (address == PLIC_ENABLE && width == 4)
    || (address == PLIC_THRESHOLD && width == 4)
    || (address == UART_IER && width == 1)
    || (address == UART_DATA && width == 1)
  }

  /** The only store that a guest can see the effect of sets its timer. */
  function AfterStore(address: Word, value: Word, g: GuestTimer): (h: GuestTimer) {
    if address == CLINT_MTIMECMP then g.(deadline := value, scheduled := true) else g
  }

  /** A store of `width` bytes to the low end of a register. */
  function Overwrite(register: Word, value: Word, width: nat): (r: Word)
    requires value < Modulus(width) && width in {1, 2, 4, 8}
    ensures r % Modulus(width) == value
  {
    LowEnd(register, value, width);
    register - register % Modulus(width) + value
  }

  lemma LowEnd(register: Word, value: Word, width: nat)
    requires value < Modulus(width) && width in {1, 2, 4, 8}
    ensures 0 <= register - register % Modulus(width) + value < TWO64
    ensures (register - register % Modulus(width) + value) % Modulus(width) == value
  {
    if width == 1 {
      LowByte(register, value);
    } else if width == 2 {
      LowTwoBytes(register, value);
    } else if width == 4 {
      LowFourBytes(register, value);
    } else {
      assert register % TWO64 == register;
    }
  }

  lemma LowByte(register: Word, value: nat)
    requires value < 0x100
    ensures 0 <= register - register % 0x100 + value < TWO64
    ensures (register - register % 0x100 + value) % 0x100 == value
  {
    assert register - register % 0x100 + value == register / 0x100 * 0x100 + value;
  }

  lemma LowTwoBytes(register: Word, value: nat)
    requires value < 0x1_0000
    ensures 0 <= register - register % 0x1_0000 + value < TWO64
    ensures (register - register % 0x1_0000 + value) % 0x1_0000 == value
  {
    assert register - register % 0x1_0000 + value == register / 0x1_0000 * 0x1_0000 + value;
  }

  lemma LowFourBytes(register: Word, value: nat)
    requires value < 0x1_0000_0000
    ensures 0 <= register - register % 0x1_0000_0000 + value < TWO64
    ensures (register - register % 0x1_0000_0000 + value) % 0x1_0000_0000 == value
  {
    assert register - register % 0x1_0000_0000 + value == register / 0x1_0000_0000 * 0x1_0000_0000 + value;
  }

  /** What the register holds after the load depends on the value read alone. */
  lemma LoadIgnoresOldValue(register: Word, value: Word, width: nat, signed: bool)
    requires value < Modulus(width) && width in {1, 2, 4, 8}
    ensures ResetUpperBits(Overwrite(register, value, width), width, signed) == ResetUpperBits(value, width, signed)
  {
    assert value % Modulus(width) == value by {
      if width == 1 {
      } else if width == 2 {
      } else if width == 4 {
      }
    }
  }
}
