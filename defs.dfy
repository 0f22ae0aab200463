/** Constants of the EFR32 (Mighty / Blue Gecko) flash driver: the memory
    system controller (MSC) register map, its status bits, the information
    pages and the driver's timeouts. Register values are 32-bit words;
    addresses are natural numbers. */
module Efr32Defs {

  type Word = bv32
  type Byte = bv8

  /** Part family identifiers, kept in decimal as the driver does. */
  const FAMILY_MIGHTY_GECKO: nat := 28
  const FAMILY_BLUE_GECKO: nat := 20

  /** Status-poll budgets (iterations of the countdown in wait_status). */
  const ERASE_TMO: int := 100
  const WDATAREADY_TMO: int := 100
  const WRITE_TMO: int := 100

  /** Size of the lock-bits page in bytes, and in 32-bit words. */
  const LOCKBITS_PAGE_SZ: nat := 512
  const LB_WORDS: nat := 128
  /** Control words of the lock-bits page. */
  const MLW_INDEX: nat := 125
  const ULW_INDEX: nat := 126
  const DLW_INDEX: nat := 127

  const MSC_INFO_BASE: nat := 0x0fe0_0000
  const MSC_USER_DATA: nat := MSC_INFO_BASE
  const MSC_LOCK_BITS: nat := MSC_INFO_BASE + 0x4000
  const MSC_DEV_INFO: nat := MSC_INFO_BASE + 0x8000

  const DI_PAGE_SIZE: nat := MSC_DEV_INFO + 0x1e7
  const DI_FLASH_SZ: nat := MSC_DEV_INFO + 0x1f8
  const DI_RAM_SZ: nat := MSC_DEV_INFO + 0x1fa
  const DI_PART_NUM: nat := MSC_DEV_INFO + 0x1fc
  const DI_PART_FAMILY: nat := MSC_DEV_INFO + 0x1fe
  const DI_PROD_REV: nat := MSC_DEV_INFO + 0x1ff

  const MSC_REGBASE: nat := 0x400e_0000
  const MSC_WRITECTRL: nat := MSC_REGBASE + 0x008
  const MSC_WRITECMD: nat := MSC_REGBASE + 0x00c
  const MSC_ADDRB: nat := MSC_REGBASE + 0x010
  const MSC_WDATA: nat := MSC_REGBASE + 0x018
  const MSC_STATUS: nat := MSC_REGBASE + 0x01c
  const MSC_LOCK: nat := MSC_REGBASE + 0x040

  const WRITECTRL_WREN: Word := 0x1
  const WRITECMD_LADDRIM: Word := 0x1
  const WRITECMD_ERASEPAGE: Word := 0x2
  const WRITECMD_WRITEONCE: Word := 0x8

  const STATUS_BUSY: Word := 0x1
  const STATUS_LOCKED: Word := 0x2
  const STATUS_INVADDR: Word := 0x4
  const STATUS_WDATAREADY: Word := 0x8
  const STATUS_WORDTIMEOUT: Word := 0x10
  const STATUS_ERASEABORTED: Word := 0x20

  const MSC_LOCK_LOCKKEY: Word := 0x1b71

  /** The CPUID register of the Cortex-M system control block
      (ARMv7-M Architecture Reference Manual, section B3.2.3). */
  const CPUID_ADDR: nat := 0xe000_ed00

  /** The only page size the driver accepts. */
  const SUPPORTED_PAGE_SIZE: nat := 2048

  /** Size of the on-target flash loader image (88 bytes of Thumb code and
      the 4-byte LOCKKEY literal). */
  const LOADER_SIZE: nat := 92
  /** First ring-buffer size requested from the working-area allocator, and
      the floor at or below which block writes are given up. */
  const RING_FIRST_SIZE: nat := 16384
  const RING_FLOOR: nat := 256

  /** A natural number as the uint32 the driver would store for it. */
  function AsWord(a: int): Word
  {
    (a % 0x1_0000_0000) as bv32
  }
}
