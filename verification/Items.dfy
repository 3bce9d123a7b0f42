/**
 Assembly items of the contract assembler and the table of its instructions.
 */
module Items {
  import opened Words
  import opened Evm

  datatype Item =
    | Operation(op: Byte)
    | Push(data: Wide)
    | PushString(data: Wide)
    | PushTag(tag: nat)
    | PushSub(data: Wide)
    | PushSubSize(data: Wide)
    | PushProgramSize
    | Tag(tag: nat)
    | PushData(data: Wide)
    | PushLibraryAddress(data: Wide)

  const STOP: Byte := 0x00
  const AND: Byte := 0x16
  const CODESIZE: Byte := 0x38
  const CODECOPY: Byte := 0x39
  const POP: Byte := 0x50
  const JUMP: Byte := 0x56
  const JUMPI: Byte := 0x57
  const PC: Byte := 0x58
  const MSIZE: Byte := 0x59
  const GAS: Byte := 0x5a
  const JUMPDEST: Byte := 0x5b
  const PUSH1: Byte := 0x60
  const PUSH32: Byte := 0x7f
  const DUP1: Byte := 0x80
  const RETURN: Byte := 0xf3
  const REVERT: Byte := 0xfd
  const INVALID: Byte := 0xfe
  const SELFDESTRUCT: Byte := 0xff

  /** Operand bytes, stack items taken and put, and whether anything but the stack is touched. */
  datatype Info = Info(additional: nat, args: nat, ret: nat, sideEffects: bool)

  predicate IsKnown(b: Byte) {
    || b <= 0x0b || 0x10 <= b <= 0x1a || b == 0x20 || 0x30 <= b <= 0x3e || 0x40 <= b <= 0x45
    || 0x50 <= b <= 0x5b || 0x60 <= b <= 0xa4 || 0xb0 <= b <= 0xcf || 0xf0 <= b <= 0xf4
    || b == 0xfa || b == 0xfb || 0xfd <= b
  }

  function Pure(args: nat, ret: nat): Info {
    Info(0, args, ret, false)
  }

  function Acting(args: nat, ret: nat): Info {
    Info(0, args, ret, true)
  }

  function InfoOf(b: Byte): Info {
    if !IsKnown(b) then Pure(0, 0)
    else if b < 0x20 then ArithmeticInfo(b)
    else if b < 0x50 then EnvironmentInfo(b)
    else if b < 0x60 then MachineInfo(b)
    else if b <= 0x7f then Info(b - 0x5f, 0, if b - 0x5f > 16 then 2 else 1, false)
    else if IsDupCode(b) then Pure(DupDepth(b), DupDepth(b) + 1)
    else if IsSwapCode(b) then Pure(SwapDepth(b) + 1, SwapDepth(b) + 1)
    else if b <= 0xa4 then Acting(2 + 2 * (b - 0xa0), 0)
    else SystemInfo(b)
  }

  function ArithmeticInfo(b: Byte): Info {
    if b == STOP then Acting(0, 0)
    else if b == 0x08 || b == 0x09 then Pure(3, 1)
    else if b == 0x15 || b == 0x19 then Pure(1, 1)
    else Pure(2, 1)
  }

  function EnvironmentInfo(b: Byte): Info {
    if b == 0x20 then Pure(2, 2)
    else if b == 0x30 || b == 0x32 || b == 0x33 || b == 0x41 then Pure(0, 2)
    else if b == 0x31 || b == 0x3b then Pure(2, 1)
    else if b == 0x35 then Pure(1, 1)
    else if b == 0x37 || b == 0x39 || b == 0x3e then Acting(3, 0)
    else if b == 0x3c then Acting(5, 0)
    else if b == 0x40 then Pure(1, 2)
    else Pure(0, 1)
  }

  function MachineInfo(b: Byte): Info {
    if b == POP then Pure(1, 0)
    else if b == 0x51 then Acting(1, 1)
    else if b == 0x54 then Pure(1, 1)
    else if b == JUMP then Acting(1, 0)
    else if b == 0x52 || b == 0x53 || b == 0x55 || b == JUMPI then Acting(2, 0)
    else if b == JUMPDEST then Acting(0, 0)
    else Pure(0, 1)
  }

  function SystemInfo(b: Byte): Info {
    if b == 0xf0 then Acting(3, 2)
    else if b == 0xf1 || b == 0xf2 then Acting(8, 1)
    else if b == RETURN || b == REVERT || b == SELFDESTRUCT then Acting(2, 0)
    else if b == 0xf4 || b == 0xfa then Acting(7, 1)
    else if b == 0xfb then Acting(4, 1)
    else Acting(0, 0)
  }

  predicate IsDupCode(b: Byte) {
    0x80 <= b <= 0x8f || 0xb0 <= b <= 0xbf
  }

  /** n of DUPn. */
  function DupDepth(b: Byte): nat
    requires IsDupCode(b)
  {
    if b <= 0x8f then b - 0x7f else b - 0xb0 + 17
  }

  predicate IsSwapCode(b: Byte) {
    0x90 <= b <= 0x9f || 0xc0 <= b <= 0xcf
  }

  /** n of SWAPn. */
  function SwapDepth(b: Byte): nat
    requires IsSwapCode(b)
  {
    if b <= 0x9f then b - 0x8f else b - 0xc0 + 17
  }

  /** Bytes of code an item takes if addresses take a given number of bytes. */
  function ItemBytes(item: Item, addressLength: nat): (n: nat)
    ensures n > 0
  {
    match item
    case Operation(_) | Tag(_) => 1
    case PushString(_) => 17
    case Push(data) => 1 + (if SignificantBytes(data) > 1 then SignificantBytes(data) else 1)
    case PushSubSize(_) | PushProgramSize => 4
    case PushTag(_) | PushData(_) | PushSub(_) => 1 + addressLength
    case PushLibraryAddress(_) => 21
  }

  function ItemsBytes(items: seq<Item>, addressLength: nat): nat {
    if items == [] then 0
    else ItemsBytes(items[..|items| - 1], addressLength) + ItemBytes(items[|items| - 1], addressLength)
  }
}
