/** The interrupt lines of the TS-7200 and their position in the two controllers. */
module Interrupts {
  import opened Memory

  datatype Interrupt =
    | Tc1Ui
    | Tc2Ui
    | Uart1RxIntr1
    | Uart1TxIntr1
    | Uart2RxIntr2
    | Uart2TxIntr2
    | Uart3RxIntr3
    | Uart3TxIntr3
    | Tc3Ui
    | IntUart1
    | IntUart2
    | IntUart3

  /** A message on the interrupt bus: the line and its new level. */
  datatype Message = Message(line: Interrupt, level: bool)

  function OverallIndex(i: Interrupt): byte {
    match i
    case Tc1Ui => 4
    case Tc2Ui => 5
    case Uart1RxIntr1 => 23
    case Uart1TxIntr1 => 24
    case Uart2RxIntr2 => 25
    case Uart2TxIntr2 => 26
    case Uart3RxIntr3 => 27
    case Uart3TxIntr3 => 28
    case Tc3Ui => 51
    case IntUart1 => 52
    case IntUart2 => 54
    case IntUart3 => 55
  }

  function Bank(i: Interrupt): (bank: byte)
    ensures bank == 1 || bank == 2
  {
    if OverallIndex(i) < 32 then 1 else 2
  }

  function Index(i: Interrupt): (index: byte)
    ensures index < 32
  {
    OverallIndex(i) % 0x20 // bit 5 cleared: every index is below 0x40
  }

  /** Bank and index together identify the line, so no two sources share a status bit. */
  lemma BankIndexInjective(i: Interrupt, j: Interrupt)
    ensures Bank(i) == Bank(j) && Index(i) == Index(j) <==> i == j
  {
  }

  /** Where each line is wired to: the address of its controller from the first one, and its bit in there
      (section 6.1.2 of the EP93xx User's Guide). */
  function WiredTo(i: Interrupt): (nat, nat) {
    match i
    case Tc1Ui => (0, 4)
    case Tc2Ui => (0, 5)
    case Uart1RxIntr1 => (0, 23)
    case Uart1TxIntr1 => (0, 24)
    case Uart2RxIntr2 => (0, 25)
    case Uart2TxIntr2 => (0, 26)
    case Uart3RxIntr3 => (0, 27)
    case Uart3TxIntr3 => (0, 28)
    case Tc3Ui => (0x10000, 19)
    case IntUart1 => (0x10000, 20)
    case IntUart2 => (0x10000, 22)
    case IntUart3 => (0x10000, 23)
  }

  lemma WiringIsBankAndIndex(i: Interrupt)
    ensures WiredTo(i) == (if Bank(i) == 1 then 0 else 0x10000, Index(i))
  {
  }
}
