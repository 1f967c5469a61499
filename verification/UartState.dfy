/** The register state of a UART (sections 14 to 16 of the EP93xx User's Guide), and what each
    critical section of the device and of its two worker threads does to it. */
module UartState {
  import Arithmetic
  import opened Bits
  import opened Interrupts
  import opened Memory

  // ----- lines -----

  datatype Line = TxLine | RxLine | ComboLine

  /** A change of level announced for one of the three lines. */
  datatype Edge = Edge(line: Line, level: bool)

  datatype UartInterrupts = UartInterrupts(rx: Interrupt, tx: Interrupt, combo: Interrupt)

  const UART1 := UartInterrupts(Uart1RxIntr1, Uart1TxIntr1, IntUart1)
  const UART2 := UartInterrupts(Uart2RxIntr2, Uart2TxIntr2, IntUart2)
  const UART3 := UartInterrupts(Uart3RxIntr3, Uart3TxIntr3, IntUart3)

  function InterruptOf(u: UartInterrupts, line: Line): Interrupt {
    match line
    case TxLine => u.tx
    case RxLine => u.rx
    case ComboLine => u.combo
  }

  function ToMessages(u: UartInterrupts, edges: seq<Edge>): seq<Message> {
    if edges == [] then []
    else [Message(InterruptOf(u, edges[0].line), edges[0].level)] + ToMessages(u, edges[1..])
  }

  // ----- registers -----

  datatype LinCtrl = LinCtrl(high: word, mid: word, low: word)

  /** Line control: the active words, the words waiting in the latch, and what is derived from the active ones. */
  datatype LineConfig = LineConfig(
    latched: bool,
    latch: LinCtrl,
    active: LinCtrl,
    fifoSize: nat)

  /** The level last announced for each line. */
  datatype Flags = Flags(tx: bool, rx: bool, combo: bool)

  datatype Regs = Regs(
    line: LineConfig,
    ctrl: word,
    overrun: bool,
    busy: bool,
    timeout: bool,
    ctsChange: bool,
    rxBuf: seq<byte>,
    txBufSize: int,
    flags: Flags,
    infiniteRx: bool,
    nodelayTx: bool)

  const UARTCLK_HZ := 7_372_800

  function BaudDivisor(c: LinCtrl): nat {
    c.mid % 0x100 * 0x1_0000_0000 + c.low
  }

  function Baud(c: LinCtrl): nat {
    UARTCLK_HZ / 16 / (BaudDivisor(c) + 1)
  }

  /** The line control words give a baud rate that the bit time can be divided by. The middle word
      is shifted by 32 bits, so any low byte in it is too large, as is a low word of 460800 or more. */
  predicate BaudDefined(c: LinCtrl) {
    c.mid % 0x100 == 0 && c.low < 460_800
  }

  /** The condition is exact: everywhere else the bit time would be divided by zero. */
  lemma BaudDefinedExactly(c: LinCtrl)
    ensures Baud(c) != 0 <==> BaudDefined(c)
  {
    Arithmetic.QuotientIsZero(460_800, BaudDivisor(c) + 1);
    assert UARTCLK_HZ / 16 == 460_800;
  }

  /** Make the FIFO size follow the active words. The device divides by the baud rate here. */
  function UpdateLinctrl(c: LineConfig): LineConfig
    requires BaudDefined(c.active)
  {
    c.(fifoSize := if Bit(c.active.high, 4) then 16 else 1)
  }

  /** The state in which the emulated bootloader leaves the device. Only the active line control
      words are set; the latch still holds zeros. */
  function InitRegs(): Regs {
    var line := LineConfig(false, LinCtrl(0, 0, 0), LinCtrl(0x70, 0, 3), 0);
    Regs(UpdateLinctrl(line), 1, false, false, false, false, [], 0, Flags(false, false, false), false, false)
  }

  /** The masked interrupt status, bit by bit. */
  datatype IntId = IntId(timeout: bool, tx: bool, rx: bool, cts: bool)

  predicate TxHalfEmpty(s: Regs) {
    s.txBufSize * 2 <= s.line.fifoSize
  }

  predicate RxHalfFull(s: Regs) {
    |s.rxBuf| * 2 >= s.line.fifoSize
  }

  /** Each condition that is enabled in the control register. */
  function GetIntId(s: Regs): IntId {
    IntId(s.timeout && Bit(s.ctrl, 6), TxHalfEmpty(s) && Bit(s.ctrl, 5),
          RxHalfFull(s) && Bit(s.ctrl, 4), s.ctsChange && Bit(s.ctrl, 3))
  }

  function FourBits(b3: bool, b2: bool, b1: bool, b0: bool): (r: nat)
    ensures r <= 15
  {
    8 * Digit(b3) + 4 * Digit(b2) + 2 * Digit(b1) + Digit(b0)
  }

  /** The value of the interrupt identification register. */
  function IntIdWord(id: IntId): word {
    FourBits(id.timeout, id.tx, id.rx, id.cts)
  }

  /** The level an interrupt status gives to a line. */
  predicate LevelOf(id: IntId, line: Line) {
    match line
    case TxLine => id.tx
    case RxLine => id.rx
    case ComboLine => id.timeout || id.tx || id.rx || id.cts
  }

  predicate Level(s: Regs, line: Line) {
    LevelOf(GetIntId(s), line)
  }

  predicate Asserted(f: Flags, line: Line) {
    match line
    case TxLine => f.tx
    case RxLine => f.rx
    case ComboLine => f.combo
  }

  function WithAsserted(f: Flags, line: Line, level: bool): Flags {
    match line
    case TxLine => f.(tx := level)
    case RxLine => f.(rx := level)
    case ComboLine => f.(combo := level)
  }

  /** Bring the flag of one line to its level. */
  function RefreshLine(f: Flags, line: Line, id: IntId): Flags {
    WithAsserted(f, line, LevelOf(id, line))
  }

  /** The change of one line, if there is one. */
  function LineEdges(f: Flags, line: Line, id: IntId): seq<Edge> {
    if LevelOf(id, line) != Asserted(f, line) then [Edge(line, LevelOf(id, line))] else []
  }

  /** All three lines, in the order in which the device visits them. */
  function RefreshFlags(f: Flags, id: IntId): Flags {
    RefreshLine(RefreshLine(RefreshLine(f, TxLine, id), RxLine, id), ComboLine, id)
  }

  function FlagEdges(f: Flags, id: IntId): seq<Edge> {
    var tx := RefreshLine(f, TxLine, id);
    var rx := RefreshLine(tx, RxLine, id);
    LineEdges(f, TxLine, id) + LineEdges(tx, RxLine, id) + LineEdges(rx, ComboLine, id)
  }

  function Refresh(s: Regs): Regs {
    s.(flags := RefreshFlags(s.flags, GetIntId(s)))
  }

  function RefreshEdges(s: Regs): seq<Edge> {
    FlagEdges(s.flags, GetIntId(s))
  }

  ghost predicate Fresh(s: Regs, line: Line) {
    Asserted(s.flags, line) == Level(s, line)
  }

  ghost predicate AllFresh(s: Regs) {
    Fresh(s, TxLine) && Fresh(s, RxLine) && Fresh(s, ComboLine)
  }

  // ----- critical sections -----

  /** What a register access does before it refreshes the lines: the new registers, the access
      result, the byte handed to the output thread, and whether a refresh follows. */
  datatype Section<T> = Section(regs: Regs, result: MemResult<T>, send: Option<byte>, refresh: bool)

  function FlagWord(s: Regs): word {
    (if s.txBufSize == 0 then 0x80 else 0)
    + (if |s.rxBuf| >= s.line.fifoSize then 0x40 else 0)
    + (if s.txBufSize >= s.line.fifoSize then 0x20 else 0)
    + (if s.rxBuf == [] then 0x10 else 0)
    + (if s.busy then 0x8 else 0x1)
  }

  function ReadSection(s: Regs, offset: nat): Section<word> {
    if offset == 0x00 then
      if s.rxBuf == [] then Section(s, Err(ContractViolation(Warn, None)), None, false)
      else
        var rest := s.rxBuf[1..];
        Section(s.(rxBuf := rest, timeout := s.timeout && rest != []), Ok(s.rxBuf[0]), None, true)
    else if offset == 0x04 then Section(s, Ok(if s.overrun then 8 else 0), None, false)
    else if offset == 0x08 then Section(s, Ok(s.line.active.high), None, false)
    else if offset == 0x0c then
      Section(s, if s.line.latched then Err(ContractViolation(Warn, None)) else Ok(s.line.active.mid), None, false)
    else if offset == 0x10 then
      Section(s, if s.line.latched then Err(ContractViolation(Warn, None)) else Ok(s.line.active.low), None, false)
    else if offset == 0x14 then Section(s, Ok(s.ctrl), None, false)
    else if offset == 0x18 then Section(s, Ok(FlagWord(s)), None, false)
    else if offset == 0x1c then Section(s, Ok(IntIdWord(GetIntId(s))), None, false)
    else if offset == 0x28 then Section(s, Err(Unimplemented), None, false)
    else Section(s, Err(Unexpected), None, false)
  }

  /** A write of the first line control word makes the latched words active, so they must divide. */
  predicate WriteDefined(s: Regs, offset: nat, val: word) {
    offset == 0x08 ==> BaudDefined(s.line.latch.(high := val))
  }

  /** The middle and low words only go to the latch; the high word makes all three active. */
  function WriteLine(c: LineConfig, offset: nat, val: word): LineConfig
    requires offset == 0x08 ==> BaudDefined(c.latch.(high := val))
  {
    if offset == 0x08 then
      var words := c.latch.(high := val);
      UpdateLinctrl(c.(latched := false, latch := words, active := words))
    else if offset == 0x0c then c.(latched := true, latch := c.latch.(mid := val))
    else c.(latched := true, latch := c.latch.(low := val))
  }

  function WriteSection(s: Regs, offset: nat, val: word): Section<()>
    requires WriteDefined(s, offset, val)
  {
    if offset == 0x00 then
      if s.txBufSize < s.line.fifoSize then Section(s, Ok(()), Some(val % 0x100), true)
      else Section(s, Ok(()), None, false)
    else if offset == 0x04 then Section(s.(overrun := false), Ok(()), None, true)
    else if offset == 0x08 || offset == 0x0c || offset == 0x10 then
      Section(s.(line := WriteLine(s.line, offset, val)), Ok(()), None, offset == 0x08)
    else if offset == 0x14 then Section(s.(ctrl := val), Ok(()), None, true)
    else if offset == 0x18 then Section(s, Err(InvalidAccess), None, false)
    else if offset == 0x1c then Section(s.(ctsChange := false), Ok(()), None, true)
    else if offset == 0x28 then Section(s, Err(Unimplemented), None, false)
    else Section(s, Err(Unexpected), None, false)
  }

  /** Count a byte that was handed to the output thread. */
  function CountSent(s: Regs): Regs {
    s.(txBufSize := s.txBufSize + 1)
  }

  predicate HasRoom(s: Regs) {
    |s.rxBuf| < s.line.fifoSize || s.infiniteRx
  }

  /** The input thread stores a received byte, or drops it. */
  function StoreSection(s: Regs, b: byte): Regs {
    if HasRoom(s) then s.(rxBuf := s.rxBuf + [b]) else s.(overrun := true)
  }

  /** The input thread saw no byte for the timeout period. */
  function ExpireSection(s: Regs): Regs {
    if s.rxBuf != [] then s.(timeout := true) else s
  }

  /** The output thread starts on a byte. */
  function BeginSection(s: Regs): Regs {
    if !s.busy then s.(busy := true, ctsChange := true) else s
  }

  /** The output thread has finished a byte. */
  function EndSection(s: Regs): Regs {
    var left := s.txBufSize - 1;
    if left == 0 then s.(txBufSize := left, busy := false, ctsChange := true) else s.(txBufSize := left)
  }

  // ----- the interrupt status as the device computes it -----

  lemma FourBitsAre(b3: bool, b2: bool, b1: bool, b0: bool)
    ensures var x := FourBits(b3, b2, b1, b0);
            Bit(x, 3) == b3 && Bit(x, 2) == b2 && Bit(x, 1) == b1 && Bit(x, 0) == b0
  {
    var x := FourBits(b3, b2, b1, b0);
    assert x / 2 == 4 * Digit(b3) + 2 * Digit(b2) + Digit(b1);
    assert x / 2 / 2 == 2 * Digit(b3) + Digit(b2);
    assert x / 2 / 2 / 2 == Digit(b3);
    BitOfHalf(x, 0);
    BitOfHalf(x, 1);
    BitOfHalf(x / 2, 0);
    BitOfHalf(x, 2);
    BitOfHalf(x / 2, 1);
    BitOfHalf(x / 2 / 2, 0);
  }

  /** The device gathers the conditions in four bits and masks them with the control register
      shifted right by three; that word is the one given by the bits. */
  lemma IntIdIsMaskedConditions(s: Regs)
    ensures var tx := 2 * s.txBufSize <= s.line.fifoSize;
            var rx := 2 * |s.rxBuf| >= s.line.fifoSize;
            And(FourBits(s.timeout, tx, rx, s.ctsChange), s.ctrl / 8) == IntIdWord(GetIntId(s))
  {
    var x := FourBits(s.timeout, TxHalfEmpty(s), RxHalfFull(s), s.ctsChange);
    var id := GetIntId(s);
    FourBitsAre(s.timeout, TxHalfEmpty(s), RxHalfFull(s), s.ctsChange);
    FourBitsAre(id.timeout, id.tx, id.rx, id.cts);
    forall k: nat
      ensures Bit(And(x, s.ctrl / 8), k) == Bit(IntIdWord(id), k)
    {
      BitOfAnd(x, s.ctrl / 8, k);
      BitOfEighth(s.ctrl, k);
      if k > 3 {
        BitBeyond(x, 4, k);
        BitBeyond(IntIdWord(id), 4, k);
      }
    }
    SameBits(And(x, s.ctrl / 8), IntIdWord(id));
  }

  /** The masks by which the device reads the three levels off the status. */
  lemma LevelIsMaskTest(id: IntId)
    ensures LevelOf(id, TxLine) <==> And(IntIdWord(id), 4) != 0
    ensures LevelOf(id, RxLine) <==> And(IntIdWord(id), 2) != 0
    ensures LevelOf(id, ComboLine) <==> And(IntIdWord(id), 15) != 0
  {
    FourBitsAre(id.timeout, id.tx, id.rx, id.cts);
    assert Pow2(2) == 4 && Pow2(1) == 2;
    AndPow2(IntIdWord(id), 2);
    AndPow2(IntIdWord(id), 1);
    And15(IntIdWord(id));
  }

  /** The combined line covers the other two. */
  lemma ComboCovers(s: Regs)
    ensures Level(s, TxLine) || Level(s, RxLine) ==> Level(s, ComboLine)
  {
  }

  // ----- refreshing -----

  /** A refresh announces exactly the flags that were wrong, each with its right level. */
  lemma RefreshAnnouncesChanges(f: Flags, id: IntId, e: Edge)
    ensures e in FlagEdges(f, id) <==> Asserted(f, e.line) != e.level && LevelOf(id, e.line) == e.level
  {
    var tx := RefreshLine(f, TxLine, id);
    var rx := RefreshLine(tx, RxLine, id);
    var edges := LineEdges(f, TxLine, id) + LineEdges(tx, RxLine, id);
    assert e in edges <==> e in LineEdges(f, TxLine, id) || e in LineEdges(tx, RxLine, id);
    assert FlagEdges(f, id) == edges + LineEdges(rx, ComboLine, id);
    match e.line
    case TxLine =>
    case RxLine =>
    case ComboLine =>
  }

  /** The place of a line in a refresh. */
  function Place(line: Line): nat {
    match line
    case TxLine => 0
    case RxLine => 1
    case ComboLine => 2
  }

  /** It announces them in the order transmit, receive, combined. */
  lemma RefreshAnnouncesInOrder(f: Flags, id: IntId, i: nat, j: nat)
    requires i < j < |FlagEdges(f, id)|
    ensures Place(FlagEdges(f, id)[i].line) < Place(FlagEdges(f, id)[j].line)
  {
  }

  lemma {:induction false} ToMessagesConcat(u: UartInterrupts, a: seq<Edge>, b: seq<Edge>)
    ensures ToMessages(u, a + b) == ToMessages(u, a) + ToMessages(u, b)
  {
    if a == [] {
      assert a + b == b;
    } else {
      assert (a + b)[1..] == a[1..] + b;
      ToMessagesConcat(u, a[1..], b);
    }
  }

  /** The messages of a refresh are those of its three lines, in order. */
  lemma {:induction false} MessagesLineByLine(u: UartInterrupts, f: Flags, id: IntId)
    ensures var tx := RefreshLine(f, TxLine, id);
            var rx := RefreshLine(tx, RxLine, id);
            var first := ToMessages(u, LineEdges(f, TxLine, id)) + ToMessages(u, LineEdges(tx, RxLine, id));
            ToMessages(u, FlagEdges(f, id)) == first + ToMessages(u, LineEdges(rx, ComboLine, id))
  {
    var tx := RefreshLine(f, TxLine, id);
    var rx := RefreshLine(tx, RxLine, id);
    var a, b, c := LineEdges(f, TxLine, id), LineEdges(tx, RxLine, id), LineEdges(rx, ComboLine, id);
    ToMessagesConcat(u, a, b);
    ToMessagesConcat(u, a + b, c);
  }

  /** A register access that skips the refresh changes no condition and no flag: a read then
      changes nothing at all, a write at most the latched line control words. */
  lemma SkippedRefreshAfterRead(s: Regs, offset: nat)
    requires !ReadSection(s, offset).refresh
    ensures ReadSection(s, offset).regs == s
  {
  }

  lemma SkippedRefreshAfterWrite(s: Regs, offset: nat, val: word)
    requires WriteDefined(s, offset, val) && !WriteSection(s, offset, val).refresh
    ensures exists line: LineConfig ::
              line.fifoSize == s.line.fifoSize && WriteSection(s, offset, val).regs == s.(line := line)
  {
    var line := WriteSection(s, offset, val).regs.line;
    assert line.fifoSize == s.line.fifoSize;
    assert WriteSection(s, offset, val).regs == s.(line := line);
  }

  // ----- what an access leaves alone -----

  /** A read touches the receive FIFO and the timeout condition, nothing else. */
  lemma ReadFrame(s: Regs, offset: nat)
    ensures var t := ReadSection(s, offset).regs; t == s.(rxBuf := t.rxBuf, timeout := t.timeout)
  {
  }

  /** A data read that succeeds takes the first byte, any other read leaves the receive FIFO alone. */
  lemma ReadTakesFirst(s: Regs, offset: nat)
    ensures var r := ReadSection(s, offset);
            if offset == 0x00 && r.result.Ok? then s.rxBuf == [r.result.value] + r.regs.rxBuf
            else r.regs.rxBuf == s.rxBuf
  {
  }

  /** A write touches line control, control, the overrun and the modem condition, nothing else. */
  lemma WriteFrame(s: Regs, offset: nat, val: word)
    requires WriteDefined(s, offset, val)
    ensures var t := WriteSection(s, offset, val).regs;
            t == s.(line := t.line, ctrl := t.ctrl, overrun := t.overrun, ctsChange := t.ctsChange)
  {
    if offset == 0x08 || offset == 0x0c || offset == 0x10 {
      LineWriteFrame(s, offset, val);
    } else {
      OtherWriteFrame(s, offset, val);
    }
  }

  lemma LineWriteFrame(s: Regs, offset: nat, val: word)
    requires WriteDefined(s, offset, val) && (offset == 0x08 || offset == 0x0c || offset == 0x10)
    ensures WriteSection(s, offset, val).regs == s.(line := WriteLine(s.line, offset, val))
  {
  }

  lemma OtherWriteFrame(s: Regs, offset: nat, val: word)
    requires offset != 0x08 && offset != 0x0c && offset != 0x10
    ensures var t := WriteSection(s, offset, val).regs;
            t == s.(ctrl := t.ctrl, overrun := t.overrun, ctsChange := t.ctsChange)
  {
  }

  /** Only a write of the status register touches the overrun condition, and clears it. */
  lemma WriteOverrun(s: Regs, offset: nat, val: word)
    requires WriteDefined(s, offset, val)
    ensures WriteSection(s, offset, val).regs.overrun == (offset != 0x04 && s.overrun)
  {
  }

  /** Only a write of the interrupt clear register touches the modem condition, and clears it. */
  lemma WriteModemChange(s: Regs, offset: nat, val: word)
    requires WriteDefined(s, offset, val)
    ensures WriteSection(s, offset, val).regs.ctsChange == (offset != 0x1c && s.ctsChange)
  {
  }

  /** The control register reads back the last value written to it. */
  lemma ControlReadsBack(s: Regs, offset: nat, val: word)
    requires WriteDefined(s, offset, val)
    ensures ReadSection(WriteSection(s, offset, val).regs, 0x14).result
         == if offset == 0x14 then Ok(val) else ReadSection(s, 0x14).result
  {
  }

  /** A write either keeps the FIFO size or sets it to one of the two sizes there are. */
  lemma WriteFifoSize(s: Regs, offset: nat, val: word)
    requires WriteDefined(s, offset, val)
    ensures var size := WriteSection(s, offset, val).regs.line.fifoSize; size in {1, 16, s.line.fifoSize}
  {
  }

  /** A byte is accepted exactly by a data write that finds the count below the FIFO size; it is the
      low byte of the value, and nothing else happens before it is counted. */
  lemma WriteAccepts(s: Regs, offset: nat, val: word)
    requires WriteDefined(s, offset, val)
    ensures var w := WriteSection(s, offset, val);
            && (w.send.Some? <==> offset == 0x00 && s.txBufSize < s.line.fifoSize)
            && (w.send.Some? ==> w.send.value == val % 0x100 && w.regs == s && w.refresh)
  {
  }

  // ----- results of accesses -----

  /** The interrupt identification register reads as the conditions, one bit each. */
  lemma IntIdRead(s: Regs)
    ensures var id := GetIntId(s);
            ReadSection(s, 0x1c).result
              == Ok(8 * Digit(id.timeout) + 4 * Digit(id.tx) + 2 * Digit(id.rx) + Digit(id.cts))
  {
  }

  /** Which reads fail, and how. */
  lemma ReadFailsExactly(s: Regs, offset: nat)
    ensures var result := ReadSection(s, offset).result;
            && (result == Err(Unexpected) <==> offset !in {0x00, 0x04, 0x08, 0x0c, 0x10, 0x14, 0x18, 0x1c, 0x28})
            && (result == Err(Unimplemented) <==> offset == 0x28)
            && (result == Err(ContractViolation(Warn, None))
                <==> (offset == 0x00 && s.rxBuf == []) || (offset in {0x0c, 0x10} && s.line.latched))
            && (result.Err? ==> result.error in {Unexpected, Unimplemented, ContractViolation(Warn, None)})
  {
  }

  /** Which writes fail, and how. */
  lemma WriteFailsExactly(s: Regs, offset: nat, val: word)
    requires WriteDefined(s, offset, val)
    ensures var result := WriteSection(s, offset, val).result;
            && (result == Err(Unexpected) <==> offset !in {0x00, 0x04, 0x08, 0x0c, 0x10, 0x14, 0x18, 0x1c, 0x28})
            && (result == Err(Unimplemented) <==> offset == 0x28)
            && (result == Err(InvalidAccess) <==> offset == 0x18)
            && (result.Err? ==> result.error in {Unexpected, Unimplemented, InvalidAccess})
  {
  }

  // ----- line control -----

  /** The registers after a write that needs no interleaving to be described. */
  function Written(s: Regs, offset: nat, val: word): Regs
    requires WriteDefined(s, offset, val)
  {
    WriteSection(s, offset, val).regs
  }

  /** Middle and low words, in either order, then the high word: only then do all three read back, and
      until then the first two cannot be read. */
  lemma LineControlRoundTrip(s: Regs, high: word, mid: word, low: word, midFirst: bool)
    requires BaudDefined(LinCtrl(high, mid, low))
    ensures var t := if midFirst then Written(Written(s, 0x0c, mid), 0x10, low)
                     else Written(Written(s, 0x10, low), 0x0c, mid);
            && ReadSection(t, 0x0c).result.Err? && ReadSection(t, 0x10).result.Err?
            && ReadSection(t, 0x08).result == ReadSection(s, 0x08).result
            && WriteDefined(t, 0x08, high)
            && var u := Written(t, 0x08, high);
               && ReadSection(u, 0x08).result == Ok(high)
               && ReadSection(u, 0x0c).result == Ok(mid)
               && ReadSection(u, 0x10).result == Ok(low)
  {
  }

  /** In the state the device starts in the latch does not hold the active words, so a first write of the
      high word changes the rate from 115200 baud to 460800. */
  lemma FirstHighWriteChangesRate(high: word)
    ensures WriteDefined(InitRegs(), 0x08, high)
    ensures Baud(InitRegs().line.active) == 115_200
    ensures Baud(Written(InitRegs(), 0x08, high).line.active) == 460_800
  {
    assert InitRegs().line.latch == LinCtrl(0, 0, 0);
    var active := Written(InitRegs(), 0x08, high).line.active;
    assert active == LinCtrl(high, 0, 0);
    assert BaudDivisor(active) == 0;
  }
}
