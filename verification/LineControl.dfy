/** The line control words and the control register over whole runs, in terms of what was written. */
module LineControl {
  import opened Memory
  import opened UartState
  import opened UartProtocol
  import opened UartTheorems

  predicate IsWrite(a: Action, offset: nat) {
    a.Main? && a.m.Write? && a.m.offset == offset
  }

  /** The value last written to a register in the schedule, the initial one if it was never written. */
  function LastWritten(schedule: seq<Action>, offset: nat, initial: word): word {
    if schedule == [] then initial
    else
      var n := |schedule| - 1;
      if IsWrite(schedule[n], offset) then schedule[n].m.val else LastWritten(schedule[..n], offset, initial)
  }

  function LastMid(schedule: seq<Action>): word {
    LastWritten(schedule, 0x0c, 0)
  }

  function LastLow(schedule: seq<Action>): word {
    LastWritten(schedule, 0x10, 0)
  }

  /** The three words the last write of the high word found, or those the device starts with. */
  function Activated(schedule: seq<Action>): LinCtrl {
    if schedule == [] then LinCtrl(0x70, 0, 3)
    else
      var n := |schedule| - 1;
      if IsWrite(schedule[n], 0x08) then
        LinCtrl(schedule[n].m.val, LastMid(schedule[..n]), LastLow(schedule[..n]))
      else Activated(schedule[..n])
  }

  /** In every run the latch holds the last written words and the active words are those that the last
      write of the high word made active. */
  lemma {:induction false} WordsAreThoseWritten(schedule: seq<Action>)
    requires Run(schedule).Some?
    ensures var line := Run(schedule).value.regs.line;
            && line.latch == LinCtrl(LastWritten(schedule, 0x08, 0), LastMid(schedule), LastLow(schedule))
            && line.active == Activated(schedule)
            && BaudDefined(line.active)
  {
    if schedule != [] {
      var n := |schedule| - 1;
      WordsAreThoseWritten(schedule[..n]);
      StepOnLine(Run(schedule[..n]).value, schedule[n]);
    }
  }

  /** What one step does to the line control words. */
  ghost predicate Writes(a: Action, line: LineConfig, after: LineConfig) {
    && after.latch.high == (if IsWrite(a, 0x08) then a.m.val else line.latch.high)
    && after.latch.mid == (if IsWrite(a, 0x0c) then a.m.val else line.latch.mid)
    && after.latch.low == (if IsWrite(a, 0x10) then a.m.val else line.latch.low)
    && after.active == (if IsWrite(a, 0x08) then line.latch.(high := a.m.val) else line.active)
  }

  lemma StepOnLine(s: Proto, a: Action)
    requires Enabled(s, a)
    ensures Writes(a, s.regs.line, Next(s, a).regs.line)
    ensures IsWrite(a, 0x08) ==> BaudDefined(Next(s, a).regs.line.active)
  {
    match a
    case Main(Read(offset)) => ReadFrame(s.regs, offset);
    case Main(Write(offset, val)) => WriteOnLine(s.regs, offset, val);
    case Input(i) => InputKeepsSizes(s, i);
    case Output(o) => OutputKeepsSizes(s, o);
    case _ =>
  }

  lemma WriteOnLine(s: Regs, offset: nat, val: word)
    requires WriteDefined(s, offset, val)
    ensures Writes(Main(Write(offset, val)), s.line, WriteSection(s, offset, val).regs.line)
    ensures offset == 0x08 ==> BaudDefined(WriteSection(s, offset, val).regs.line.active)
    ensures WriteSection(s, offset, val).send.Some? ==> WriteSection(s, offset, val).regs == s
  {
    var after := WriteSection(s, offset, val).regs.line;
    if offset == 0x08 || offset == 0x0c || offset == 0x10 {
      assert after == WriteLine(s.line, offset, val);
    } else {
      assert after == s.line;
    }
  }

  /** A write of the high word keeps the other two words exactly when the values last written to them are
      the ones that were made active last. */
  lemma {:induction false} HighWriteKeepsWordsExactly(schedule: seq<Action>, high: word)
    requires Run(schedule).Some? && MainEnabled(Run(schedule).value, Write(0x08, high))
    ensures var before := Run(schedule).value.regs.line.active;
            var after := MainNext(Run(schedule).value, Write(0x08, high)).regs.line.active;
            (after == before.(high := high)
             <==>
             && LastMid(schedule) == Activated(schedule).mid
             && LastLow(schedule) == Activated(schedule).low)
  {
    WordsAreThoseWritten(schedule);
  }

  /** A write of the high word is defined, and does not divide by zero, exactly when the values last written to
      the other two words allow it. */
  lemma {:induction false} HighWriteIsDefinedExactly(schedule: seq<Action>, high: word)
    requires Run(schedule).Some?
    ensures WriteDefined(Run(schedule).value.regs, 0x08, high)
       <==> LastMid(schedule) % 0x100 == 0 && LastLow(schedule) < 460_800
    ensures WriteDefined(Run(schedule).value.regs, 0x08, high)
       <==> Baud(LinCtrl(high, LastMid(schedule), LastLow(schedule))) != 0
  {
    WordsAreThoseWritten(schedule);
    BaudDefinedExactly(LinCtrl(high, LastMid(schedule), LastLow(schedule)));
  }

  /** It need not be: after a write of one to the middle word, from power-on, the write that enables eight-bit
      words and the FIFOs would divide by zero. */
  lemma {:induction false} HighWriteCanDivideByZero()
    ensures var schedule := [Main(Write(0x0c, 1))];
            && Run(schedule).Some?
            && Run(schedule).value.main == Running && Run(schedule).value.lock == Free
            && !WriteDefined(Run(schedule).value.regs, 0x08, 0x70)
            && Baud(LinCtrl(0x70, 1, 0)) == 0
  {
    var schedule := [Main(Write(0x0c, 1))];
    assert schedule[..0] == [];
    HighWriteIsDefinedExactly(schedule, 0x70);
  }

  /** Such a write keeps the baud rate exactly when the last written low word divides 460800 like the active
      one. */
  lemma {:induction false} HighWriteKeepsRateExactly(schedule: seq<Action>, high: word)
    requires Run(schedule).Some? && MainEnabled(Run(schedule).value, Write(0x08, high))
    ensures Baud(MainNext(Run(schedule).value, Write(0x08, high)).regs.line.active)
         == Baud(Run(schedule).value.regs.line.active)
       <==> 460_800 / (LastLow(schedule) + 1) == 460_800 / (Activated(schedule).low + 1)
  {
    WordsAreThoseWritten(schedule);
    var s := Run(schedule).value;
    StepOnLine(s, Main(Write(0x08, high)));
    BaudOfLow(s.regs.line.active);
    BaudOfLow(s.regs.line.latch.(high := high));
  }

  lemma BaudOfLow(c: LinCtrl)
    requires BaudDefined(c)
    ensures Baud(c) == 460_800 / (c.low + 1)
  {
    assert BaudDivisor(c) == c.low;
    assert UARTCLK_HZ / 16 == 460_800;
  }

  /** In every run the control register reads as the last value written to it, or as one. */
  lemma {:induction false} ControlIsLastWrite(schedule: seq<Action>)
    requires Run(schedule).Some?
    ensures ReadSection(Run(schedule).value.regs, 0x14).result == Ok(LastWritten(schedule, 0x14, 1))
  {
    if schedule != [] {
      var n := |schedule| - 1;
      ControlIsLastWrite(schedule[..n]);
      StepOnControl(Run(schedule[..n]).value, schedule[n]);
    }
  }

  lemma StepOnControl(s: Proto, a: Action)
    requires Enabled(s, a)
    ensures Next(s, a).regs.ctrl == if IsWrite(a, 0x14) then a.m.val else s.regs.ctrl
  {
    match a
    case Main(Read(offset)) => ReadFrame(s.regs, offset);
    case Main(Write(offset, val)) =>
      ControlReadsBack(s.regs, offset, val);
      WriteAccepts(s.regs, offset, val);
    case Input(i) => InputModemChange(s, i);
    case Output(o) => OutputKeepsRx(s, o);
    case _ =>
  }
}
