/** Types shared by every device: register widths, memory results and channels. */
module Memory {

  type byte = x: int | 0 <= x < 0x100
  type word = x: int | 0 <= x < 0x1_0000_0000

  datatype Option<+T> = None | Some(value: T)

  /** The two log levels that devices attach to a contract violation. */
  datatype Severity = Warn | Error

  datatype MemException =
    | Unexpected
    | Unimplemented
    | StubRead(stub: word)
    | StubWrite
    | Misaligned
    | InvalidAccess
    | ContractViolation(severity: Severity, stubVal: Option<word>)

  datatype AccessKind = ReadAccess | WriteAccess

  datatype MemResult<+T> = Ok(value: T) | Err(error: MemException)

  /** Whether the system stops on the exception instead of logging it. */
  predicate Fatal(e: MemException) {
    match e
    case Unimplemented | Unexpected | Misaligned => true
    case StubRead(_) | StubWrite | InvalidAccess => false
    case ContractViolation(severity, _) => severity == Error
  }

  /** An unbounded channel: senders append, the receiver takes from the front. */
  class Channel<T> {
    var queue: seq<T>

    constructor ()
      ensures queue == []
    {
      queue := [];
    }

    method Send(x: T)
      modifies this
      ensures queue == old(queue) + [x]
    {
      queue := queue + [x];
    }

    method SendAll(xs: seq<T>)
      modifies this
      ensures queue == old(queue) + xs
    {
      for k := 0 to |xs|
        invariant queue == old(queue) + xs[..k]
      {
        Send(xs[k]);
      }
      assert xs[..|xs|] == xs;
    }

    method TryRecv() returns (r: Option<T>)
      modifies this
      ensures old(queue) == [] ==> r == None && queue == []
      ensures old(queue) != [] ==> r == Some(old(queue)[0]) && queue == old(queue)[1..]
    {
      if queue == [] {
        r := None;
      } else {
        r := Some(queue[0]);
        queue := queue[1..];
      }
    }
  }
}
