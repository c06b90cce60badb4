/** What an operation of the machine can end in besides a new state. */
module Results {

  datatype Error =
    | Undefined            // an assertion of the program fails, or C++ leaves the step undefined
    | OutsideBank          // a copy would run past the end of a memory bank
    | NoEntryPoint
    | EntryNotAFunction
    | NotEnoughMemory
    | EntryNotAllocated
    | NoRoomForStack
    | NoRoomForEntryCode

  datatype Result<+T> = Ok(value: T) | Err(error: Error) {
    predicate IsFailure() { Err? }

    function PropagateFailure<U>(): Result<U>
      requires Err?
    {
      Err(error)
    }

    function Extract(): T
      requires Ok?
    {
      value
    }
  }
}
