/** The fault trap `snek_error`: a fault code selects one diagnostic line,
    and the process ends with the code as its exit status. Writing the line
    and ending the process are modelled as the value `Exit`. */
module Errors {
  import opened Values

  const TWO31: int := 0x8000_0000
  const TWO32: int := 0x1_0000_0000

  /** The numeric fault taxonomy shared with the generated code. */
  datatype ErrCode = InvalidArgument | Overflow | IndexOutOfBounds | InvalidVecSize | OutOfMemory

  function Code(e: ErrCode): int
  {
    match e
    case InvalidArgument => 1
    case Overflow => 2
    case IndexOutOfBounds => 3
    case InvalidVecSize => 4
    case OutOfMemory => 5
  }

  /** How the process ends: its exit status and the line on stderr. */
  datatype Exit = Exit(status: int, diagnostic: string)

  const FALLBACK_PREFIX: string := "an error ocurred "

  /** The line `snek_error` writes for a code. The collector's own fault,
      OutOfMemory, has no branch here. */
  function ErrorMessage(errcode: int): (line: string)
    ensures !(1 <= errcode <= 4) <==>
      |line| >= |FALLBACK_PREFIX| && line[..|FALLBACK_PREFIX|] == FALLBACK_PREFIX
  {
    if errcode == Code(InvalidArgument) then "invalid argument"
    else if errcode == Code(Overflow) then "overflow"
    else if errcode == Code(IndexOutOfBounds) then
      var line := "index out of bounds";
      assert line[..|FALLBACK_PREFIX|][0] != FALLBACK_PREFIX[0];
      line
    else if errcode == Code(InvalidVecSize) then
      var line := "vector size must be non-negative";
      assert line[..|FALLBACK_PREFIX|][0] != FALLBACK_PREFIX[0];
      line
    else FALLBACK_PREFIX + IntToString(errcode)
  }

  /** `errcode as i32`: the low 32 bits of the i64, read as signed. */
  function ExitStatus(errcode: int): (status: int)
    ensures -TWO31 <= status < TWO31
    ensures (status - errcode) % TWO32 == 0
  {
    (errcode + TWO31) % TWO32 - TWO31
  }

  /** `snek_error(errcode)`. */
  function SnekError(errcode: int): (r: Exit)
    requires IsI64(errcode)
    ensures -TWO31 <= r.status < TWO31 && (r.status - errcode) % TWO32 == 0
    ensures r.status == errcode <==> -TWO31 <= errcode < TWO31
    ensures errcode == Code(InvalidArgument) ==> r.diagnostic == "invalid argument"
    ensures errcode == Code(Overflow) ==> r.diagnostic == "overflow"
    ensures errcode == Code(IndexOutOfBounds) ==> r.diagnostic == "index out of bounds"
    ensures errcode == Code(InvalidVecSize) ==> r.diagnostic == "vector size must be non-negative"
    ensures r.diagnostic == FALLBACK_PREFIX + IntToString(errcode) <==> !(1 <= errcode <= 4)
  {
    ExitStatusIsCode(errcode);
    FallbackMessageExactlyForUnnamedCodes(errcode);
    Exit(ExitStatus(errcode), ErrorMessage(errcode))
  }

  /** The fault the allocation trap raises itself (`snek_try_gc`), which
      does not go through `snek_error`. */
  const OUT_OF_MEMORY_EXIT: Exit := Exit(Code(OutOfMemory), "out of memory")

  /** Every fault of the taxonomy exits with its own code. */
  lemma ExitStatusIsCode(errcode: int)
    ensures ExitStatus(errcode) == errcode <==> -TWO31 <= errcode < TWO31
  {
    if -TWO31 <= errcode < TWO31 {
      assert (errcode + TWO31) % TWO32 == errcode + TWO31;
    }
  }

  /** The generic line is written exactly for the codes without a message
      of their own, OutOfMemory included. */
  lemma FallbackMessageExactlyForUnnamedCodes(errcode: int)
    ensures ErrorMessage(errcode) == FALLBACK_PREFIX + IntToString(errcode)
            <==> !(1 <= errcode <= 4)
  {
    var generic := FALLBACK_PREFIX + IntToString(errcode);
    assert generic[0] == 'a';
    if 1 <= errcode <= 4 {
      assert ErrorMessage(errcode)[0] != 'a';
    }
  }

  /** Distinct named faults are reported with distinct lines. */
  lemma NamedMessagesDistinct(e1: ErrCode, e2: ErrCode)
    requires e1 != OutOfMemory && e2 != OutOfMemory
    ensures ErrorMessage(Code(e1)) == ErrorMessage(Code(e2)) <==> e1 == e2
  {
  }

  /** Out of memory from the allocation trap and code 5 through the fault
      trap end the process with the same status but different lines. */
  lemma OutOfMemoryThroughFaultTrap()
    ensures SnekError(Code(OutOfMemory)).status == OUT_OF_MEMORY_EXIT.status
    ensures SnekError(Code(OutOfMemory)).diagnostic == "an error ocurred 5"
    ensures SnekError(Code(OutOfMemory)).diagnostic != OUT_OF_MEMORY_EXIT.diagnostic
  {
    ExitStatusIsCode(5);
    assert IntToString(5) == "5";
  }
}
