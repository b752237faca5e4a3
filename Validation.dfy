/**
  The validation engine of `util/Validation.kt`.

  A `Validation` holds the value under test, its display name, inclusive
  length bounds and a pattern. Each check either returns its receiver or
  throws `IllegalArgumentException` with a message; `execute` runs a block
  of checks on the receiver and turns "nothing thrown" into `Success` and
  the first throw into `NotAvailable(message)`. Throwing is modelled by the
  `Outcome` datatype, and the block by the list of checks it calls in order.
 */
module Validation {
  import opened Utf16
  import opened Pattern

  datatype Option<+T> = None | Some(value: T)

  /**
    Error messages. The two the engine builds come from localized resources
    and are kept abstract: the blank-input message for a value name and the
    size message for a value name and its bounds. A caller-supplied message
    is kept as its text.
   */
  datatype Message =
    | Blank(valueName: string)
    | Size(valueName: string, minSize: int, maxSize: int)
    | Custom(text: string)

  /** Kotlin's `Throwable.message` is nullable, hence the `Option`. */
  datatype IllegalArgumentException = IllegalArgumentException(message: Option<Message>)

  /** The immutable `Validation` object; `length` is `|value|`. */
  datatype Validation = Validation(value: KString, valueName: string, minSize: int, maxSize: int, regex: Anchored)

  /** A call of a check: it returned an object, or it threw. */
  datatype Outcome = Returned(receiver: Validation) | Threw(exception: IllegalArgumentException)

  datatype ValidationResult = Success | NotAvailable(errorMessage: Message)

  /** The message `execute` substitutes when an exception carries none. */
  const NoErrorMessage: string := "No error message."

  /** `checkOrThrows`: the receiver when the condition held, otherwise a throw with the message. */
  function CheckOrThrows(v: Validation, holds: bool, errorMessage: Message): (r: Outcome)
    ensures r.Returned? <==> holds
    ensures r.Returned? ==> r.receiver == v
    ensures r.Threw? ==> r.exception.message == Some(errorMessage)
  {
    if holds then Returned(v) else Threw(IllegalArgumentException(Some(errorMessage)))
  }

  function CheckNotEmpty(v: Validation): (r: Outcome)
    ensures r.Returned? <==> |v.value| > 0
    ensures r.Returned? ==> r.receiver == v
    ensures r.Threw? ==> r.exception.message == Some(Blank(v.valueName))
  {
    CheckOrThrows(v, |v.value| > 0, Blank(v.valueName))
  }

  function CheckInvalidSize(v: Validation): (r: Outcome)
    ensures r.Returned? <==> v.minSize <= |v.value| && |v.value| <= v.maxSize
    ensures r.Returned? ==> r.receiver == v
    ensures r.Threw? ==> r.exception.message == Some(Size(v.valueName, v.minSize, v.maxSize))
  {
    CheckOrThrows(v, v.minSize <= |v.value| <= v.maxSize, Size(v.valueName, v.minSize, v.maxSize))
  }

  /** The pattern check passes exactly when the whole value is `min..max` code units of the class. */
  function CheckInvalid(v: Validation, errorMessage: string): (r: Outcome)
    ensures r.Returned? <==> v.regex.min <= |v.value| <= v.regex.max && AllInClass(v.regex.cls, v.value)
    ensures r.Returned? ==> r.receiver == v
    ensures r.Threw? ==> r.exception.message == Some(Custom(errorMessage))
  {
    CheckOrThrows(v, Matches(v.regex, v.value), Custom(errorMessage))
  }

  /** One statement of an `execute` block: a call of one of the three checks. */
  datatype Check = NotEmpty | InvalidSize | Invalid(errorMessage: string)

  function Call(v: Validation, c: Check): Outcome {
    match c
    case NotEmpty => CheckNotEmpty(v)
    case InvalidSize => CheckInvalidSize(v)
    case Invalid(m) => CheckInvalid(v, m)
  }

  /** Whether a check accepts the value, stated without running it. */
  predicate Accepts(v: Validation, c: Check) {
    match c
    case NotEmpty => |v.value| > 0
    case InvalidSize => v.minSize <= |v.value| <= v.maxSize
    case Invalid(_) => v.regex.min <= |v.value| <= v.regex.max && AllInClass(v.regex.cls, v.value)
  }

  /** The message a check fails with. */
  function MessageOf(v: Validation, c: Check): Message {
    match c
    case NotEmpty => Blank(v.valueName)
    case InvalidSize => Size(v.valueName, v.minSize, v.maxSize)
    case Invalid(m) => Custom(m)
  }

  predicate AllAccept(v: Validation, block: seq<Check>) {
    forall i :: 0 <= i < |block| ==> Accepts(v, block[i])
  }

  /** `k` is the first check of the block that rejects the value. */
  predicate FirstRejecting(v: Validation, block: seq<Check>, k: int) {
    && 0 <= k < |block|
    && !Accepts(v, block[k])
    && forall i :: 0 <= i < k ==> Accepts(v, block[i])
  }

  /**
    The block of `execute`: every statement calls a check on the receiver,
    in order, and the first throw ends the block. It returns the receiver
    when every check accepts, and otherwise throws the first rejecting
    check's message; no throw lacks a message.
   */
  function RunBlock(v: Validation, block: seq<Check>): (r: Outcome)
    ensures r.Returned? <==> AllAccept(v, block)
    ensures r.Returned? ==> r.receiver == v
    ensures r.Threw? ==>
      exists k :: FirstRejecting(v, block, k) && r.exception == IllegalArgumentException(Some(MessageOf(v, block[k])))
  {
    if block == [] then Returned(v)
    else match Call(v, block[0])
      case Threw(e) =>
        assert FirstRejecting(v, block, 0);
        Threw(e)
      case Returned(_) =>
        var r := RunBlock(v, block[1..]);
        assert forall i :: 0 < i < |block| ==> block[i] == block[1..][i - 1];
        if r.Threw? then
          var k :| FirstRejecting(v, block[1..], k) && r.exception == IllegalArgumentException(Some(MessageOf(v, block[1..][k])));
          assert FirstRejecting(v, block, k + 1);
          r
        else
          r
  }

  /** `execute`: `Success` when the block completes, else `NotAvailable` with the thrown message. */
  function Execute(v: Validation, block: seq<Check>): (r: ValidationResult)
    ensures r == Success <==> AllAccept(v, block)
    ensures r.NotAvailable? ==> exists k :: FirstRejecting(v, block, k) && r.errorMessage == MessageOf(v, block[k])
  {
    match RunBlock(v, block)
    case Returned(_) => Success
    case Threw(e) => NotAvailable(if e.message.Some? then e.message.value else Custom(NoErrorMessage))
  }

  /** `getErrorMessageOrNull`: no message on success, the stored one otherwise. */
  function GetErrorMessageOrNull(r: ValidationResult): (m: Option<Message>)
    ensures m == None <==> r == Success
    ensures r.NotAvailable? ==> m == Some(r.errorMessage)
  {
    if r.NotAvailable? then Some(r.errorMessage) else None
  }

  /** The first rejecting check decides the result: its message is the one reported. */
  lemma FirstFailureWins(v: Validation, block: seq<Check>, k: int)
    requires FirstRejecting(v, block, k)
    ensures Execute(v, block) == NotAvailable(MessageOf(v, block[k]))
    ensures GetErrorMessageOrNull(Execute(v, block)) == Some(MessageOf(v, block[k]))
  {
    var r := Execute(v, block);
    assert !AllAccept(v, block);
    var k' :| FirstRejecting(v, block, k') && r.errorMessage == MessageOf(v, block[k']);
    assert k' == k;
  }

  /**
    Checks after the first rejecting one are never evaluated: once a prefix
    of the block ends in its first rejecting check, what follows it makes no
    difference to the result.
   */
  lemma LaterChecksIgnored(v: Validation, prefix: seq<Check>, rest1: seq<Check>, rest2: seq<Check>)
    requires FirstRejecting(v, prefix, |prefix| - 1)
    ensures Execute(v, prefix + rest1) == Execute(v, prefix + rest2) == NotAvailable(MessageOf(v, prefix[|prefix| - 1]))
  {
    var k := |prefix| - 1;
    assert FirstRejecting(v, prefix + rest1, k) by {
      assert forall i :: 0 <= i <= k ==> (prefix + rest1)[i] == prefix[i];
    }
    assert FirstRejecting(v, prefix + rest2, k) by {
      assert forall i :: 0 <= i <= k ==> (prefix + rest2)[i] == prefix[i];
    }
    FirstFailureWins(v, prefix + rest1, k);
    FirstFailureWins(v, prefix + rest2, k);
  }

  /** The block every rule set runs: not-empty, then size, then pattern. */
  function StandardBlock(errorMessage: string): seq<Check> {
    [NotEmpty, InvalidSize, Invalid(errorMessage)]
  }

  /**
    The result of the standard block, case by case, for any bounds and any
    pattern: an empty value reports
    the blank message even when the size check would also fail, a value out
    of bounds reports the size message, and only a value that passes both
    reaches the pattern. `RuleOutcome` in the rule-set module states the
    same chain for rules whose pattern bounds equal their size bounds, where
    a pattern failure comes down to one code unit outside the class.
   */
  lemma StandardBlockOutcome(v: Validation, errorMessage: string)
    ensures Execute(v, StandardBlock(errorMessage)) ==
      if |v.value| == 0 then NotAvailable(Blank(v.valueName))
      else if !(v.minSize <= |v.value| <= v.maxSize) then NotAvailable(Size(v.valueName, v.minSize, v.maxSize))
      else if !(v.regex.min <= |v.value| <= v.regex.max && AllInClass(v.regex.cls, v.value)) then NotAvailable(Custom(errorMessage))
      else Success
  {
    var block := StandardBlock(errorMessage);
    if |v.value| == 0 {
      FirstFailureWins(v, block, 0);
    } else if !(v.minSize <= |v.value| <= v.maxSize) {
      FirstFailureWins(v, block, 1);
    } else if !Accepts(v, block[2]) {
      FirstFailureWins(v, block, 2);
    }
  }
}
