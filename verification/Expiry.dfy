/** Resolution of relative and absolute expiry arguments to epoch seconds. */
module Expiry {
  import opened Prelude

  /** The router's clock: positive, and its millisecond form fits int64. */
  predicate ClockOk(now: int) {
    0 < now <= MAX_INT64 / 1000
  }

  /** Go's int64 division, which truncates toward zero. */
  function Quo(a: int, b: int): int
    requires b > 0
  {
    if a < 0 then -((-a) / b) else a / b
  }

  function MsDeadlineToSec(now: int, deadlineMs: int): int {
    var sec := Quo(deadlineMs, 1000);
    if deadlineMs > now * 1000 && sec <= now then now + 1 else sec
  }

  function SecExpiryEpoch(now: int, n: int): int {
    if n > MAX_INT64 / 1000 - now then now else now + n
  }

  function MsExpiryEpoch(now: int, n: int): int {
    if n > MAX_INT64 - now * 1000 then now else MsDeadlineToSec(now, now * 1000 + n)
  }

  /** The four spellings of a new expiry: EXPIRE, EXPIREAT, PEXPIRE, PEXPIREAT. */
  datatype Form = InSeconds | AtSecond | InMillis | AtMilli

  function Resolve(form: Form, now: int, arg: int): int {
    match form
    case InSeconds => SecExpiryEpoch(now, arg)
    case AtSecond => if arg > MAX_INT64 / 1000 then now else arg
    case InMillis => MsExpiryEpoch(now, arg)
    case AtMilli => MsDeadlineToSec(now, arg)
  }

  /** The deadline in milliseconds that the argument asks for, over the unbounded integers. */
  function DeadlineMs(form: Form, now: int, arg: int): int {
    match form
    case InSeconds => (now + arg) * 1000
    case AtSecond => arg * 1000
    case InMillis => now * 1000 + arg
    case AtMilli => arg
  }

  /**
   * A resolved expiry lies in the future exactly when the requested deadline does and is
   * representable in int64 milliseconds; it is then the deadline rounded down to a second, except
   * that a deadline within the current second is pushed to the next one. Every value stays in int64.
   */
  lemma ResolveIsExact(form: Form, now: int, arg: int)
    requires ClockOk(now) && InInt64(arg)
    ensures var d := DeadlineMs(form, now, arg);
            var sec := Resolve(form, now, arg);
            && InInt64(sec)
            && (sec > now <==> now * 1000 < d <= MAX_INT64)
            && (sec > now ==> sec == Max(now + 1, d / 1000))
  {
  }

  /** No intermediate int64 of the source overflows while resolving. */
  lemma NoOverflow(now: int, arg: int)
    requires ClockOk(now) && InInt64(arg)
    ensures InInt64(MAX_INT64 / 1000 - now) && InInt64(now * 1000) && InInt64(MAX_INT64 - now * 1000)
    ensures arg <= MAX_INT64 / 1000 - now ==> InInt64(now + arg)
    ensures arg <= MAX_INT64 - now * 1000 ==> InInt64(now * 1000 + arg)
  {
  }
}
