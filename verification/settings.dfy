/**
 * The one piece of behaviour in the project settings: `parse_timedelta`,
 * which turns a configured JWT token lifetime into a duration, falling back
 * to a default, and the two settings entries that call it.
 *
 * The text-to-seconds parser is a foreign library; it is a parameter `parse`
 * that returns whole seconds, or None when it rejects the text.
 */
module Settings {
  import opened Wrappers

  /** Python's `timedelta` limits: magnitude at most 999999999 days. */
  const MaxDays := 999999999
  const SecondsPerDay := 86400
  const MinSeconds := -MaxDays * SecondsPerDay
  const MaxSeconds := MaxDays * SecondsPerDay + SecondsPerDay - 1

  /** Whole seconds that a `timedelta` can hold. */
  predicate InRange(seconds: int)
  {
    MinSeconds <= seconds <= MaxSeconds
  }

  type Seconds = s: int | InRange(s) witness 0

  /** A `timedelta` of whole seconds; two are equal when their lengths are. */
  datatype Timedelta = Timedelta(seconds: Seconds)

  /** The exception the `timedelta` constructor raises for an out-of-range length. */
  datatype SettingsError = OverflowError

  /** The kinds of value handed to `parse_timedelta`: a `timedelta`, `None`, or text. */
  datatype Setting = Td(td: Timedelta) | Null | Text(s: string)

  /** `timedelta(seconds=n)`: the duration of `n` seconds, or OverflowError
      when its day part `n // 86400` (floor division) exceeds 999999999 in
      magnitude. */
  function FromSeconds(n: int): (r: Result<Timedelta, SettingsError>)
    ensures r.Success? <==> -MaxDays <= n / SecondsPerDay <= MaxDays
    ensures r.Success? ==> r.value.seconds == n
  {
    if InRange(n) then Success(Timedelta(n)) else Failure(OverflowError)
  }

  /** The cases in which `parse_timedelta` answers with its default: no value,
      or text the parser rejects. */
  predicate FallsBack(value: Setting, parse: string -> Option<int>)
  {
    value.Null? || (value.Text? && parse(value.s).None?)
  }

  /** `parse_timedelta(value, default)`. */
  function ParseTimedelta(value: Setting, default: Timedelta, parse: string -> Option<int>)
    : (r: Result<Timedelta, SettingsError>)
    ensures r.Failure? <==>
      value.Text? && parse(value.s).Some? && !InRange(parse(value.s).value)
    ensures r.Success? ==>
      || value == Td(r.value)
      || r.value == default
      || (value.Text? && parse(value.s) == Some(r.value.seconds))
  {
    match value
    case Td(d) => Success(d)
    case Null => Success(default)
    case Text(s) =>
      match parse(s)
      case None => Success(default)
      case Some(seconds) => FromSeconds(seconds)
  }

  /** An existing `timedelta` passes through unchanged, whatever the default. */
  lemma TimedeltaPassesThrough(d: Timedelta, default: Timedelta, parse: string -> Option<int>)
    ensures ParseTimedelta(Td(d), default, parse) == Success(d)
  {
  }

  /** The default is the answer exactly in the fall-back cases, and the default
      influences the answer only there. */
  lemma DefaultOnlyOnFallBack(value: Setting, d1: Timedelta, d2: Timedelta, parse: string -> Option<int>)
    ensures FallsBack(value, parse) ==> ParseTimedelta(value, d1, parse) == Success(d1)
    ensures ParseTimedelta(value, d1, parse) != ParseTimedelta(value, d2, parse) ==> FallsBack(value, parse)
  {
  }

  /** Accepted text gives exactly the parsed number of seconds, or OverflowError
      when no `timedelta` is that long. */
  lemma AcceptedTextGivesParsedSeconds(s: string, n: int, default: Timedelta, parse: string -> Option<int>)
    requires parse(s) == Some(n)
    ensures InRange(n) ==> ParseTimedelta(Text(s), default, parse) == Success(Timedelta(n))
    ensures !InRange(n) ==> ParseTimedelta(Text(s), default, parse) == Failure(OverflowError)
  {
  }

  /** A parse of zero seconds gives a zero-length duration, not the default:
      the test is for None, not for a false value. */
  lemma ZeroSecondsIsNotAFallBack(s: string, default: Timedelta, parse: string -> Option<int>)
    requires parse(s) == Some(0) && default.seconds != 0
    ensures ParseTimedelta(Text(s), default, parse) == Success(Timedelta(0))
    ensures ParseTimedelta(Text(s), default, parse) != Success(default)
  {
  }

  /** The result is normalised: feeding it back in gives it again. */
  lemma ParseTimedeltaIdempotent(value: Setting, d1: Timedelta, d2: Timedelta, parse: string -> Option<int>)
    requires ParseTimedelta(value, d1, parse).Success?
    ensures ParseTimedelta(Td(ParseTimedelta(value, d1, parse).value), d2, parse)
         == ParseTimedelta(value, d1, parse)
  {
  }

  /** Defaults of the two JWT lifetimes: 60 minutes and 1 day. */
  const AccessTokenDefault := Timedelta(60 * 60)
  const RefreshTokenDefault := Timedelta(SecondsPerDay)

  /** The `SIMPLE_JWT` lifetimes. */
  datatype JwtLifetimes = JwtLifetimes(access: Timedelta, refresh: Timedelta)

  /** The `SIMPLE_JWT` setting built from the two environment variables' text;
      loading the settings fails when either lifetime overflows. */
  function SimpleJwt(accessEnv: string, refreshEnv: string, parse: string -> Option<int>)
    : (r: Result<JwtLifetimes, SettingsError>)
    ensures r.Failure? <==>
      || (parse(accessEnv).Some? && !InRange(parse(accessEnv).value))
      || (parse(refreshEnv).Some? && !InRange(parse(refreshEnv).value))
    ensures r.Success? && parse(accessEnv).None? ==> r.value.access.seconds == 3600
    ensures r.Success? && parse(refreshEnv).None? ==> r.value.refresh.seconds == 86400
    ensures r.Success? && parse(accessEnv).Some? ==> r.value.access.seconds == parse(accessEnv).value
    ensures r.Success? && parse(refreshEnv).Some? ==> r.value.refresh.seconds == parse(refreshEnv).value
  {
    match ParseTimedelta(Text(accessEnv), AccessTokenDefault, parse)
    case Failure(e) => Failure(e)
    case Success(access) =>
      match ParseTimedelta(Text(refreshEnv), RefreshTokenDefault, parse)
      case Failure(e) => Failure(e)
      case Success(refresh) => Success(JwtLifetimes(access, refresh))
  }
}
