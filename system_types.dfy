/** The .NET base types the issue core uses: Guid, DateTime, TimeSpan and nullable strings. */
module SystemTypes {
  import opened Wrappers

  /** System.Guid: a 128-bit value whose internal structure the core never inspects. */
  type Guid = g: nat | g < 0x1_0000_0000_0000_0000_0000_0000_0000_0000

  /** Guid.Empty, the all-zero value; also the default of an unset Guid field. */
  const Empty: Guid := 0

  /** DateTime.MaxValue.Ticks (9999-12-31 23:59:59.9999999); DateTime.MinValue has 0 ticks. */
  const MaxTicks: int := 3155378975999999999

  /** System.DateTime, as the number of 100-nanosecond ticks since 0001-01-01. */
  type DateTime = t: int | 0 <= t <= MaxTicks

  /** System.TimeSpan, as a signed number of ticks. */
  type TimeSpan = int

  const TicksPerDay: int := 864_000_000_000

  /** TimeSpan.FromDays for a whole number of days. */
  function FromDays(days: nat): (span: TimeSpan)
    ensures span == days * TicksPerDay
    ensures days > 0 ==> span > 0
  {
    days * TicksPerDay
  }

  /** The exceptions the modelled code can raise. */
  datatype Exception =
    | ArgumentOutOfRange  // a DateTime computation left [DateTime.MinValue, DateTime.MaxValue]

  /** DateTime.Subtract(TimeSpan): throws when the result falls outside the DateTime range. */
  function Subtract(t: DateTime, span: TimeSpan): (r: Result<DateTime, Exception>)
    ensures r.Success? <==> 0 <= t - span <= MaxTicks
    ensures r.Success? ==> r.value == t - span
    ensures r.Failure? ==> r.error == ArgumentOutOfRange
  {
    var ticks := t - span;
    if 0 <= ticks <= MaxTicks then Success(ticks) else Failure(ArgumentOutOfRange)
  }

  /** A C# `string` that may be null. */
  type NullableString = Option<string>

  /** char.IsWhiteSpace: the Unicode separators and the control characters U+0009-U+000D, U+0085. */
  predicate IsWhiteSpace(c: char) {
    || c == ' '
    || '\t' <= c <= '\r'
    || c == '\U{0085}'
    || c == '\U{00A0}'
    || c == '\U{1680}'
    || '\U{2000}' <= c <= '\U{200A}'
    || c == '\U{2028}'
    || c == '\U{2029}'
    || c == '\U{202F}'
    || c == '\U{205F}'
    || c == '\U{3000}'
  }

  /** string.IsNullOrWhiteSpace: null, empty, or made of white-space characters only. */
  predicate IsNullOrWhiteSpace(s: NullableString) {
    s.None? || forall k :: 0 <= k < |s.value| ==> IsWhiteSpace(s.value[k])
  }

  /** string.Contains(value), ordinal: `value` occurs in `s` as a contiguous block. */
  predicate Contains(s: string, value: string)
    decreases |s|
  {
    value <= s || (|s| > 0 && Contains(s[1..], value))
  }

  /** Contains agrees with the positional reading: `value` is a prefix of some suffix of `s`. */
  lemma {:induction false} ContainsIffOccursAt(s: string, value: string)
    ensures Contains(s, value) <==> exists k :: 0 <= k <= |s| && value <= s[k..]
    decreases |s|
  {
    if value <= s {
      assert s[0..] == s;
    } else if |s| > 0 {
      ContainsIffOccursAt(s[1..], value);
      forall k | 1 <= k <= |s|
        ensures s[k..] == s[1..][k - 1..]
      {
      }
      if Contains(s[1..], value) {
        var j :| 0 <= j <= |s[1..]| && value <= s[1..][j..];
        assert value <= s[j + 1..];
      } else {
        forall k | 0 <= k <= |s|
          ensures !(value <= s[k..])
        {
          if k > 0 {
            assert s[k..] == s[1..][k - 1..];
          }
        }
      }
    } else {
      assert forall k :: 0 <= k <= |s| ==> s[k..] == s;
    }
  }
}
