/** The attribute codec of the DynamoDB backend: numbers travel as decimal
    strings (`awsInt`, `awsTime`) and are read back with `extractInt`, which
    parses them the way Go's `strconv.ParseInt(s, 10, 64)` does. */
module Codec {
  import opened Wrappers

  const MinInt64: int := -0x8000_0000_0000_0000
  const MaxInt64: int := 0x7FFF_FFFF_FFFF_FFFF
  const TwoTo64: int := 0x1_0000_0000_0000_0000

  /** Go's `int64`, also the type of `time.Duration` and of `UnixNano()`. */
  type Int64 = x: int | MinInt64 <= x <= MaxInt64

  /** Two's-complement wrap-around of an int64 result. `now.Add(d).UnixNano()`
      is computed in int64 nanoseconds, so it equals this applied to the
      mathematical sum. */
  function Wrap64(x: int): (r: Int64)
    ensures MinInt64 <= x <= MaxInt64 ==> r == x
    ensures (x - r) % TwoTo64 == 0
  {
    var q := (x - MinInt64) / TwoTo64;
    assert x - ((x - MinInt64) % TwoTo64 + MinInt64) == q * TwoTo64;
    (x - MinInt64) % TwoTo64 + MinInt64
  }

  // ---------------------------------------------------------------- digits

  predicate IsDigit(c: char) { '0' <= c <= '9' }

  predicate AllDigits(s: string) { forall i :: 0 <= i < |s| ==> IsDigit(s[i]) }

  function DigitChar(d: nat): (c: char)
    requires d < 10
    ensures IsDigit(c) && c as int - '0' as int == d
  {
    ('0' as int + d) as char
  }

  /** Value of a non-empty or empty string of decimal digits, most significant
      digit first (leading zeros allowed, as ParseInt allows them). */
  function DigitsValue(s: string): nat
    requires AllDigits(s)
  {
    if s == [] then 0 else DigitsValue(s[..|s| - 1]) * 10 + (s[|s| - 1] as int - '0' as int)
  }

  /** The shortest decimal spelling of n: "0" for zero, otherwise no leading zero. */
  function NatDigits(n: nat): (s: string)
    ensures |s| > 0 && AllDigits(s)
    ensures s[0] == '0' <==> n == 0
    decreases n
  {
    if n < 10 then [DigitChar(n)] else NatDigits(n / 10) + [DigitChar(n % 10)]
  }

  lemma {:induction false} NatDigitsValue(n: nat)
    ensures DigitsValue(NatDigits(n)) == n
    decreases n
  {
    if n >= 10 {
      var p := NatDigits(n / 10);
      var s := NatDigits(n);
      assert s == p + [DigitChar(n % 10)];
      assert s[..|s| - 1] == p;
      NatDigitsValue(n / 10);
    }
  }

  // ---------------------------------------------------------------- encode

  /** `fmt.Sprintf("%d", v)`, used by `awsInt` for integers and by `awsTime`
      for `t.UnixNano()`: a minus sign for negative values, then the shortest
      decimal digits of the magnitude. The store hands numbers back in the same
      canonical spelling, so this is also how a stored number reads. */
  function AwsInt(v: int): (s: string)
    ensures |s| > 0
    ensures s[0] == '-' <==> v < 0
    ensures AllDigits(if v < 0 then s[1..] else s) && |if v < 0 then s[1..] else s| > 0
  {
    if v < 0 then "-" + NatDigits(-v) else NatDigits(v)
  }

  // ---------------------------------------------------------------- decode

  /** `strconv.ParseInt(s, 10, 64)`: an optional '+' or '-', then at least one
      decimal digit and nothing else (no base prefix, no underscores), with a
      value inside int64; anything else is an error (syntax or range). */
  function ParseInt(s: string): (r: Option<Int64>)
    ensures r.Some? ==> |s| > 0 && (s[0] == '+' || s[0] == '-' || IsDigit(s[0]))
    ensures r.Some? ==> forall i :: 0 < i < |s| ==> IsDigit(s[i])
    ensures r.Some? ==> IsDigit(s[|s| - 1])
  {
    if |s| == 0 then None
    else
      var digits := if s[0] == '+' || s[0] == '-' then s[1..] else s;
      if |digits| == 0 || !AllDigits(digits) then None
      else
        var v: int := if s[0] == '-' then 0 - DigitsValue(digits) as int else DigitsValue(digits);
        if MinInt64 <= v <= MaxInt64 then Some(v) else None
  }

  /** Reading back a number written by `AwsInt` gives the number itself when it
      fits in int64, and an error otherwise. */
  lemma ParseAwsInt(v: int)
    ensures ParseInt(AwsInt(v)) == if MinInt64 <= v <= MaxInt64 then Some(v) else None
  {
    var s := AwsInt(v);
    if v < 0 {
      assert s[1..] == NatDigits(-v);
      NatDigitsValue(-v);
    } else {
      NatDigitsValue(v);
    }
  }

  // ---------------------------------------------------------------- attributes

  /** A DynamoDB attribute value: its string (`S`) and number (`N`) members,
      either of which may be nil. */
  datatype AttributeValue = AttributeValue(s: Option<string>, n: Option<string>)

  type Attributes = map<string, AttributeValue>

  function StringAttr(s: string): AttributeValue { AttributeValue(Some(s), None) }

  function NumberAttr(n: string): AttributeValue { AttributeValue(None, Some(n)) }

  function MissingString(key: string): string { "No string " + key + " in attributes" }

  function MissingInt(key: string): string { "No int " + key + " in attributes" }

  /** The message of a number that does not parse; Go appends strconv's own
      error text after a colon, which the model leaves out. */
  function ConversionError(key: string): string { "Error converting " + key + " to integer" }

  /** `extractString`: the `S` member of the attribute named `key`. */
  function ExtractString(attrs: Attributes, key: string): (r: Result<string, string>)
    ensures r.Ok? <==> key in attrs && attrs[key].s.Some?
    ensures r.Ok? ==> r.value == attrs[key].s.value
    ensures r.Err? ==> r.error == MissingString(key)
  {
    if key !in attrs || attrs[key].s.None? then Err(MissingString(key))
    else Ok(attrs[key].s.value)
  }

  /** `extractInt`: the `N` member of the attribute named `key`, parsed as an int64. */
  function ExtractInt(attrs: Attributes, key: string): (r: Result<Int64, string>)
    ensures key !in attrs || attrs[key].n.None? ==> r == Err(MissingInt(key))
    ensures r.Ok? ==> key in attrs && attrs[key].n.Some? && ParseInt(attrs[key].n.value) == Some(r.value)
    ensures key in attrs && attrs[key].n.Some? && ParseInt(attrs[key].n.value).None? ==>
              r == Err(ConversionError(key))
  {
    if key !in attrs || attrs[key].n.None? then Err(MissingInt(key))
    else
      match ParseInt(attrs[key].n.value)
      case None => Err(ConversionError(key))
      case Some(v) => Ok(v)
  }

  /** Round trip: an attribute written with `awsInt`/`awsTime` reads back with
      `extractInt` as the same value for every int64, and as a conversion
      error for a stored number beyond int64. */
  lemma ExtractAwsInt(attrs: Attributes, key: string, v: int)
    requires key in attrs && attrs[key].n == Some(AwsInt(v))
    ensures ExtractInt(attrs, key) ==
              if MinInt64 <= v <= MaxInt64 then Ok(v) else Err(ConversionError(key))
  {
    ParseAwsInt(v);
  }

  /** A number containing anything but a leading sign and digits is rejected. */
  lemma ExtractIntRejectsNonInteger(attrs: Attributes, key: string, i: nat)
    requires key in attrs && attrs[key].n.Some?
    requires i < |attrs[key].n.value|
    requires !IsDigit(attrs[key].n.value[i]) && (i > 0 || attrs[key].n.value[0] !in "+-")
    ensures ExtractInt(attrs, key) == Err(ConversionError(key))
  {
  }
}
