/**
 * The operation throttle of the WiredTiger C++ test harness. A rate string such
 * as "10ms", "2s" or "1m" becomes the number of milliseconds to wait between
 * operations. The unit is found by searching for "ms", then "s", then "m"; the
 * text before the unit is the magnitude, read as a decimal int.
 */
module Throttle {
  import opened BitArith
  import opened Wrappers

  /** INT_MAX: the magnitude is read into an int. */
  const IntMax: nat := 0x7FFF_FFFF
  /** The milliseconds field is a uint64_t. */
  const Uint64Modulus: nat := 0x1_0000_0000_0000_0000

  /** Why a rate is rejected. The source aborts the process or throws; no throttle is built. */
  datatype RateError =
    | NoRateSpecifier      // no "ms", "s" or "m": the harness dies with "no rate specifier given"
    | InvalidMagnitude     // the text before the unit is not a number: stoi throws invalid_argument
    | MagnitudeOutOfRange  // the number does not fit an int: stoi throws out_of_range

  datatype Result<T> = Ok(value: T) | Err(error: RateError)

  datatype RateUnit = Milliseconds | Seconds | Minutes
  {
    /** The text the rate string is searched for. */
    function Suffix(): string
    {
      match this
      case Milliseconds => "ms"
      case Seconds => "s"
      case Minutes => "m"
    }

    /** Milliseconds per unit. */
    function Multiplier(): nat
    {
      match this
      case Milliseconds => 1
      case Seconds => 1000
      case Minutes => 60 * 1000
    }
  }

  /** The unit found in a rate and where its text starts. */
  datatype UnitMatch = UnitMatch(unit: RateUnit, pos: nat)

  // ---------------------------------------------------------------------------
  // Searching

  predicate OccursAt(s: string, pattern: string, i: nat)
  {
    i + |pattern| <= |s| && s[i..i + |pattern|] == pattern
  }

  predicate Contains(s: string, pattern: string)
  {
    exists i: nat :: i <= |s| && OccursAt(s, pattern, i)
  }

  /** `i` is the first position where `pattern` occurs in `s`. */
  predicate FirstAt(s: string, pattern: string, i: nat)
  {
    OccursAt(s, pattern, i) && forall j: nat :: j < i ==> !OccursAt(s, pattern, j)
  }

  /** `s.find(pattern, from)`: the first occurrence at or after `from`, or none (npos). */
  function Find(s: string, pattern: string, from: nat): (r: Option<nat>)
    decreases |s| - from
    ensures r.Some? ==> from <= r.value && OccursAt(s, pattern, r.value)
    ensures r.Some? ==> forall j: nat :: from <= j < r.value ==> !OccursAt(s, pattern, j)
    ensures r.None? ==> forall j: nat :: from <= j ==> !OccursAt(s, pattern, j)
  {
    if from + |pattern| > |s| then None
    else if OccursAt(s, pattern, from) then Some(from)
    else Find(s, pattern, from + 1)
  }

  /** A search from the start finds exactly the first occurrence. */
  lemma FindFirst(s: string, pattern: string)
    ensures Find(s, pattern, 0).Some? <==> Contains(s, pattern)
    ensures forall i: nat :: Find(s, pattern, 0) == Some(i) <==> FirstAt(s, pattern, i)
  {
    forall i: nat | FirstAt(s, pattern, i)
      ensures Find(s, pattern, 0) == Some(i)
    {
      var r := Find(s, pattern, 0);
      assert r.Some?;
      assert !(r.value < i) && !(i < r.value);
    }
  }

  /** A pattern occurs right after any text it is appended to. */
  lemma OccursAfter(prefix: string, pattern: string)
    ensures OccursAt(prefix + pattern, pattern, |prefix|)
  {
    assert (prefix + pattern)[|prefix|..|prefix| + |pattern|] == pattern;
  }

  /** A one-character pattern occurs exactly where that character is. */
  lemma OccursAtChar(s: string, c: char)
    ensures Contains(s, [c]) <==> c in s
    ensures forall i: nat :: OccursAt(s, [c], i) <==> i < |s| && s[i] == c
  {
    forall i: nat
      ensures OccursAt(s, [c], i) <==> i < |s| && s[i] == c
    {
      if i < |s| {
        assert s[i..i + 1][0] == s[i];
        assert s[i] == c ==> s[i..i + 1] == [c];
      }
    }
    if c in s {
      var i :| 0 <= i < |s| && s[i] == c;
      assert i <= |s| && OccursAt(s, [c], i);
    }
  }

  /** An occurrence of "ms" starts with an 'm' and contains an 's'. */
  lemma OccursAtMs(s: string, i: nat)
    requires OccursAt(s, "ms", i)
    ensures s[i] == 'm' && s[i + 1] == 's'
  {
    assert s[i..i + 2][0] == s[i] && s[i..i + 2][1] == s[i + 1];
  }

  // ---------------------------------------------------------------------------
  // The unit

  /**
   * The unit search of the throttle constructor in throttle.h: "ms" is looked
   * for first, because the searches for "s" and "m" would also match it; then
   * "s"; then "m".
   */
  function UnitOf(rate: string): (r: Option<UnitMatch>)
    ensures r.None? <==> 's' !in rate && 'm' !in rate
    ensures r.Some? ==> FirstAt(rate, r.value.unit.Suffix(), r.value.pos)
    ensures r.Some? ==> (r.value.unit == Milliseconds <==> Contains(rate, "ms"))
    ensures r.Some? ==> (r.value.unit == Seconds <==> !Contains(rate, "ms") && 's' in rate)
    ensures r.Some? ==> (r.value.unit == Minutes <==> 's' !in rate && 'm' in rate)
  {
    FindFirst(rate, "ms");
    FindFirst(rate, "s");
    FindFirst(rate, "m");
    OccursAtChar(rate, 's');
    OccursAtChar(rate, 'm');
    MsHasBoth(rate);
    match Find(rate, "ms", 0)
    case Some(pos) => Some(UnitMatch(Milliseconds, pos))
    case None =>
      match Find(rate, "s", 0)
      case Some(pos) => Some(UnitMatch(Seconds, pos))
      case None =>
        match Find(rate, "m", 0)
        case Some(pos) => Some(UnitMatch(Minutes, pos))
        case None => None
  }

  /** A rate containing "ms" contains an 'm' and an 's'. */
  lemma MsHasBoth(rate: string)
    ensures Contains(rate, "ms") ==> 'm' in rate && 's' in rate
  {
    if Contains(rate, "ms") {
      var i: nat :| i <= |rate| && OccursAt(rate, "ms", i);
      OccursAtMs(rate, i);
    }
  }

  /** Every unit's text starts with a letter, never a digit. */
  lemma SuffixNotDigit(rate: string, unit: RateUnit, i: nat)
    requires OccursAt(rate, unit.Suffix(), i)
    ensures i < |rate| && !IsDigit(rate[i])
  {
    assert rate[i..i + |unit.Suffix()|][0] == rate[i];
  }

  // ---------------------------------------------------------------------------
  // The magnitude

  predicate IsDigit(c: char)
  {
    '0' <= c <= '9'
  }

  predicate AllDigits(s: string)
  {
    forall i :: 0 <= i < |s| ==> IsDigit(s[i])
  }

  function DigitValue(c: char): (d: nat)
    requires IsDigit(c)
    ensures d < 10
  {
    c as int - '0' as int
  }

  function DigitChar(d: nat): (c: char)
    requires d < 10
    ensures IsDigit(c) && DigitValue(c) == d
  {
    ('0' as int + d) as char
  }

  /**
   * `std::stoi` on the magnitude, for a text of decimal digits: the value it
   * denotes, or nothing when the text is empty or holds anything but digits.
   */
  function ParseDecimal(s: string): (r: Option<nat>)
    ensures r.Some? <==> |s| > 0 && AllDigits(s)
  {
    if |s| == 0 || !IsDigit(s[|s| - 1]) then None
    else if |s| == 1 then Some(DigitValue(s[0]))
    else
      match ParseDecimal(s[..|s| - 1])
      case None => None
      case Some(n) => Some(10 * n + DigitValue(s[|s| - 1]))
  }

  /** The canonical decimal text of n (no sign, no leading zeros). */
  function Decimal(n: nat): (s: string)
    ensures |s| > 0 && AllDigits(s)
  {
    if n < 10 then [DigitChar(n)] else Decimal(n / 10) + [DigitChar(n % 10)]
  }

  /** Reading the decimal text of n gives back n. */
  lemma {:induction false} ParseDecimalOfDecimal(n: nat)
    ensures ParseDecimal(Decimal(n)) == Some(n)
  {
    if n >= 10 {
      var s := Decimal(n);
      assert s[..|s| - 1] == Decimal(n / 10);
      ParseDecimalOfDecimal(n / 10);
    }
  }

  /** Leading zeros do not change the value read: "05" is read as 5. */
  lemma {:induction false} ParseDecimalLeadingZero(s: string)
    requires |s| > 0 && AllDigits(s)
    decreases |s|
    ensures ParseDecimal(['0'] + s) == ParseDecimal(s)
  {
    var z := ['0'] + s;
    if |s| > 1 {
      assert z[..|z| - 1] == ['0'] + s[..|s| - 1];
      ParseDecimalLeadingZero(s[..|s| - 1]);
    }
  }

  // ---------------------------------------------------------------------------
  // The rate

  /**
   * The constructor `throttle(const std::string &)`: the milliseconds the rate
   * denotes, or why it is rejected. The product of an int magnitude and a unit
   * of at most 60000 ms always fits the uint64_t field.
   */
  function ParseRate(rate: string): (r: Result<nat>)
    ensures r == Err(NoRateSpecifier) <==> 's' !in rate && 'm' !in rate
    ensures r == Err(InvalidMagnitude) <==>
      UnitOf(rate).Some? && !(UnitOf(rate).value.pos > 0 && AllDigits(rate[..UnitOf(rate).value.pos]))
    ensures r == Err(MagnitudeOutOfRange) <==>
      UnitOf(rate).Some? && ParseDecimal(rate[..UnitOf(rate).value.pos]).Some?
      && ParseDecimal(rate[..UnitOf(rate).value.pos]).value > IntMax
    ensures r.Ok? ==> r.value <= IntMax * 60 * 1000 < Uint64Modulus
    ensures r.Ok? ==>
      var u := UnitOf(rate).value;
      ParseDecimal(rate[..u.pos]).Some? && r.value == ParseDecimal(rate[..u.pos]).value * u.unit.Multiplier()
  {
    match UnitOf(rate)
    case None => Err(NoRateSpecifier)
    case Some(u) =>
      match ParseDecimal(rate[..u.pos])
      case None => Err(InvalidMagnitude)
      case Some(magnitude) =>
        if magnitude > IntMax then Err(MagnitudeOutOfRange)
        else
          MulMonotone(magnitude, u.unit.Multiplier(), 60 * 1000);
          MulMonotone(60 * 1000, magnitude, IntMax);
          Ok(magnitude * u.unit.Multiplier())
  }

  /** Digits followed by a unit's text hold an 's' or an 'm' only where that text does. */
  lemma LettersOfSuffix(digits: string, unit: RateUnit)
    requires AllDigits(digits)
    ensures 's' in digits + unit.Suffix() <==> unit != Minutes
    ensures 'm' in digits + unit.Suffix() <==> unit != Seconds
  {
    var rate := digits + unit.Suffix();
    assert 's' !in digits && 'm' !in digits;
    assert forall c :: c in rate <==> c in digits || c in unit.Suffix();
  }

  /** Digits followed by a unit's text: the unit is found right after the digits. */
  lemma UnitOfDigitsThenSuffix(digits: string, unit: RateUnit)
    requires AllDigits(digits)
    ensures UnitOf(digits + unit.Suffix()) == Some(UnitMatch(unit, |digits|))
  {
    var rate := digits + unit.Suffix();
    LettersOfSuffix(digits, unit);
    var u := UnitOf(rate).value;
    assert u.unit == unit by {
      MsHasBoth(rate);
      OccursAfter(digits, unit.Suffix());
      assert unit == Milliseconds ==> |digits| <= |rate| && OccursAt(rate, "ms", |digits|);
    }
    assert u.pos == |digits| by {
      SuffixNotDigit(rate, unit, u.pos);
      assert forall i :: 0 <= i < |digits| ==> IsDigit(rate[i]);
      OccursAfter(digits, unit.Suffix());
    }
  }

  /** A decimal number followed by a unit is read as that many units. */
  lemma ParseFormattedRate(n: nat, unit: RateUnit)
    requires n <= IntMax
    ensures ParseRate(Decimal(n) + unit.Suffix()) == Ok(n * unit.Multiplier())
  {
    var digits := Decimal(n);
    var rate := digits + unit.Suffix();
    UnitOfDigitsThenSuffix(digits, unit);
    assert rate[..|digits|] == digits;
    ParseDecimalOfDecimal(n);
  }

  /** The default rate, "1s", is 1000 milliseconds. */
  lemma DefaultRate()
    ensures ParseRate("1s") == Ok(1000)
  {
    assert Decimal(1) + Seconds.Suffix() == "1s";
    ParseFormattedRate(1, Seconds);
  }

  // ---------------------------------------------------------------------------
  // The throttle object

  class Throttle {
    /** `_ms`: milliseconds to wait per operation. */
    var ms: nat

    /** `throttle(const std::string &)`, for a rate the harness accepts. */
    constructor (rate: string)
      requires ParseRate(rate).Ok?
      ensures ms == ParseRate(rate).value
      ensures ms < Uint64Modulus
    {
      ms := ParseRate(rate).value;
    }

    /** `throttle()`: delegates to the rate "1s", one operation per second. */
    constructor Default()
      ensures ms == 1000
    {
      DefaultRate();
      ms := ParseRate("1s").value;
    }
  }

  /**
   * Builds a throttle from a rate, or reports the error on which the source
   * aborts or throws instead of producing one.
   */
  method NewThrottle(rate: string) returns (r: Result<Throttle>)
    ensures r.Err? <==> ParseRate(rate).Err?
    ensures r.Err? ==> r.error == ParseRate(rate).error
    ensures r.Ok? ==> fresh(r.value) && r.value.ms == ParseRate(rate).value
  {
    match ParseRate(rate)
    case Err(e) =>
      r := Err(e);
    case Ok(_) =>
      var t := new Throttle(rate);
      r := Ok(t);
  }
}
