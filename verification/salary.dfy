/**
  Free-text salary to an annual figure, as `extract_salary` does it:
  drop thousands separators, lower-case, strip, find the first number
  with the pattern `\$?(\d+(?:\.\d+)?)\s*(k|per hour|hour|usd|a year)?`,
  scale it by the unit rules and round to two decimals.

  Amounts are exact: a parsed number is a digit string and a count of
  fraction digits, and the result is a whole number of cents.
 */
module Salary {
  import opened Common
  import opened Text

  /** The unit words the pattern accepts after the number. */
  datatype Unit = Thousands | PerHour | Hour | Usd | AYear

  function UnitText(u: Unit): string {
    match u
    case Thousands => "k"
    case PerHour => "per hour"
    case Hour => "hour"
    case Usd => "usd"
    case AYear => "a year"
  }

  /**
    What the pattern captures: the integer digits, the fraction digits
    (empty when there is no `.digits` part) and the optional unit.
   */
  datatype Token = Token(whole: string, frac: string, unit: Option<Unit>)

  predicate AllDigits(s: string) {
    forall k :: 0 <= k < |s| ==> IsDigit(s[k])
  }

  predicate NoDigit(s: string) {
    forall k :: 0 <= k < |s| ==> !IsDigit(s[k])
  }

  /** A token the pattern can produce. */
  predicate WellFormed(t: Token) {
    t.whole != [] && AllDigits(t.whole) && AllDigits(t.frac)
  }

  /** The number as it appears in the text: `whole` or `whole.frac`. */
  function Number(t: Token): string {
    if t.frac == [] then t.whole else t.whole + "." + t.frac
  }

  // ---------------------------------------------------------------------
  // Scanning

  /** Position of the first digit, where `re.search` finds the number. */
  function FirstDigit(s: string): (r: Option<nat>)
    ensures r.None? <==> NoDigit(s)
    ensures r.Some? ==> r.value < |s| && IsDigit(s[r.value]) && NoDigit(s[..r.value])
  {
    if s == [] then None
    else if IsDigit(s[0]) then Some(0)
    else match FirstDigit(s[1..])
      case None => None
      case Some(i) =>
        assert s[..i + 1] == [s[0]] + s[1..][..i];
        Some(i + 1)
  }

  /** The unit alternative that matches at the start of `s`, if any. */
  function UnitAt(s: string): (r: Option<Unit>)
    ensures r.Some? ==> StartsWith(s, UnitText(r.value))
    ensures r.None? ==> forall u :: !StartsWith(s, UnitText(u))
  {
    if StartsWith(s, "k") then Some(Thousands)
    else if StartsWith(s, "per hour") then Some(PerHour)
    else if StartsWith(s, "hour") then Some(Hour)
    else if StartsWith(s, "usd") then Some(Usd)
    else if StartsWith(s, "a year") then Some(AYear)
    else None
  }

  /** No two unit words can match at the same place, so the order the pattern tries them in does not matter. */
  lemma UnitsExclusive(s: string, u: Unit, v: Unit)
    requires StartsWith(s, UnitText(u)) && StartsWith(s, UnitText(v))
    ensures u == v
  {
    assert s[0] == UnitText(u)[0] == UnitText(v)[0];
  }

  /**
    Length of a `.digits` part starting at position `n` of `s` (the
    greedy `(?:\.\d+)?`), 0 when there is none.
   */
  function FractionLength(s: string, n: nat): (f: nat)
    requires n <= |s|
    ensures n + f <= |s|
    ensures f > 0 ==> f >= 2 && s[n] == '.' && AllDigits(s[n + 1..n + f]) && (n + f == |s| || !IsDigit(s[n + f]))
    ensures f == 0 ==> !(n + 2 <= |s| && s[n] == '.' && IsDigit(s[n + 1]))
  {
    if n + 2 <= |s| && s[n] == '.' && IsDigit(s[n + 1]) then
      var m := LeadingDigits(s[n + 1..]);
      assert s[n + 1..n + 1 + m] == s[n + 1..][..m];
      assert n + 1 + m < |s| ==> s[n + 1 + m] == s[n + 1..][m];
      1 + m
    else 0
  }

  /** The unit after optional whitespace (`\s*(k|per hour|hour|usd|a year)?`). */
  function UnitAfter(s: string): Option<Unit> {
    if s != [] && IsSpace(s[0]) then UnitAfter(s[1..]) else UnitAt(s)
  }

  /** Whitespace before a unit word is skipped, however much of it there is. */
  lemma {:induction false} UnitAfterPadded(w: string, rest: string)
    requires AllSpace(w) && (rest == [] || !IsSpace(rest[0]))
    ensures UnitAfter(w + rest) == UnitAt(rest)
  {
    if w == [] {
      assert w + rest == rest;
    } else {
      assert (w + rest)[0] == w[0];
      assert (w + rest)[1..] == w[1..] + rest;
      UnitAfterPadded(w[1..], rest);
    }
  }

  /** The number the scanner reads is exactly the text from the first digit to the end of the fraction. */
  lemma NumberIsPrefix(s: string, n: nat, f: nat, u: Option<Unit>)
    requires 1 <= n && n + f <= |s|
    requires AllDigits(s[..n])
    requires f > 0 ==> f >= 2 && s[n] == '.' && AllDigits(s[n + 1..n + f])
    ensures var t := Token(s[..n], if f == 0 then [] else s[n + 1..n + f], u);
      WellFormed(t) && Number(t) == s[..n + f]
  {
    if f > 0 {
      assert s[..n] + "." + s[n + 1..n + f] == s[..n + f];
    }
  }

  /**
    Reads the pattern's groups from text that starts with a digit:
    the greedy digit run, a `.digits` part when one follows, then,
    after any whitespace (`\s*`), the unit.
   */
  function ReadToken(s: string): (t: Token)
    requires s != [] && IsDigit(s[0])
    ensures WellFormed(t)
    ensures StartsWith(s, Number(t))
    ensures |Number(t)| == |s| || !IsDigit(s[|Number(t)|])
    ensures |Number(t)| == NumberEnd(s)
    ensures t.unit == UnitAfter(s[NumberEnd(s)..])
  {
    var n := LeadingDigits(s);
    var f := FractionLength(s, n);
    assert AllDigits(s[..n]);
    SpanToken(s, n, f, UnitAfter(s[NumberEnd(s)..]))
  }

  /** Where the greedy `\d+(?:\.\d+)?` ends in text that starts with a digit. */
  function NumberEnd(s: string): (e: nat)
    ensures e <= |s|
  {
    LeadingDigits(s) + FractionLength(s, LeadingDigits(s))
  }

  /** The token for `n` integer digits and a `.digits` part of length `f` at the start of `s`. */
  function SpanToken(s: string, n: nat, f: nat, u: Option<Unit>): (t: Token)
    requires 1 <= n && n + f <= |s|
    requires AllDigits(s[..n])
    requires f > 0 ==> f >= 2 && s[n] == '.' && AllDigits(s[n + 1..n + f])
    requires n + f == |s| || !IsDigit(s[n + f])
    ensures WellFormed(t)
    ensures StartsWith(s, Number(t)) && |Number(t)| == n + f
    ensures |Number(t)| == |s| || !IsDigit(s[|Number(t)|])
    ensures t.unit == u
  {
    NumberIsPrefix(s, n, f, u);
    PrefixStartsWith(s, n + f);
    Token(s[..n], if f == 0 then [] else s[n + 1..n + f], u)
  }

  lemma PrefixStartsWith(s: string, k: nat)
    requires k <= |s|
    ensures StartsWith(s, s[..k])
  {
  }

  /**
    `re.search` of the salary pattern: nothing when the text has no digit,
    otherwise the groups read at the first digit.
   */
  function Scan(s: string): (r: Option<Token>)
    ensures r.None? <==> NoDigit(s)
    ensures r.Some? ==> WellFormed(r.value) && StartsWith(s[FirstDigit(s).value..], Number(r.value))
    ensures r.Some? ==>
              var rest := s[FirstDigit(s).value..];
              |Number(r.value)| == NumberEnd(rest) &&
              (NumberEnd(rest) == |rest| || !IsDigit(rest[NumberEnd(rest)])) &&
              r.value.unit == UnitAfter(rest[NumberEnd(rest)..])
  {
    match FirstDigit(s)
    case None => None
    case Some(i) => Some(ReadToken(s[i..]))
  }

  // ---------------------------------------------------------------------
  // Arithmetic

  function DigitValue(c: char): nat {
    if IsDigit(c) then c as nat - '0' as nat else 0
  }

  /** The value of a decimal digit string. */
  function DigitsValue(ds: string): nat {
    if ds == [] then 0 else 10 * DigitsValue(ds[..|ds| - 1]) + DigitValue(ds[|ds| - 1])
  }

  function Pow10(n: nat): (r: nat)
    ensures r >= 1
  {
    if n == 0 then 1 else 10 * Pow10(n - 1)
  }

  /** Reading `a + b` is reading `a`, shifting it by the length of `b`, and adding `b`. */
  lemma {:induction false} DigitsValueAppend(a: string, b: string)
    ensures DigitsValue(a + b) == DigitsValue(a) * Pow10(|b|) + DigitsValue(b)
  {
    if b != [] {
      var b' := b[..|b| - 1];
      assert (a + b)[..|a + b| - 1] == a + b';
      assert (a + b)[|a + b| - 1] == b[|b| - 1];
      DigitsValueAppend(a, b');
      ShiftDigit(DigitsValue(a), Pow10(|b'|), DigitsValue(b'), DigitValue(b[|b| - 1]));
    } else {
      assert a + b == a;
    }
  }

  lemma ShiftDigit(x: int, p: int, y: int, d: int)
    ensures 10 * (x * p + y) + d == x * (10 * p) + (10 * y + d)
  {
  }

  /** All the digits of the number read as one integer: the value times `10^|frac|`. */
  function Mantissa(t: Token): nat {
    DigitsValue(t.whole + t.frac)
  }

  /** `float(value)`: the decimal the captured text denotes. */
  ghost function Value(t: Token): real {
    DigitsValue(t.whole) as real + DigitsValue(t.frac) as real / Pow10(|t.frac|) as real
  }

  lemma ValueIsMantissa(t: Token)
    ensures Value(t) == Mantissa(t) as real / Pow10(|t.frac|) as real
  {
    DigitsValueAppend(t.whole, t.frac);
    SplitFraction(DigitsValue(t.whole), DigitsValue(t.frac), Pow10(|t.frac|));
  }

  lemma SplitFraction(x: nat, y: nat, p: nat)
    requires p >= 1
    ensures (x * p + y) as real / p as real == x as real + y as real / p as real
  {
    var pr := p as real;
    assert (x * p + y) as real == x as real * pr + y as real;
    assert (x as real * pr + y as real) / pr == x as real * pr / pr + y as real / pr;
  }

  /**
    The unit rules on the decimal value: `k` multiplies by 1000 and wins
    over everything else; otherwise an hourly unit, or any value below 250
    whatever its unit, multiplies by 2000; otherwise the value stands.
   */
  ghost function AnnualFactor(t: Token): real {
    if t.unit == Some(Thousands) then 1000.0
    else if t.unit == Some(PerHour) || t.unit == Some(Hour) || Value(t) < 250.0 then 2000.0
    else 1.0
  }

  /** The same rules decided on integers: `value < 250` is `mantissa < 250 * 10^|frac|`. */
  function Multiplier(t: Token): nat {
    if t.unit == Some(Thousands) then 1000
    else if t.unit == Some(PerHour) || t.unit == Some(Hour) || Mantissa(t) < 250 * Pow10(|t.frac|) then 2000
    else 1
  }

  /** The integer decision agrees with the rules stated on the decimal value. */
  lemma MultiplierFollowsRules(t: Token)
    ensures Multiplier(t) as real == AnnualFactor(t)
  {
    ValueIsMantissa(t);
    LessThanScaled(Mantissa(t), Pow10(|t.frac|), 250);
  }

  lemma LessThanScaled(n: nat, p: nat, bound: nat)
    requires p >= 1
    ensures n as real / p as real < bound as real <==> n < bound * p
  {
    var q := n as real / p as real;
    assert q * p as real == n as real;
  }

  function Abs(x: int): nat {
    if x < 0 then -x else x
  }

  ghost function RealAbs(x: real): real {
    if x < 0.0 then -x else x
  }

  /** `x` rounded to the nearest integer, ties to the even one (Python's `round`). */
  ghost predicate RoundsTo(c: int, x: real) {
    && 2.0 * RealAbs(c as real - x) <= 1.0
    && (2.0 * RealAbs(c as real - x) == 1.0 ==> c % 2 == 0)
  }

  /** The annual salary in cents, exactly: the scaled value times 100. */
  ghost function AnnualCents(t: Token): real {
    100.0 * Value(t) * AnnualFactor(t)
  }

  /** `n / d` rounded half to even, on integers. */
  function RoundHalfEven(n: nat, d: nat): (r: nat)
    requires d >= 1
    ensures 2 * Abs(r * d - n) <= d
    ensures 2 * Abs(r * d - n) == d ==> r % 2 == 0
  {
    var q, m := n / d, n % d;
    assert n == q * d + m;
    if 2 * m < d then q
    else if 2 * m > d then q + 1
    else if q % 2 == 0 then q
    else q + 1
  }

  lemma RoundingScalesDown(c: nat, n: nat, d: nat)
    requires d >= 1
    requires 2 * Abs(c * d - n) <= d
    requires 2 * Abs(c * d - n) == d ==> c % 2 == 0
    ensures RoundsTo(c, n as real / d as real)
  {
    var x := n as real / d as real;
    assert x * d as real == n as real;
    var e := c as real - x;
    assert e * d as real == (c * d - n) as real;
    assert RealAbs(e) * d as real == Abs(c * d - n) as real;
  }

  lemma ScaleFraction(m: nat, k: nat, p: nat)
    requires p >= 1
    ensures (m * k * 100) as real / p as real == 100.0 * (m as real / p as real) * k as real
  {
    var pr := p as real;
    assert (m * k * 100) as real == 100.0 * m as real * k as real;
    assert 100.0 * m as real * k as real / pr == 100.0 * (m as real / pr) * k as real;
  }

  /** The salary in cents: the scaled value, rounded to two decimals. */
  function Cents(t: Token): (c: nat)
    ensures RoundsTo(c, AnnualCents(t))
  {
    var p := Pow10(|t.frac|);
    var n := Mantissa(t) * Multiplier(t) * 100;
    var c := RoundHalfEven(n, p);
    ScaledIsAnnual(t);
    RoundingScalesDown(c, n, p);
    c
  }

  /** The integer numerator over `10^|frac|` is the exact annual figure in cents. */
  lemma ScaledIsAnnual(t: Token)
    ensures (Mantissa(t) * Multiplier(t) * 100) as real / Pow10(|t.frac|) as real == AnnualCents(t)
  {
    MultiplierFollowsRules(t);
    ValueIsMantissa(t);
    ScaleFraction(Mantissa(t), Multiplier(t), Pow10(|t.frac|));
  }

  // ---------------------------------------------------------------------
  // extract_salary

  /** `salary.replace(',', '').lower().strip()`. */
  function Clean(raw: string): (r: string)
    ensures ',' !in r && IsStripped(r)
  {
    var t := Lower(RemoveChar(raw, ','));
    LowerKeepsChar(RemoveChar(raw, ','), ',');
    StripKeepsChar(t, ',');
    Strip(t)
  }

  /** Cleaning neither adds nor removes digits. */
  lemma CleanKeepsDigits(raw: string)
    ensures NoDigit(Clean(raw)) <==> NoDigit(raw)
  {
    forall d | IsDigit(d) ensures d in Clean(raw) <==> d in raw {
      CleanKeepsDigit(raw, d);
    }
    NoDigitIff(raw);
    NoDigitIff(Clean(raw));
  }

  /** Each cleaning step keeps a digit exactly when it was there. */
  lemma CleanKeepsDigit(raw: string, d: char)
    requires IsDigit(d)
    ensures d in Clean(raw) <==> d in raw
  {
    var a := RemoveChar(raw, ',');
    var b := Lower(a);
    RemoveKeepsOthers(raw, ',', d);
    LowerKeepsChar(a, d);
    StripKeepsChar(b, d);
  }

  lemma RemoveKeepsOthers(s: string, c: char, d: char)
    requires d != c
    ensures d in RemoveChar(s, c) <==> d in s
  {
    assert multiset(RemoveChar(s, c))[d] == multiset(s)[d];
  }

  lemma NoDigitIff(s: string)
    ensures NoDigit(s) <==> forall d :: IsDigit(d) ==> d !in s
  {
    if !NoDigit(s) {
      var k :| 0 <= k < |s| && IsDigit(s[k]);
      assert s[k] in s;
    }
  }

  /**
    The annual salary in cents, or nothing.  Nothing exactly when the
    text holds no digit (the empty text in particular); otherwise the
    first number, scaled by the unit rules and rounded to two decimals.
   */
  function ExtractSalary(raw: string): (r: Option<nat>)
    ensures r.None? <==> NoDigit(raw)
    ensures raw == [] ==> r.None?
    ensures r.Some? ==> && Scan(Clean(raw)).Some?
                        && RoundsTo(r.value, AnnualCents(Scan(Clean(raw)).value))
  {
    CleanKeepsDigits(raw);
    if raw == [] then None
    else match Scan(Clean(raw))
      case None => None
      case Some(t) =>
        Some(Cents(t))
  }
}

module SalaryFacts {
  import opened Common
  import opened Text
  import opened Salary

  /**
    How a salary is written: the number, then, when there is a unit,
    the whitespace `w` and the unit word.
   */
  function Render(t: Token, w: string): string {
    Number(t) + match t.unit case None => "" case Some(u) => w + UnitText(u)
  }

  lemma {:induction false} LeadingDigitsExact(s: string, k: nat)
    requires k <= |s| && AllDigits(s[..k]) && (k == |s| || !IsDigit(s[k]))
    ensures LeadingDigits(s) == k
  {
    if k > 0 {
      assert IsDigit(s[..k][0]);
      assert s[1..][..k - 1] == s[..k][1..];
      LeadingDigitsExact(s[1..], k - 1);
    }
  }

  lemma FirstDigitExact(p: string, r: string)
    requires NoDigit(p) && r != [] && IsDigit(r[0])
    ensures FirstDigit(p + r) == Some(|p|)
  {
    var s := p + r;
    assert s[|p|] == r[0];
  }

  lemma UnitAtOwnText(u: Unit)
    ensures UnitAt(UnitText(u)) == Some(u)
  {
    assert StartsWith(UnitText(u), UnitText(u));
    var v := UnitAt(UnitText(u));
    UnitsExclusive(UnitText(u), u, v.value);
  }

  /** What follows the number is read back as the token's unit. */
  lemma UnitAfterRendered(t: Token, w: string)
    requires AllSpace(w)
    ensures UnitAfter(match t.unit case None => "" case Some(u) => w + UnitText(u)) == t.unit
  {
    match t.unit
    case None =>
    case Some(u) =>
      UnitAfterPadded(w, UnitText(u));
      UnitAtOwnText(u);
  }

  /** The text after the number starts with neither a digit nor a `.`. */
  lemma TailStart(t: Token, w: string)
    requires AllSpace(w)
    ensures var tail := match t.unit case None => "" case Some(u) => w + UnitText(u);
      tail == [] || (!IsDigit(tail[0]) && tail[0] != '.')
  {
    if t.unit.Some? && w == [] {
      assert (w + UnitText(t.unit.value))[0] == UnitText(t.unit.value)[0];
    } else if t.unit.Some? {
      assert (w + UnitText(t.unit.value))[0] == w[0];
    }
  }

  /** Where the integer digits end and how long the fraction is, in rendered text. */
  lemma NumberBounds(t: Token, tail: string)
    requires WellFormed(t)
    requires tail == [] || (!IsDigit(tail[0]) && tail[0] != '.')
    ensures var s := Number(t) + tail; var n := |t.whole|;
      && LeadingDigits(s) == n
      && FractionLength(s, n) == |Number(t)| - n
      && s[..n] == t.whole
      && (t.frac != [] ==> s[n + 1..|Number(t)|] == t.frac)
      && s[|Number(t)|..] == tail
  {
    if t.frac == [] {
      WholeBounds(t.whole, tail);
    } else {
      FractionBounds(t.whole, t.frac, tail);
    }
  }

  lemma WholeBounds(whole: string, tail: string)
    requires whole != [] && AllDigits(whole)
    requires tail == [] || (!IsDigit(tail[0]) && tail[0] != '.')
    ensures var s := whole + tail; var n := |whole|;
      LeadingDigits(s) == n && FractionLength(s, n) == 0 && s[..n] == whole && s[n..] == tail
  {
    var s := whole + tail;
    var n := |whole|;
    assert s[..n] == whole;
    assert s[n..] == tail;
    assert n < |s| ==> s[n] == tail[0];
    LeadingDigitsExact(s, n);
  }

  lemma FractionBounds(whole: string, frac: string, tail: string)
    requires whole != [] && AllDigits(whole) && frac != [] && AllDigits(frac)
    requires tail == [] || (!IsDigit(tail[0]) && tail[0] != '.')
    ensures var s := whole + "." + frac + tail; var n := |whole|; var m := n + 1 + |frac|;
      && LeadingDigits(s) == n
      && FractionLength(s, n) == 1 + |frac|
      && s[..n] == whole
      && s[n + 1..m] == frac
      && s[m..] == tail
  {
    var s := whole + "." + frac + tail;
    var n := |whole|;
    var rest := frac + tail;
    assert s == whole + (['.'] + rest);
    assert s[..n] == whole;
    assert s[n] == '.';
    LeadingDigitsExact(s, n);
    assert s[n + 1..] == rest;
    FractionDigits(frac, tail);
    assert s[n + 1..n + 1 + |frac|] == rest[..|frac|];
    assert s[n + 1 + |frac|..] == rest[|frac|..];
  }

  lemma FractionDigits(frac: string, tail: string)
    requires AllDigits(frac)
    requires tail == [] || (!IsDigit(tail[0]) && tail[0] != '.')
    ensures LeadingDigits(frac + tail) == |frac|
    ensures (frac + tail)[..|frac|] == frac && (frac + tail)[|frac|..] == tail
  {
    var rest := frac + tail;
    assert rest[..|frac|] == frac;
    assert rest[|frac|..] == tail;
    assert |frac| < |rest| ==> rest[|frac|] == tail[0];
    LeadingDigitsExact(rest, |frac|);
  }

  /** The scanner reads a rendered token back. */
  lemma ReadRendered(t: Token, w: string)
    requires WellFormed(t) && AllSpace(w)
    ensures ReadToken(Render(t, w)) == t
  {
    var tail := match t.unit case None => "" case Some(u) => w + UnitText(u);
    TailStart(t, w);
    NumberBounds(t, tail);
    UnitAfterRendered(t, w);
  }

  /**
    Round trip: a salary written as an optional digit-free lead-in
    (a `$`, say), the number, optional whitespace and a unit word is
    read back as exactly that number and unit, so its value is the
    token's cents.
   */
  lemma {:induction false} ExtractRendered(p: string, t: Token, w: string)
    requires WellFormed(t) && AllSpace(w)
    requires NoDigit(p) && IsLower(p) && ',' !in p && (p == [] || !IsSpace(p[0]))
    requires IsLower(t.whole + t.frac)
    ensures ExtractSalary(p + Render(t, w)) == Some(Cents(t))
  {
    var r := Render(t, w);
    var s := p + r;
    ReadRendered(t, w);
    FirstDigitExact(p, r);
    assert s[|p|..] == r;
    assert Scan(s) == Some(t);
    CleanRendered(p, t, w);
  }

  /** Every character of a rendered salary is a digit, a `.`, whitespace or a lower-case letter. */
  predicate PlainChar(c: char) {
    IsDigit(c) || c == '.' || IsSpace(c) || ('a' <= c <= 'z')
  }

  lemma NumberChars(t: Token)
    requires WellFormed(t)
    ensures forall i :: 0 <= i < |Number(t)| ==> PlainChar(Number(t)[i])
    ensures IsStripped(Number(t))
  {
    var num := Number(t);
    if t.frac != [] {
      assert num == t.whole + "." + t.frac;
      forall i | 0 <= i < |num| ensures PlainChar(num[i]) {
        if i < |t.whole| {
          assert num[i] == t.whole[i];
        } else if i > |t.whole| {
          assert num[i] == t.frac[i - |t.whole| - 1];
        }
      }
      assert num[0] == t.whole[0];
      assert num[|num| - 1] == t.frac[|t.frac| - 1];
    }
  }

  lemma RenderedChars(t: Token, w: string)
    requires WellFormed(t) && AllSpace(w)
    ensures forall i :: 0 <= i < |Render(t, w)| ==> PlainChar(Render(t, w)[i])
    ensures IsStripped(Render(t, w))
  {
    var num := Number(t);
    NumberChars(t);
    match t.unit
    case None =>
      assert Render(t, w) == num;
    case Some(u) =>
      var r := num + w + UnitText(u);
      assert r == Render(t, w);
      forall i | 0 <= i < |r| ensures PlainChar(r[i]) {
        if i < |num| {
          assert r[i] == num[i];
        } else if i < |num| + |w| {
          assert r[i] == w[i - |num|];
        } else {
          assert r[i] == UnitText(u)[i - |num| - |w|];
        }
      }
      assert r[0] == num[0];
      assert r[|r| - 1] == UnitText(u)[|UnitText(u)| - 1];
  }

  /** A rendered salary after a plain lead-in has no comma, no upper case and no outer whitespace. */
  lemma RenderedIsClean(p: string, t: Token, w: string)
    requires WellFormed(t) && AllSpace(w)
    requires IsLower(p) && ',' !in p && (p == [] || !IsSpace(p[0]))
    ensures ',' !in p + Render(t, w)
    ensures IsLower(p + Render(t, w))
    ensures IsStripped(p + Render(t, w))
  {
    var r := Render(t, w);
    var s := p + r;
    RenderedChars(t, w);
    forall i | 0 <= i < |s| ensures s[i] != ',' && !IsUpper(s[i]) {
      if i >= |p| {
        assert s[i] == r[i - |p|];
      }
    }
    assert s[|s| - 1] == r[|r| - 1];
    assert s[0] == if p == [] then r[0] else p[0];
  }

  lemma CleanRendered(p: string, t: Token, w: string)
    requires WellFormed(t) && AllSpace(w)
    requires IsLower(p) && ',' !in p && (p == [] || !IsSpace(p[0]))
    ensures Clean(p + Render(t, w)) == p + Render(t, w)
  {
    var s := p + Render(t, w);
    RenderedIsClean(p, t, w);
    RemoveAbsentChar(s, ',');
    LowerFacts(s);
    StripStripped(s);
  }

  /** Thousands separators and letter case make no difference to the result. */
  lemma CommasAndCaseIgnored(a: string, b: string)
    requires Lower(RemoveChar(a, ',')) == Lower(RemoveChar(b, ','))
    ensures ExtractSalary(a) == ExtractSalary(b)
  {
    assert Clean(a) == Clean(b);
    assert Strip([]) == [];
  }

  lemma DigitsValueSnoc(ds: string, c: char)
    ensures DigitsValue(ds + [c]) == 10 * DigitsValue(ds) + DigitValue(c)
  {
    assert (ds + [c])[..|ds|] == ds;
  }

  /** Without a fraction the divisor is 1 and nothing is rounded away. */
  lemma WholeCents(t: Token)
    requires t.frac == []
    ensures Cents(t) == Mantissa(t) * Multiplier(t) * 100
  {
    assert Pow10(0) == 1;
  }

  lemma DigitsOf45000()
    ensures DigitsValue("45") == 45
    ensures DigitsValue("45000") == 45000
  {
    DigitsValueSnoc("", '4');
    assert [] + ['4'] == "4";
    DigitsValueSnoc("4", '5');
    assert "4" + ['5'] == "45";
    DigitsValueSnoc("45", '0');
    assert "45" + ['0'] == "450";
    DigitsValueSnoc("450", '0');
    assert "450" + ['0'] == "4500";
    DigitsValueSnoc("4500", '0');
    assert "4500" + ['0'] == "45000";
  }

  lemma CentsOf45000()
    ensures Cents(Token("45000", "", None)) == 4500000
  {
    var t := Token("45000", "", None);
    assert t.whole + t.frac == "45000";
    DigitsOf45000();
    WholeCents(t);
    assert Pow10(0) == 1;
  }

  /** A salary text whose cleaned form is a rendered token yields that token's cents. */
  lemma ExtractViaClean(raw: string, p: string, t: Token, w: string)
    requires WellFormed(t) && AllSpace(w)
    requires NoDigit(p) && IsLower(p) && ',' !in p && (p == [] || !IsSpace(p[0]))
    requires Lower(RemoveChar(raw, ',')) == p + Render(t, w)
    ensures ExtractSalary(raw) == Some(Cents(t))
  {
    var s := p + Render(t, w);
    ExtractRendered(p, t, w);
    RenderedIsClean(p, t, w);
    RemoveAbsentChar(s, ',');
    LowerFacts(s);
    CommasAndCaseIgnored(raw, s);
  }

  lemma DropSeparator(raw: string, a: string, b: string)
    requires raw == a + ([','] + b) && ',' !in a && ',' !in b
    ensures RemoveChar(raw, ',') == a + b
  {
    RemoveCharAppend(a, [','] + b, ',');
    RemoveCharAppend([','], b, ',');
    RemoveAbsentChar(a, ',');
    RemoveAbsentChar(b, ',');
    assert RemoveChar([','], ',') == [];
  }

  lemma ThousandsSeparatorText(raw: string)
    requires raw == "$45,000"
    ensures Lower(RemoveChar(raw, ',')) == "$" + Render(Token("45000", "", None), "")
  {
    assert raw == "$45" + ([','] + "000");
    DropSeparator(raw, "$45", "000");
    assert "$45" + "000" == "$" + "45000";
    AlreadyPlain("$" + "45000");
  }

  lemma ExampleThousandsSeparator(raw: string)
    requires raw == "$45,000"
    ensures ExtractSalary(raw) == Some(4500000)
  {
    ThousandsSeparatorText(raw);
    ExtractViaClean(raw, "$", Token("45000", "", None), "");
    CentsOf45000();
  }

  /** A value the divisor divides exactly is not rounded. */
  lemma ExactRound(c: nat, d: nat)
    requires d >= 1
    ensures RoundHalfEven(c * d, d) == c
  {
    var r := RoundHalfEven(c * d, d);
    if r != c {
      ProductGap(r, c, d);
    }
  }

  /** Two different multiples of `d` are at least `d` apart. */
  lemma ProductGap(r: nat, c: nat, d: nat)
    requires d >= 1 && r != c
    ensures Abs(r * d - c * d) >= d
  {
    if r > c {
      assert r * d - c * d == (r - c) * d;
      AtLeastDivisor(r - c, d);
    } else {
      assert c * d - r * d == (c - r) * d;
      AtLeastDivisor(c - r, d);
    }
  }

  lemma AtLeastDivisor(a: int, d: nat)
    requires a >= 1
    ensures a * d >= d
  {
  }

  lemma DigitsValue3(a: char, b: char, c: char)
    ensures DigitsValue([a, b, c]) == 100 * DigitValue(a) + 10 * DigitValue(b) + DigitValue(c)
  {
    DigitsValueSnoc([], a);
    assert [] + [a] == [a];
    DigitsValueSnoc([a], b);
    assert [a] + [b] == [a, b];
    DigitsValueSnoc([a, b], c);
    assert [a, b] + [c] == [a, b, c];
  }

  lemma DigitsValue2(a: char, b: char)
    ensures DigitsValue([a, b]) == 10 * DigitValue(a) + DigitValue(b)
  {
    DigitsValueSnoc([], a);
    assert [] + [a] == [a];
    DigitsValueSnoc([a], b);
    assert [a] + [b] == [a, b];
  }

  /** Text with no comma and no capital letter is already in the cleaned form the pattern sees. */
  lemma AlreadyPlain(raw: string)
    requires ',' !in raw && IsLower(raw)
    ensures Lower(RemoveChar(raw, ',')) == raw
  {
    RemoveAbsentChar(raw, ',');
    LowerFacts(raw);
  }

  lemma CentsOf45()
    ensures Cents(Token("45", "", None)) == 9000000
  {
    var t := Token("45", "", None);
    assert t.whole + t.frac == ['4', '5'];
    DigitsValue2('4', '5');
    assert Pow10(0) == 1;
    WholeCents(t);
  }

  /** Digits alone, or digits and a unit word, are already in cleaned form. */
  lemma PlainText(raw: string, t: Token, w: string)
    requires t.frac == [] && raw == t.whole + match t.unit case None => "" case Some(u) => w + UnitText(u)
    requires ',' !in raw && IsLower(raw)
    ensures Lower(RemoveChar(raw, ',')) == [] + Render(t, w)
  {
    AlreadyPlain(raw);
  }

  /** A bare number below 250 is read as an hourly rate. */
  lemma ExampleSmallNumber(raw: string)
    requires raw == "45"
    ensures ExtractSalary(raw) == Some(9000000)
  {
    var t := Token("45", "", None);
    PlainText(raw, t, "");
    ExtractViaClean(raw, [], t, "");
    CentsOf45();
  }

  lemma CentsOf250()
    ensures Cents(Token("250", "", None)) == 25000
  {
    var t := Token("250", "", None);
    assert t.whole + t.frac == ['2', '5', '0'];
    DigitsValue3('2', '5', '0');
    assert Pow10(0) == 1;
    WholeCents(t);
  }

  /** At 250 and above a bare number is taken as already annual. */
  lemma ExampleThreshold(raw: string)
    requires raw == "250"
    ensures ExtractSalary(raw) == Some(25000)
  {
    var t := Token("250", "", None);
    PlainText(raw, t, "");
    ExtractViaClean(raw, [], t, "");
    CentsOf250();
  }

  lemma CentsOf20PerHour()
    ensures Cents(Token("20", "", Some(PerHour))) == 4000000
  {
    var t := Token("20", "", Some(PerHour));
    assert t.whole + t.frac == ['2', '0'];
    DigitsValue2('2', '0');
    WholeCents(t);
  }

  lemma HourlyText(raw: string)
    requires raw == "20 per hour"
    ensures raw == "20" + (" " + UnitText(PerHour)) && ',' !in raw && IsLower(raw)
  {
  }

  lemma ExampleHourlyUnit(raw: string)
    requires raw == "20 per hour"
    ensures ExtractSalary(raw) == Some(4000000)
  {
    var t := Token("20", "", Some(PerHour));
    HourlyText(raw);
    PlainText(raw, t, " ");
    ExtractViaClean(raw, [], t, " ");
    CentsOf20PerHour();
  }

  lemma CentsOf45Point9K()
    ensures Cents(Token("45", "9", Some(Thousands))) == 4590000
  {
    var t := Token("45", "9", Some(Thousands));
    assert t.whole + t.frac == ['4', '5', '9'];
    DigitsValue3('4', '5', '9');
    assert Pow10(1) == 10;
    assert Mantissa(t) * Multiplier(t) * 100 == 4590000 * 10;
    ExactRound(4590000, 10);
  }

  lemma ThousandsUnitText(raw: string)
    requires raw == "45.9K"
    ensures Lower(RemoveChar(raw, ',')) == [] + Render(Token("45", "9", Some(Thousands)), "")
  {
    RemoveAbsentChar(raw, ',');
    assert Lower(raw) == "45.9k";
  }

  /** Capital letters are folded before the unit is read. */
  lemma ExampleThousandsUnit(raw: string)
    requires raw == "45.9K"
    ensures ExtractSalary(raw) == Some(4590000)
  {
    var t := Token("45", "9", Some(Thousands));
    ThousandsUnitText(raw);
    ExtractViaClean(raw, [], t, "");
    CentsOf45Point9K();
  }

  lemma CentsOf100Usd()
    ensures Cents(Token("100", "", Some(Usd))) == 20000000
  {
    var t := Token("100", "", Some(Usd));
    assert t.whole + t.frac == ['1', '0', '0'];
    DigitsValue3('1', '0', '0');
    assert Pow10(0) == 1;
    WholeCents(t);
  }

  lemma SmallUsdText(raw: string)
    requires raw == "100 usd"
    ensures raw == "100" + (" " + UnitText(Usd)) && ',' !in raw && IsLower(raw)
  {
  }

  /** The `usd` unit does not exempt a small figure from the hourly rule. */
  lemma ExampleSmallUsd(raw: string)
    requires raw == "100 usd"
    ensures ExtractSalary(raw) == Some(20000000)
  {
    var t := Token("100", "", Some(Usd));
    SmallUsdText(raw);
    PlainText(raw, t, " ");
    ExtractViaClean(raw, [], t, " ");
    CentsOf100Usd();
  }

  /** Texts without a number yield nothing. */
  lemma ExampleNoNumber()
    ensures ExtractSalary("") == None
    ensures ExtractSalary("N/A") == None
  {
    assert NoDigit("N/A");
  }
}
