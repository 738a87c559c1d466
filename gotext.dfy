/** The few Go standard-library behaviours the controllers rely on:
    `strconv.Atoi`, `strings.TrimPrefix`/`TrimSuffix`/`Index`, substring
    search, and Go's truncating integer division. */
module GoText {
  import opened Common

  const MaxInt: int := 0x7FFF_FFFF_FFFF_FFFF
  const MinInt: int := -0x8000_0000_0000_0000

  predicate IsDigit(c: char) { '0' <= c <= '9' }

  predicate AllDigits(s: string) { forall i :: 0 <= i < |s| ==> IsDigit(s[i]) }

  /** The base-10 value of a string of digits. */
  function DigitsValue(s: string): (n: nat)
    requires AllDigits(s)
  {
    if s == [] then 0 else DigitsValue(s[..|s| - 1]) * 10 + (s[|s| - 1] as int - '0' as int)
  }

  /** The digits of a numeral: the text after an optional '+' or '-'. */
  function Unsigned(s: string): string {
    if s != [] && (s[0] == '-' || s[0] == '+') then s[1..] else s
  }

  /** The syntax `strconv.Atoi` accepts: an optional sign, then at least one
      decimal digit and nothing else. */
  predicate WellFormed(s: string) {
    Unsigned(s) != [] && AllDigits(Unsigned(s))
  }

  /** `strconv.Atoi` on a 64-bit platform: a well-formed numeral within the
      range of `int`; anything else is an error. */
  function Atoi(s: string): (r: Option<int>)
    ensures r.Some? ==> WellFormed(s) && MinInt <= r.value <= MaxInt
    ensures r.Some? ==> s != [] && (IsDigit(s[0]) || s[0] == '+' || s[0] == '-')
    ensures AllDigits(s) && s != [] && DigitsValue(s) <= MaxInt ==> r == Some(DigitsValue(s))
  {
    if !WellFormed(s) then None
    else
      var n: int := DigitsValue(Unsigned(s));
      var v := if s[0] == '-' then -n else n;
      if MinInt <= v <= MaxInt then Some(v) else None
  }

  const MaxUint: int := 0xFFFF_FFFF_FFFF_FFFF

  /** The longest prefix of `s` made only of digits. */
  function LeadingDigits(s: string): (r: string)
    ensures r <= s && AllDigits(r)
    ensures |r| < |s| ==> !IsDigit(s[|r|])
  {
    if s == [] || !IsDigit(s[0]) then [] else [s[0]] + LeadingDigits(s[1..])
  }

  /** The leading digits of a run of digits followed by a non-digit are that
      run. */
  lemma {:induction false} LeadingDigitsOfRun(d: string, t: string)
    requires AllDigits(d) && (t == [] || !IsDigit(t[0]))
    ensures LeadingDigits(d + t) == d
  {
    if d != [] {
      assert (d + t)[1..] == d[1..] + t;
      LeadingDigitsOfRun(d[1..], t);
    }
  }

  /** Whether `strconv.ParseUint` meets an overflow before any other error:
      it reads the digits left to right and reports the range error as soon
      as the value read so far exceeds 2^64-1, even when a character that is
      not a digit comes later. */
  predicate OverflowsFirst(s: string) {
    DigitsValue(LeadingDigits(Unsigned(s))) > MaxUint
  }

  /** The `int` that `strconv.Atoi` returns beside its error, for a caller
      that discards the error: the value when there is no error; the bound of
      `int` on the numeral's side for a range error, which a well-formed
      numeral out of range and a digit run past 2^64-1 before a stray
      character both give; 0 for every other malformed string. */
  function AtoiValue(s: string): (r: int)
    ensures MinInt <= r <= MaxInt
    ensures Atoi(s).Some? ==> r == Atoi(s).value
    ensures Atoi(s).None? && (WellFormed(s) || OverflowsFirst(s)) ==>
      s != [] && r == (if s[0] == '-' then MinInt else MaxInt)
    ensures !WellFormed(s) && !OverflowsFirst(s) ==> r == 0
  {
    match Atoi(s)
    case Some(v) => v
    case None =>
      if WellFormed(s) || OverflowsFirst(s) then (if s[0] == '-' then MinInt else MaxInt)
      else 0
  }

  /** A digit run past 2^64-1 followed by a stray character gives the bound of
      `int`, not 0: `Atoi("99999999999999999999x")` yields the largest `int`
      and `Atoi("-99999999999999999999x")` the smallest. */
  lemma AtoiValueOfOverflowedRun(d: string, t: string)
    requires AllDigits(d) && DigitsValue(d) > MaxUint
    requires t != [] && !IsDigit(t[0])
    ensures AtoiValue(d + t) == MaxInt
    ensures AtoiValue("-" + d + t) == MinInt
  {
    assert d != [] && (d + t)[0] == d[0];
    assert Unsigned(d + t) == d + t;
    assert Unsigned("-" + d + t) == d + t;
    LeadingDigitsOfRun(d, t);
    assert (d + t)[|d|] == t[0];
  }

  /** The decimal digit for `d`. */
  function Digit(d: int): char
    requires 0 <= d < 10
  {
    (('0' as int) + d) as char
  }

  /** The shortest decimal numeral of a natural number. */
  function Decimal(n: nat): (r: string)
    ensures r != [] && AllDigits(r) && DigitsValue(r) == n
    ensures |r| > 1 ==> r[0] != '0'
  {
    if n < 10 then
      assert [Digit(n)][..0] == [];
      [Digit(n)]
    else
      var r := Decimal(n / 10) + [Digit(n % 10)];
      assert r[..|r| - 1] == Decimal(n / 10);
      r
  }

  /** `strconv.Itoa`. */
  function Itoa(n: int): string {
    if n < 0 then "-" + Decimal(-n) else Decimal(n)
  }

  /** Parsing a formatted `int` gives it back: the ids the handlers put in
      redirect URLs are the ids they later read from them. */
  lemma AtoiItoa(n: int)
    requires MinInt <= n <= MaxInt
    ensures Atoi(Itoa(n)) == Some(n)
  {
    if n < 0 {
      assert Unsigned(Itoa(n)) == Decimal(-n);
    } else {
      assert Unsigned(Itoa(n)) == Decimal(n);
    }
  }

  /** `strings.TrimPrefix`. */
  function TrimPrefix(s: string, prefix: string): (r: string)
    ensures prefix <= s ==> s == prefix + r
    ensures !(prefix <= s) ==> r == s
  {
    if prefix <= s then s[|prefix|..] else s
  }

  /** `strings.TrimSuffix`. */
  function TrimSuffix(s: string, suffix: string): (r: string)
    ensures |suffix| <= |s| && s[|s| - |suffix|..] == suffix ==> s == r + suffix
    ensures !(|suffix| <= |s| && s[|s| - |suffix|..] == suffix) ==> r == s
  {
    if |suffix| <= |s| && s[|s| - |suffix|..] == suffix then s[..|s| - |suffix|] else s
  }

  /** `strings.Index(s, string(c))`: the first position of `c`, or -1. */
  function IndexOf(s: string, c: char): (r: int)
    ensures -1 <= r < |s|
    ensures r == -1 <==> c !in s
    ensures r >= 0 ==> s[r] == c && c !in s[..r]
  {
    if s == [] then -1
    else if s[0] == c then 0
    else
      var k := IndexOf(s[1..], c);
      assert s[1..][..if k >= 0 then k else 0] == s[1..if k >= 0 then k + 1 else 1];
      if k == -1 then -1 else k + 1
  }

  /** Substring test: the part of `ILIKE '%term%'` that the model keeps. */
  predicate Contains(s: string, term: string) {
    exists i :: 0 <= i <= |s| - |term| && OccursAt(s, term, i)
  }

  predicate OccursAt(s: string, term: string, i: int) {
    0 <= i <= |s| - |term| && s[i..i + |term|] == term
  }

  /** Go's `/` on ints truncates toward zero; Dafny's is Euclidean. */
  function GoDiv(a: int, b: int): (q: int)
    requires b > 0
    ensures a >= 0 ==> q == a / b
    ensures a < 0 ==> q == -((-a) / b)
  {
    if a >= 0 then a / b else -((-a) / b)
  }
}
