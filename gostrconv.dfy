/** Go's `strconv.ParseInt(s, 10, 64)`, `strconv.Atoi` (on a 64-bit
    platform) and the `%d` verb of `fmt`, over strings of code points.
    Integers are unbounded here; the 64-bit limits are explicit. */
module GoStrconv {
  import opened Basics

  const MaxInt64: int := 0x7fff_ffff_ffff_ffff
  const MinInt64: int := -0x8000_0000_0000_0000
  const MaxUint64: int := 0xffff_ffff_ffff_ffff

  predicate IsDigit(c: char) { '0' <= c <= '9' }

  predicate AllDigits(s: string) { forall i :: 0 <= i < |s| ==> IsDigit(s[i]) }

  function DigitValue(c: char): (d: nat)
    requires IsDigit(c)
    ensures d < 10
  {
    c as int - '0' as int
  }

  /** The value of a string of decimal digits, most significant first. */
  function DecimalValue(s: string): nat
    requires AllDigits(s)
  {
    if s == [] then 0 else DecimalValue(s[..|s| - 1]) * 10 + DigitValue(s[|s| - 1])
  }

  /** Length of the longest all-digit prefix of `s`. */
  function LeadingDigits(s: string): (k: nat)
    ensures k <= |s| && AllDigits(s[..k])
    ensures k < |s| ==> !IsDigit(s[k])
  {
    if s == [] || !IsDigit(s[0]) then 0
    else
      var k := 1 + LeadingDigits(s[1..]);
      assert s[..k] == [s[0]] + s[1..][..k - 1];
      k
  }

  datatype NumError = NoError | ErrSyntax | ErrRange

  /** What `strconv` returns: a value and an error, both always present. */
  datatype Parsed = Parsed(value: int, err: NumError)

  /** `strconv.ParseUint(s, 10, 64)`. Go scans left to right and gives up
      with ErrRange (value MaxUint64) as soon as the digits read so far
      exceed MaxUint64, before it would meet a non-digit; otherwise a
      non-digit (or an empty string) is ErrSyntax with value 0. Prefix values
      only grow, so "some prefix overflows" is "the whole leading digit run
      overflows". */
  function ParseUint64(s: string): (r: Parsed)
    ensures 0 <= r.value <= MaxUint64
    ensures r.err == NoError <==> s != "" && AllDigits(s) && DecimalValue(s) <= MaxUint64
    ensures r.err == NoError ==> r.value == DecimalValue(s)
    ensures r.err == ErrSyntax ==> r.value == 0
    ensures r.err == ErrRange <==> DecimalValue(s[..LeadingDigits(s)]) > MaxUint64
    ensures r.err == ErrRange ==> r.value == MaxUint64
  {
    if s == "" then Parsed(0, ErrSyntax)
    else
      var k := LeadingDigits(s);
      var v := DecimalValue(s[..k]);
      if k == |s| then
        assert s[..k] == s;
        if v > MaxUint64 then Parsed(MaxUint64, ErrRange) else Parsed(v, NoError)
      else if v > MaxUint64 then Parsed(MaxUint64, ErrRange)
      else Parsed(0, ErrSyntax)
  }

  /** `s` without one leading sign character. */
  function Unsigned(s: string): string
  {
    if s != [] && (s[0] == '+' || s[0] == '-') then s[1..] else s
  }

  /** `strconv.ParseInt(s, 10, 64)`: an optional sign, then ParseUint64; an
      out-of-range magnitude saturates at MaxInt64 / MinInt64 with ErrRange,
      a syntax error yields 0. */
  function ParseInt64(s: string): (r: Parsed)
    ensures MinInt64 <= r.value <= MaxInt64
    ensures r.err == ErrSyntax ==> r.value == 0
    ensures r.err == NoError <==>
      Unsigned(s) != "" && AllDigits(Unsigned(s))
      && (if s[0] == '-' then DecimalValue(Unsigned(s)) <= MaxInt64 + 1
          else DecimalValue(Unsigned(s)) <= MaxInt64)
    ensures r.err == NoError ==>
      r.value == if s[0] == '-' then 0 - DecimalValue(Unsigned(s)) as int else DecimalValue(Unsigned(s))
    ensures r.err == ErrRange <==>
      var u := Unsigned(s);
      var lead := DecimalValue(u[..LeadingDigits(u)]);
      s != "" && (lead > MaxUint64
        || (LeadingDigits(u) == |u| && lead > (if s[0] == '-' then MaxInt64 + 1 else MaxInt64)))
    ensures r.err == ErrRange ==> r.value == (if s[0] == '-' then MinInt64 else MaxInt64)
    ensures '-' !in s ==> r.value >= 0
  {
    if s == "" then Parsed(0, ErrSyntax)
    else
      var neg := s[0] == '-';
      var u := ParseUint64(Unsigned(s));
      if u.err == ErrSyntax then Parsed(0, ErrSyntax)
      else if !neg && u.value > MaxInt64 then Parsed(MaxInt64, ErrRange)
      else if neg && u.value > MaxInt64 + 1 then Parsed(MinInt64, ErrRange)
      else Parsed(if neg then -u.value else u.value, NoError)
  }

  /** `strconv.Atoi` with a 64-bit `int`: its fast path for short strings and
      its fallback to ParseInt accept exactly the strings ParseInt64 accepts,
      with the same value. */
  function Atoi(s: string): (r: Option<int>)
    ensures r.Some? ==> MinInt64 <= r.value <= MaxInt64
  {
    var p := ParseInt64(s);
    if p.err == NoError then Some(p.value) else None
  }

  /** Decimal digits of `n`, without leading zeros. */
  function FormatNat(n: nat): (s: string)
    ensures |s| >= 1 && AllDigits(s) && DecimalValue(s) == n
    ensures |s| > 1 ==> s[0] != '0'
  {
    var d := ['0' + (n % 10) as char];
    if n < 10 then d
    else
      var s := FormatNat(n / 10) + d;
      assert s[..|s| - 1] == FormatNat(n / 10);
      s
  }

  /** `fmt.Sprintf("%d", n)`. */
  function FormatInt(n: int): (s: string)
    ensures |s| >= 1 && (s[0] == '-' || IsDigit(s[0]))
    ensures forall i :: 0 <= i < |s| ==> s[i] == '-' || IsDigit(s[i])
    ensures n >= 0 ==> AllDigits(s) && DecimalValue(s) == n
  {
    if n < 0 then "-" + FormatNat(-n) else FormatNat(n)
  }

  /** Reading back what `%d` wrote gives the number again. */
  lemma ParseFormatRoundTrip(n: int)
    requires MinInt64 <= n <= MaxInt64
    ensures ParseInt64(FormatInt(n)) == Parsed(n, NoError)
    ensures Atoi(FormatInt(n)) == Some(n)
  {
    var s := FormatInt(n);
    if n < 0 {
      assert Unsigned(s) == FormatNat(-n);
    } else {
      assert Unsigned(s) == s;
    }
  }
}
