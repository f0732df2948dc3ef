/** The `Range` header handling of serveVideoHandler: how a header value is
    turned into a byte interval of a file of `size` bytes, and whether that
    interval is answered with 206, 416 or 400. This is a partial, lenient
    reading of byte ranges (section 2.1 of RFC 7233); the `Content-Range`
    values follow section 4.2 of that RFC. */
module ByteRanges {
  import opened GoStrings
  import opened GoStrconv

  const BytesUnit := "bytes="

  /** The interval the handler computes, before validation. */
  datatype ParsedRange = Malformed | Span(start: int, end: int)

  /** Strip `bytes=` if present, split on '-'; two parts are start and end,
      a single non-empty part is a start with the end of the file as end,
      anything else is malformed. A number with a syntax error reads as 0,
      and an end of 0 or past the file is replaced by the last byte. Since
      '-' is the separator, no part can carry a minus sign, so the start is
      never negative; the end never reaches `size`. */
  function ParseRange(header: string, size: int): (p: ParsedRange)
    ensures p.Malformed? <==>
      var spec := TrimPrefix(header, BytesUnit); spec == "" || Count(spec, '-') >= 2
    ensures p.Span? ==> 0 <= p.start <= MaxInt64 && p.end <= size - 1
    ensures p.Span? ==> p.end == size - 1 || 0 < p.end
  {
    var spec := TrimPrefix(header, BytesUnit);
    var parts := Split(spec, '-');
    if |parts| == 2 then
      var start := ParseInt64(parts[0]).value;
      var end := ParseInt64(parts[1]).value;
      Span(start, if end == 0 || end >= size then size - 1 else end)
    else if |parts| == 1 && parts[0] != "" then
      Span(ParseInt64(parts[0]).value, size - 1)
    else
      assert |parts| == 1 ==> Join(parts, '-') == parts[0];
      Malformed
  }

  // The three answers: 400 for a malformed header, 416 with
  // `Content-Range: bytes */size`, or 206 with a `Content-Length` and a
  // `Content-Range: bytes start-end/size`.
  datatype RangeDecision =
    | BadRange
    | NotSatisfiable(contentRange: string)
    | Satisfiable(start: int, end: int, contentLength: int, contentRange: string)

  /** The validation step. The handler rejects `start < 0`, `end >= size`
      and `start > end`; the first two can never happen after ParseRange, so
      416 is exactly a start past the end. A 206 always names an interval
      inside the file, so an empty file never gets one. */
  function Decide(header: string, size: int): (d: RangeDecision)
    ensures d.BadRange? <==> ParseRange(header, size).Malformed?
    ensures d.NotSatisfiable? <==>
      var p := ParseRange(header, size); p.Span? && p.start > p.end
    ensures d.NotSatisfiable? ==> d.contentRange == "bytes */" + FormatInt(size)
    ensures d.Satisfiable? ==>
      && ParseRange(header, size) == Span(d.start, d.end)
      && 0 <= d.start <= d.end < size
      && d.contentLength == d.end - d.start + 1
      && d.contentRange == "bytes " + FormatInt(d.start) + "-" + FormatInt(d.end) + "/" + FormatInt(size)
    ensures size <= 0 ==> !d.Satisfiable?
  {
    match ParseRange(header, size)
    case Malformed => BadRange
    case Span(start, end) =>
      if start < 0 || end >= size || start > end then
        NotSatisfiable("bytes */" + FormatInt(size))
      else
        Satisfiable(start, end, end - start + 1,
          "bytes " + FormatInt(start) + "-" + FormatInt(end) + "/" + FormatInt(size))
  }

  // ---------------------------------------------------------------------
  // Splitting the forms a client writes

  lemma {:induction false} SplitNoSeparator(x: string, sep: char)
    requires sep !in x
    ensures Split(x, sep) == [x]
  {
    CountZero(x, sep);
    var parts := Split(x, sep);
    assert |parts| == 1 && Join(parts, sep) == parts[0];
  }

  lemma {:induction false} SplitAtFirst(x: string, sep: char, y: string)
    requires sep !in x
    ensures Split(x + [sep] + y, sep) == [x] + Split(y, sep)
    decreases |x|
  {
    if x == [] {
      assert x + [sep] + y == [sep] + y;
      assert ([sep] + y)[1..] == y;
    } else {
      assert (x + [sep] + y)[1..] == x[1..] + [sep] + y;
      SplitAtFirst(x[1..], sep, y);
      assert [x[0]] + x[1..] == x;
    }
  }

  lemma SplitTwo(x: string, y: string)
    requires '-' !in x && '-' !in y
    ensures Split(x + "-" + y, '-') == [x, y]
  {
    SplitAtFirst(x, '-', y);
    SplitNoSeparator(y, '-');
  }

  lemma DigitsHaveNoDash(n: int)
    requires n >= 0
    ensures '-' !in FormatInt(n)
  {
    var s := FormatInt(n);
    assert forall i :: 0 <= i < |s| ==> s[i] != '-';
  }

  lemma StripUnit(t: string)
    ensures TrimPrefix(BytesUnit + t, BytesUnit) == t
  {
    assert BytesUnit <= BytesUnit + t;
  }

  lemma SplitUnitTwo(x: string, y: string)
    requires '-' !in x && '-' !in y
    ensures Split(TrimPrefix(BytesUnit + x + "-" + y, BytesUnit), '-') == [x, y]
  {
    assert BytesUnit + x + "-" + y == BytesUnit + (x + "-" + y);
    StripUnit(x + "-" + y);
    SplitTwo(x, y);
  }

  /** `bytes=x-y`, with no dash inside x or y: x and y read as numbers. */
  lemma TwoParts(x: string, y: string, size: int)
    requires '-' !in x && '-' !in y
    ensures ParseRange(BytesUnit + x + "-" + y, size)
      == Span(ParseInt64(x).value,
              var e := ParseInt64(y).value; if e == 0 || e >= size then size - 1 else e)
  {
    SplitUnitTwo(x, y);
  }

  lemma TwoPartsIntended(x: string, y: string, size: int)
    requires '-' !in x && '-' !in y
    ensures ParseRangeIntended(BytesUnit + x + "-" + y, size)
      == Span(ParseInt64(x).value,
              var e := ParseInt64(y).value; if y == "" || e >= size then size - 1 else e)
  {
    SplitUnitTwo(x, y);
  }

  // ---------------------------------------------------------------------
  // What each form of header yields

  /** `bytes=a-`: from `a` to the last byte (the empty end reads as 0). */
  lemma OpenEndedRange(a: int, size: int)
    requires 0 <= a <= MaxInt64
    ensures ParseRange(BytesUnit + FormatInt(a) + "-", size) == Span(a, size - 1)
  {
    DigitsHaveNoDash(a);
    assert BytesUnit + FormatInt(a) + "-" == BytesUnit + FormatInt(a) + "-" + "";
    TwoParts(FormatInt(a), "", size);
    ParseFormatRoundTrip(a);
  }

  /** `bytes=a-b` with an end strictly inside the file: exactly `[a, b]`. */
  lemma ExplicitRange(a: int, b: int, size: int)
    requires 0 <= a <= MaxInt64 && 0 < b < size && b <= MaxInt64
    ensures ParseRange(BytesUnit + FormatInt(a) + "-" + FormatInt(b), size) == Span(a, b)
  {
    DigitsHaveNoDash(a);
    DigitsHaveNoDash(b);
    TwoParts(FormatInt(a), FormatInt(b), size);
    ParseFormatRoundTrip(a);
    ParseFormatRoundTrip(b);
  }

  /** `bytes=a-b` with an end of 0 or at/after the end of the file: the end
      becomes the last byte. */
  lemma ClampedEnd(a: int, b: int, size: int)
    requires 0 <= a <= MaxInt64 && 0 <= b <= MaxInt64 && (b == 0 || b >= size)
    ensures ParseRange(BytesUnit + FormatInt(a) + "-" + FormatInt(b), size) == Span(a, size - 1)
  {
    DigitsHaveNoDash(a);
    DigitsHaveNoDash(b);
    TwoParts(FormatInt(a), FormatInt(b), size);
    ParseFormatRoundTrip(a);
    ParseFormatRoundTrip(b);
  }

  /** `bytes=x` with no dash in x: x read as a number is the start, and the
      last byte is the end. */
  lemma OnePart(x: string, size: int)
    requires x != "" && '-' !in x
    ensures ParseRange(BytesUnit + x, size) == Span(ParseInt64(x).value, size - 1)
  {
    SplitNoSeparator(x, '-');
    StripUnit(x);
  }

  /** `bytes=a` written in decimal: from `a` to the last byte. */
  lemma StartOnly(a: int, size: int)
    requires 0 <= a <= MaxInt64
    ensures ParseRange(BytesUnit + FormatInt(a), size) == Span(a, size - 1)
  {
    DigitsHaveNoDash(a);
    OnePart(FormatInt(a), size);
    ParseFormatRoundTrip(a);
  }

  /** A number of digits too large for 64 bits reads as MaxInt64. */
  lemma {:induction false} OverflowReadsAsMax(x: string)
    requires x != "" && AllDigits(x) && DecimalValue(x) > MaxInt64
    ensures '-' !in x
    ensures ParseInt64(x) == Parsed(MaxInt64, ErrRange)
  {
    assert forall i :: 0 <= i < |x| ==> x[i] != '-';
    assert Unsigned(x) == x;
    assert LeadingDigits(x) == |x|;
    assert x[..|x|] == x;
  }

  /** An open-ended range whose start overflows int64 starts at MaxInt64,
      past the last byte of any file, so it is answered with 416 (rather
      than read as 0 like a start with a syntax error). */
  lemma OverflowingStartUnsatisfiable(x: string, size: int)
    requires x != "" && AllDigits(x) && DecimalValue(x) > MaxInt64
    requires size <= MaxInt64
    ensures ParseRange(BytesUnit + x + "-", size) == Span(MaxInt64, size - 1)
    ensures Decide(BytesUnit + x + "-", size) == NotSatisfiable("bytes */" + FormatInt(size))
  {
    OverflowReadsAsMax(x);
    assert BytesUnit + x + "-" == BytesUnit + x + "-" + "";
    TwoParts(x, "", size);
  }

  /** An end that overflows int64 reads as MaxInt64, at or past the size of
      any file, so it is clamped to the last byte. */
  lemma OverflowingEndClamped(a: int, y: string, size: int)
    requires 0 <= a <= MaxInt64
    requires y != "" && AllDigits(y) && DecimalValue(y) > MaxInt64
    requires size <= MaxInt64
    ensures ParseRange(BytesUnit + FormatInt(a) + "-" + y, size) == Span(a, size - 1)
  {
    DigitsHaveNoDash(a);
    OverflowReadsAsMax(y);
    TwoParts(FormatInt(a), y, size);
    ParseFormatRoundTrip(a);
  }

  /** A suffix range `bytes=-n` asks for the last n bytes (section 2.1 of
      RFC 7233); here the empty start reads as 0 and n is taken as an end, so
      the answer is the first bytes up to n (or the whole file). */
  lemma SuffixRangeReadsAsPrefix(n: int, size: int)
    requires 0 <= n <= MaxInt64
    ensures ParseRange(BytesUnit + "-" + FormatInt(n), size)
      == Span(0, if n == 0 || n >= size then size - 1 else n)
  {
    DigitsHaveNoDash(n);
    assert BytesUnit + "-" + FormatInt(n) == BytesUnit + "" + "-" + FormatInt(n);
    TwoParts("", FormatInt(n), size);
    ParseFormatRoundTrip(n);
  }

  /** A start that is not a number reads as 0. */
  lemma UnparsableStartReadsAsZero(x: string, size: int)
    requires '-' !in x && ParseInt64(x).err == ErrSyntax
    ensures ParseRange(BytesUnit + x + "-", size) == Span(0, size - 1)
  {
    assert BytesUnit + x + "-" == BytesUnit + x + "-" + "";
    TwoParts(x, "", size);
  }

  /** The `bytes=` prefix is optional: a value without it is read the same. */
  lemma UnitPrefixOptional(h: string, size: int)
    requires !(BytesUnit <= h)
    ensures ParseRange(BytesUnit + h, size) == ParseRange(h, size)
  {
    StripUnit(h);
  }

  /** Several ranges (`bytes=a-b,c-d`) are not supported: more than one dash
      makes the header malformed (400). */
  lemma MultipleRangesRejected(r1: string, r2: string, size: int)
    requires '-' in r1 && '-' in r2
    ensures ParseRange(BytesUnit + r1 + "," + r2, size) == Malformed
  {
    assert BytesUnit + r1 + "," + r2 == BytesUnit + (r1 + ("," + r2));
    StripUnit(r1 + ("," + r2));
    CountAppend(r1, "," + r2, '-');
    CountAppend(",", r2, '-');
    CountZero(r1, '-');
    CountZero(r2, '-');
  }

  // ---------------------------------------------------------------------
  // The `end == 0` quirk

  /** As written, `bytes=0-0` (the first byte only, in section 2.1 of
      RFC 7233) is served as the whole file once the file has two bytes or
      more: a literal end of 0 is read as "no end given". */
  lemma FirstByteRangeServesWholeFile(size: int)
    requires 2 <= size <= MaxInt64
    ensures ParseRange("bytes=0-0", size) == Span(0, size - 1)
    ensures Decide("bytes=0-0", size).Satisfiable?
    ensures Decide("bytes=0-0", size).contentLength == size
  {
    assert FormatInt(0) == "0";
    assert "bytes=0-0" == BytesUnit + FormatInt(0) + "-" + FormatInt(0);
    ClampedEnd(0, 0, size);
  }

  /** The evident intention of that check: an end that was not written at
      all means the end of the file; a written end is clamped to the file
      only when it lies past it. */
  function ParseRangeIntended(header: string, size: int): (p: ParsedRange)
    ensures p.Malformed? <==> ParseRange(header, size).Malformed?
    ensures p.Span? ==> 0 <= p.start <= MaxInt64 && p.end <= size - 1
  {
    var spec := TrimPrefix(header, BytesUnit);
    var parts := Split(spec, '-');
    if |parts| == 2 then
      var start := ParseInt64(parts[0]).value;
      var end := ParseInt64(parts[1]).value;
      Span(start, if parts[1] == "" || end >= size then size - 1 else end)
    else if |parts| == 1 && parts[0] != "" then
      Span(ParseInt64(parts[0]).value, size - 1)
    else
      Malformed
  }

  /** With that reading every explicit range inside the file is served
      exactly, first byte included. */
  lemma IntendedExplicitRange(a: int, b: int, size: int)
    requires 0 <= a <= b < size <= MaxInt64
    ensures ParseRangeIntended(BytesUnit + FormatInt(a) + "-" + FormatInt(b), size) == Span(a, b)
  {
    DigitsHaveNoDash(a);
    DigitsHaveNoDash(b);
    TwoPartsIntended(FormatInt(a), FormatInt(b), size);
    ParseFormatRoundTrip(a);
    ParseFormatRoundTrip(b);
  }

  /** ... and it differs from the code exactly where a written end reads
      as 0 (a literal 0, or an end with a syntax error), on a file of two
      bytes or more; an absent end means the last byte in both readings. */
  lemma IntendedDiffersExactlyOnZeroEnd(header: string, size: int)
    ensures var parts := Split(TrimPrefix(header, BytesUnit), '-');
      ParseRangeIntended(header, size) != ParseRange(header, size) <==>
        |parts| == 2 && parts[1] != "" && ParseInt64(parts[1]).value == 0 && size >= 2
  {
  }
}
