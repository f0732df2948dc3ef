/** The base64 body of the CSV attachment in `sendCSVByEmail`. The encoding
    itself is the library's; what the handler does is cut the encoded text
    into lines of at most 76 characters, each ended by CRLF, as section 6.8
    of RFC 2045 requires of a base64 body, appending them to the message. */
module MailWrap {
  import opened Basics

  const LineLength: nat := 76
  const CRLF := "\r\n"

  /** The lines the loop cuts, in order (LinesShape). */
  function Lines(s: string): (ls: seq<string>)
    decreases |s|
  {
    if s == [] then []
    else
      var m := Min(LineLength, |s|);
      [s[..m]] + Lines(s[m..])
  }

  /** The lines are 76 characters each, the last one shorter if the text
      does not fill it, with no line at all for an empty text; together
      they are the text. */
  lemma {:induction false} LinesShape(s: string)
    ensures var ls := Lines(s);
      && (forall k :: 0 <= k < |ls| ==> 0 < |ls[k]| <= LineLength)
      && (forall k :: 0 <= k < |ls| - 1 ==> |ls[k]| == LineLength)
      && Flatten(ls) == s
    decreases |s|
  {
    if s != [] {
      var m := Min(LineLength, |s|);
      LinesShape(s[m..]);
      var ls := Lines(s);
      assert ls == [s[..m]] + Lines(s[m..]);
      TailOfCons(s[..m], Lines(s[m..]));
      forall k | 1 <= k < |ls|
        ensures 0 < |ls[k]| <= LineLength && (k < |ls| - 1 ==> |ls[k]| == LineLength)
      {
        assert ls[k] == Lines(s[m..])[k - 1];
      }
      assert s == s[..m] + s[m..];
    }
  }

  /** The lines in order, each followed by CRLF. */
  function Terminated(ls: seq<string>): string
  {
    if ls == [] then [] else ls[0] + CRLF + Terminated(ls[1..])
  }

  function Wrapped(s: string): string
  {
    Terminated(Lines(s))
  }

  /** The text still to be written once the loop index is `i`. */
  function Rest(s: string, i: nat): string
  {
    if i <= |s| then s[i..] else []
  }

  /** The line-writing loop: `msg` grows by the wrapped text. */
  method WrapBase64(msg: string, encoded: string) returns (out: string)
    ensures out == msg + Wrapped(encoded)
  {
    out := msg;
    var i := 0;
    while i < |encoded|
      invariant out + Wrapped(Rest(encoded, i)) == msg + Wrapped(encoded)
      decreases |encoded| - i
    {
      var end := i + LineLength;
      if end > |encoded| {
        end := |encoded|;
      }
      var line := encoded[i..end] + CRLF;
      WrappedStep(encoded, i);
      ghost var later := Wrapped(Rest(encoded, i + LineLength));
      assert Wrapped(Rest(encoded, i)) == line + later;
      assert out + line + later == out + (line + later);
      out := out + line;
      i := i + LineLength;
    }
    assert Rest(encoded, i) == [];
  }

  /** One turn of the loop writes the next line and leaves the rest. */
  lemma WrappedStep(s: string, i: nat)
    requires i < |s|
    ensures Wrapped(Rest(s, i)) == s[i..Min(i + LineLength, |s|)] + CRLF + Wrapped(Rest(s, i + LineLength))
  {
    var t := s[i..];
    var m := Min(LineLength, |t|);
    assert t[..m] == s[i..Min(i + LineLength, |s|)];
    assert t[m..] == Rest(s, i + LineLength);
    assert Lines(t) == [t[..m]] + Lines(t[m..]);
  }

  // ---------------------------------------------------------------------
  // What the wrapped text is

  /** `Strip`: the text with every CR and LF taken out. */
  function Strip(t: string): (r: string)
    ensures |r| <= |t|
    ensures '\r' !in r && '\n' !in r
  {
    if t == [] then []
    else (if t[0] == '\r' || t[0] == '\n' then [] else [t[0]]) + Strip(t[1..])
  }

  lemma {:induction false} StripAppend(a: string, b: string)
    ensures Strip(a + b) == Strip(a) + Strip(b)
  {
    if a != [] {
      assert (a + b)[1..] == a[1..] + b;
      StripAppend(a[1..], b);
    } else {
      assert a + b == b;
    }
  }

  lemma {:induction false} StripKeeps(t: string)
    requires '\r' !in t && '\n' !in t
    ensures Strip(t) == t
  {
    if t != [] {
      StripKeeps(t[1..]);
    }
  }

  /** The first line, its CRLF, then the rest wrapped the same way. */
  lemma WrappedCons(s: string)
    requires s != []
    ensures var m := Min(LineLength, |s|);
      Wrapped(s) == s[..m] + CRLF + Wrapped(s[m..])
  {
    var m := Min(LineLength, |s|);
    assert Lines(s) == [s[..m]] + Lines(s[m..]);
    TailOfCons(s[..m], Lines(s[m..]));
  }

  /** Stripping a line without breaks, then its CRLF, leaves the line. */
  lemma StripLine(line: string, rest: string)
    requires '\r' !in line && '\n' !in line
    ensures Strip(line + CRLF + rest) == line + Strip(rest)
  {
    StripAppend(line + CRLF, rest);
    StripAppend(line, CRLF);
    StripKeeps(line);
    StripBreak();
    assert Strip(line + CRLF) == line;
  }

  lemma StripBreak()
    ensures Strip(CRLF) == []
  {
    assert CRLF[0] == '\r' && CRLF[1..] == "\n";
    assert Strip("\n") == [] + Strip([]);
  }

  /** Undoing the wrapping: a reader that drops the line breaks gets the
      encoded text back, since base64 text holds no CR or LF. */
  lemma {:induction false} UnwrapRestores(s: string)
    requires '\r' !in s && '\n' !in s
    ensures Strip(Wrapped(s)) == s
    decreases |s|
  {
    if s != [] {
      var m := Min(LineLength, |s|);
      WrappedCons(s);
      assert '\r' !in s[..m] && '\n' !in s[..m];
      assert '\r' !in s[m..] && '\n' !in s[m..];
      StripLine(s[..m], Wrapped(s[m..]));
      UnwrapRestores(s[m..]);
      assert s == s[..m] + s[m..];
    }
  }

  /** The wrapped text adds one CRLF per line, and there are
      ceil(n / 76) lines for n characters. */
  lemma {:induction false} WrappedLength(s: string)
    ensures |Lines(s)| == (|s| + LineLength - 1) / LineLength
    ensures |Wrapped(s)| == |s| + 2 * |Lines(s)|
    decreases |s|
  {
    if s != [] {
      var m := Min(LineLength, |s|);
      WrappedLength(s[m..]);
      assert Lines(s) == [s[..m]] + Lines(s[m..]);
      TailOfCons(s[..m], Lines(s[m..]));
    }
  }

  /** Every line of the wrapped text ends in CRLF: the text, when not
      empty, ends with it. */
  lemma {:induction false} WrappedEndsWithBreak(s: string)
    requires s != []
    ensures var w := Wrapped(s); |w| >= 2 && w[|w| - 2..] == CRLF
    decreases |s|
  {
    var m := Min(LineLength, |s|);
    assert Lines(s) == [s[..m]] + Lines(s[m..]);
    TailOfCons(s[..m], Lines(s[m..]));
    var head := s[..m] + CRLF;
    var w := Wrapped(s);
    assert w == head + Wrapped(s[m..]);
    if s[m..] != [] {
      WrappedEndsWithBreak(s[m..]);
      var v := Wrapped(s[m..]);
      assert w[|w| - 2..] == v[|v| - 2..];
    } else {
      assert w == head;
    }
  }
}
