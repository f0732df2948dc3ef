/** The parts of Go's `strings` and `path/filepath` packages that the
    handlers rely on, over strings of Unicode code points. */
module GoStrings {

  /** `strings.HasPrefix` / `strings.TrimPrefix`: strip `prefix` once, if present. */
  function TrimPrefix(s: string, prefix: string): (r: string)
    ensures prefix <= s ==> s == prefix + r
    ensures !(prefix <= s) ==> r == s
  {
    if prefix <= s then s[|prefix|..] else s
  }

  /** `strings.Contains(s, sub)`: some position of `s` starts with `sub`. */
  predicate Contains(s: string, sub: string)
    decreases |s|
  {
    sub <= s || (s != [] && Contains(s[1..], sub))
  }

  /** Two adjacent dots somewhere in `s`. */
  predicate HasDotDot(s: string) {
    exists i :: 0 <= i < |s| - 1 && s[i] == '.' && s[i + 1] == '.'
  }

  lemma {:induction false} ContainsDotDot(s: string)
    ensures Contains(s, "..") <==> HasDotDot(s)
    decreases |s|
  {
    if s != [] {
      ContainsDotDot(s[1..]);
      if HasDotDot(s[1..]) {
        var i :| 0 <= i < |s[1..]| - 1 && s[1..][i] == '.' && s[1..][i + 1] == '.';
        assert s[i + 1] == '.' && s[i + 2] == '.';
      }
      if ".." <= s {
        assert s[0] == ".."[0] && s[1] == ".."[1];
      }
      if HasDotDot(s) && !(".." <= s) {
        var i :| 0 <= i < |s| - 1 && s[i] == '.' && s[i + 1] == '.';
        assert i != 0;
        assert s[1..][i - 1] == '.' && s[1..][i] == '.';
      }
    }
  }

  lemma {:induction false} ContainsChar(s: string, c: char)
    ensures Contains(s, [c]) <==> c in s
    decreases |s|
  {
    if s != [] {
      ContainsChar(s[1..], c);
      assert s == [s[0]] + s[1..];
    }
  }

  /** Number of occurrences of `c` in `s`. */
  function Count(s: string, c: char): nat
  {
    if s == [] then 0 else (if s[0] == c then 1 else 0) + Count(s[1..], c)
  }

  lemma {:induction false} CountAppend(a: string, b: string, c: char)
    ensures Count(a + b, c) == Count(a, c) + Count(b, c)
  {
    if a == [] {
      assert a + b == b;
    } else {
      assert (a + b)[0] == a[0];
      assert (a + b)[1..] == a[1..] + b;
      CountAppend(a[1..], b, c);
    }
  }

  lemma {:induction false} CountZero(s: string, c: char)
    ensures Count(s, c) == 0 <==> c !in s
  {
    if s != [] {
      CountZero(s[1..], c);
      assert s == [s[0]] + s[1..];
    }
  }

  /** The parts joined back with `sep` between neighbours (`strings.Join`). */
  function Join(parts: seq<string>, sep: char): string
    requires |parts| >= 1
  {
    if |parts| == 1 then parts[0] else parts[0] + [sep] + Join(parts[1..], sep)
  }

  /** `strings.Split(s, sep)` for a one-character separator: the maximal
      separator-free pieces, one more than there are separators. */
  function Split(s: string, sep: char): (parts: seq<string>)
    ensures |parts| == Count(s, sep) + 1
    ensures forall i :: 0 <= i < |parts| ==> sep !in parts[i]
    ensures Join(parts, sep) == s
  {
    if s == [] then [""]
    else
      var rest := Split(s[1..], sep);
      if s[0] == sep then [""] + rest
      else
        assert [s[0]] + Join(rest, sep) == s;
        [[s[0]] + rest[0]] + rest[1..]
  }

  /** `unicode.IsSpace`: the Latin-1 spaces and the Unicode White_Space code points. */
  predicate IsSpace(c: char) {
    c == '\t' || c == '\n' || c == '\U{B}' || c == '\U{C}' || c == '\r' || c == ' '
    || c == '\U{85}' || c == '\U{A0}' || c == '\U{1680}'
    || ('\U{2000}' <= c <= '\U{200A}')
    || c == '\U{2028}' || c == '\U{2029}' || c == '\U{202F}' || c == '\U{205F}'
    || c == '\U{3000}'
  }

  /** Number of leading white-space characters. */
  function LeadingSpaces(s: string): (k: nat)
    ensures k <= |s|
    ensures forall i :: 0 <= i < k ==> IsSpace(s[i])
    ensures k < |s| ==> !IsSpace(s[k])
  {
    if s == [] || !IsSpace(s[0]) then 0 else 1 + LeadingSpaces(s[1..])
  }

  /** Number of trailing white-space characters. */
  function TrailingSpaces(s: string): (k: nat)
    ensures k <= |s|
    ensures forall i :: |s| - k <= i < |s| ==> IsSpace(s[i])
    ensures k < |s| ==> !IsSpace(s[|s| - 1 - k])
  {
    if s == [] || !IsSpace(s[|s| - 1]) then 0 else 1 + TrailingSpaces(s[..|s| - 1])
  }

  /** `strings.TrimSpace`: `s` without its leading and trailing white space.
      The result is the slice of `s` that starts after the leading spaces,
      has only spaces after it, and has no space at either of its ends. */
  function TrimSpace(s: string): (r: string)
    ensures LeadingSpaces(s) + |r| <= |s|
    ensures r == s[LeadingSpaces(s)..LeadingSpaces(s) + |r|]
    ensures forall i :: LeadingSpaces(s) + |r| <= i < |s| ==> IsSpace(s[i])
    ensures r != [] ==> !IsSpace(r[0]) && !IsSpace(r[|r| - 1])
  {
    var lo := LeadingSpaces(s);
    var t := s[lo..];
    var hi := |s| - TrailingSpaces(t);
    assert forall i :: hi <= i < |s| ==> s[i] == t[i - lo];
    s[lo..hi]
  }

  lemma TrimSpaceIdempotent(s: string)
    ensures TrimSpace(TrimSpace(s)) == TrimSpace(s)
  {
    var r := TrimSpace(s);
    assert LeadingSpaces(r) == 0;
    assert TrailingSpaces(r) == 0;
  }

  /** `unicode.ToLower` as far as it can matter here: ASCII capitals, and the
      two non-ASCII code points whose lower case is an ASCII letter
      (U+0130 to 'i', the Kelvin sign U+212A to 'k'). */
  function ToLowerChar(c: char): (l: char)
    ensures 'A' <= c <= 'Z' ==> l as int == c as int + 32
    ensures l != c ==> ('a' <= l <= 'z' && (('A' <= c <= 'Z') || c == '\U{130}' || c == '\U{212A}'))
  {
    if 'A' <= c <= 'Z' then (c as int + 32) as char
    else if c == '\U{130}' then 'i'
    else if c == '\U{212A}' then 'k'
    else c
  }

  /** `strings.ToLower`, character by character. */
  function ToLower(s: string): (r: string)
    ensures |r| == |s|
  {
    if s == [] then [] else ToLower(s[..|s| - 1]) + [ToLowerChar(s[|s| - 1])]
  }

  /** Each character of the result is its source character lower-cased. */
  lemma {:induction false} ToLowerPointwise(s: string)
    ensures forall i :: 0 <= i < |s| ==> ToLower(s)[i] == ToLowerChar(s[i])
    decreases |s|
  {
    if s != [] {
      ToLowerPointwise(s[..|s| - 1]);
    }
  }

  lemma ToLowerSnoc(e: string, c: char)
    ensures ToLower(e + [c]) == ToLower(e) + [ToLowerChar(c)]
  {
    assert (e + [c])[..|e|] == e;
  }

  lemma ToLowerIdempotent(s: string)
    ensures ToLower(ToLower(s)) == ToLower(s)
  {
    var once := ToLower(s);
    ToLowerPointwise(s);
    ToLowerPointwise(once);
    assert forall i :: 0 <= i < |s| ==> ToLowerChar(once[i]) == once[i];
  }

  /** Where the last element of `path` starts: just after its last '/', or
      at 0 when it has none. */
  function ElementStart(path: string): (k: nat)
    ensures k <= |path|
    ensures k > 0 ==> path[k - 1] == '/'
    ensures forall i :: k <= i < |path| ==> path[i] != '/'
  {
    if path == [] then 0
    else if path[|path| - 1] == '/' then |path|
    else ElementStart(path[..|path| - 1])
  }

  /** `filepath.Ext` on Linux: the suffix of `path` that starts at the last
      '.' of its last element (after the last '/'), or "" if that element has
      no dot. */
  function Ext(path: string): (ext: string)
    ensures |ext| <= |path|
    ensures ext != "" ==> ext[0] == '.' && '.' !in ext[1..] && '/' !in ext
  {
    if path == [] then ""
    else
      var last := path[|path| - 1];
      var init := path[..|path| - 1];
      if last == '/' then ""
      else if last == '.' then "."
      else
        var e := Ext(init);
        if e == "" then ""
        else
          assert (e + [last])[1..] == e[1..] + [last];
          e + [last]
  }

  /** The extension is a suffix of the path. */
  lemma {:induction false} ExtIsSuffix(path: string)
    ensures Ext(path) == path[|path| - |Ext(path)|..]
    decreases |path|
  {
    if path != [] {
      var init := path[..|path| - 1];
      var last := path[|path| - 1];
      ExtIsSuffix(init);
      if last != '/' && last != '.' && Ext(init) != "" {
        var e := Ext(init);
        assert path[|path| - |e + [last]|..] == init[|init| - |e|..] + [last];
      }
    }
  }

  /** What `Ext` finds: a non-empty extension lies inside the last element,
      and an empty one means that element has no dot at all. */
  lemma {:induction false} ExtWithinLastElement(path: string)
    ensures Ext(path) != "" ==> ElementStart(path) <= |path| - |Ext(path)|
    ensures Ext(path) == "" ==> forall i :: ElementStart(path) <= i < |path| ==> path[i] != '.'
    decreases |path|
  {
    if path != [] {
      var init := path[..|path| - 1];
      ExtWithinLastElement(init);
      if path[|path| - 1] != '/' {
        assert ElementStart(path) == ElementStart(init);
      }
    }
  }

  /** One step of `Ext`'s backward scan. */
  lemma ExtSnoc(init: string, c: char)
    ensures Ext(init + [c]) ==
      if c == '/' then "" else if c == '.' then "." else if Ext(init) == "" then "" else Ext(init) + [c]
  {
    var path := init + [c];
    assert path[..|path| - 1] == init;
  }

  /** Appending a dot-led suffix with no further dot or slash fixes the extension. */
  lemma {:induction false} ExtOfSuffix(p: string, e: string)
    requires |e| > 0 && e[0] == '.' && '.' !in e[1..] && '/' !in e
    ensures Ext(p + e) == e
    decreases |e|
  {
    var last := e[|e| - 1];
    var e' := e[..|e| - 1];
    assert p + e == (p + e') + [last];
    ExtSnoc(p + e', last);
    if |e| > 1 {
      assert last == e[1..][|e| - 2];
      assert '.' !in e'[1..] by {
        assert e'[1..] == e[1..][..|e| - 2];
      }
      ExtOfSuffix(p, e');
    }
  }
}
