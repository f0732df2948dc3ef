/** The names uploadVideoHandler gives stored videos:
    `<unix seconds>_<8 random characters><lower-cased extension>`, and
    `generateRandomString`, which fills a byte slice from a fixed alphabet. */
module UploadNames {
  import opened GoStrings
  import opened GoStrconv
  import opened VideoTypes
  import opened Guards

  const LowerLetters := "abcdefghijklmnopqrstuvwxyz"
  const UpperLetters := "ABCDEFGHIJKLMNOPQRSTUVWXYZ"
  const DecimalDigits := "0123456789"

  /** `generateRandomString`'s alphabet, in its order. */
  const Charset := LowerLetters + UpperLetters + DecimalDigits

  const RandomPartLength: nat := 8

  predicate IsAlnum(c: char) { 'a' <= c <= 'z' || 'A' <= c <= 'Z' || '0' <= c <= '9' }

  /** The alphabet holds 62 characters, all ASCII letters and digits. */
  lemma CharsetIsAlnum()
    ensures |Charset| == 62
    ensures forall i :: 0 <= i < |Charset| ==> IsAlnum(Charset[i])
  {
    assert forall i :: 0 <= i < |LowerLetters| ==> 'a' <= LowerLetters[i] <= 'z';
    assert forall i :: 0 <= i < |UpperLetters| ==> 'A' <= UpperLetters[i] <= 'Z';
    assert forall i :: 0 <= i < |DecimalDigits| ==> '0' <= DecimalDigits[i] <= '9';
    forall i | 0 <= i < |Charset|
      ensures IsAlnum(Charset[i])
    {
      if i < 26 {
        assert Charset[i] == LowerLetters[i];
      } else if i < 52 {
        assert Charset[i] == UpperLetters[i - 26];
      } else {
        assert Charset[i] == DecimalDigits[i - 52];
      }
    }
  }

  predicate AllAlnum(s: string) { forall i :: 0 <= i < |s| ==> IsAlnum(s[i]) }

  /** The string a sequence of draws picks from the alphabet: whatever the
      draws, it has the requested length and holds letters and digits only. */
  function Drawn(length: nat, draws: seq<int>): (s: string)
    requires |draws| >= length
    requires forall i :: 0 <= i < |draws| ==> 0 <= draws[i] < |Charset|
    ensures |s| == length
    ensures AllAlnum(s)
  {
    CharsetIsAlnum();
    seq(length, i requires 0 <= i < length => Charset[draws[i]])
  }

  /** `generateRandomString(length)`. The generator's draws, each
      `Intn(len(charset))`, are passed in as `draws`; character `i` is the
      alphabet entry that draw `i` picks. */
  method GenerateRandomString(length: nat, draws: seq<int>) returns (s: string)
    requires |draws| >= length
    requires forall i :: 0 <= i < |draws| ==> 0 <= draws[i] < |Charset|
    ensures s == Drawn(length, draws)
  {
    var b := new char[length];
    for i := 0 to length
      invariant forall j :: 0 <= j < i ==> b[j] == Charset[draws[j]]
    {
      b[i] := Charset[draws[i]];
    }
    s := b[..];
  }

  /** A dot followed by lower-case letters and digits: the shape of every
      lower-cased video extension (VideoExtShape). */
  predicate IsDotLowerAlnum(ext: string)
  {
    |ext| > 0 && ext[0] == '.' && forall i :: 1 <= i < |ext| ==> IsLowerAlnum(ext[i])
  }

  /** `fmt.Sprintf("%d_%s%s", unix, random, ext)`. With a random part of
      letters and digits and an extension of the video shape, `filepath.Ext`
      finds exactly that extension again, and the name holds no "..", '/'
      or '\', so the traversal guard lets it through. */
  function NewFilename(unix: int, random: string, ext: string): (name: string)
    ensures |name| == |FormatInt(unix)| + 1 + |random| + |ext|
    ensures AllAlnum(random) && IsDotLowerAlnum(ext) ==>
      Ext(name) == ext && !HasDotDot(name) && '/' !in name && '\\' !in name
  {
    var stem := FormatInt(unix) + "_" + random;
    if AllAlnum(random) && IsDotLowerAlnum(ext) then
      StemIsPlain(unix, random);
      DotThenLowerAlnum(ext);
      ExtOfSuffix(stem, ext);
      OnlyDotStartsExtension(stem, ext);
      stem + ext
    else
      stem + ext
  }

  /** The only '.' in a generated name is the one that starts its extension. */
  lemma {:induction false} OnlyDotStartsExtension(prefix: string, ext: string)
    requires forall i :: 0 <= i < |prefix| ==> prefix[i] != '.' && prefix[i] != '/' && prefix[i] != '\\'
    requires |ext| > 0 && ext[0] == '.' && forall i :: 1 <= i < |ext| ==> IsLowerAlnum(ext[i])
    ensures !HasDotDot(prefix + ext) && '/' !in prefix + ext && '\\' !in prefix + ext
  {
    var n := prefix + ext;
    forall i | 0 <= i < |n|
      ensures n[i] == '.' ==> i == |prefix|
      ensures n[i] != '/' && n[i] != '\\'
    {
      if i >= |prefix| {
        assert n[i] == ext[i - |prefix|];
      }
    }
  }

  /** The part before the extension has no '.', '/' or '\': digits and
      perhaps a minus sign, an underscore, and letters and digits. */
  lemma {:induction false} StemIsPlain(unix: int, random: string)
    requires forall i :: 0 <= i < |random| ==> IsAlnum(random[i])
    ensures var stem := FormatInt(unix) + "_" + random;
      forall i :: 0 <= i < |stem| ==> stem[i] != '.' && stem[i] != '/' && stem[i] != '\\'
  {
    var digits := FormatInt(unix);
    var stem := digits + "_" + random;
    forall i | 0 <= i < |stem|
      ensures stem[i] != '.' && stem[i] != '/' && stem[i] != '\\'
    {
      if i < |digits| {
        assert stem[i] == digits[i];
      } else if i > |digits| {
        assert stem[i] == random[i - |digits| - 1];
      }
    }
  }

  /** A dot followed by lower-case letters and digits has no second dot
      and no '/'. */
  lemma DotThenLowerAlnum(ext: string)
    requires |ext| > 0 && ext[0] == '.' && forall i :: 1 <= i < |ext| ==> IsLowerAlnum(ext[i])
    ensures '.' !in ext[1..] && '/' !in ext
  {
    forall j | 0 <= j < |ext[1..]| ensures ext[1..][j] != '.' {
      assert ext[1..][j] == ext[j + 1];
    }
  }

  /** A lower-cased video extension: a dot, then lower-case letters and
      digits, so no second dot and no '/'. */
  lemma VideoExtShape(clientName: string)
    requires IsVideoFile(clientName)
    ensures var ext := LowerExt(clientName);
      && |ext| > 0 && ext[0] == '.' && '.' !in ext[1..] && '/' !in ext
      && (forall i :: 1 <= i < |ext| ==> IsLowerAlnum(ext[i]))
      && ToLower(ext) == ext
  {
    DotThenLowerAlnum(LowerExt(clientName));
    ToLowerIdempotent(Ext(clientName));
  }

  /** A name made for an accepted upload is one the serve and delete
      handlers accept: it has the same (already lower-case) video extension,
      passes the traversal guard, and is not ".". So every check they make on
      the name itself passes. */
  lemma GeneratedNameIsServable(unix: int, random: string, clientName: string)
    requires IsVideoFile(clientName)
    requires AllAlnum(random)
    ensures var name := NewFilename(unix, random, LowerExt(clientName));
      && LowerExt(name) == LowerExt(clientName)
      && IsVideoFile(name)
      && name != "" && name != "."
      && !Unsafe(name)
  {
    var name := NewFilename(unix, random, LowerExt(clientName));
    VideoExtShape(clientName);
    UnsafeMeans(name);
    assert name[|FormatInt(unix)|] == '_';
  }
}
