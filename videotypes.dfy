/** The content classifier: which file names count as video (`isVideoFile`)
    and which media type a served video is labelled with (`getContentType`
    and the handler's `video/mp4` fallback). */
module VideoTypes {
  import opened GoStrings

  /** The extensions `isVideoFile` accepts, as its own table lists them. */
  const VideoExtensions: set<string> :=
    {".mp4", ".avi", ".mov", ".wmv", ".flv", ".webm", ".mkv", ".m4v", ".3gp"}

  /** The separate table `getContentType` looks up. */
  const ContentTypes: map<string, string> := map[
    ".mp4" := "video/mp4",
    ".avi" := "video/x-msvideo",
    ".mov" := "video/quicktime",
    ".wmv" := "video/x-ms-wmv",
    ".flv" := "video/x-flv",
    ".webm" := "video/webm",
    ".mkv" := "video/x-matroska",
    ".m4v" := "video/x-m4v",
    ".3gp" := "video/3gpp"
  ]

  /** What the served `Content-Type` falls back to. */
  const FallbackType := "video/mp4"

  predicate IsLowerAlnum(c: char) { 'a' <= c <= 'z' || '0' <= c <= '9' }

  /** `getContentType(ext)`: the table entry, or Go's zero value "" for a
      key the table lacks. The two tables cover the same nine keys, so a type
      is found exactly for the video extensions, and it is a `video/` type. */
  function GetContentType(ext: string): (ct: string)
    ensures ct != "" <==> ext in VideoExtensions
    ensures ct != "" ==> "video/" <= ct
  {
    if ext in ContentTypes then ContentTypes[ext] else ""
  }

  /** The lower-cased extension the handlers compute with
      `strings.ToLower(filepath.Ext(name))`. */
  function LowerExt(filename: string): string
  {
    ToLower(Ext(filename))
  }

  /** `isVideoFile`: the lower-cased extension is in the allow-list, which is
      the same as `getContentType` knowing it. Every such extension is a dot
      followed by three or four lower-case letters and digits. */
  predicate IsVideoFile(filename: string): (ok: bool)
    ensures ok <==> GetContentType(LowerExt(filename)) != ""
    ensures ok ==> var e := LowerExt(filename);
      4 <= |e| <= 5 && e[0] == '.' && forall i :: 1 <= i < |e| ==> IsLowerAlnum(e[i])
  {
    LowerExt(filename) in VideoExtensions
  }

  /** The header value serveVideoHandler sets: the table's type, or
      `video/mp4` when the table has none. It is never empty, and for a file
      that passed `isVideoFile` (the only files the handler reaches this
      point with) the fallback is never taken. */
  function ServedContentType(filename: string): (ct: string)
    ensures "video/" <= ct
    ensures IsVideoFile(filename) ==> ct == ContentTypes[LowerExt(filename)]
    ensures !IsVideoFile(filename) ==> ct == FallbackType
  {
    var ct := GetContentType(LowerExt(filename));
    if ct != "" then ct else FallbackType
  }

  // One step of Ext's backward scan, in each of its three cases.

  lemma ExtToLowerStepSlash(init: string)
    ensures Ext(ToLower(init + ['/'])) == ToLower(Ext(init + ['/']))
  {
    ToLowerSnoc(init, '/');
    ExtSnoc(init, '/');
    ExtSnoc(ToLower(init), '/');
  }

  lemma ExtToLowerStepDot(init: string)
    ensures Ext(ToLower(init + ['.'])) == ToLower(Ext(init + ['.']))
  {
    ToLowerSnoc(init, '.');
    ExtSnoc(init, '.');
    ExtSnoc(ToLower(init), '.');
    assert ToLower(".") == ".";
  }

  lemma ExtToLowerStepOther(init: string, c: char)
    requires c != '/' && c != '.'
    requires Ext(ToLower(init)) == ToLower(Ext(init))
    ensures Ext(ToLower(init + [c])) == ToLower(Ext(init + [c]))
  {
    ToLowerSnoc(init, c);
    ExtSnoc(init, c);
    ExtSnoc(ToLower(init), ToLowerChar(c));
    if Ext(init) != "" {
      ToLowerSnoc(Ext(init), c);
    } else {
      assert ToLower("") == "";
    }
  }

  /** Lower-casing commutes with taking the extension: '.' and '/' are not
      letters and stay what they are. */
  lemma {:induction false} ExtToLower(f: string)
    ensures Ext(ToLower(f)) == ToLower(Ext(f))
    decreases |f|
  {
    if f != [] {
      var init := f[..|f| - 1];
      var last := f[|f| - 1];
      assert f == init + [last];
      if last == '/' {
        ExtToLowerStepSlash(init);
      } else if last == '.' {
        ExtToLowerStepDot(init);
      } else {
        ExtToLower(init);
        ExtToLowerStepOther(init, last);
      }
    } else {
      assert ToLower(f) == f;
    }
  }

  /** The allow-list ignores case: a name and its lower-cased form are
      classified alike. */
  lemma VideoFileIgnoresCase(f: string)
    ensures IsVideoFile(ToLower(f)) == IsVideoFile(f)
  {
    ExtToLower(f);
    ToLowerIdempotent(Ext(f));
  }
}
