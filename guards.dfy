/** The checks serveVideoHandler and deleteVideoHandler make, in the same
    order, before touching a file named in the URL: a name must be given,
    must not look like a path, must exist, must be statted without error,
    must not be a directory and must have a video extension. */
module Guards {
  import opened Basics
  import opened GoStrings
  import opened VideoTypes

  /** What the video directory holds under a name. */
  datatype Entry = RegularFile(data: seq<Byte>) | Directory

  /** What `os.Stat(filepath.Join(videoDir, name))` finds for a name that
      passed the traversal guard. Such a name has no '/', so the join only
      changes the name "." , which resolves to the video directory itself. */
  function Lookup(files: map<string, Entry>, name: string): (e: Option<Entry>)
    ensures name != "." ==> (e.Some? <==> name in files)
    ensures name != "." && e.Some? ==> e.value == files[name]
  {
    if name == "." then Some(Directory)
    else if name in files then Some(files[name])
    else None
  }

  /** The traversal guard: the name contains "..", '/' or '\'. */
  predicate Unsafe(name: string)
  {
    Contains(name, "..") || Contains(name, "/") || Contains(name, "\\")
  }

  /** The guard in terms of characters: two adjacent dots or a separator. */
  lemma UnsafeMeans(name: string)
    ensures Unsafe(name) <==> HasDotDot(name) || '/' in name || '\\' in name
  {
    ContainsDotDot(name);
    ContainsChar(name, '/');
    ContainsChar(name, '\\');
  }

  /** The reasons a request is refused, in the order they are checked. */
  datatype Refusal = NoName | UnsafeName | NotFound | StatFailed | IsDirectory | NotVideo

  /** The status a refusal is answered with: 404 only for a missing file,
      500 only for a failed stat, 400 for every other refusal. */
  function StatusOf(r: Refusal): (code: int)
    ensures code == 400 || code == 404 || code == 500
    ensures code == 404 <==> r == NotFound
    ensures code == 500 <==> r == StatFailed
  {
    match r
    case NoName => 400
    case UnsafeName => 400
    case NotFound => 404
    case StatFailed => 500
    case IsDirectory => 400
    case NotVideo => 400
  }

  /** Position of a check in the handler's sequence. */
  function Rank(r: Refusal): nat
  {
    match r
    case NoName => 0
    case UnsafeName => 1
    case NotFound => 2
    case StatFailed => 3
    case IsDirectory => 4
    case NotVideo => 5
  }

  /** Whether a check, taken on its own, fails. `statFails` means that
      `os.Stat` fails with an error other than "does not exist" (permissions,
      I/O, a name too long, an invalid byte), whether or not the directory
      holds the name; without it, a missing name is "does not exist". */
  predicate Fails(r: Refusal, files: map<string, Entry>, name: string, statFails: bool)
  {
    match r
    case NoName => name == ""
    case UnsafeName => Unsafe(name)
    case NotFound => Lookup(files, name).None? && !statFails
    case StatFailed => statFails
    case IsDirectory => Lookup(files, name) == Some(Directory)
    case NotVideo => !IsVideoFile(name)
  }

  /** The handlers' checks in their order. The answer is the first check
      that fails, or none when all pass. */
  function CheckTarget(files: map<string, Entry>, name: string, statFails: bool): (r: Option<Refusal>)
    ensures r.Some? ==> Fails(r.value, files, name, statFails)
    ensures r.Some? ==> forall k :: Rank(k) < Rank(r.value) ==> !Fails(k, files, name, statFails)
    ensures r.None? ==> forall k :: !Fails(k, files, name, statFails)
    ensures r.None? ==> name != "." && name in files && files[name].RegularFile? && IsVideoFile(name)
  {
    if name == "" then Some(NoName)
    else if Unsafe(name) then Some(UnsafeName)
    else if statFails then Some(StatFailed)
    else
      match Lookup(files, name)
      case None => Some(NotFound)
      case Some(entry) =>
        if entry.Directory? then Some(IsDirectory)
        else if !IsVideoFile(name) then Some(NotVideo)
        else None
  }

  /** A name that passes every check is a video file the directory holds
      under exactly that name, and is a plain file name. */
  lemma PassedMeans(files: map<string, Entry>, name: string, statFails: bool)
    requires CheckTarget(files, name, statFails).None?
    ensures name in files && files[name].RegularFile?
    ensures IsVideoFile(name) && !statFails
    ensures name != "" && name != "." && !HasDotDot(name) && '/' !in name && '\\' !in name
  {
    UnsafeMeans(name);
    assert !Fails(IsDirectory, files, name, statFails);
    assert !Fails(NotFound, files, name, statFails);
  }

  /** The traversal guard does not depend on the directory: a name that
      looks like a path is refused with 400 whether or not a file of that
      name exists. */
  lemma UnsafeRefusedWhateverExists(files: map<string, Entry>, name: string, statFails: bool)
    requires name != "" && (HasDotDot(name) || '/' in name || '\\' in name)
    ensures CheckTarget(files, name, statFails) == Some(UnsafeName)
  {
    UnsafeMeans(name);
  }

  /** Existence is checked before the extension: a missing file whose stat
      reports "does not exist" is a 404 even when its name is not a video
      name. */
  lemma MissingBeforeExtension(files: map<string, Entry>, name: string)
    requires name != "" && name != "." && name !in files
    requires !HasDotDot(name) && '/' !in name && '\\' !in name
    ensures CheckTarget(files, name, false) == Some(NotFound)
  {
    UnsafeMeans(name);
  }

  /** Any other stat error is a 500 whether or not the directory holds the
      name: a missing name whose stat fails otherwise (a name too long for
      the file system, say) is not a 404. */
  lemma StatErrorBeforeExistence(files: map<string, Entry>, name: string)
    requires name != "" && !HasDotDot(name) && '/' !in name && '\\' !in name
    ensures CheckTarget(files, name, true) == Some(StatFailed)
  {
    UnsafeMeans(name);
  }

  /** The name "." gets through the traversal guard and is refused as the
      directory it resolves to. */
  lemma DotIsTheDirectory(files: map<string, Entry>, statFails: bool)
    ensures CheckTarget(files, ".", statFails) == Some(if statFails then StatFailed else IsDirectory)
  {
    UnsafeMeans(".");
  }
}
