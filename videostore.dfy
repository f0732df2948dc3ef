/** The video directory and the three handlers that use it:
    serveVideoHandler (GET, with byte ranges), uploadVideoHandler (POST,
    streamed to a freshly named file) and deleteVideoHandler (DELETE). The
    directory is a map from file name to entry, changed in place by upload
    and delete; the failures the operating system can report are passed in
    as flags. */
module VideoStore {
  import opened Basics
  import opened GoStrings
  import opened GoStrconv
  import opened VideoTypes
  import opened ByteRanges
  import opened RangeCopy
  import opened UploadStream
  import opened UploadNames
  import opened Guards

  const ServePrefix := "/api/video/"
  const DeletePrefix := "/api/delete-video/"

  /** The headers set on every answer that carries the video. */
  datatype MediaHeaders = MediaHeaders(contentType: string, contentDisposition: string)

  function HeadersFor(name: string): (h: MediaHeaders)
    ensures "video/" <= h.contentType
  {
    MediaHeaders(ServedContentType(name), "inline; filename=\"" + name + "\"")
  }

  datatype ServeResponse =
    | Preflight                                   // OPTIONS: 200, CORS headers only
    | Refused(code: int)                          // `http.Error` with this status
    | RangeNotSatisfiable(contentRange: string)   // 416
    | WholeFile(headers: MediaHeaders, contentLength: string)
    | PartialContent(headers: MediaHeaders, contentLength: string, contentRange: string,
                     body: seq<seq<Byte>>)        // 206

  datatype UploadReply = UploadRefused(code: int) | Uploaded(filename: string, size: int)

  /** How a range decision is answered for a file's bytes: 400, 416, or a
      206 whose body is the chunks the copy loop sends. */
  ghost predicate AnswersRange(resp: ServeResponse, decision: RangeDecision, data: seq<Byte>, name: string,
                               fault: Option<nat>)
  {
    match decision
    case BadRange => resp == Refused(400)
    case NotSatisfiable(contentRange) => resp == RangeNotSatisfiable(contentRange)
    case Satisfiable(start, end, len, contentRange) =>
      && resp.PartialContent?
      && resp.headers == HeadersFor(name)
      && resp.contentLength == FormatInt(len)
      && resp.contentRange == contentRange
      && ChunkShaped(resp.body)
      && Sends(data, start, len, fault, resp.body)
  }

  /** A 206 built from the copy loop's chunks answers a satisfiable range. */
  lemma PartialAnswers(data: seq<Byte>, name: string, start: int, end: int, len: int, contentRange: string,
                       fault: Option<nat>, body: seq<seq<Byte>>)
    requires ChunkShaped(body) && Sends(data, start, len, fault, body)
    ensures AnswersRange(PartialContent(HeadersFor(name), FormatInt(len), contentRange, body),
                         Satisfiable(start, end, len, contentRange), data, name, fault)
  {
  }

  /** How a GET for a file that passed every check is answered, given its
      bytes: without a Range header the whole file is handed on; otherwise
      as the range decision says. */
  ghost predicate ServedAs(resp: ServeResponse, data: seq<Byte>, name: string, rangeHeader: string,
                           readFailsAt: Option<nat>, writeFailsAt: Option<nat>)
  {
    if rangeHeader == "" then resp == WholeFile(HeadersFor(name), FormatInt(|data|))
    else AnswersRange(resp, Decide(rangeHeader, |data|), data, name, FirstFault(readFailsAt, writeFailsAt))
  }

  /** Without read or write errors, a 206 carries exactly the requested
      bytes, `end - start + 1` of them. */
  lemma FaultFreePartialIsExact(resp: ServeResponse, data: seq<Byte>, name: string, rangeHeader: string)
    requires rangeHeader != "" && ServedAs(resp, data, name, rangeHeader, None, None)
    requires resp.PartialContent?
    ensures var d := Decide(rangeHeader, |data|);
      d.Satisfiable? && Flatten(resp.body) == data[d.start..d.end + 1]
      && |Flatten(resp.body)| == d.contentLength
  {
    var d := Decide(rangeHeader, |data|);
    assert d.Satisfiable?;
    assert FirstFault(None, None) == None;
    assert Delivered(|data|, d.start, d.contentLength, None) == d.contentLength;
    assert d.start + d.contentLength == d.end + 1;
  }

  /** How serveVideoHandler answers once the range is decided: 400, 416,
      or a 206 whose body the copy loop produces. A satisfiable decision
      names an interval inside the file (ByteRanges.Decide). */
  method AnswerRange(data: seq<Byte>, name: string, decision: RangeDecision,
                     readFailsAt: Option<nat>, writeFailsAt: Option<nat>)
      returns (resp: ServeResponse)
    requires decision.Satisfiable? ==> 0 <= decision.start <= decision.end < |data|
    ensures AnswersRange(resp, decision, data, name, FirstFault(readFailsAt, writeFailsAt))
  {
    match decision
    case BadRange =>
      resp := Refused(400);
    case NotSatisfiable(contentRange) =>
      resp := RangeNotSatisfiable(contentRange);
    case Satisfiable(start, end, len, contentRange) =>
      var body := CopyRange(data, start, len, readFailsAt, writeFailsAt);
      ChunksSent(data, start, len, readFailsAt, writeFailsAt);
      PartialAnswers(data, name, start, end, len, contentRange, FirstFault(readFailsAt, writeFailsAt), body);
      resp := PartialContent(HeadersFor(name), FormatInt(len), contentRange, body);
  }

  /** The part of serveVideoHandler after the file is open: the whole file
      without a Range header, otherwise as the range decision says. */
  method ServeFile(data: seq<Byte>, name: string, rangeHeader: string,
                   readFailsAt: Option<nat>, writeFailsAt: Option<nat>)
      returns (resp: ServeResponse)
    ensures ServedAs(resp, data, name, rangeHeader, readFailsAt, writeFailsAt)
  {
    if rangeHeader == "" {
      return WholeFile(HeadersFor(name), FormatInt(|data|));
    }
    var decision := Decide(rangeHeader, |data|);
    resp := AnswerRange(data, name, decision, readFailsAt, writeFailsAt);
  }

  class VideoDir {
    var files: map<string, Entry>

    /** Names in a directory are plain names. */
    ghost predicate Valid()
      reads this
    {
      forall name :: name in files ==> name != "" && name != "." && name != ".." && '/' !in name
    }

    /** No entry of a directory of plain names is called ".", so the stat
        of a stored name finds that entry and not the directory itself. */
    lemma StoredNameFound(name: string)
      requires Valid() && name in files
      ensures Lookup(files, name) == Some(files[name])
    {
    }

    constructor(initial: map<string, Entry>)
      requires forall name :: name in initial ==> name != "" && name != "." && name != ".." && '/' !in name
      ensures Valid() && files == initial
    {
      files := initial;
    }

    /** serveVideoHandler. Nothing in the directory changes. */
    method Serve(verb: string, urlPath: string, rangeHeader: string, statFails: bool, openFails: bool,
                 readFailsAt: Option<nat>, writeFailsAt: Option<nat>)
        returns (resp: ServeResponse)
      ensures verb == "OPTIONS" ==> resp == Preflight
      ensures verb != "OPTIONS" && verb != "GET" ==> resp == Refused(405)
      ensures verb == "GET" ==>
        var name := TrimPrefix(urlPath, ServePrefix);
        var check := CheckTarget(files, name, statFails);
        && (check.Some? ==> resp == Refused(StatusOf(check.value)))
        && (check.None? && openFails ==> resp == Refused(500))
        && (check.None? && !openFails ==>
              ServedAs(resp, files[name].data, name, rangeHeader, readFailsAt, writeFailsAt))
    {
      if verb == "OPTIONS" {
        return Preflight;
      }
      if verb != "GET" {
        return Refused(405);
      }
      var name := TrimPrefix(urlPath, ServePrefix);
      var check := CheckTarget(files, name, statFails);
      if check.Some? {
        return Refused(StatusOf(check.value));
      }
      if openFails {
        return Refused(500);
      }
      resp := ServeFile(files[name].data, name, rangeHeader, readFailsAt, writeFailsAt);
    }

    /** The copy loop of uploadVideoHandler into the freshly created, empty
        file `name`: the file grows read by read and is removed on any
        failure. The outcome is the one Drain describes. */
    method ReceiveInto(name: string, steps: seq<ReadStep>, writeFailsAt: Option<nat>)
        returns (outcome: UploadOutcome)
      requires name in files && files[name] == RegularFile([])
      requires forall i :: 0 <= i < |steps| ==> |steps[i].data| <= UploadBufferSize
      modifies this
      ensures outcome == Drain(steps, writeFailsAt, 0, [])
      ensures outcome.Stored? ==> files == old(files)[name := RegularFile(outcome.data)]
      ensures !outcome.Stored? ==> files == old(files) - {name}
    {
      var totalBytes := 0;
      var i := 0;
      while true
        invariant 0 <= i <= |steps|
        invariant name in files && files[name].RegularFile?
        invariant files == old(files)[name := files[name]]
        invariant totalBytes == |files[name].data| <= MaxUploadBytes
        invariant Drain(steps, writeFailsAt, 0, []) == Drain(steps, writeFailsAt, i, files[name].data)
        decreases |steps| - i
      {
        var step := if i < |steps| then steps[i] else ReadStep([], Eof);
        var n := |step.data|;
        ghost var before := files[name].data;
        if n > 0 {
          totalBytes := totalBytes + n;
          if totalBytes > MaxUploadBytes {
            files := files - {name};
            return TooLarge;
          }
          if writeFailsAt == Some(i) {
            files := files - {name};
            return WriteFailed;
          }
          files := files[name := RegularFile(files[name].data + step.data)];
        }
        if step.status == Eof {
          break;
        }
        if step.status == ReadFault {
          files := files - {name};
          return ReadFailed;
        }
        assert files[name].data == before + step.data;
        i := i + 1;
      }
      outcome := Stored(files[name].data, totalBytes);
    }

    /** uploadVideoHandler, from the moment the `video` part is found.
        `clientName` is the file name the part carries, `unix` the clock,
        `draws` the random generator's picks; `createFails` is an error from
        `os.Create` other than the name being taken by a directory. */
    method Upload(verb: string, clientName: string, steps: seq<ReadStep>, writeFailsAt: Option<nat>,
                  unix: int, draws: seq<int>, createFails: bool)
        returns (reply: UploadReply)
      requires Valid()
      requires |draws| >= RandomPartLength
      requires forall i :: 0 <= i < |draws| ==> 0 <= draws[i] < |Charset|
      requires forall i :: 0 <= i < |steps| ==> |steps[i].data| <= UploadBufferSize
      modifies this
      ensures Valid()
      ensures verb != "POST" ==> reply == UploadRefused(405) && files == old(files)
      ensures verb == "POST" && (clientName == "" || !IsVideoFile(clientName)) ==>
        reply == UploadRefused(400) && files == old(files)
      ensures verb == "POST" && clientName != "" && IsVideoFile(clientName) ==>
        var name := NewFilename(unix, Drawn(RandomPartLength, draws), LowerExt(clientName));
        if createFails || (name in old(files) && old(files)[name].Directory?) then
          reply == UploadRefused(500) && files == old(files)
        else
          var o := Drain(steps, writeFailsAt, 0, []);
          if o.Stored? then
            reply == Uploaded(name, o.size) && files == old(files)[name := RegularFile(o.data)]
          else
            reply == UploadRefused(FailureStatus(o)) && files == old(files) - {name}
    {
      if verb != "POST" {
        return UploadRefused(405);
      }
      if clientName == "" {
        return UploadRefused(400);
      }
      if !IsVideoFile(clientName) {
        return UploadRefused(400);
      }
      var ext := ToLower(Ext(clientName));
      var random := GenerateRandomString(RandomPartLength, draws);
      var name := NewFilename(unix, random, ext);
      GeneratedNameIsServable(unix, random, clientName);
      assert HasDotDot("..") by {
        assert ".."[0] == '.' && ".."[1] == '.';
      }
      if createFails || (name in files && files[name].Directory?) {
        return UploadRefused(500);
      }
      files := files[name := RegularFile([])];
      var outcome := ReceiveInto(name, steps, writeFailsAt);
      if outcome.Stored? {
        UpdateTwice(old(files), name, RegularFile([]), RegularFile(outcome.data));
        reply := Uploaded(name, outcome.size);
      } else {
        RemoveUpdated(old(files), name, RegularFile([]));
        reply := UploadRefused(FailureStatus(outcome));
      }
    }

    /** deleteVideoHandler: the same checks as serving, then `os.Remove`;
        only the named file goes, and only when every check passed. */
    method Delete(verb: string, urlPath: string, statFails: bool, removeFails: bool)
        returns (code: int)
      requires Valid()
      modifies this
      ensures Valid()
      ensures verb != "DELETE" ==> code == 405 && files == old(files)
      ensures verb == "DELETE" ==>
        var name := TrimPrefix(urlPath, DeletePrefix);
        var check := CheckTarget(old(files), name, statFails);
        && (check.Some? ==> code == StatusOf(check.value) && files == old(files))
        && (check.None? && removeFails ==> code == 500 && files == old(files))
        && (check.None? && !removeFails ==>
              code == 200 && name in old(files) && files == old(files) - {name})
    {
      if verb != "DELETE" {
        return 405;
      }
      var name := TrimPrefix(urlPath, DeletePrefix);
      var check := CheckTarget(files, name, statFails);
      if check.Some? {
        return StatusOf(check.value);
      }
      if removeFails {
        return 500;
      }
      files := files - {name};
      code := 200;
    }
  }

  /** What an upload stores can be served and deleted again: in the
      directory it leaves, its generated name passes every check the serve
      and delete handlers make. */
  lemma UploadedFilePassesChecks(files: map<string, Entry>, unix: int, draws: seq<int>,
                                 clientName: string, data: seq<Byte>)
    requires IsVideoFile(clientName)
    requires |draws| >= RandomPartLength
    requires forall i :: 0 <= i < |draws| ==> 0 <= draws[i] < |Charset|
    ensures var name := NewFilename(unix, Drawn(RandomPartLength, draws), LowerExt(clientName));
      CheckTarget(files[name := RegularFile(data)], name, false).None?
  {
    var random := Drawn(RandomPartLength, draws);
    GeneratedNameIsServable(unix, random, clientName);
  }
}
