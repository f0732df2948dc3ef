# Video service and CSV import: a verified model

This project models the request-handling logic of a small Go web service (`backend/main.go`):

- **Serving videos with byte ranges** (`serveVideoHandler`). The handler checks the method and the file name. It reads the `Range` header into an interval, answers 400, 416 or 206, and copies the interval to the response in chunks of 64 KiB.
- **Uploading videos** (`uploadVideoHandler`). The handler checks the client's file name. It gives the file a fresh `<unix>_<8 random characters><ext>` name and streams the upload through a 32 KiB buffer, under a ceiling of `2 << 30` bytes. The file is removed if the copy fails.
- **Deleting videos** (`deleteVideoHandler`), which makes the same checks as serving, in the same order.
- **The file-name classifiers** `isVideoFile` and `getContentType`, and the `video/mp4` fallback.
- **The row selection of the CSV import** (`uploadCSV`) over records that are already parsed. It finds the `id,name` header row, then keeps the records with a numeric id and a non-empty name.
- **The base64 line wrapping** of the e-mail attachment (`sendCSVByEmail`): lines of 76 characters, each ended by CRLF, as section 6.8 of RFC 2045 asks.

Modules:

- `Basics`: Option, bytes, Flatten and small sequence facts.
- `GoStrings`: the `strings` and `filepath` functions the handlers call, modelled as Go defines them.
- `GoStrconv`: `strconv.ParseInt`, `Atoi` and `%d`.
- `ByteRanges`: range parsing and validation.
- `RangeCopy`: the 206 copy loop.
- `UploadStream`: the upload copy as a function of the reads.
- `VideoTypes`: the two extension tables.
- `UploadNames`: generated names.
- `Guards`: the checks made before touching a file.
- `VideoStore`: the video directory as a class whose `files` map the upload and delete handlers change in place, and the three handlers.
- `CsvImport`: the CSV row selection.
- `MailWrap`: the line wrapping.

The loops of the source are methods with loops: the chunk copy, the upload copy, the CSV header search and insert loops, `generateRandomString` (over an array) and the base64 wrap loop. Each is proved against a specification function, and the properties are proved about that function.

Two choices of the code are kept as written:

- A too-large upload is answered with 400 (backend/main.go:884), not with the 413 that section 15.5.14 of RFC 9110 provides for a content too large.
- The error of `strconv.ParseInt` on a range number is ignored (backend/main.go:734-735). A number with a syntax error reads as 0. A number of digits past MaxInt64, or one whose leading digits pass MaxUint64 before a non-digit, reads as MaxInt64 (a range error): as a start it makes the range unsatisfiable (416), and as an end it is clamped to the last byte.

## Model

| member | source | states |
|---|---|---|
| GoStrings.TrimPrefix | backend/main.go:652 | With the prefix present the name is what follows it; without it the path is unchanged |
| GoStrings.ContainsDotDot | backend/main.go:659 | `strings.Contains(s, "..")` holds exactly when two adjacent characters are dots |
| GoStrings.ContainsChar | backend/main.go:659 | `strings.Contains(s, "/")` (or `"\\"`) holds exactly when the character occurs in the name |
| GoStrings.Split | backend/main.go:731 | `strings.Split` on '-' gives one more part than there are dashes; no part holds a dash; joining the parts with '-' gives the input back |
| GoStrings.CountAppend | backend/main.go:731 | Dashes in a concatenation are the dashes of each side (the part count of a multi-range header) |
| GoStrings.TrimSpace | backend/main.go:294-295 | The result is the input's slice between its leading and trailing white space, and starts and ends with a non-space |
| GoStrings.TrimSpaceIdempotent | backend/main.go:316-317 | Trimming a trimmed field changes nothing, so a stored name is already trimmed |
| GoStrings.ToLowerChar | backend/main.go:1008 | An ASCII capital becomes the lower-case letter whose code is 32 higher; any other change yields an ASCII lower-case letter |
| GoStrings.ToLowerPointwise | backend/main.go:1008 | `strings.ToLower` lower-cases each character in place, keeping the length |
| GoStrings.ToLowerIdempotent | backend/main.go:857 | Lower-casing twice is lower-casing once, so a lower-cased extension is left as it is |
| GoStrings.Ext | backend/main.go:1008 | `filepath.Ext` is empty or a dot followed by no further dot and no '/', and is no longer than the name |
| GoStrings.ExtIsSuffix | backend/main.go:1008 | The extension is a suffix of the name |
| GoStrings.ExtWithinLastElement | backend/main.go:1008 | A found extension lies in the last path element; an empty one means the last element has no dot |
| GoStrings.ExtOfSuffix | backend/main.go:857-858 | Appending a dot-led suffix without another dot or '/' makes that suffix the extension |
| GoStrconv.ParseUint64 | backend/main.go:734-735 | Succeeds exactly on non-empty digit strings whose value fits 64 bits and returns that value; fails with a range error, valued MaxUint64, exactly when the leading run of digits exceeds MaxUint64; any other failure is a syntax error valued 0 |
| GoStrconv.ParseInt64 | backend/main.go:734-735 | The value is always in the int64 range and is 0 on a syntax error; a range error happens exactly when the magnitude's leading digits pass MaxUint64, or all of it is digits past MaxInt64 (MaxInt64 + 1 after '-'), and saturates at MaxInt64, or MinInt64 after '-'; without a '-' the value is never negative |
| GoStrconv.Atoi | backend/main.go:328 | An accepted id lies in the 64-bit range |
| GoStrconv.FormatNat | backend/main.go:752 | Decimal digits without leading zeros whose value is the number |
| GoStrconv.FormatInt | backend/main.go:761-762 | `%d` writes digits and perhaps a minus sign; for a non-negative number, its digits |
| GoStrconv.ParseFormatRoundTrip | backend/main.go:734-735 | Parsing what `%d` wrote gives the number back, with no error, both with ParseInt and with Atoi |
| ByteRanges.ParseRange | backend/main.go:729-748 | The header is malformed exactly when what follows `bytes=` is empty or holds two dashes or more; a span has a start in `[0, MaxInt64]` and an end at most `size - 1`, either `size - 1` or positive |
| ByteRanges.Decide | backend/main.go:750-763 | 400 exactly for a malformed header; 416 exactly when the start lies past the end, with `bytes */size`; a 206 interval lies inside the file, with length `end - start + 1` and `bytes start-end/size`; an empty file never gets 206 |
| ByteRanges.TwoParts | backend/main.go:733-739 | `bytes=x-y` reads x and y as numbers and clamps an end of 0 or past the file to the last byte |
| ByteRanges.OpenEndedRange | backend/main.go:733-739 | `bytes=a-` runs from a to the last byte |
| ByteRanges.ExplicitRange | backend/main.go:733-739 | `bytes=a-b` with `0 < b < size` is exactly `[a, b]` |
| ByteRanges.ClampedEnd | backend/main.go:737-739 | An end of 0, or one at or past the file's size, becomes `size - 1` |
| ByteRanges.OnePart | backend/main.go:740-743 | Any non-empty value with no dash is read by ParseInt as the start, with the last byte as end |
| ByteRanges.StartOnly | backend/main.go:740-743 | A decimal number with no dash is exactly the start, with the last byte as end |
| ByteRanges.OverflowReadsAsMax | backend/main.go:734-735 | A digit string past MaxInt64 holds no dash and reads as MaxInt64 with a range error |
| ByteRanges.OverflowingStartUnsatisfiable | backend/main.go:733-763 | `bytes=x-` with a start past MaxInt64 starts at MaxInt64 and is answered 416 with `bytes */size` |
| ByteRanges.OverflowingEndClamped | backend/main.go:733-739 | `bytes=a-y` with an end past MaxInt64 ends at the last byte |
| ByteRanges.SuffixRangeReadsAsPrefix | backend/main.go:733-739 | The suffix form `bytes=-n` becomes the prefix `[0, n]`, or the whole file, instead of the last n bytes |
| ByteRanges.UnparsableStartReadsAsZero | backend/main.go:734 | A start with a syntax error reads as 0 |
| ByteRanges.UnitPrefixOptional | backend/main.go:730 | A value without `bytes=` is read as if it had it |
| ByteRanges.MultipleRangesRejected | backend/main.go:731-747 | A multi-range value `bytes=a-b,c-d` is malformed, which means 400 |
| ByteRanges.FirstByteRangeServesWholeFile | backend/main.go:737-739 | As written, `bytes=0-0` on a file of two bytes or more yields the whole file |
| ByteRanges.ParseRangeIntended | backend/main.go:737-739 | The corrected reading, where only a missing end means the last byte; it is malformed exactly when the code's reading is, and its spans have the same bounds |
| ByteRanges.IntendedExplicitRange | backend/main.go:733-739 | Under the corrected reading every `bytes=a-b` inside the file is exactly `[a, b]`, first byte included |
| ByteRanges.IntendedDiffersExactlyOnZeroEnd | backend/main.go:737-739 | The corrected reading differs from the code exactly where a written end reads as 0 (a literal 0, or an end with a syntax error), on a file of two bytes or more |
| RangeCopy.Delivered | backend/main.go:773-799 | The bytes a 206 body holds: never more than asked for nor more than the file has after `start`; at most 64 KiB per round before the first fault; without faults, the whole range when it lies inside the file |
| RangeCopy.FirstFault | backend/main.go:785-796 | The loop's first failing round is the earlier of the read and write faults, and is none when neither fails |
| RangeCopy.StopsAsDelivered | backend/main.go:775-799 | Stopping with everything available copied, or in the first faulty round, leaves exactly Delivered bytes sent |
| RangeCopy.RoundAdvances | backend/main.go:776-798 | A round that copies `n > 0` bytes keeps the copied count at `Min(available, rounds * 64 KiB)` |
| RangeCopy.ReadSize | backend/main.go:776-785 | A read asks for at most 64 KiB and at most `remaining` and never reads past the end of the file; it is empty exactly when nothing remains or the file is exhausted |
| RangeCopy.ProgressStep | backend/main.go:776-798 | A round that copies bytes keeps the loop's progress invariant |
| RangeCopy.FaultStops | backend/main.go:785-796 | A fault in a round no later than the first fault is the first fault |
| RangeCopy.FaultLater | backend/main.go:785-796 | A fault-free round before the first fault leaves the first fault ahead |
| RangeCopy.ChunksShaped | backend/main.go:776-785 | Every chunk sent is non-empty and at most 64 KiB, and all but the last are full |
| RangeCopy.ChunkShapedCons | backend/main.go:776-785 | A full chunk, or a short one with nothing after it, in front of a well-shaped body keeps the shape |
| RangeCopy.StopsHere | backend/main.go:775-799 | In the round where the loop stops, the copied count is Delivered for the first fault |
| RangeCopy.SendsFromStop | backend/main.go:775-799 | The stopping round sends nothing more, and the bytes sent so far are all there is |
| RangeCopy.SendsFromStep | backend/main.go:785-798 | A round that copies `n` bytes sends the next `n` bytes of the file in front of the later rounds' bytes |
| RangeCopy.ChunksComplete | backend/main.go:773-799 | From any point the loop can reach, the remaining rounds send the file's bytes from there up to `start + Delivered` |
| RangeCopy.ChunksSent | backend/main.go:766-799 | The whole body is the file's bytes from `start` for Delivered bytes, cut into well-shaped chunks |
| RangeCopy.FaultFreeSendsRange | backend/main.go:773-799 | Without read or write errors the body is exactly `file[start..end+1]` |
| RangeCopy.CopyRange | backend/main.go:773-799 | The loop sends exactly the chunks the round-by-round specification gives, and it terminates |
| VideoTypes.GetContentType | backend/main.go:1024-1037 | A type is found exactly for the nine video extensions, and it is a `video/` type; other keys give "" |
| VideoTypes.IsVideoFile | backend/main.go:1007-1021 | Holds exactly when getContentType knows the lower-cased extension; such an extension is a dot and three or four lower-case letters or digits |
| VideoTypes.ServedContentType | backend/main.go:705-711 | The served type is never empty and always `video/`; it is the table's entry for a video name and `video/mp4` otherwise |
| VideoTypes.ExtToLower | backend/main.go:1008 | Taking the extension and lower-casing commute |
| VideoTypes.VideoFileIgnoresCase | backend/main.go:1007-1021 | A name and its lower-cased form are classified alike |
| Guards.UnsafeMeans | backend/main.go:659 | The traversal guard refuses exactly the names with two adjacent dots, a '/' or a '\' |
| Guards.StatusOf | backend/main.go:653-690 | A missing file, and only it, gets 404; a failed stat, and only it, gets 500; every other refusal gets 400 |
| Guards.CheckTarget | backend/main.go:652-690 | The answer is the first check that fails, in the handler's order, and none when all pass; a stat error other than "does not exist" is a refusal whether or not the name exists; passing means a regular video file the directory holds |
| Guards.PassedMeans | backend/main.go:935-973 | A name that passes is a plain, non-empty video file name, and the directory holds a regular file under it |
| Guards.UnsafeRefusedWhateverExists | backend/main.go:942-945 | A path-like name gets 400 whether or not such a file exists |
| Guards.MissingBeforeExtension | backend/main.go:951-956 | A missing file whose stat reports "does not exist" is a 404 even when its name is not a video name |
| Guards.StatErrorBeforeExistence | backend/main.go:951-961 | A safe name whose stat fails with any other error is answered 500, whether or not the directory holds it |
| Guards.DotIsTheDirectory | backend/main.go:948-966 | The name "." passes the traversal guard and is refused as a directory, or 500 on a stat error |
| UploadStream.Drain | backend/main.go:876-912 | A stored file never passes the ceiling, its reported size is its length, and it extends what was already written |
| UploadStream.Consumed | backend/main.go:876-912 | The reads the copy gets to: every one before the last says "more", and the last ends the stream |
| UploadStream.StoredIsPayload | backend/main.go:876-912 | A stored upload is exactly the concatenation of the reads up to the end of the stream, and none of them failed |
| UploadStream.StoredHadNoWriteFault | backend/main.go:887-893 | When an upload is stored, a read the copy reached whose write was to fail carried no bytes |
| UploadStream.WriteFaultFails | backend/main.go:877-893 | A write error on a non-empty read the copy reaches fails the upload when the bytes up to that read fit under the ceiling, whatever the later reads |
| UploadStream.PayloadIsStored | backend/main.go:876-912 | Without read or write errors, a stream that fits under the ceiling is stored in full |
| UploadStream.ReadFaultFails | backend/main.go:876-909 | Without write errors, a stream that ends in a read error and fits under the ceiling fails as a read failure, answered 500 |
| UploadStream.OversizeRefused | backend/main.go:879-886 | Without write errors, a stream that passes the ceiling is refused as too large, whatever its read errors |
| UploadNames.CharsetIsAlnum | backend/main.go:996 | The alphabet has 62 characters, all ASCII letters and digits |
| UploadNames.Drawn | backend/main.go:995-1004 | Whatever the draws, the random part has the requested length and holds letters and digits only |
| UploadNames.GenerateRandomString | backend/main.go:995-1004 | The array loop fills in exactly the drawn characters |
| UploadNames.NewFilename | backend/main.go:858 | With a random part of letters and digits and a dot-led lower-case extension, `filepath.Ext` of the name is that extension, and the name holds no `..`, '/' or '\' |
| UploadNames.OnlyDotStartsExtension | backend/main.go:857-858 | A stem without dots or separators followed by a lower-case extension has no `..`, no '/' and no '\' |
| UploadNames.StemIsPlain | backend/main.go:858 | `<unix>_<random>` holds no '.', '/' or '\' |
| UploadNames.DotThenLowerAlnum | backend/main.go:857 | A dot followed by lower-case letters and digits holds no second dot and no '/' |
| UploadNames.VideoExtShape | backend/main.go:851-857 | The lower-cased extension of an accepted name is a dot and lower-case letters and digits, and is already lower case |
| UploadNames.GeneratedNameIsServable | backend/main.go:857-858 | A generated name keeps the client's video extension, passes isVideoFile and the traversal guard, and is neither empty nor "." |
| VideoStore.HeadersFor | backend/main.go:705-715 | The media headers always carry a `video/` type |
| VideoStore.FaultFreePartialIsExact | backend/main.go:729-799 | Without read or write errors, a 206 carries exactly `file[start..end+1]`, which is Content-Length bytes |
| VideoStore.AnswerRange | backend/main.go:747-799 | Malformed gives 400, unsatisfiable gives 416 with its Content-Range, and satisfiable gives a 206 whose headers, length and body are as specified |
| VideoStore.ServeFile | backend/main.go:719-799 | Without a Range header the whole file is handed on with its length; otherwise the answer is as the range decision says |
| VideoStore.VideoDir.constructor | backend/main.go:665 | The video directory holds plain names only |
| VideoStore.VideoDir.StoredNameFound | backend/main.go:665-668 | In a directory of plain names, the stat of a stored name finds that entry, never the directory itself |
| VideoStore.VideoDir.Serve | backend/main.go:636-799 | OPTIONS gives the preflight and other methods except GET give 405; a GET answers the first failing check, 500 when the open fails, and otherwise serves the file; the directory is unchanged |
| VideoStore.VideoDir.ReceiveInto | backend/main.go:862-912 | The file grows read by read into the outcome Drain gives; on success it holds exactly the stored bytes, on any failure it is removed, and no other file changes |
| VideoStore.VideoDir.Upload | backend/main.go:803-925 | 405 and 400 leave the directory unchanged; a failed create gives 500 with no change; otherwise the new name holds the stored bytes and is reported with its size, or it is removed and the failure status returned |
| VideoStore.VideoDir.Delete | backend/main.go:929-990 | 405 for another method; the first failing check's status with no change; 500 with no change when removal fails; otherwise 200 and only the named file is gone |
| VideoStore.UploadedFilePassesChecks | backend/main.go:857-858 | In the directory an upload leaves, the stored file passes every check the serve and delete handlers make |
| CsvImport.DataStart | backend/main.go:291-301 | `startIndex` lies within the records (what it marks is CsvImport.DataStartMeans) |
| CsvImport.FindDataStart | backend/main.go:291-301 | The header search loop returns one past the first header row, or 0 |
| CsvImport.DataStartIsFirstHeader | backend/main.go:291-301 | With no header before i, the data starts at i + 1 if record i is a header, and at 0 if there is no header at all |
| CsvImport.DataStartMeans | backend/main.go:291-301 | The record just before the data start is the first header row; a data start of 0 means there is no header row |
| CsvImport.IsNumericMeans | backend/main.go:363-370 | `isNumeric` accepts exactly an optional sign followed by decimal digits whose value fits in 64 bits, a bound the source's comment does not mention |
| CsvImport.ToRow | backend/main.go:316-332 | The row's name is the trimmed, non-empty second field and its id is what Atoi reads from the trimmed first field |
| CsvImport.Selected | backend/main.go:309-345 | No more rows than records |
| CsvImport.ReadRecord | backend/main.go:311-332 | A record yields a row exactly when it is importable, and the row is its trimmed id and name; the Atoi error branch cannot be reached |
| CsvImport.ImportRecords | backend/main.go:285-345 | An empty file is refused; otherwise the rows inserted are exactly the selected rows after the header, in order, and `inserted` is their number |
| CsvImport.SelectedAppend | backend/main.go:309-345 | Selection works record by record: it distributes over concatenation |
| CsvImport.SelectedRowsWellFormed | backend/main.go:316-332 | Every inserted row has a non-empty, trimmed name and an id in the 64-bit range |
| CsvImport.AllImportableAllSelected | backend/main.go:309-345 | When every record is importable, each yields its own row, in place |
| CsvImport.RowsExtend | backend/main.go:309-345 | The row-for-record correspondence carries over to one more importable record |
| CsvImport.NoneImportableNoneSelected | backend/main.go:309-345 | Records without a numeric id and a name yield no rows |
| CsvImport.NoHeaderReadsEverything | backend/main.go:291-301 | Without a header row the data starts at the first record |
| CsvImport.HeaderIsNotImportable | backend/main.go:294-326 | A header row is never imported, since "id" is not a number |
| MailWrap.LinesShape | backend/main.go:508-515 | The lines are 76 characters each except a shorter last one, there are none for empty text, and together they are the text |
| MailWrap.WrapBase64 | backend/main.go:508-515 | The loop appends exactly the wrapped text to the message |
| MailWrap.WrappedStep | backend/main.go:509-515 | One turn writes the next line and its CRLF and leaves the rest |
| MailWrap.Strip | backend/main.go:508-515 | The reference reader, which drops CR and LF, is never longer than its input and holds neither |
| MailWrap.UnwrapRestores | backend/main.go:508-515 | Dropping the line breaks from the wrapped text gives back the encoded text |
| MailWrap.WrappedLength | backend/main.go:508-515 | There are ceil(n / 76) lines, and the wrapped text is 2 characters longer per line |
| MailWrap.WrappedEndsWithBreak | backend/main.go:508-515 | A non-empty wrapped text ends with CRLF |

## Left out

- The whole-file answer goes through `http.ServeContent` (backend/main.go:722-726), which has its own conditional-request and range handling. The model records only that answer's headers and its Content-Length.
- The multipart part discovery (backend/main.go:812-842) is not modelled. The upload starts from the `video` part's file name and its reads. `Part.FileName()` is taken as given.
- The clock (`time.Now().Unix()`) and the random generator's draws are parameters of the upload.
- Failures of `os.Stat`, `os.Open`, `os.Create`, `os.Remove` and writes are boolean or round-number parameters. The `os.Stat` flag stands for an error other than "does not exist", for an existing or a missing name alike; which names provoke one (too long, holding a NUL byte, unreadable) is not modelled. A partial write before a write error is not modelled: the failing round sends nothing.
- An `os.File` read is modelled as returning everything that is asked for and available. A short read before the end of the file is not modelled.
- The `Seek` failure (backend/main.go:766-770) is not a separate case. It ends the 206 with an empty body, the same as a read fault in round 0.
- Errors of `os.Remove` after a failed upload are ignored by the code. The model removes the file.
- The database (the transaction, the `INSERT` and its errors, the commit), `encoding/csv` parsing, `base64.StdEncoding`, MIME and SMTP are not modelled. The CSV import starts from parsed records and ends with the rows to insert. The line wrapping starts from the encoded text.
- The `utf8.ValidString` check (backend/main.go:334-337) is not modelled. `encoding/csv` passes invalid UTF-8 through, and the code then aborts the whole import with 400; strings here are sequences of code points, so the model has no such input and no such abort.
- CORS and caching headers, `Accept-Ranges`, log output, progress logging and the message texts are not modelled. Answers are status codes and the headers that carry data.
- `listVideosHandler`, user CRUD, CSV export, the scheduler, static file serving and the frontend are outside the modelled handlers.
- RangeCopy.CopyRange: its contract is the chunk sequence itself. What that sequence carries and how it is shaped are the lemmas `RangeCopy.ChunksSent`, `RangeCopy.ChunksShaped` and `RangeCopy.FaultFreeSendsRange`, which its caller `VideoStore.AnswerRange` invokes.
- GoStrings.ToLowerChar: only ASCII capitals and the two code points whose lower case is ASCII (U+0130 and U+212A) are changed. Other non-ASCII characters are kept, which cannot change membership in the all-ASCII extension tables.
- GoStrings.Ext: follows `filepath.Ext` on Linux, where '/' is the only separator.
- GoStrconv.Atoi: assumes a 64-bit `int`.

## Findings

| source | as written | input that shows it | evidently intended | confidence | as-written member | corrected member |
|---|---|---|---|---|---|---|
| backend/main.go:737-739 | `if end == 0 \|\| end >= fileSize { end = fileSize - 1 }` takes an explicit end of 0 for "no end given" | `Range: bytes=0-0` on a file of 2 bytes or more: a 206 carrying the whole file, with `Content-Length` equal to its size, instead of the first byte | Replace the end only when it is missing or past the file, so that `bytes=0-0` is the first byte (section 2.1 of RFC 7233) | not executed | ByteRanges.FirstByteRangeServesWholeFile | ByteRanges.IntendedExplicitRange |

The corrected reading is `ByteRanges.ParseRangeIntended`. `ByteRanges.IntendedDiffersExactlyOnZeroEnd` proves that it differs from the code exactly where a written end reads as 0 (a literal 0, or an end with a syntax error), on a file of two bytes or more. The handler model (`VideoStore`) keeps the code's reading through `ByteRanges.Decide`, so that its contracts describe the service as it behaves.
