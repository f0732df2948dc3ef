/** The body of a 206 answer: serveVideoHandler seeks to `start` and copies
    `contentLength` bytes in chunks of at most 64 KiB, counting down a
    `remaining` counter, and stops early on a read error, an empty read or
    a write error. The file is the byte sequence it holds; the answer body
    is the sequence of chunks handed to the response writer. */
module RangeCopy {
  import opened Basics

  /** The size of the copy buffer, 64 KiB. Where it multiplies a number
      of rounds it is written out as 65536, which keeps that arithmetic
      linear for the solver. */
  const ChunkSize: int := 64 * 1024

  /** How many bytes the copy delivers. Without faults it is the requested
      length, cut at the end of the file. Each copy round that completes
      delivers a full chunk unless it reaches the end of the range or of the
      file, so a fault in round `k` (counting from 0) leaves `k` chunks'
      worth. */
  function Delivered(fileLen: int, start: int, contentLength: int, fault: Option<nat>): (d: int)
    ensures 0 <= d
    ensures contentLength >= 0 ==> d <= contentLength
    ensures start <= fileLen ==> d <= fileLen - start
    ensures fault.Some? ==> d <= fault.value * 65536
    ensures fault.None? && contentLength >= 0 && start + contentLength <= fileLen ==> d == contentLength
  {
    var avail := if start >= fileLen || contentLength <= 0 then 0 else Min(contentLength, fileLen - start);
    match fault
    case None => avail
    case Some(k) => Min(avail, k * 65536)
  }

  /** The first round in which either a read or a write fails. */
  function FirstFault(readFailsAt: Option<nat>, writeFailsAt: Option<nat>): (f: Option<nat>)
    ensures f.None? <==> readFailsAt.None? && writeFailsAt.None?
    ensures f.Some? ==> f == readFailsAt || f == writeFailsAt
    ensures f.Some? && readFailsAt.Some? ==> f.value <= readFailsAt.value
    ensures f.Some? && writeFailsAt.Some? ==> f.value <= writeFailsAt.value
  {
    match (readFailsAt, writeFailsAt)
    case (None, _) => writeFailsAt
    case (_, None) => readFailsAt
    case (Some(r), Some(w)) => Some(Min(r, w))
  }

  /** The loop stops either with everything available delivered or in the
      first faulty round; either way it has delivered what Delivered says. */
  lemma StopsAsDelivered(fileLen: int, start: int, contentLength: int, fault: Option<nat>,
                         copied: int, round: nat)
    requires copied == Min(Delivered(fileLen, start, contentLength, None), round * 65536)
    requires fault.None? || round <= fault.value
    requires copied == Delivered(fileLen, start, contentLength, None) || fault == Some(round)
    ensures copied == Delivered(fileLen, start, contentLength, fault)
  {
  }

  /** How far the loop has got after `round` rounds: `pos - start` bytes
      copied, `Min(avail, round * ChunkSize)` of them, none past the end of
      the file. */
  predicate Progress(file: seq<Byte>, start: int, avail: int, pos: int, round: nat)
  {
    0 <= start <= pos <= |file| && pos - start == Min(avail, round * 65536)
  }

  /** A round that writes `n > 0` bytes keeps the count of copied bytes at
      `Min(avail, rounds * ChunkSize)`. */
  lemma RoundAdvances(fileLen: int, start: int, contentLength: int, copied: int, round: nat, n: int)
    requires 0 <= start <= fileLen && 0 <= copied && start + copied <= fileLen
    requires copied == Min(Delivered(fileLen, start, contentLength, None), round * 65536)
    requires contentLength - copied > 0
    requires n == Min(Min(ChunkSize, contentLength - copied), fileLen - start - copied) && n > 0
    ensures copied + n == Min(Delivered(fileLen, start, contentLength, None), (round + 1) * 65536)
  {
  }

  /** What an os.File read at `pos` returns for a request of
      `Min(ChunkSize, remaining)` bytes: that many, or what is left before
      the end of the file, or nothing at the end. */
  function ReadSize(file: seq<Byte>, pos: int, remaining: int): (n: int)
    requires 0 <= pos
    ensures 0 <= n <= ChunkSize
    ensures n > 0 ==> pos + n <= |file| && n <= remaining
    ensures n == 0 <==> remaining <= 0 || pos >= |file|
  {
    if pos >= |file| || remaining <= 0 then 0 else Min(Min(ChunkSize, remaining), |file| - pos)
  }

  /** One copy round that writes `n > 0` bytes keeps Progress. */
  lemma ProgressStep(file: seq<Byte>, start: int, contentLength: int, pos: int, round: nat, n: int)
    requires Progress(file, start, Delivered(|file|, start, contentLength, None), pos, round)
    requires n == ReadSize(file, pos, contentLength - (pos - start)) && n > 0
    ensures Progress(file, start, Delivered(|file|, start, contentLength, None), pos + n, round + 1)
  {
    RoundAdvances(|file|, start, contentLength, pos - start, round, n);
  }

  /** A read or write failing in a round no later than the first fault is
      the first fault. */
  lemma FaultStops(readFailsAt: Option<nat>, writeFailsAt: Option<nat>, round: nat)
    requires readFailsAt == Some(round) || writeFailsAt == Some(round)
    requires var f := FirstFault(readFailsAt, writeFailsAt); f.None? || round <= f.value
    ensures FirstFault(readFailsAt, writeFailsAt) == Some(round)
  {
  }

  /** A read or write that does not fail in a round before the first
      fault leaves the first fault still ahead. */
  lemma FaultLater(readFailsAt: Option<nat>, writeFailsAt: Option<nat>, round: nat)
    requires readFailsAt != Some(round) && writeFailsAt != Some(round)
    requires var f := FirstFault(readFailsAt, writeFailsAt); f.None? || round <= f.value
    ensures var f := FirstFault(readFailsAt, writeFailsAt); f.None? || round + 1 <= f.value
  {
  }

  /** The loop ends in this round: the range is used up, the read fails,
      the read is empty or the write fails. */
  predicate Stopped(file: seq<Byte>, pos: int, remaining: int, round: nat,
                    readFailsAt: Option<nat>, writeFailsAt: Option<nat>)
    requires 0 <= pos
  {
    remaining <= 0 || readFailsAt == Some(round) || ReadSize(file, pos, remaining) == 0
    || writeFailsAt == Some(round)
  }

  /** The chunks the copy loop sends for the range of `contentLength`
      bytes from `start`, from offset `pos` and round `round` on (so
      `contentLength - (pos - start)` bytes are still wanted);
      `readFailsAt` and `writeFailsAt` name the round whose read or write
      fails. */
  function Chunks(file: seq<Byte>, start: int, contentLength: int, pos: int, round: nat,
                  readFailsAt: Option<nat>, writeFailsAt: Option<nat>): seq<seq<Byte>>
    requires 0 <= pos
    decreases contentLength - (pos - start)
  {
    var remaining := contentLength - (pos - start);
    if Stopped(file, pos, remaining, round, readFailsAt, writeFailsAt) then []
    else
      var n := ReadSize(file, pos, remaining);
      [file[pos..pos + n]] + Chunks(file, start, contentLength, pos + n, round + 1, readFailsAt, writeFailsAt)
  }

  /** A round that does not stop sends one chunk, then the later rounds'. */
  lemma ChunksStep(file: seq<Byte>, start: int, contentLength: int, pos: int, round: nat,
                   readFailsAt: Option<nat>, writeFailsAt: Option<nat>)
    requires 0 <= pos
    requires !Stopped(file, pos, contentLength - (pos - start), round, readFailsAt, writeFailsAt)
    ensures var n := ReadSize(file, pos, contentLength - (pos - start));
      Chunks(file, start, contentLength, pos, round, readFailsAt, writeFailsAt)
      == [file[pos..pos + n]] + Chunks(file, start, contentLength, pos + n, round + 1, readFailsAt, writeFailsAt)
  {
  }

  /** The shape of an answer body: non-empty chunks of at most 64 KiB, all
      a full 64 KiB except possibly the last. */
  predicate ChunkShaped(body: seq<seq<Byte>>)
  {
    && (forall i :: 0 <= i < |body| ==> 0 < |body[i]| <= ChunkSize)
    && (forall i :: 0 <= i < |body| - 1 ==> |body[i]| == ChunkSize)
  }

  /** The loop's chunks have that shape: a short read ends the range or
      the file, so nothing follows it. */
  lemma {:induction false} ChunksShaped(file: seq<Byte>, start: int, contentLength: int, pos: int, round: nat,
                                        readFailsAt: Option<nat>, writeFailsAt: Option<nat>)
    requires 0 <= pos
    ensures ChunkShaped(Chunks(file, start, contentLength, pos, round, readFailsAt, writeFailsAt))
    decreases contentLength - (pos - start)
  {
    var remaining := contentLength - (pos - start);
    if !Stopped(file, pos, remaining, round, readFailsAt, writeFailsAt) {
      var n := ReadSize(file, pos, remaining);
      var next := Chunks(file, start, contentLength, pos + n, round + 1, readFailsAt, writeFailsAt);
      ChunksShaped(file, start, contentLength, pos + n, round + 1, readFailsAt, writeFailsAt);
      if n < ChunkSize {
        assert ReadSize(file, pos + n, contentLength - (pos + n - start)) == 0;
        assert next == [];
      }
      ChunksStep(file, start, contentLength, pos, round, readFailsAt, writeFailsAt);
      ChunkShapedCons(file[pos..pos + n], next);
    }
  }

  /** A full chunk, or a short one with nothing after it, in front of a
      shaped body keeps the shape. */
  lemma ChunkShapedCons(chunk: seq<Byte>, next: seq<seq<Byte>>)
    requires 0 < |chunk| <= ChunkSize && ChunkShaped(next)
    requires |chunk| < ChunkSize ==> next == []
    ensures ChunkShaped([chunk] + next)
  {
    var body := [chunk] + next;
    assert forall i :: 1 <= i < |body| ==> body[i] == next[i - 1];
  }

  /** What a whole answer body carries: the file's bytes from `start` on,
      as many as Delivered says. */
  ghost predicate Sends(file: seq<Byte>, start: int, contentLength: int, fault: Option<nat>, body: seq<seq<Byte>>)
  {
    var d := Delivered(|file|, start, contentLength, fault);
    0 <= start && start + d <= |file| && Flatten(body) == file[start..start + d]
  }

  /** In a round where the loop stops either everything available was
      copied (the range is used up, or the read is empty at the end of
      the file) or this is the first fault; either way the bytes copied
      are what Delivered says. */
  lemma StopsHere(file: seq<Byte>, start: int, contentLength: int,
                  readFailsAt: Option<nat>, writeFailsAt: Option<nat>, pos: int, round: nat)
    requires Progress(file, start, Delivered(|file|, start, contentLength, None), pos, round)
    requires var f := FirstFault(readFailsAt, writeFailsAt); f.None? || round <= f.value
    requires Stopped(file, pos, contentLength - (pos - start), round, readFailsAt, writeFailsAt)
    ensures pos - start == Delivered(|file|, start, contentLength, FirstFault(readFailsAt, writeFailsAt))
  {
    var remaining := contentLength - (pos - start);
    var fault := FirstFault(readFailsAt, writeFailsAt);
    if remaining > 0 && pos < |file| {
      FaultStops(readFailsAt, writeFailsAt, round);
    }
    StopsAsDelivered(|file|, start, contentLength, fault, pos - start, round);
  }

  /** The bytes the rounds from `pos` on send: the file's bytes from `pos`
      up to what Delivered says. */
  ghost predicate SendsFrom(file: seq<Byte>, start: int, contentLength: int,
                            readFailsAt: Option<nat>, writeFailsAt: Option<nat>, pos: int, round: nat)
    requires 0 <= pos
  {
    var d := Delivered(|file|, start, contentLength, FirstFault(readFailsAt, writeFailsAt));
    pos <= start + d <= |file|
    && Flatten(Chunks(file, start, contentLength, pos, round, readFailsAt, writeFailsAt)) == file[pos..start + d]
  }

  /** A round where the loop stops sends nothing more, and the bytes
      copied so far are all Delivered allows. */
  lemma SendsFromStop(file: seq<Byte>, start: int, contentLength: int,
                      readFailsAt: Option<nat>, writeFailsAt: Option<nat>, pos: int, round: nat)
    requires Progress(file, start, Delivered(|file|, start, contentLength, None), pos, round)
    requires var f := FirstFault(readFailsAt, writeFailsAt); f.None? || round <= f.value
    requires Stopped(file, pos, contentLength - (pos - start), round, readFailsAt, writeFailsAt)
    ensures SendsFrom(file, start, contentLength, readFailsAt, writeFailsAt, pos, round)
  {
    StopsHere(file, start, contentLength, readFailsAt, writeFailsAt, pos, round);
    assert Chunks(file, start, contentLength, pos, round, readFailsAt, writeFailsAt) == [];
    assert file[pos..pos] == [];
  }

  /** A round that copies `n` bytes puts them in front of what the later
      rounds send. */
  lemma SendsFromStep(file: seq<Byte>, start: int, contentLength: int,
                      readFailsAt: Option<nat>, writeFailsAt: Option<nat>, pos: int, round: nat)
    requires 0 <= pos
    requires !Stopped(file, pos, contentLength - (pos - start), round, readFailsAt, writeFailsAt)
    requires var n := ReadSize(file, pos, contentLength - (pos - start));
      SendsFrom(file, start, contentLength, readFailsAt, writeFailsAt, pos + n, round + 1)
    ensures SendsFrom(file, start, contentLength, readFailsAt, writeFailsAt, pos, round)
  {
    var d := Delivered(|file|, start, contentLength, FirstFault(readFailsAt, writeFailsAt));
    var n := ReadSize(file, pos, contentLength - (pos - start));
    ChunksStep(file, start, contentLength, pos, round, readFailsAt, writeFailsAt);
    FlattenFront(file, pos, pos + n, start + d,
                 Chunks(file, start, contentLength, pos + n, round + 1, readFailsAt, writeFailsAt));
  }

  /** From any point the loop can reach, the chunks of the remaining rounds
      are the file's bytes from `pos` up to what Delivered says. */
  lemma {:induction false} ChunksComplete(file: seq<Byte>, start: int, contentLength: int,
                                          readFailsAt: Option<nat>, writeFailsAt: Option<nat>,
                                          pos: int, round: nat)
    requires Progress(file, start, Delivered(|file|, start, contentLength, None), pos, round)
    requires var f := FirstFault(readFailsAt, writeFailsAt); f.None? || round <= f.value
    ensures SendsFrom(file, start, contentLength, readFailsAt, writeFailsAt, pos, round)
    decreases contentLength - (pos - start)
  {
    if Stopped(file, pos, contentLength - (pos - start), round, readFailsAt, writeFailsAt) {
      SendsFromStop(file, start, contentLength, readFailsAt, writeFailsAt, pos, round);
    } else {
      var n := ReadSize(file, pos, contentLength - (pos - start));
      ProgressStep(file, start, contentLength, pos, round, n);
      FaultLater(readFailsAt, writeFailsAt, round);
      ChunksComplete(file, start, contentLength, readFailsAt, writeFailsAt, pos + n, round + 1);
      SendsFromStep(file, start, contentLength, readFailsAt, writeFailsAt, pos, round);
    }
  }

  /** The body the loop sends for a whole request is what Sends says, and
      has the chunk shape. */
  lemma ChunksSent(file: seq<Byte>, start: int, contentLength: int,
                   readFailsAt: Option<nat>, writeFailsAt: Option<nat>)
    requires 0 <= start <= |file|
    ensures var body := Chunks(file, start, contentLength, start, 0, readFailsAt, writeFailsAt);
      Sends(file, start, contentLength, FirstFault(readFailsAt, writeFailsAt), body) && ChunkShaped(body)
  {
    ChunksComplete(file, start, contentLength, readFailsAt, writeFailsAt, start, 0);
    ChunksShaped(file, start, contentLength, start, 0, readFailsAt, writeFailsAt);
  }

  /** Without faults the body is the whole requested interval when the
      file holds it. */
  lemma FaultFreeSendsRange(file: seq<Byte>, start: int, contentLength: int, body: seq<seq<Byte>>)
    requires Sends(file, start, contentLength, None, body)
    requires 0 <= contentLength && start + contentLength <= |file|
    ensures Flatten(body) == file[start..start + contentLength]
  {
  }

  /** The copy loop of serveVideoHandler: it sends the chunks Chunks
      describes, whose shape and bytes ChunksSent and FaultFreeSendsRange
      state. */
  method CopyRange(file: seq<Byte>, start: int, contentLength: int,
                   readFailsAt: Option<nat>, writeFailsAt: Option<nat>)
      returns (sent: seq<seq<Byte>>)
    requires 0 <= start
    ensures sent == Chunks(file, start, contentLength, start, 0, readFailsAt, writeFailsAt)
  {
    ghost var total := Chunks(file, start, contentLength, start, 0, readFailsAt, writeFailsAt);
    sent := [];
    var remaining := contentLength;
    var pos := start;
    var round := 0;
    while remaining > 0
      invariant 0 <= pos && remaining == contentLength - (pos - start)
      invariant contentLength >= 0 ==> remaining >= 0
      invariant sent + Chunks(file, start, contentLength, pos, round, readFailsAt, writeFailsAt) == total
      decreases remaining
    {
      var chunk := ChunkSize;
      if chunk > remaining {
        chunk := remaining;
      }
      if readFailsAt == Some(round) {
        break;
      }
      var n := if pos >= |file| then 0 else Min(chunk, |file| - pos);
      assert n == ReadSize(file, pos, remaining);
      if n == 0 {
        break;
      }
      if writeFailsAt == Some(round) {
        break;
      }
      ChunksStep(file, start, contentLength, pos, round, readFailsAt, writeFailsAt);
      AppendAssoc(sent, [file[pos..pos + n]], Chunks(file, start, contentLength, pos + n, round + 1, readFailsAt, writeFailsAt));
      sent := sent + [file[pos..pos + n]];
      remaining := remaining - n;
      pos := pos + n;
      round := round + 1;
    }
    assert Stopped(file, pos, remaining, round, readFailsAt, writeFailsAt);
    assert Chunks(file, start, contentLength, pos, round, readFailsAt, writeFailsAt) == [];
    assert sent + [] == sent;
  }
}
