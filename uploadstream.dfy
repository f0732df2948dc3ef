/** What the streaming copy of uploadVideoHandler stores. The uploaded part
    is read into a 32 KiB buffer; every non-empty read first adds its size
    to a running total, which must not pass 2 << 30 bytes, and is then
    written to the destination file. A read reports its bytes together with
    "more to come", end of stream, or an error. This module states the
    outcome as a function of the reads; the loop itself, which changes the
    file system, is `VideoStore.VideoDir.ReceiveInto`. */
module UploadStream {
  import opened Basics

  const UploadBufferSize: nat := 32 * 1024

  /** `2 << 30`: two gibibytes. */
  const MaxUploadBytes: nat := 2147483648

  datatype ReadStatus = More | Eof | ReadFault

  /** One `Read` of the part: the bytes it put in the buffer and its error. */
  datatype ReadStep = ReadStep(data: seq<Byte>, status: ReadStatus)

  datatype UploadOutcome =
    | Stored(data: seq<Byte>, size: int)   // the file as written, and `totalBytes`
    | TooLarge                             // 400, file removed
    | WriteFailed                          // 500, file removed
    | ReadFailed                           // 500, file removed

  /** The status the handler answers a failed copy with. */
  function FailureStatus(o: UploadOutcome): (code: int)
    requires !o.Stored?
    ensures code == (if o.TooLarge? then 400 else 500)
  {
    match o
    case TooLarge => 400
    case WriteFailed => 500
    case ReadFailed => 500
  }

  /** The outcome of the copy from read `i` on, `written` being what is in
      the file so far. A reader that has nothing left reports end of stream
      with no bytes; `writeFailsAt` names the read whose write fails. */
  function Drain(steps: seq<ReadStep>, writeFailsAt: Option<nat>, i: nat, written: seq<Byte>): (o: UploadOutcome)
    requires i <= |steps|
    requires |written| <= MaxUploadBytes
    ensures o.Stored? ==> o.size == |o.data| <= MaxUploadBytes && written <= o.data
    decreases |steps| - i
  {
    if i == |steps| then Stored(written, |written|)
    else
      var step := steps[i];
      var total := |written| + |step.data|;
      if |step.data| > 0 && total > MaxUploadBytes then TooLarge
      else if |step.data| > 0 && writeFailsAt == Some(i) then WriteFailed
      else if step.status == Eof then Stored(written + step.data, total)
      else if step.status == ReadFault then ReadFailed
      else Drain(steps, writeFailsAt, i + 1, written + step.data)
  }

  /** One past the read that ends the stream (end of stream or error), or
      the number of reads if none does: the reads the copy can get to. */
  function Consumed(steps: seq<ReadStep>, i: nat): (j: nat)
    requires i <= |steps|
    ensures i <= j <= |steps|
    ensures forall k :: i <= k < j - 1 ==> steps[k].status == More
    ensures j < |steps| ==> j > i && steps[j - 1].status != More
    decreases |steps| - i
  {
    if i == |steps| then |steps|
    else if steps[i].status != More then i + 1
    else Consumed(steps, i + 1)
  }

  /** The bytes of reads `i` to `j - 1`, in order. */
  function Payload(steps: seq<ReadStep>, i: nat, j: nat): (p: seq<Byte>)
    requires i <= j <= |steps|
    decreases j - i
  {
    if i == j then [] else steps[i].data + Payload(steps, i + 1, j)
  }

  /** A read error before the end of stream among the reads the copy gets to. */
  predicate ReadsFail(steps: seq<ReadStep>, i: nat)
    requires i <= |steps|
  {
    var j := Consumed(steps, i);
    j > i && steps[j - 1].status == ReadFault
  }

  /** A stored upload is exactly the concatenation of what was read, up to
      and including the read that reported the end of the stream. */
  lemma {:induction false} StoredIsPayload(steps: seq<ReadStep>, writeFailsAt: Option<nat>, i: nat, written: seq<Byte>)
    requires i <= |steps| && |written| <= MaxUploadBytes
    requires Drain(steps, writeFailsAt, i, written).Stored?
    ensures Drain(steps, writeFailsAt, i, written).data == written + Payload(steps, i, Consumed(steps, i))
    ensures !ReadsFail(steps, i)
    decreases |steps| - i
  {
    if i < |steps| {
      var step := steps[i];
      if step.status == More {
        StoredIsPayload(steps, writeFailsAt, i + 1, written + step.data);
        assert written + step.data + Payload(steps, i + 1, Consumed(steps, i + 1))
          == written + (step.data + Payload(steps, i + 1, Consumed(steps, i + 1)));
      } else {
        assert Payload(steps, i + 1, i + 1) == [];
        assert step.data + [] == step.data;
      }
    }
  }

  /** Conversely, with no write error and no read error, a stream whose
      bytes fit under the ceiling is stored in full. */
  lemma {:induction false} PayloadIsStored(steps: seq<ReadStep>, i: nat, written: seq<Byte>)
    requires i <= |steps|
    requires !ReadsFail(steps, i)
    requires |written| + |Payload(steps, i, Consumed(steps, i))| <= MaxUploadBytes
    ensures var all := written + Payload(steps, i, Consumed(steps, i));
      Drain(steps, None, i, written) == Stored(all, |all|)
    decreases |steps| - i
  {
    if i < |steps| {
      var step := steps[i];
      if step.status == More {
        assert Payload(steps, i, Consumed(steps, i)) == step.data + Payload(steps, i + 1, Consumed(steps, i + 1));
        PayloadIsStored(steps, i + 1, written + step.data);
        assert written + step.data + Payload(steps, i + 1, Consumed(steps, i + 1))
          == written + (step.data + Payload(steps, i + 1, Consumed(steps, i + 1)));
      } else {
        assert Payload(steps, i, i + 1) == step.data + Payload(steps, i + 1, i + 1);
        assert step.data + [] == step.data;
      }
    }
  }

  /** A stored upload met no write error: a read whose write fails is
      either beyond the end of the stream or empty (nothing is written). */
  lemma {:induction false} StoredHadNoWriteFault(steps: seq<ReadStep>, k: nat, i: nat, written: seq<Byte>)
    requires i <= |steps| && |written| <= MaxUploadBytes
    requires Drain(steps, Some(k), i, written).Stored?
    requires i <= k < Consumed(steps, i)
    ensures |steps[k].data| == 0
    decreases |steps| - i
  {
    if i < k {
      StoredHadNoWriteFault(steps, k, i + 1, written + steps[i].data);
    }
  }

  /** A write error on a non-empty read the copy gets to fails the upload,
      provided the bytes up to and including that read fit under the
      ceiling (otherwise the ceiling is met first), whatever the reads
      after it. */
  lemma {:induction false} WriteFaultFails(steps: seq<ReadStep>, k: nat, i: nat, written: seq<Byte>)
    requires i <= |steps| && i <= k < Consumed(steps, i)
    requires |steps[k].data| > 0
    requires |written| + |Payload(steps, i, k + 1)| <= MaxUploadBytes
    ensures Drain(steps, Some(k), i, written) == WriteFailed
    decreases |steps| - i
  {
    var step := steps[i];
    assert Payload(steps, i, k + 1) == step.data + Payload(steps, i + 1, k + 1);
    if i < k {
      assert step.status == More;
      WriteFaultFails(steps, k, i + 1, written + step.data);
    }
  }

  /** With no write error, a stream that ends in a read error and whose
      bytes fit under the ceiling fails as a read failure (500), not as too
      large (400), and is not stored. */
  lemma {:induction false} ReadFaultFails(steps: seq<ReadStep>, i: nat, written: seq<Byte>)
    requires i <= |steps|
    requires ReadsFail(steps, i)
    requires |written| + |Payload(steps, i, Consumed(steps, i))| <= MaxUploadBytes
    ensures Drain(steps, None, i, written) == ReadFailed
    decreases |steps| - i
  {
    var step := steps[i];
    if step.status == More {
      assert Payload(steps, i, Consumed(steps, i)) == step.data + Payload(steps, i + 1, Consumed(steps, i + 1));
      ReadFaultFails(steps, i + 1, written + step.data);
    } else {
      assert Payload(steps, i, i + 1) == step.data + Payload(steps, i + 1, i + 1);
    }
  }

  /** With no write error, a stream whose bytes pass the ceiling is refused
      as too large, whatever else happens: the total is checked before the
      write, and before the read's own error is looked at. */
  lemma {:induction false} OversizeRefused(steps: seq<ReadStep>, i: nat, written: seq<Byte>)
    requires i <= |steps| && |written| <= MaxUploadBytes
    requires |written| + |Payload(steps, i, Consumed(steps, i))| > MaxUploadBytes
    ensures Drain(steps, None, i, written) == TooLarge
    decreases |steps| - i
  {
    if i < |steps| {
      var step := steps[i];
      if step.status == More {
        assert Payload(steps, i, Consumed(steps, i)) == step.data + Payload(steps, i + 1, Consumed(steps, i + 1));
        if |written| + |step.data| <= MaxUploadBytes {
          OversizeRefused(steps, i + 1, written + step.data);
        }
      } else {
        assert Payload(steps, i, i + 1) == step.data + Payload(steps, i + 1, i + 1);
      }
    }
  }
}
