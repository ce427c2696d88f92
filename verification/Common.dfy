/** Bytes, machine words, memory and result codes shared by every component. */
module Common {

  newtype byte = x: int | 0 <= x < 256
  newtype uint32 = x: int | 0 <= x < 0x1_0000_0000

  type bytes = seq<byte>

  datatype Option<+T> = None | Some(value: T)

  /** The result codes the modelled functions return. `CoreError` stands for any code that
      `AzureIoT_TranslateCoreError` yields for a failed SDK call. */
  datatype AzureResult =
    | Success
    | ErrorFailed
    | ErrorInvalidArgument
    | ErrorPending
    | ErrorOutOfMemory
    | ErrorSubackWaitTimeout
    | ErrorTopicNotSubscribed
    | ErrorPublishFailed
    | ErrorSubscribeFailed
    | ErrorUnsubscribeFailed
    | ErrorServerError
    | ErrorTokenGenerationFailed
    | ErrorInvalidResponse
    | CoreError(code: nat)

  /** A pointer and a length: the bytes at `[at, at + len)` of some buffer. */
  datatype Span = Span(at: nat, len: nat)

  /** The outcome of an SDK call that writes into a region it is given: `written` bytes land at the
      start of the region, also when the call fails. */
  datatype Output = Output(ok: bool, written: bytes)

  function Cut(text: bytes, s: Span): (r: bytes)
    requires s.at + s.len <= |text|
    ensures |r| == s.len
  {
    text[s.at..s.at + s.len]
  }

  function Offset(s: Span, base: nat): Span { Span(base + s.at, s.len) }

  /** A slice of a slice. */
  lemma SubCut(mem: bytes, outer: Span, inner: Span)
    requires outer.at + outer.len <= |mem| && inner.at + inner.len <= outer.len
    ensures Cut(mem, Offset(inner, outer.at)) == Cut(Cut(mem, outer), inner)
  {
    var a, b := Cut(mem, Offset(inner, outer.at)), Cut(Cut(mem, outer), inner);
    forall i | 0 <= i < inner.len ensures a[i] == b[i] {
      assert a[i] == mem[outer.at + inner.at + i];
      assert b[i] == Cut(mem, outer)[inner.at + i];
    }
  }

  predicate Apart(a: Span, b: Span) { a.at + a.len <= b.at || b.at + b.len <= a.at }

  /** The memory `mem` after `data` has been copied to offset `at`. */
  function Write(mem: bytes, at: nat, data: bytes): (r: bytes)
    requires at + |data| <= |mem|
    ensures |r| == |mem|
  {
    seq(|mem|, i requires 0 <= i < |mem| => if at <= i < at + |data| then data[i - at] else mem[i])
  }

  lemma ReadBack(mem: bytes, at: nat, data: bytes)
    requires at + |data| <= |mem|
    ensures Write(mem, at, data)[at..at + |data|] == data
  {
  }

  lemma ReadElsewhere(mem: bytes, at: nat, data: bytes, lo: nat, hi: nat)
    requires at + |data| <= |mem| && lo <= hi <= |mem|
    requires hi <= at || at + |data| <= lo
    ensures Write(mem, at, data)[lo..hi] == mem[lo..hi]
  {
    var r := Write(mem, at, data);
    forall i | lo <= i < hi ensures r[i] == mem[i] {
    }
  }

  /** A read that starts where the write starts sees the data and then what was there before. */
  lemma ReadThrough(mem: bytes, at: nat, data: bytes, hi: nat)
    requires at + |data| <= hi <= |mem|
    ensures Write(mem, at, data)[at..hi] == data + mem[at + |data|..hi]
  {
  }

  /** A slice keeps its bytes while a region apart from it is written. */
  lemma CutKept(mem: bytes, at: nat, data: bytes, s: Span)
    requires at + |data| <= |mem| && s.at + s.len <= |mem| && Apart(s, Span(at, |data|))
    ensures Cut(Write(mem, at, data), s) == Cut(mem, s)
  {
    ReadElsewhere(mem, at, data, s.at, s.at + s.len);
  }

  lemma CutWritten(mem: bytes, at: nat, data: bytes)
    requires at + |data| <= |mem|
    ensures Cut(Write(mem, at, data), Span(at, |data|)) == data
  {
    ReadBack(mem, at, data);
  }

  /** `memcpy(a + at, data, |data|)`. */
  method Store(a: array<byte>, at: nat, data: bytes)
    requires at + |data| <= a.Length
    modifies a
    ensures a[..] == Write(old(a[..]), at, data)
  {
    forall i | 0 <= i < |data| {
      a[at + i] := data[i];
    }
  }
}
