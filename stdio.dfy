/**
 * The part of C's buffered file I/O that the bitmap loader relies on:
 * an opened file is a byte sequence with a read position; `fread` with a
 * count of one element either transfers the whole element or reports 0;
 * `fseek` moves the position, also past the end of the file.
 */
module Stdio {
  import opened Wrappers

  newtype byte = x: int | 0 <= x < 0x100

  /** An open stream: the file's bytes and the current read position. */
  datatype Stream = Stream(contents: seq<byte>, pos: nat)

  /** `fopen` of an existing file: the position starts at the first byte. */
  function Open(contents: seq<byte>): Stream
  {
    Stream(contents, 0)
  }

  function Max(a: nat, b: nat): nat
  {
    if a < b then b else a
  }

  /**
   * `fread(buf, n, 1, stream)`: one element of `n` bytes. The call reports
   * success (returns 1) only when `n > 0` and all `n` bytes are still in the
   * file; a short read consumes what remains, so the position ends at the
   * end of the file (or stays where it was, if it was already past it).
   */
  function Read(s: Stream, n: nat): (r: (Option<seq<byte>>, Stream))
    ensures r.1.contents == s.contents
    ensures r.0.Some? <==> 0 < n && s.pos + n <= |s.contents|
    ensures r.0.Some? ==> r.0.value == s.contents[s.pos..s.pos + n] && r.1.pos == s.pos + n
    ensures r.0.None? && 0 < n ==> |s.contents| <= r.1.pos
  {
    if 0 < n && s.pos + n <= |s.contents| then
      (Some(s.contents[s.pos..s.pos + n]), Stream(s.contents, s.pos + n))
    else if n == 0 then
      (None, s)
    else
      (None, Stream(s.contents, Max(s.pos, |s.contents|)))
  }

  /**
   * `fread(buffer, buffer.Length, 1, stream)` into an allocated buffer: on
   * success the buffer holds the bytes Read returns. What a short read
   * leaves in the buffer is not specified.
   */
  method ReadInto(s: Stream, buffer: array<byte>) returns (ok: bool, after: Stream)
    modifies buffer
    ensures ok == Read(s, buffer.Length).0.Some? && after == Read(s, buffer.Length).1
    ensures ok ==> buffer[..] == Read(s, buffer.Length).0.value
  {
    var r := Read(s, buffer.Length);
    ok, after := r.0.Some?, r.1;
    if ok {
      var bytes := r.0.value;
      forall i | 0 <= i < buffer.Length {
        buffer[i] := bytes[i];
      }
    }
  }

  /** `fseek(stream, k, SEEK_CUR)` with a non-negative offset. */
  function SeekCur(s: Stream, k: nat): Stream
  {
    Stream(s.contents, s.pos + k)
  }

  /** `fseek(stream, p, SEEK_SET)`. */
  function SeekSet(s: Stream, p: nat): Stream
  {
    Stream(s.contents, p)
  }

  /**
   * Once a read has come up short, every later read of a non-empty element
   * fails as well, however far the stream is moved forward in between.
   * This is why the loader can ignore the outcome of some reads: a checked
   * read further on reports the failure.
   */
  lemma FailedReadIsSticky(s: Stream, n: nat, k: nat, m: nat)
    requires 0 < n && 0 < m
    requires Read(s, n).0.None?
    ensures Read(SeekCur(Read(s, n).1, k), m).0.None?
    ensures |s.contents| <= Read(SeekCur(Read(s, n).1, k), m).1.pos
  {
  }
}
