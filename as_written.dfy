/** `read_available` of server.c exactly as it is written, next to the
    documented behaviour that the rest of the model implements, with the
    inputs on which the two part ways. The slot allocation, whose locks are
    never initialised, is not modelled as written; one lemma takes the
    reading in which every such lock is taken.

    The buffer is a plain value here: the allocated bytes (their count is the
    allocation), the `size` field and the `bytes_read` field, which the code
    as written lets drift apart. Bytes that `realloc` adds are indeterminate
    in C; the model fills them with zero. */
module AsWritten {
  import opened Errors
  import opened ClientBuffers
  import opened SlotTables

  datatype Raw = Raw(memory: seq<byte>, size: int, bytesRead: int)

  /** What one call of the code as written does: returns with a new state
      and a count, exits on a short read, or writes past the allocation
      (undefined behaviour in C). */
  datatype RawOutcome = Returned(after: Raw, count: int) | ShortReadPanic | OutOfBounds

  function Zeros(n: nat): (z: seq<byte>)
    ensures |z| == n && forall k :: 0 <= k < n ==> z[k] == 0
  {
    seq(n, _ => 0)
  }

  /** `realloc(m, n)`: the first `min(|m|, n)` bytes survive. */
  function Realloc(m: seq<byte>, n: nat): (r: seq<byte>)
    ensures |r| == n
    ensures n <= |m| ==> r == m[..n]
    ensures n > |m| ==> r[..|m|] == m
  {
    if n <= |m| then m[..n] else m + Zeros(n - |m|)
  }

  /** `read` storing `d` at offset `at` of an allocation large enough. */
  function Overwrite(m: seq<byte>, at: nat, d: seq<byte>): (r: seq<byte>)
    requires at + |d| <= |m|
    ensures |r| == |m| && r[..at] == m[..at] && r[at..at + |d|] == d
    ensures r[at + |d|..] == m[at + |d|..]
  {
    m[..at] + d + m[at + |d|..]
  }

  /** `read_available` as written: it reallocates to `2 * size` when the
      bytes left after the cursor are MORE than `available`, never stores the
      new allocation size in `size`, writes at the cursor, and never moves
      the cursor. */
  function ReadAvailableAsWritten(s: Raw, available: int, delivered: seq<byte>): (r: RawOutcome)
    requires 0 <= s.bytesRead && 0 <= s.size
    ensures r.Returned? ==> r.after.size == s.size && r.after.bytesRead == s.bytesRead
    ensures r.Returned? && available <= 0 ==> r == Returned(s, 0)
    ensures r.Returned? && available > 0 ==>
              r.count == available && |delivered| == available &&
              s.bytesRead + available <= |r.after.memory| &&
              r.after.memory[s.bytesRead..s.bytesRead + available] == delivered
    ensures r.ShortReadPanic? <==>
              available > 0 && |delivered| != available &&
              s.bytesRead + |delivered| <= |GrowIfRoom(s, available)|
  {
    if available <= 0 then Returned(s, 0)
    else
      var mem := GrowIfRoom(s, available);
      if s.bytesRead + |delivered| > |mem| then OutOfBounds
      else if |delivered| != available then ShortReadPanic
      else Returned(Raw(Overwrite(mem, s.bytesRead, delivered), s.size, s.bytesRead), available)
  }

  /** The allocation after the growth step as written. */
  function GrowIfRoom(s: Raw, available: int): (m: seq<byte>)
    requires 0 <= s.size
    ensures s.size - s.bytesRead > available ==> |m| == 2 * s.size
    ensures s.size - s.bytesRead <= available ==> m == s.memory
  {
    if s.size - s.bytesRead > available then Realloc(s.memory, 2 * s.size) else s.memory
  }

  /** Whenever the bytes do not fit after the cursor, the code as written
      does not grow the buffer and `read` writes past its end; the
      documented behaviour grows first, so the drain succeeds. */
  lemma InvertedGrowthTestOverflows(s: Raw, available: int, delivered: seq<byte>)
    requires 0 <= s.bytesRead <= s.size && |s.memory| == s.size
    requires s.size - s.bytesRead < available && |delivered| == available
    ensures ReadAvailableAsWritten(s, available, delivered) == OutOfBounds
    ensures Drained(View(s.size, s.memory[..s.bytesRead]), available, delivered).Success?
  {
  }

  /** The growth step with the test the comment describes but the doubling
      as written. */
  function DoublingAsWritten(size: int, bytesRead: int, available: int): (n: int)
    requires 0 <= bytesRead <= size && available > 0
    ensures n >= size
    ensures n >= bytesRead + available <==>
              size - bytesRead >= available || 2 * size >= bytesRead + available
  {
    if size - bytesRead >= available then size else 2 * size
  }

  /** Doubling does not make room whenever more bytes arrive than twice the
      size leaves after the cursor (3000 bytes into an empty buffer of 1024,
      or any bytes into an empty allocation); the corrected growth then
      reaches exactly `bytesRead + available`. */
  lemma DoublingFallsShort(size: int, bytesRead: int, available: int)
    requires 0 <= bytesRead <= size && available > 2 * size - bytesRead
    ensures DoublingAsWritten(size, bytesRead, available) < bytesRead + available
              == GrownSize(size, bytesRead, available)
  {
  }

  /** After a reallocation `size` no longer describes the allocation: one
      byte into a buffer of 8 leaves 16 bytes allocated and `size` at 8. */
  lemma SizeGoesStale()
    ensures var r := ReadAvailableAsWritten(Raw(Zeros(8), 8, 0), 1, [7]);
            r.Returned? && |r.after.memory| == 16 && r.after.size == 8
  {
  }

  /** The cursor never advances, so the second drain overwrites the first:
      bytes 1 and then 2 leave byte 2 at offset 0 and a cursor of 0, where
      the documented buffer holds [1, 2]. */
  lemma SecondReadOverwritesFirst()
    ensures var first := ReadAvailableAsWritten(Raw(Zeros(8), 8, 0), 1, [1]);
            first.Returned? &&
            var second := ReadAvailableAsWritten(first.after, 1, [2]);
            second.Returned? && second.after.bytesRead == 0 && second.after.memory[0] == 2
    ensures DrainAll(View(8, []), [Poll(1, [1]), Poll(1, [2])]).Success?
    ensures DrainAll(View(8, []), [Poll(1, [1]), Poll(1, [2])]).value.0.contents == [1, 2]
  {
  }

  /** The slot locks are allocated but never initialised. When they all read
      as taken, a pass offers no connection to any slot. */
  lemma LocksReadAsHeldAdmitNobody(held: seq<bool>)
    requires forall j :: 0 <= j < |held| ==> held[j]
    ensures FreeBefore(held, |held|) == 0
  {
    FreeBeforeExtremes(held, |held|);
  }
}
