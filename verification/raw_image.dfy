/** The raw output image: a regular file written through one cursor, where a
    write past the end leaves a zero-filled hole and a seek never changes the
    file's length. `limit` is the largest file size the filesystem accepts. */
module RawImage {
  import opened Filesystem

  /** The contents of the file and the position of its cursor. */
  datatype Raw = Raw(data: seq<byte>, cursor: nat)

  /** What one call on the file leaves behind, and whether it reported success. */
  datatype Call = Call(after: Raw, ok: bool)

  function Min(a: int, b: int): int { if a < b then a else b }

  function Max(a: int, b: int): int { if a < b then b else a }

  function Zeros(n: nat): (z: seq<byte>)
    ensures |z| == n && forall k :: 0 <= k < n ==> z[k] == 0
  {
    seq(n, _ => 0)
  }

  /** The bytes of a hole. */
  predicate AllZero(s: seq<byte>) { s == Zeros(|s|) }

  lemma ZerosConcat(a: nat, b: nat)
    ensures Zeros(a) + Zeros(b) == Zeros(a + b)
  {
  }

  /** The file after `b` is stored at offset `at`: bytes before `at` are
      kept, a gap between the old end and `at` reads as zero, bytes after the
      written range are kept. Writing nothing changes nothing. */
  function Overwrite(data: seq<byte>, at: nat, b: seq<byte>): (r: seq<byte>)
    ensures |b| == 0 ==> r == data
    ensures |b| > 0 ==> |r| == Max(|data|, at + |b|)
  {
    if |b| == 0 then data
    else
      var head := if at <= |data| then data[..at] else data + Zeros(at - |data|);
      var tail := if at + |b| < |data| then data[at + |b|..] else [];
      head + b + tail
  }

  /** Byte by byte, a write is what `pwrite` promises: the written range
      holds `b`, bytes outside it keep their old value, and bytes of the gap
      between the old end and `at` read as zero. */
  lemma OverwriteBytes(data: seq<byte>, at: nat, b: seq<byte>, k: nat)
    requires |b| > 0 && k < |Overwrite(data, at, b)|
    ensures Overwrite(data, at, b)[k] ==
      if at <= k < at + |b| then b[k - at] else if k < |data| then data[k] else 0
  {
  }

  /** `(*os.File).Write` at the cursor: as much of `b` as fits below `limit`
      is written (a short write) and the cursor moves past it; the call
      succeeds only if all of `b` was written. */
  function WriteAt(s: Raw, b: seq<byte>, limit: nat): Call
  {
    var n := if s.cursor >= limit then 0 else Min(|b|, limit - s.cursor);
    Call(Raw(Overwrite(s.data, s.cursor, b[..n]), s.cursor + n), n == |b|)
  }

  /** `(*os.File).Seek(off, io.SeekCurrent)`: moves the cursor and nothing
      else; it fails, and moves nothing, past `limit`. */
  function SeekBy(s: Raw, off: nat, limit: nat): Call
  {
    if s.cursor + off <= limit then Call(Raw(s.data, s.cursor + off), true) else Call(s, false)
  }

  /** `(*os.File).Truncate(size)`: the file gets exactly `size` bytes, the
      added ones zero; the cursor stays where it is. */
  function TruncateTo(s: Raw, size: nat, limit: nat): Call
  {
    if size <= limit then
      Call(Raw(if size <= |s.data| then s.data[..size] else s.data + Zeros(size - |s.data|), s.cursor), true)
    else Call(s, false)
  }

  /** When the cursor is at or past the end of the file, a write appends:
      the hole up to the cursor is filled with zeros, then the bytes that fit
      follow, and the file ends where the cursor now is. */
  lemma WriteAtAppends(s: Raw, b: seq<byte>, limit: nat)
    requires |s.data| <= s.cursor
    ensures var n := if s.cursor >= limit then 0 else Min(|b|, limit - s.cursor);
            var t := WriteAt(s, b, limit).after;
            && WriteAt(s, b, limit).ok == (|b| == 0 || s.cursor + |b| <= limit)
            && t.cursor == s.cursor + n
            && t.data == if n == 0 then s.data else s.data + Zeros(s.cursor - |s.data|) + b[..n]
  {
    var n := if s.cursor >= limit then 0 else Min(|b|, limit - s.cursor);
    if n > 0 {
      var r := Overwrite(s.data, s.cursor, b[..n]);
      var e := s.data + Zeros(s.cursor - |s.data|) + b[..n];
      assert |r| == |e|;
      forall k | 0 <= k < |r| ensures r[k] == e[k] {
        OverwriteBytes(s.data, s.cursor, b[..n], k);
      }
    }
  }

  /** Two writes at the end of the file, the first of them complete, leave
      the same file as one write of both halves together. */
  lemma {:induction false} WritesCompose(s: Raw, a: seq<byte>, b: seq<byte>, limit: nat)
    requires |s.data| <= s.cursor
    requires |a| > 0 && WriteAt(s, a, limit).ok
    ensures WriteAt(WriteAt(s, a, limit).after, b, limit) == WriteAt(s, a + b, limit)
  {
    var t := WriteAt(s, a, limit).after;
    WriteAtAppends(s, a, limit);
    assert a[..|a|] == a;
    WriteAtAppends(t, b, limit);
    WriteAtAppends(s, a + b, limit);
    var n := if t.cursor >= limit then 0 else Min(|b|, limit - t.cursor);
    assert (a + b)[..|a| + n] == a + b[..n];
  }

  /** The output file of the reassembly: created empty at offset 0. */
  class RawFile {
    var data: seq<byte>
    var cursor: nat
    /** The largest file size the filesystem accepts; at most 2^63 - 1 for a
        real file, since kernel file offsets are signed 64-bit. */
    const limit: nat

    function State(): Raw
      reads this
    {
      Raw(data, cursor)
    }

    /** `os.Create`: an empty file with the cursor at offset 0. */
    constructor Create(limit: nat)
      ensures State() == Raw([], 0) && this.limit == limit
    {
      data, cursor := [], 0;
      this.limit := limit;
    }

    method Write(b: seq<byte>) returns (ok: bool)
      modifies this
      ensures Call(State(), ok) == WriteAt(old(State()), b, limit)
    {
      var c := WriteAt(State(), b, limit);
      data, cursor, ok := c.after.data, c.after.cursor, c.ok;
    }

    method Seek(off: nat) returns (ok: bool)
      modifies this
      ensures Call(State(), ok) == SeekBy(old(State()), off, limit)
    {
      var c := SeekBy(State(), off, limit);
      data, cursor, ok := c.after.data, c.after.cursor, c.ok;
    }

    method Truncate(size: nat) returns (ok: bool)
      modifies this
      ensures Call(State(), ok) == TruncateTo(old(State()), size, limit)
    {
      var c := TruncateTo(State(), size, limit);
      data, cursor, ok := c.after.data, c.after.cursor, c.ok;
    }
  }
}
