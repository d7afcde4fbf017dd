/** What `joinBlocks` (xva2qcow2.go:61-130) computes, as functions of the
    directory listing: the largest numbered entry, the number of blocks, what
    each block index contributes to the output, the output file after every
    block or the error that stopped it, and the progress lines printed. */
module Reassembly {
  import opened Wrappers
  import opened Numbers
  import opened Filesystem
  import opened RawImage

  /** One block of the disk: 1 MiB. */
  const BlockSize: nat := 1024 * 1024

  /** A progress line is printed after every 1024 blocks (1 GiB). */
  const NotificationInterval: nat := 1024

  /** The errors `joinBlocks` returns, by the call that reported them. */
  datatype IoError =
    | ReadDirFailed   // ioutil.ReadDir(refDir)
    | NoNumericFile   // no entry name parses as a number >= 0
    | CreateFailed    // os.Create(rawOutput)
    | OpenFailed      // os.Open of a block file
    | ReadFailed      // in.Read of a block file
    | WriteFailed     // out.Write
    | SeekFailed      // out.Seek over a missing block

  /** Entry `e` is not a directory and its name parses, with `strconv.Atoi`, as `n`. */
  predicate Numbered(e: Entry, n: int)
  {
    !e.node.Directory? && Atoi(e.name) == Some(n)
  }

  /** `maxNum` after the scan of xva2qcow2.go:66-75: the largest number that
      a non-directory entry's name parses to, or -1 when no entry parses to a
      number that is not negative. */
  function MaxIndex(ls: Listing): (m: int)
    ensures -1 <= m <= MaxInt64
    ensures forall k, n :: 0 <= k < |ls| && Numbered(ls[k], n) ==> n <= m
    ensures m >= 0 ==> exists k :: 0 <= k < |ls| && Numbered(ls[k], m)
  {
    if |ls| == 0 then -1
    else
      var front := ls[..|ls| - 1];
      var m := MaxIndex(front);
      var e := ls[|ls| - 1];
      assert forall k :: 0 <= k < |front| ==> front[k] == ls[k];
      var p := Atoi(e.name);
      if !e.node.Directory? && p.Some? && p.value > m then p.value else m
  }

  /** Go's `int` addition wraps around at 64 bits. */
  function WrapInt64(x: int): int
  {
    (x - MinInt64) % 0x1_0000_0000_0000_0000 + MinInt64
  }

  /** `totalBlocks := maxNum + 1` in 64-bit arithmetic. */
  function TotalBlocks(maxNum: int): int
  {
    WrapInt64(maxNum + 1)
  }

  /** How many times the loop `for i := 0; i < totalBlocks; i++` runs. */
  function BlockCount(maxNum: int): nat
  {
    var t := TotalBlocks(maxNum);
    if t < 0 then 0 else t
  }

  /** For every index the scan can produce, the loop covers `0..maxNum`,
      except that the largest `int` wraps `totalBlocks` round to the most
      negative one and the loop does not run at all. */
  lemma BlockCountOfMaxIndex(maxNum: int)
    requires 0 <= maxNum <= MaxInt64
    ensures maxNum < MaxInt64 ==> TotalBlocks(maxNum) == maxNum + 1 == BlockCount(maxNum)
    ensures maxNum == MaxInt64 ==> TotalBlocks(maxNum) == MinInt64 && BlockCount(maxNum) == 0
  {
  }

  /** The bytes that successive reads of an opened node deliver before they
      report end of file or an error. */
  function Readable(node: Node): seq<byte>
  {
    match node
    case Directory => []
    case File(c, Healthy) => c
    case File(_, OpenFails) => []
    case File(c, ReadFailsAfter(k)) => c[..Min(k, |c|)]
  }

  /** Whether the read after the readable bytes fails rather than reporting
      end of file; reading a directory fails at once (EISDIR). */
  predicate ReadFails(node: Node)
  {
    node.Directory? || (node.fault.ReadFailsAfter? && node.fault.k < |node.content|)
  }

  datatype ReadStatus = Data | Eof | ReadError

  /** One `in.Read(buf)` with a buffer of `BlockSize` bytes, `pos` bytes into
      the node: some bytes and no error, or no bytes and end of file or an
      error. */
  datatype ReadReply = ReadReply(bytes: seq<byte>, status: ReadStatus)

  function ReadChunk(node: Node, pos: nat): (r: ReadReply)
    requires pos <= |Readable(node)|
    ensures |r.bytes| == Min(BlockSize, |Readable(node)| - pos)
    ensures r.bytes == Readable(node)[pos..pos + |r.bytes|]
    ensures (r.status == Data) == (|r.bytes| > 0)
    ensures r.status == ReadError <==> pos == |Readable(node)| && ReadFails(node)
  {
    var rd := Readable(node);
    if pos < |rd| then ReadReply(rd[pos..Min(pos + BlockSize, |rd|)], Data)
    else if ReadFails(node) then ReadReply([], ReadError)
    else ReadReply([], Eof)
  }

  datatype CopyResult = Copied(raw: Raw) | WriteFault(raw: Raw)

  /** The inner loop of xva2qcow2.go:100-116 over the bytes `r` that the
      reads deliver: each chunk of at most `BlockSize` bytes is written at the
      cursor, and the first write that fails ends the copy. */
  function Copy(s: Raw, r: seq<byte>, limit: nat): CopyResult
    decreases |r|
  {
    if |r| == 0 then Copied(s)
    else
      var n := Min(BlockSize, |r|);
      var c := WriteAt(s, r[..n], limit);
      if c.ok then Copy(c.after, r[n..], limit) else WriteFault(c.after)
  }

  /** The state of the output after the blocks processed so far, or the
      error that stopped the loop, the index it stopped at, and the output as
      that index left it. */
  datatype Step = Running(raw: Raw) | Stopped(err: IoError, at: nat, raw: Raw)

  /** One iteration of the loop of xva2qcow2.go:92-127 for index `i`. */
  function BlockStep(ls: Listing, i: nat, s: Raw, limit: nat): Step
  {
    match Lookup(ls, BlockName(i))
    case None =>
      var c := SeekBy(s, BlockSize, limit);
      if c.ok then Running(c.after) else Stopped(SeekFailed, i, c.after)
    case Some(node) =>
      if node.File? && node.fault == OpenFails then Stopped(OpenFailed, i, s)
      else
        match Copy(s, Readable(node), limit)
        case WriteFault(t) => Stopped(WriteFailed, i, t)
        case Copied(t) => if ReadFails(node) then Stopped(ReadFailed, i, t) else Running(t)
  }

  /** The loop after its first `n` iterations, from the empty file that
      `os.Create` returns. */
  function Layout(ls: Listing, n: nat, limit: nat): Step
  {
    if n == 0 then Running(Raw([], 0))
    else
      match Layout(ls, n - 1, limit)
      case Stopped(e, at, t) => Stopped(e, at, t)
      case Running(s) => BlockStep(ls, n - 1, s, limit)
  }

  /** What index `i` stands for in the reassembled disk: the bytes of the
      entry named `BlockName(i)`, or a hole of `BlockSize` zero bytes when no
      entry has that name. */
  function Piece(ls: Listing, i: nat): seq<byte>
  {
    match Lookup(ls, BlockName(i))
    case None => Zeros(BlockSize)
    case Some(node) => Readable(node)
  }

  /** The disk as the blocks `0..n-1` lay it out, in ascending order. */
  function Flat(ls: Listing, n: nat): seq<byte>
  {
    if n == 0 then [] else Flat(ls, n - 1) + Piece(ls, n - 1)
  }

  /** Block `i` is present and has at least one byte, so copying it writes. */
  predicate Writes(ls: Listing, i: nat)
  {
    Lookup(ls, BlockName(i)).Some? && |Piece(ls, i)| > 0
  }

  /** Where the last write of the first `n` blocks ended: the offset just
      after the last present block with at least one byte. */
  function WrittenEnd(ls: Listing, n: nat): nat
  {
    if n == 0 then 0
    else if Writes(ls, n - 1) then |Flat(ls, n)|
    else WrittenEnd(ls, n - 1)
  }

  /** Block `i` can be copied: absent, or a file that opens and reads to its end. */
  predicate BlockReadable(ls: Listing, i: nat)
  {
    match Lookup(ls, BlockName(i))
    case None => true
    case Some(node) => node.File? && node.fault != OpenFails && !ReadFails(node)
  }

  /** The progress numbers printed after the first `n` blocks (xva2qcow2.go:124-126). */
  function Reports(n: nat): seq<nat>
  {
    if n == 0 then []
    else Reports(n - 1) + (if n % NotificationInterval == 0 then [n / NotificationInterval] else [])
  }

  /** After `n` blocks, `n / 1024` progress lines have been printed and the
      k-th of them reports k gigabytes. */
  lemma {:induction false} ReportsCount(n: nat)
    ensures |Reports(n)| == n / NotificationInterval
    ensures forall k :: 0 <= k < |Reports(n)| ==> Reports(n)[k] == k + 1
  {
    if n > 0 {
      ReportsCount(n - 1);
    }
  }

  /** Copying the readable bytes chunk by chunk writes them exactly once and
      in order: the result is one write of all of them, and the copy fails
      exactly when they do not all fit. */
  lemma {:induction false} CopyIsOneWrite(s: Raw, r: seq<byte>, limit: nat)
    requires |s.data| <= s.cursor
    ensures var c := WriteAt(s, r, limit);
            Copy(s, r, limit) == if c.ok then Copied(c.after) else WriteFault(c.after)
    decreases |r|
  {
    WriteAtAppends(s, r, limit);
    if |r| > 0 {
      var n := Min(BlockSize, |r|);
      var c := WriteAt(s, r[..n], limit);
      WriteAtAppends(s, r[..n], limit);
      if c.ok {
        CopyIsOneWrite(c.after, r[n..], limit);
        WritesCompose(s, r[..n], r[n..], limit);
        assert r[..n] + r[n..] == r;
      } else {
        var m := if s.cursor >= limit then 0 else Min(n, limit - s.cursor);
        assert r[..n][..m] == r[..m];
      }
    }
  }

  /** One block that goes through appends its piece: a missing block moves
      the cursor over a hole, a present one is written at the cursor in full. */
  lemma BlockStepAppends(ls: Listing, i: nat, s: Raw, limit: nat)
    requires |s.data| <= s.cursor <= limit
    requires BlockStep(ls, i, s, limit).Running?
    ensures var t := BlockStep(ls, i, s, limit).raw;
            var p := Piece(ls, i);
            && t.cursor == s.cursor + |p| <= limit
            && t.data == (if Writes(ls, i) then s.data + Zeros(s.cursor - |s.data|) + p else s.data)
            && (!Writes(ls, i) ==> AllZero(p))
  {
    match Lookup(ls, BlockName(i))
    case None =>
    case Some(node) =>
      CopyIsOneWrite(s, Readable(node), limit);
      WriteAtAppends(s, Readable(node), limit);
      assert Readable(node)[..|Readable(node)|] == Readable(node);
  }

  /** Appending one block to a file that holds the laid-out bytes up to its
      last write, followed by hole, keeps that shape. */
  lemma AppendKeepsShape(f: seq<byte>, p: seq<byte>, d: seq<byte>, writes: bool)
    requires |d| <= |f| && d == f[..|d|] && AllZero(f[|d|..])
    requires !writes ==> AllZero(p)
    ensures var d' := if writes then d + Zeros(|f| - |d|) + p else d;
            && d' == (f + p)[..|d'|]
            && AllZero((f + p)[|d'|..])
  {
    if writes {
      assert f[..|d|] + f[|d|..] == f;
      assert (f + p)[|f + p|..] == [];
    } else {
      assert (f + p)[..|d|] == f[..|d|];
      assert (f + p)[|d|..] == f[|d|..] + p;
      ZerosConcat(|f| - |d|, |p|);
    }
  }

  /** The shape of the output while the loop runs: the cursor is at the end
      of the laid-out blocks, the file holds exactly the laid-out bytes up to
      the end of the last write, and everything after that is hole. A seek
      over trailing missing blocks does not lengthen the file. */
  lemma {:induction false} LayoutShape(ls: Listing, n: nat, limit: nat)
    requires Layout(ls, n, limit).Running?
    ensures var s := Layout(ls, n, limit).raw;
            && s.cursor == |Flat(ls, n)| <= limit
            && |s.data| <= s.cursor
            && s.data == Flat(ls, n)[..|s.data|]
            && AllZero(Flat(ls, n)[|s.data|..])
  {
    if n > 0 {
      LayoutShape(ls, n - 1, limit);
      var s := Layout(ls, n - 1, limit).raw;
      BlockStepAppends(ls, n - 1, s, limit);
      AppendKeepsShape(Flat(ls, n - 1), Piece(ls, n - 1), s.data, Writes(ls, n - 1));
    }
  }

  /** The output file ends where the last write ended, not at the cursor. */
  lemma {:induction false} LayoutLength(ls: Listing, n: nat, limit: nat)
    requires Layout(ls, n, limit).Running?
    ensures |Layout(ls, n, limit).raw.data| == WrittenEnd(ls, n)
  {
    if n > 0 {
      LayoutLength(ls, n - 1, limit);
      LayoutShape(ls, n - 1, limit);
      var s := Layout(ls, n - 1, limit).raw;
      BlockStepAppends(ls, n - 1, s, limit);
      if Writes(ls, n - 1) {
        assert |Flat(ls, n)| == |Flat(ls, n - 1)| + |Piece(ls, n - 1)|;
      }
    }
  }

  /** One block goes through exactly when it can be read to its end and
      its piece fits below the size limit. */
  lemma BlockStepRunsIff(ls: Listing, i: nat, s: Raw, limit: nat)
    requires |s.data| <= s.cursor <= limit
    ensures BlockStep(ls, i, s, limit).Running? <==>
      BlockReadable(ls, i) && s.cursor + |Piece(ls, i)| <= limit
  {
    match Lookup(ls, BlockName(i))
    case None =>
    case Some(node) =>
      CopyIsOneWrite(s, Readable(node), limit);
      WriteAtAppends(s, Readable(node), limit);
  }

  /** The loop runs through the first `n` blocks without an error exactly
      when every one of them can be read to its end and the laid-out disk
      fits in the largest file the filesystem allows. */
  lemma {:induction false} LayoutRunsIff(ls: Listing, n: nat, limit: nat)
    ensures Layout(ls, n, limit).Running? <==>
      (forall i :: 0 <= i < n ==> BlockReadable(ls, i)) && |Flat(ls, n)| <= limit
  {
    if n > 0 {
      LayoutRunsIff(ls, n - 1, limit);
      LayoutRunsStep(ls, n, limit);
    }
  }

  /** The step of `LayoutRunsIff` from `n - 1` blocks to `n`. */
  lemma LayoutRunsStep(ls: Listing, n: nat, limit: nat)
    requires n > 0
    requires Layout(ls, n - 1, limit).Running? <==>
      (forall i :: 0 <= i < n - 1 ==> BlockReadable(ls, i)) && |Flat(ls, n - 1)| <= limit
    ensures Layout(ls, n, limit).Running? <==>
      (forall i :: 0 <= i < n ==> BlockReadable(ls, i)) && |Flat(ls, n)| <= limit
  {
    assert |Flat(ls, n)| == |Flat(ls, n - 1)| + |Piece(ls, n - 1)|;
    if Layout(ls, n - 1, limit).Running? {
      LayoutShape(ls, n - 1, limit);
      BlockStepRunsIff(ls, n - 1, Layout(ls, n - 1, limit).raw, limit);
    }
  }

  /** Once an error has stopped the loop, later indices change nothing. */
  lemma {:induction false} StoppedIsFinal(ls: Listing, n: nat, m: nat, limit: nat)
    requires n <= m && Layout(ls, n, limit).Stopped?
    ensures Layout(ls, m, limit) == Layout(ls, n, limit)
    decreases m - n
  {
    if n < m {
      StoppedIsFinal(ls, n, m - 1, limit);
    }
  }

  /** An error is reported by the block it names: the loop ran without error
      up to that index, the error is that block's step, and the output is as
      that step left it. */
  lemma {:induction false} StoppedAtItsBlock(ls: Listing, n: nat, limit: nat)
    requires Layout(ls, n, limit).Stopped?
    ensures var at := Layout(ls, n, limit).at;
            && at < n
            && Layout(ls, at, limit).Running?
            && BlockStep(ls, at, Layout(ls, at, limit).raw, limit) == Layout(ls, n, limit)
  {
    if Layout(ls, n - 1, limit).Stopped? {
      StoppedAtItsBlock(ls, n - 1, limit);
    }
  }

  lemma SliceOfFront(f: seq<byte>, p: seq<byte>, lo: nat, hi: nat)
    requires lo <= hi <= |f|
    ensures (f + p)[lo..hi] == f[lo..hi]
    ensures (f + p)[|f|..] == p
  {
  }

  lemma MulStep(n: nat, b: nat)
    ensures (n + 1) * b == n * b + b
  {
  }

  lemma MulMonotone(i: nat, n: nat, b: nat)
    requires i <= n
    ensures i * b <= n * b
  {
  }

  /** The pieces laid end to end. */
  function Concat(ps: seq<seq<byte>>): seq<byte>
  {
    if |ps| == 0 then [] else Concat(ps[..|ps| - 1]) + ps[|ps| - 1]
  }

  /** Pieces that all have `b` bytes take `b` bytes each. */
  lemma {:induction false} ConcatUniformLength(ps: seq<seq<byte>>, b: nat)
    requires forall j :: 0 <= j < |ps| ==> |ps[j]| == b
    ensures |Concat(ps)| == |ps| * b
  {
    if |ps| > 0 {
      ConcatUniformLength(ps[..|ps| - 1], b);
      MulStep(|ps| - 1, b);
    }
  }

  /** Pieces that all have `b` bytes sit at multiples of `b`: piece `i`
      occupies `[i * b, (i + 1) * b)`. */
  lemma {:induction false} ConcatUniformAt(ps: seq<seq<byte>>, b: nat, i: nat)
    requires forall j :: 0 <= j < |ps| ==> |ps[j]| == b
    requires i < |ps|
    ensures i * b + b <= |Concat(ps)|
    ensures Concat(ps)[i * b..i * b + b] == ps[i]
  {
    var n := |ps|;
    var front := ps[..n - 1];
    ConcatUniformLength(front, b);
    var f := Concat(front);
    AppendUniformAt(f, ps[n - 1], n - 1, b, i);
    if i < n - 1 {
      ConcatUniformAt(front, b, i);
    }
  }

  /** One more piece of `b` bytes after `m` of them keeps every piece at its
      multiple of `b`. */
  lemma AppendUniformAt(f: seq<byte>, p: seq<byte>, m: nat, b: nat, i: nat)
    requires |f| == m * b && |p| == b && i <= m
    ensures i < m ==> i * b + b <= |f| && (f + p)[i * b..i * b + b] == f[i * b..i * b + b]
    ensures i == m ==> (f + p)[i * b..i * b + b] == p
  {
    MulStep(i, b);
    if i < m {
      MulMonotone(i + 1, m, b);
      SliceOfFront(f, p, i * b, (i + 1) * b);
    } else {
      SliceOfFront(f, p, |f|, |f|);
    }
  }

  /** The pieces of blocks `0..n-1`, in order. */
  function Pieces(ls: Listing, n: nat): (ps: seq<seq<byte>>)
    ensures |ps| == n
  {
    seq(n, (i: int) requires 0 <= i => Piece(ls, i))
  }

  lemma {:induction false} FlatIsConcat(ls: Listing, n: nat)
    ensures Flat(ls, n) == Concat(Pieces(ls, n))
  {
    if n > 0 {
      FlatIsConcat(ls, n - 1);
      assert Pieces(ls, n)[..n - 1] == Pieces(ls, n - 1);
    }
  }

  /** When every block has the same size `b` (`BlockSize` for the blocks an
      XVA archive holds, the last one included), the disk is `n * b` bytes
      and block `i` is exactly the bytes at `[i * b, (i + 1) * b)`: the
      contents of the file named `BlockName(i)`, or zeros where it is missing. */
  lemma FullBlocks(ls: Listing, n: nat, b: nat)
    requires forall i :: 0 <= i < n ==> |Piece(ls, i)| == b
    ensures |Flat(ls, n)| == n * b
    ensures forall i {:trigger Piece(ls, i)} :: 0 <= i < n ==>
      0 <= i * b && i * b + b <= |Flat(ls, n)| &&
      Flat(ls, n)[i * b..i * b + b] == Piece(ls, i)
  {
    FlatUniformLength(ls, n, b);
    forall i | 0 <= i < n
      ensures 0 <= i * b && i * b + b <= |Flat(ls, n)| && Flat(ls, n)[i * b..i * b + b] == Piece(ls, i)
    {
      FlatUniformAt(ls, n, b, i);
    }
  }

  lemma FlatUniformLength(ls: Listing, n: nat, b: nat)
    requires forall i :: 0 <= i < n ==> |Piece(ls, i)| == b
    ensures |Flat(ls, n)| == n * b
  {
    FlatIsConcat(ls, n);
    ConcatUniformLength(Pieces(ls, n), b);
  }

  lemma FlatUniformAt(ls: Listing, n: nat, b: nat, i: nat)
    requires forall j :: 0 <= j < n ==> |Piece(ls, j)| == b
    requires i < n
    ensures 0 <= i * b && i * b + b <= |Flat(ls, n)|
    ensures Flat(ls, n)[i * b..i * b + b] == Piece(ls, i)
  {
    MulMonotone(0, i, b);
    var ps := Pieces(ls, n);
    FlatIsConcat(ls, n);
    assert ps[i] == Piece(ls, i);
    ConcatUniformAt(ps, b, i);
  }

  /** Whether `name` is the `%08d` spelling of the number it parses to, i.e.
      the name under which the loop looks that block up. */
  predicate IsBlockName(name: string)
  {
    var p := Atoi(name);
    p.Some? && p.value >= 0 && name == BlockName(p.value)
  }

  /** The listing without the entries whose names are no block's name. */
  function CanonicalEntries(ls: Listing): (r: Listing)
    ensures |r| <= |ls|
  {
    if |ls| == 0 then []
    else if IsBlockName(ls[0].name) then [ls[0]] + CanonicalEntries(ls[1..])
    else CanonicalEntries(ls[1..])
  }

  lemma {:induction false} LookupCanonical(ls: Listing, i: nat)
    requires i <= MaxInt64
    ensures Lookup(CanonicalEntries(ls), BlockName(i)) == Lookup(ls, BlockName(i))
  {
    if |ls| > 0 {
      AtoiBlockName(i);
      LookupCanonical(ls[1..], i);
    }
  }

  /** A block's step depends on the listing only through the lookup of
      that block's name. */
  lemma BlockStepByLookup(a: Listing, b: Listing, i: nat, s: Raw, limit: nat)
    requires Lookup(a, BlockName(i)) == Lookup(b, BlockName(i))
    ensures BlockStep(a, i, s, limit) == BlockStep(b, i, s, limit)
  {
  }

  /** Block `i` is read only from the entry spelled `BlockName(i)`: dropping
      every entry whose name is not a block name (`5`, `+5`, `005`, `-0`,
      ...) changes nothing in the output, the errors or the progress over
      the same number of blocks; it can change the number of blocks, since
      such names still raise `maxNum`. */
  lemma {:induction false} OnlyBlockNamesAreRead(ls: Listing, n: nat, limit: nat)
    requires n <= MaxInt64 + 1
    ensures Layout(CanonicalEntries(ls), n, limit) == Layout(ls, n, limit)
  {
    if n > 0 {
      OnlyBlockNamesAreRead(ls, n - 1, limit);
      LookupCanonical(ls, n - 1);
      match Layout(ls, n - 1, limit)
      case Stopped(_, _, _) =>
      case Running(t) =>
        BlockStepByLookup(CanonicalEntries(ls), ls, n - 1, t, limit);
    }
  }

  lemma {:induction false} NothingWritten(ls: Listing, n: nat)
    requires forall i :: 0 <= i < n ==> Lookup(ls, BlockName(i)).None?
    ensures WrittenEnd(ls, n) == 0
    ensures forall i :: 0 <= i < n ==> Piece(ls, i) == Zeros(BlockSize)
  {
    if n > 0 {
      NothingWritten(ls, n - 1);
    }
  }

  /** A directory holding only a file named `5`: the name parses, so the
      disk has six blocks, but no block is ever read from it; the loop seeks
      over six holes and the output file stays empty although the cursor
      ends at 6 MiB. */
  lemma TrailingHolesLeaveFileShort(c: seq<byte>, limit: nat)
    requires 6 * BlockSize <= limit
    ensures var ls := [Entry("5", File(c, Healthy))];
            && MaxIndex(ls) == 5
            && BlockCount(MaxIndex(ls)) == 6
            && Layout(ls, 6, limit) == Running(Raw([], 6 * BlockSize))
  {
    var ls := [Entry("5", File(c, Healthy))];
    assert MaxIndex(ls) == 5 by {
      NonCanonicalSpellings();
      assert ls[..0] == [];
    }
    NoBlockIsNamedFive(c);
    assert |Flat(ls, 6)| == 6 * BlockSize && WrittenEnd(ls, 6) == 0 by {
      NothingWritten(ls, 6);
      FlatUniformLength(ls, 6, BlockSize);
    }
    LayoutRunsIff(ls, 6, limit);
    LayoutShape(ls, 6, limit);
    LayoutLength(ls, 6, limit);
  }

  /** No canonical block name is spelt `5`, so every index is a hole. */
  lemma NoBlockIsNamedFive(c: seq<byte>)
    ensures forall i: nat :: Lookup([Entry("5", File(c, Healthy))], BlockName(i)).None?
    ensures forall i: nat :: BlockReadable([Entry("5", File(c, Healthy))], i)
  {
    var ls := [Entry("5", File(c, Healthy))];
    forall i: nat ensures Lookup(ls, BlockName(i)).None? {
      NonCanonicalSpellings();
      LookupFinds(ls, BlockName(i));
    }
  }

  /** A raw image of the whole disk, with every block laid out and trailing
      holes included, so that `qemu-img` sees all of it, is what the loop
      leaves once the file is truncated to the cursor. With full-size blocks it is `n` blocks long and block `i`
      is the i-th MiB. */
  lemma ExtendedLayoutIsFlat(ls: Listing, n: nat, limit: nat)
    requires Layout(ls, n, limit).Running?
    ensures var s := Layout(ls, n, limit).raw;
            var c := TruncateTo(s, s.cursor, limit);
            c.ok && c.after.data == Flat(ls, n) && c.after.cursor == s.cursor
  {
    var s := Layout(ls, n, limit).raw;
    LayoutShape(ls, n, limit);
    var f := Flat(ls, n);
    assert f[..|s.data|] + f[|s.data|..] == f;
  }
}
