/** `joinBlocks` (xva2qcow2.go:61-130) as the Go code runs it: a scan for the
    largest index, then one pass over the indices that copies present block
    files into the output file through its cursor and seeks over missing
    ones, printing a progress line every 1024 blocks. */
module Join {
  import opened Wrappers
  import opened Numbers
  import opened Filesystem
  import opened RawImage
  import opened Reassembly

  /** Where the raw image is created: whether `os.Create` succeeds, and the
      largest file size the filesystem accepts. File offsets are signed 64-bit
      in the kernel, so a real `limit` is at most `MaxInt64`. */
  datatype Target = Target(creatable: bool, limit: nat)

  /** The scan of xva2qcow2.go:66-75. */
  method ScanMaxIndex(ls: Listing) returns (maxNum: int)
    ensures maxNum == MaxIndex(ls)
  {
    maxNum := -1;
    for k := 0 to |ls|
      invariant maxNum == MaxIndex(ls[..k])
    {
      assert ls[..k + 1][..k] == ls[..k];
      var e := ls[k];
      if e.node.Directory? {
        continue;
      }
      var p := Atoi(e.name);
      if p.Some? && p.value > maxNum {
        maxNum := p.value;
      }
    }
    assert ls[..|ls|] == ls;
  }

  /** The inner read/write loop of xva2qcow2.go:100-116 for one opened block
      file: reads of at most `BlockSize` bytes, each written at the cursor,
      until end of file or the first error. */
  method CopyNode(out: RawFile, node: Node) returns (err: Option<IoError>)
    requires node == Directory || node.fault != OpenFails
    modifies out
    ensures match Copy(old(out.State()), Readable(node), out.limit)
            case WriteFault(t) => err == Some(WriteFailed) && out.State() == t
            case Copied(t) => out.State() == t && err == (if ReadFails(node) then Some(ReadFailed) else None)
  {
    ghost var r := Readable(node);
    var pos := 0;
    while true
      invariant pos <= |r|
      invariant Copy(old(out.State()), r, out.limit) == Copy(out.State(), r[pos..], out.limit)
      decreases |r| - pos
    {
      var reply := ReadChunk(node, pos);
      assert r[pos..][..|reply.bytes|] == reply.bytes;
      if |reply.bytes| > 0 {
        var ok := out.Write(reply.bytes);
        if !ok {
          return Some(WriteFailed);
        }
        assert r[pos..][|reply.bytes|..] == r[pos + |reply.bytes|..];
      }
      if reply.status == Eof {
        return None;
      }
      if reply.status == ReadError {
        return Some(ReadFailed);
      }
      pos := pos + |reply.bytes|;
    }
  }

  /** One iteration of the loop of xva2qcow2.go:92-127: the block named
      `BlockName(i)` is copied when it exists and skipped over with a seek
      otherwise; the result is `None` when the loop goes on. */
  method ProcessBlock(out: RawFile, ls: Listing, i: nat) returns (err: Option<IoError>)
    modifies out
    ensures match BlockStep(ls, i, old(out.State()), out.limit)
            case Running(t) => err == None && out.State() == t
            case Stopped(e, at, t) => err == Some(e) && at == i && out.State() == t
  {
    var found := Lookup(ls, BlockName(i));
    if found.None? {
      var ok := out.Seek(BlockSize);
      if !ok {
        err := Some(SeekFailed);
      } else {
        err := None;
      }
    } else {
      var node := found.value;
      if node.File? && node.fault == OpenFails {
        err := Some(OpenFailed);
      } else {
        err := CopyNode(out, node);
      }
    }
  }

  /** The loop over `n` blocks ended in `st`, and the method returned `err`,
      left the output file in state `s` and printed the progress lines
      `reports`: all blocks up to the one that failed, if any. */
  predicate Reached(st: Step, n: nat, err: Option<IoError>, s: Raw, reports: seq<nat>)
  {
    match st
    case Running(t) => err == None && s == t && reports == Reports(n)
    case Stopped(e, at, t) => err == Some(e) && s == t && reports == Reports(at)
  }

  /** `joinBlocks(refDir, rawOutput)`. `dir` is the listing of `refDir`, or
      `None` when it cannot be read. Returns the error, the output file when
      `os.Create` was reached and succeeded, and the numbers of the progress
      lines printed. */
  method JoinBlocks(dir: Option<Listing>, target: Target)
    returns (err: Option<IoError>, out: RawFile?, reports: seq<nat>)
    ensures dir.None? ==> err == Some(ReadDirFailed) && out == null && reports == []
    ensures dir.Some? && MaxIndex(dir.value) < 0 ==>
      err == Some(NoNumericFile) && out == null && reports == []
    ensures dir.Some? && MaxIndex(dir.value) >= 0 && !target.creatable ==>
      err == Some(CreateFailed) && out == null && reports == []
    ensures dir.Some? && MaxIndex(dir.value) >= 0 && target.creatable ==>
      && out != null && fresh(out) && out.limit == target.limit
      && Reached(Layout(dir.value, BlockCount(MaxIndex(dir.value)), target.limit),
                 BlockCount(MaxIndex(dir.value)), err, out.State(), reports)
  {
    if dir.None? {
      return Some(ReadDirFailed), null, [];
    }
    var ls := dir.value;
    var maxNum := ScanMaxIndex(ls);
    if maxNum < 0 {
      return Some(NoNumericFile), null, [];
    }
    var totalBlocks := TotalBlocks(maxNum);
    if !target.creatable {
      return Some(CreateFailed), null, [];
    }
    out := new RawFile.Create(target.limit);
    ghost var n := BlockCount(maxNum);
    reports := [];
    var i := 0;
    while i < totalBlocks
      invariant 0 <= i <= n
      invariant n == if totalBlocks < 0 then 0 else totalBlocks
      invariant out.limit == target.limit
      invariant Layout(ls, i, out.limit) == Running(out.State())
      invariant reports == Reports(i)
      decreases totalBlocks - i
    {
      ghost var before := out.State();
      err := ProcessBlock(out, ls, i);
      assert Layout(ls, i + 1, out.limit) == BlockStep(ls, i, before, out.limit);
      if err.Some? {
        assert Layout(ls, i + 1, out.limit) == Stopped(err.value, i, out.State());
        StoppedIsFinal(ls, i + 1, n, out.limit);
        assert Reached(Layout(ls, n, out.limit), n, err, out.State(), reports);
        return;
      }
      if (i + 1) % NotificationInterval == 0 {
        reports := reports + [(i + 1) / NotificationInterval];
      }
      i := i + 1;
    }
    err := None;
    assert i == n;
    assert Layout(ls, n, out.limit) == Running(out.State());
    assert Reached(Layout(ls, n, out.limit), n, err, out.State(), reports);
  }

  /** `joinBlocks` followed by `out.Truncate` to the final cursor: the raw
      image then holds every block, trailing holes included. */
  method JoinBlocksFullLength(dir: Option<Listing>, target: Target)
    returns (err: Option<IoError>, out: RawFile?, reports: seq<nat>)
    ensures dir.Some? && MaxIndex(dir.value) >= 0 && target.creatable ==>
      && out != null && fresh(out)
      && match Layout(dir.value, BlockCount(MaxIndex(dir.value)), target.limit)
         case Running(_) =>
           err == None && out.data == Flat(dir.value, BlockCount(MaxIndex(dir.value)))
           && reports == Reports(BlockCount(MaxIndex(dir.value)))
         case Stopped(e, at, s) =>
           err == Some(e) && out.State() == s && reports == Reports(at)
    ensures (dir.None? || MaxIndex(dir.value) < 0 || !target.creatable) ==> out == null && err.Some?
  {
    err, out, reports := JoinBlocks(dir, target);
    if err.None? && out != null {
      ExtendedLayoutIsFlat(dir.value, BlockCount(MaxIndex(dir.value)), target.limit);
      var _ := out.Truncate(out.cursor);
    }
  }
}
