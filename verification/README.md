# xva2qcow2 block reassembly, in Dafny

`xva2qcow2` converts a XenServer/XCP-ng XVA export into a qcow2 image. It
unpacks the XVA tar archive. Inside it finds the `Ref:<n>` directory that
holds one disk as numbered 1 MiB block files. It joins those blocks into a
raw image, then hands the raw image to `qemu-img convert`.

This project models the part of the program that decides what the raw image
contains, and proves properties of that model:

- **`joinBlocks`** scans the block directory for the largest name that
  `strconv.Atoi` accepts; that gives `totalBlocks = maxNum + 1`. It then walks
  `i = 0 .. totalBlocks-1`. When a file named `fmt.Sprintf("%08d", i)` exists,
  it is copied to the output in reads of at most 1 MiB. Otherwise the output
  cursor seeks 1 MiB forward. A progress line is printed every 1024 blocks.
  The first error stops everything.
  - Imperative, in `join.dfy`, over the `RawImage.RawFile` class (data,
    cursor, size limit).
  - Specified by the functions of `reassembly.dfy`, which lay out the disk
    block by block.
- **`autoDetectRefDir`** finds the first sub-directory whose name starts with
  a prefix (`ref_dir.dfy`).
- **The `-r` policy of `main`** chooses the prefix and falls back to the
  extraction directory (`ref_dir.dfy`).
- **The output-name rule of `main`** forces the `.qcow2` extension
  (`output_name.dfy`).

Modules:

- `Wrappers`: `Option`.
- `Numbers`:
  - `strconv.Atoi` (an optional sign, decimal digits, 64-bit range);
  - `%08d`;
  - the fact that a block is looked up only under its canonical name.
- `Filesystem`:
  - a directory listing as `ioutil.ReadDir` returns it (entries sorted by
    name);
  - `os.Stat` as a lookup by exact name;
  - files that fail to open or fail part-way through reading.
- `RawImage`: the output file as a `class` with a cursor.
  - A write past the end zero-fills the gap.
  - A seek moves only the cursor.
  - `limit` is the largest file size the filesystem accepts. A seek past it
    fails; a write past it is short and fails.
- `Reassembly`: the specification of `joinBlocks` as functions of the
  listing, and the lemmas about it.
- `Join`: `joinBlocks` itself, as methods with loops proved against
  `Reassembly`.
- `RefDir`, `OutputName`: the decisions in `main`.

In four places the model follows what the code does rather than what the tool
evidently sets out to do:

- The raw image is meant to be `totalBlocks` MiB, so that `qemu-img` sees the
  whole disk. The code leaves the file short when the last blocks are
  missing; see Findings.
- Only zero-padded block names are meant to count. In the code, a name such
  as `5`, `+5` or `005` still raises `maxNum`, but its block is never read:
  it becomes a hole.
- An XVA with several disks holds several `Ref:` directories. The code
  converts only the first match.
- The code falls back to the extraction directory only when `-r` is empty.
  That includes the case where the listing fails.

## Model

| member | source | states |
|---|---|---|
| Numbers.AtoiBlockName | xva2qcow2.go:93 | a `%08d` name has at least eight digits and `Atoi` reads it back as its index, whenever the index fits in an `int` |
| Numbers.BlockNameInjective | xva2qcow2.go:93 | two different indices never get the same file name |
| Numbers.ParsedNameIsReadOnlyAsItsOwnBlock | xva2qcow2.go:71 | a name that parses to `n` is looked up for index `i` only if `i == n` and the name is exactly `BlockName(n)` |
| Numbers.NonCanonicalSpellings | xva2qcow2.go:71 | `5`, `+5` and `005` all parse to 5, but no index is ever looked up under any of them; block 5 is `00000005` |
| Filesystem.LookupFinds | xva2qcow2.go:95 | `os.Stat` finds a node exactly when some entry has that name, and what it finds is that entry's node |
| Filesystem.SortedNamesDistinct | xva2qcow2.go:62 | in a listing sorted by name, as `ioutil.ReadDir` returns it, no two entries share a name |
| RawImage.OverwriteBytes | xva2qcow2.go:104 | after a write, the written range holds the new bytes, other bytes keep their old value, and a gap before the write reads as zero |
| RawImage.WriteAtAppends | xva2qcow2.go:104 | at or past the end of the file, a write appends a zero hole up to the cursor and then the bytes that fit below the limit; it succeeds exactly when all of them fit |
| RawImage.WritesCompose | xva2qcow2.go:101-108 | a complete write followed by another leaves the same file as one write of both halves |
| RawImage.RawFile.Create | xva2qcow2.go:81 | `os.Create` gives an empty file with its cursor at 0 |
| RawImage.RawFile.Write | xva2qcow2.go:104 | the new file state and the result are those of `WriteAt` on the old state |
| RawImage.RawFile.Seek | xva2qcow2.go:120 | the new file state and the result are those of `SeekBy`: only the cursor moves, and it fails past the limit |
| Reassembly.MaxIndex | xva2qcow2.go:66-75 | `maxNum` is at least every number that a non-directory name parses to; when it is not -1, some such entry has that number |
| Reassembly.BlockCountOfMaxIndex | xva2qcow2.go:79 | the loop covers exactly `0..maxNum`; when `maxNum` is the largest `int`, `maxNum + 1` wraps and the loop never runs |
| Reassembly.ReportsCount | xva2qcow2.go:124-126 | after `n` blocks, `n / 1024` progress lines have been printed, and the k-th reports k GB |
| Reassembly.CopyIsOneWrite | xva2qcow2.go:100-116 | copying a file chunk by chunk writes its bytes exactly once and in order, the same as one write of the whole file; it fails exactly when they do not fit |
| Reassembly.BlockStepAppends | xva2qcow2.go:95-123 | one block that succeeds moves the cursor by the block's size. A present block is appended after the hole up to the cursor; a missing block leaves the file unchanged and counts as zeros |
| Reassembly.LayoutShape | xva2qcow2.go:92-127 | while the loop runs, the cursor is at the end of the laid-out blocks (below the limit). The file is that layout up to its last write, and everything after is zero |
| Reassembly.LayoutLength | xva2qcow2.go:118-123 | the file ends where the last write ended, not at the cursor |
| Reassembly.BlockStepRunsIff | xva2qcow2.go:95-123 | a block goes through iff it opens and reads to its end (or is missing) and fits below the size limit |
| Reassembly.LayoutRunsIff | xva2qcow2.go:92-127 | the first `n` blocks go through without error iff every one is readable and the laid-out disk fits below the size limit |
| Reassembly.StoppedIsFinal | xva2qcow2.go:92-127 | after the first error, later indices change nothing: no block after the failing one is read or written |
| Reassembly.StoppedAtItsBlock | xva2qcow2.go:92-127 | an error belongs to one block: every block before it went through, and the output is what that block's step left |
| Reassembly.FullBlocks | xva2qcow2.go:92-127 | when every block has the same size `b`, the disk is `n * b` bytes, and range `[i*b, (i+1)*b)` is file `BlockName(i)` or, where that file is missing, zeros |
| Reassembly.LookupCanonical | xva2qcow2.go:93-95 | removing the entries whose names are not canonical block names changes no lookup the loop makes |
| Reassembly.OnlyBlockNamesAreRead | xva2qcow2.go:92-127 | over the same number of blocks, removing those entries changes nothing in the output, the errors or where the loop stops. The number of blocks itself can change: `5` still raises `maxNum` |
| Reassembly.NothingWritten | xva2qcow2.go:118-123 | when every block is missing, nothing is written and every block is a hole |
| Reassembly.NoBlockIsNamedFive | xva2qcow2.go:93 | a directory whose only file is `5` has no file under any block name |
| Reassembly.TrailingHolesLeaveFileShort | xva2qcow2.go:118-123 | a directory whose only file is `5` gives six blocks; the loop succeeds and leaves an empty file with its cursor at 6 MiB |
| Reassembly.ExtendedLayoutIsFlat | xva2qcow2.go:118-123 | truncating the finished file to its cursor succeeds and yields exactly the laid-out disk, trailing holes included |
| Join.ScanMaxIndex | xva2qcow2.go:66-75 | the scan loop computes `MaxIndex` of the listing |
| Join.CopyNode | xva2qcow2.go:100-116 | the read/write loop leaves the output as `Copy` does. It reports the write error, or the read error, or nothing |
| Join.ProcessBlock | xva2qcow2.go:93-123 | one iteration does what `BlockStep` says: it copies, seeks or fails, with the matching error |
| Join.JoinBlocks | xva2qcow2.go:61-130 | failing `ReadDir`, no numeric name, and failing `Create` each return their error without creating anything. Otherwise the output and the progress lines are those of `Layout` over `BlockCount(MaxIndex)` blocks; on an error, they are those of the block where it happened |
| Join.JoinBlocksFullLength | xva2qcow2.go:118-123 | `joinBlocks` followed by truncation to the cursor: on success, the output is exactly the laid-out disk, trailing holes included |
| RefDir.FirstMatchIsFirst | xva2qcow2.go:138-142 | the search finds nothing iff no entry is a directory with the prefix. What it finds is such an entry, with none before it |
| RefDir.AutoDetectRefDir | xva2qcow2.go:133-144 | `""` iff the listing fails or no sub-directory has the prefix; otherwise the joined path of the first one |
| RefDir.SmallestMatchIsDetected | xva2qcow2.go:133-144 | with the listing sorted by name, the detected directory's name comes before every other matching name |
| RefDir.FirstMatchSkipsFiles | xva2qcow2.go:139 | the search finds the same entry whether or not files are in the listing |
| RefDir.FilesAreIgnored | xva2qcow2.go:139 | removing all files from the listing detects the same directory |
| RefDir.PrefixPolicy | xva2qcow2.go:189-192 | the prefix searched for always contains `:`; it is the `-r` value iff that value contains `:` |
| RefDir.FlagGivenNoFallback | xva2qcow2.go:187-203 | with `-r` given, the result is an error iff no sub-directory has the prefix; otherwise it is a matching directory, never the extraction directory by fallback |
| RefDir.FlagWithoutColonIsRef | xva2qcow2.go:189-193 | a `-r` value without `:` acts exactly like `-r Ref:` |
| RefDir.NoFlagFallsBackToRoot | xva2qcow2.go:194-205 | without `-r`, the first `Ref:` directory is used, or else the extraction directory; this cannot fail unless the extraction path is empty |
| OutputName.DotScanFinds | xva2qcow2.go:158 | where the backward scan stops at a `.`, no `.` or `/` follows in the scanned part; where it finds none, every `.` has a `/` after it |
| OutputName.ExtStartsAtLastDot | xva2qcow2.go:158 | a non-empty extension starts with `.` and contains no other `.` and no `/` |
| OutputName.NoExtNoDot | xva2qcow2.go:158 | the extension is empty only when the final path element has no `.` |
| OutputName.ExtOfQcow2 | xva2qcow2.go:160 | after `.qcow2` is appended to any path, `.qcow2` is its extension |
| OutputName.NormalizedExtIsQcow2 | xva2qcow2.go:158-161 | the result's extension always lower-cases to `.qcow2` |
| OutputName.NormalizeIdempotent | xva2qcow2.go:158-161 | normalising twice gives the same result as normalising once |
| OutputName.NormalizeKeepsIff | xva2qcow2.go:158-161 | a path is left unchanged iff its extension already lower-cases to `.qcow2` |

## Left out

- `extractXVA` (xva2qcow2.go:19-58): tar parsing is not modelled. The block directory is given as a listing.
- The `qemu-img convert` call, the removal of the temporary files, and `os.Exit`: these are external processes and process control.
- Flag parsing, `filepath.Abs`, `filepath.Dir`/`Base`, and the temporary raw path: these are path plumbing outside the decisions modelled here.
- The "last file" and "disk image size" prints (xva2qcow2.go:88-89): the size is a floating-point value and is only printed. The other fixed messages are also left out. The progress lines are modelled as the numbers they print.
- Only one disk is modelled: the program reads a single `Ref:` directory.
- Time and concurrency: none in the core.
- Errors from `os.Stat`: the model treats every failing `Stat` as a missing block, as the code does (xva2qcow2.go:95, 118). Other failure kinds are not distinguished.
- Reads are modelled as returning exactly `min(1 MiB, remaining)` bytes. Go's `Read` may return fewer. `Reassembly.CopyIsOneWrite` covers only the fixed chunking; it shows that this chunking gives the same result as one write of the whole file. Shorter reads are neither modelled nor proved.
- `OutputName.Lower`: models `strings.ToLower` on ASCII letters only. Only the Kelvin sign and dotted capital I lower-case to ASCII letters (`k`, `i`), and neither letter is in `.qcow2`, so the comparison with `.qcow2` comes out the same; non-ASCII extensions are otherwise not lower-cased.
- Reassembly.BlockStepRunsIff: the only write failure modelled is reaching the file-size limit `limit`. The half "readable and fits, so it goes through" does not hold for a real write that fails below the limit, through a full disk (ENOSPC), a quota or an I/O error.
- Reassembly.LayoutRunsIff: the same gap. Write failures other than the size limit are not modelled, so in the model a readable layout that fits always goes through.
- Join.JoinBlocksFullLength: a block file shorter than 1 MiB moves the cursor only by the bytes read. So when the last block file is empty or short, the image is still shorter than `totalBlocks` MiB after truncating to the cursor. Only trailing missing blocks are made up for.
- `RefDir.JoinPath`: `filepath.Join` is modelled as `base + "/" + name`, without `Clean`.

## Findings

| source | as written | input that shows it | evidently intended | confidence | as-written member | corrected member |
|---|---|---|---|---|---|---|
| xva2qcow2.go:118-123 | a missing block is skipped with `out.Seek`, which moves the cursor but does not lengthen the file, and nothing extends the file after the loop, so trailing missing blocks are lost | a block directory whose only file is `5`: `maxNum` is 5, six blocks are walked, all missing; the raw file stays at 0 bytes with its cursor at 6 MiB. | the raw image is `totalBlocks` MiB, with trailing missing blocks read as zeros so that `qemu-img` sees the whole disk | not executed | Reassembly.TrailingHolesLeaveFileShort | Join.JoinBlocksFullLength |
