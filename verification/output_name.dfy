/** The output-name rule of `main` (xva2qcow2.go:158-161): an output path
    whose extension is not `.qcow2`, in any letter case, has that extension
    replaced by `.qcow2`. */
module OutputName {
  const Qcow2Ext: string := ".qcow2"

  /** The scan of `filepath.Ext` over the first `i` characters of the path,
      from the end: the position of the `.` it stops at, or `|path|` when it
      reaches a `/` or the start of the path first. */
  function DotScan(path: string, i: nat): (r: nat)
    requires i <= |path|
    ensures r == |path| || r < i
  {
    if i == 0 then |path|
    else if path[i - 1] == '/' then |path|
    else if path[i - 1] == '.' then i - 1
    else DotScan(path, i - 1)
  }

  /** `filepath.Ext`: the suffix from the last `.` of the final path
      element, or `""` when that element has no `.`. */
  function Ext(path: string): string
  {
    path[DotScan(path, |path|)..]
  }

  /** Where the scan stops at a `.`, no `.` and no `/` follow it within the
      scanned part; where it finds none, every scanned `.` has a `/` after it. */
  lemma {:induction false} DotScanFinds(path: string, i: nat)
    requires i <= |path|
    ensures var r := DotScan(path, i);
            r < |path| ==> path[r] == '.' && forall k :: r < k < i ==> path[k] != '.' && path[k] != '/'
    ensures var r := DotScan(path, i);
            r == |path| ==> forall k :: 0 <= k < i && path[k] == '.' ==> exists j :: k < j < i && path[j] == '/'
  {
    if i > 0 && path[i - 1] != '/' && path[i - 1] != '.' {
      DotScanFinds(path, i - 1);
    }
  }

  /** A non-empty extension starts with `.` and holds no other `.` and no
      `/`: it starts at the last `.` of the final path element. */
  lemma ExtStartsAtLastDot(path: string)
    requires Ext(path) != ""
    ensures Ext(path)[0] == '.'
    ensures forall k :: 1 <= k < |Ext(path)| ==> Ext(path)[k] != '.' && Ext(path)[k] != '/'
  {
    DotScanFinds(path, |path|);
    var r := DotScan(path, |path|);
    assert forall k :: 1 <= k < |Ext(path)| ==> Ext(path)[k] == path[r + k];
  }

  /** The extension is empty only when the final path element has no `.`:
      every `.` of the path has a `/` after it. */
  lemma NoExtNoDot(path: string)
    requires Ext(path) == ""
    ensures forall k :: 0 <= k < |path| && path[k] == '.' ==> '/' in path[k + 1..]
  {
    DotScanFinds(path, |path|);
    var r := DotScan(path, |path|);
    assert r == |path|;
    forall k | 0 <= k < |path| && path[k] == '.'
      ensures '/' in path[k + 1..]
    {
      var j :| k < j < |path| && path[j] == '/';
      assert path[k + 1..][j - k - 1] == '/';
    }
  }

  /** `strings.TrimSuffix`. */
  function TrimSuffix(s: string, suffix: string): string
  {
    if |suffix| <= |s| && s[|s| - |suffix|..] == suffix then s[..|s| - |suffix|] else s
  }

  function LowerChar(c: char): char
  {
    if 'A' <= c <= 'Z' then (c as int - 'A' as int + 'a' as int) as char else c
  }

  /** `strings.ToLower`, on the ASCII letters. */
  function Lower(s: string): (r: string)
    ensures |r| == |s|
    ensures forall k :: 0 <= k < |s| ==> r[k] == LowerChar(s[k])
  {
    seq(|s|, k requires 0 <= k < |s| => LowerChar(s[k]))
  }

  /** The output path after the extension check. */
  function Normalize(path: string): string
  {
    if Lower(Ext(path)) != Qcow2Ext then TrimSuffix(path, Ext(path)) + Qcow2Ext
    else path
  }

  /** The part of the path before its extension. */
  function Stem(path: string): string
  {
    path[..DotScan(path, |path|)]
  }

  /** After a path ending in `.`, the scan over characters that are neither
      `.` nor `/` stops at that `.`. */
  lemma {:induction false} ScanAfterDot(p: string, d: nat, i: nat)
    requires 0 < d <= i <= |p| && p[d - 1] == '.'
    requires forall k :: d <= k < |p| ==> p[k] != '.' && p[k] != '/'
    ensures DotScan(p, i) == d - 1
  {
    if i > d {
      ScanAfterDot(p, d, i - 1);
    }
  }

  /** Appending `.qcow2` to any path makes it the extension. */
  lemma ExtOfQcow2(stem: string)
    ensures Ext(stem + Qcow2Ext) == Qcow2Ext
  {
    var p := stem + Qcow2Ext;
    ScanAfterDot(p, |stem| + 1, |p|);
  }

  /** A path whose extension is not `.qcow2` keeps its stem and gets the
      extension `.qcow2`; one whose extension already is `.qcow2`, in any
      letter case, is left alone. */
  lemma NormalizeShape(path: string)
    ensures Lower(Ext(path)) == Qcow2Ext ==> Normalize(path) == path
    ensures Lower(Ext(path)) != Qcow2Ext ==> Normalize(path) == Stem(path) + Qcow2Ext
  {
  }

  lemma LowerQcow2()
    ensures Lower(Qcow2Ext) == Qcow2Ext
  {
    assert Lower(Qcow2Ext) == Qcow2Ext;
  }

  /** The extension of the result always lower-cases to `.qcow2`. */
  lemma NormalizedExtIsQcow2(path: string)
    ensures Lower(Ext(Normalize(path))) == Qcow2Ext
  {
    if Lower(Ext(path)) != Qcow2Ext {
      NormalizeShape(path);
      ExtOfQcow2(Stem(path));
      LowerQcow2();
    }
  }

  /** Normalizing twice is normalizing once. */
  lemma NormalizeIdempotent(path: string)
    ensures Normalize(Normalize(path)) == Normalize(path)
  {
    NormalizedExtIsQcow2(path);
  }

  /** A path is left as it is exactly when its extension already
      lower-cases to `.qcow2`. */
  lemma NormalizeKeepsIff(path: string)
    ensures Normalize(path) == path <==> Lower(Ext(path)) == Qcow2Ext
  {
    if Lower(Ext(path)) != Qcow2Ext && Normalize(path) == path {
      NormalizedExtIsQcow2(path);
    }
  }
}
