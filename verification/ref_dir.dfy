/** Choosing the directory the blocks are read from: `autoDetectRefDir`
    (xva2qcow2.go:133-144) and the `-r` policy of `main`
    (xva2qcow2.go:187-205). */
module RefDir {
  import opened Wrappers
  import opened Filesystem

  /** The prefix of the directories an XVA archive keeps its disks in. */
  const DefaultPrefix: string := "Ref:"

  /** `filepath.Join(base, name)` for a base directory and a plain entry name. */
  function JoinPath(base: string, name: string): string
  {
    base + "/" + name
  }

  /** `entry.IsDir() && strings.HasPrefix(entry.Name(), prefix)`. */
  predicate IsMatch(e: Entry, prefix: string)
  {
    e.node.Directory? && prefix <= e.name
  }

  /** The position of the first matching entry of the listing, if any. */
  function FirstMatch(ls: Listing, prefix: string): (r: Option<nat>)
    ensures r.Some? ==> r.value < |ls|
  {
    if |ls| == 0 then None
    else if IsMatch(ls[0], prefix) then Some(0)
    else
      match FirstMatch(ls[1..], prefix)
      case None => None
      case Some(k) => Some(k + 1)
  }

  /** The search finds nothing exactly when no entry matches, and what it
      finds matches and has no match before it. */
  lemma {:induction false} FirstMatchIsFirst(ls: Listing, prefix: string)
    ensures var r := FirstMatch(ls, prefix);
            r.None? <==> forall k :: 0 <= k < |ls| ==> !IsMatch(ls[k], prefix)
    ensures var r := FirstMatch(ls, prefix);
            r.Some? ==> IsMatch(ls[r.value], prefix) && forall k :: 0 <= k < r.value ==> !IsMatch(ls[k], prefix)
  {
    if |ls| > 0 && !IsMatch(ls[0], prefix) {
      FirstMatchIsFirst(ls[1..], prefix);
      assert forall k :: 1 <= k < |ls| ==> ls[k] == ls[1..][k - 1];
    }
  }

  /** `autoDetectRefDir(base, prefix)`, where `dir` is what `ioutil.ReadDir(base)`
      returns (`None` when it fails). The result is `""` when the listing
      fails or nothing matches, and otherwise the path of the first matching
      sub-directory. */
  function AutoDetectRefDir(base: string, dir: Option<Listing>, prefix: string): (r: string)
    ensures r == "" <==> dir.None? || forall k :: 0 <= k < |dir.value| ==> !IsMatch(dir.value[k], prefix)
    ensures r != "" ==> exists k :: (0 <= k < |dir.value| && IsMatch(dir.value[k], prefix)
      && r == JoinPath(base, dir.value[k].name)
      && forall j :: 0 <= j < k ==> !IsMatch(dir.value[j], prefix))
  {
    match dir
    case None => ""
    case Some(ls) =>
      FirstMatchIsFirst(ls, prefix);
      match FirstMatch(ls, prefix)
      case None => ""
      case Some(k) => JoinPath(base, ls[k].name)
  }

  /** Since `ioutil.ReadDir` sorts its entries by name, the detected
      directory is the matching one whose name comes first. */
  lemma SmallestMatchIsDetected(base: string, ls: Listing, prefix: string)
    requires SortedByName(ls)
    requires exists k :: 0 <= k < |ls| && IsMatch(ls[k], prefix)
    ensures exists k :: (0 <= k < |ls| && IsMatch(ls[k], prefix)
      && AutoDetectRefDir(base, Some(ls), prefix) == JoinPath(base, ls[k].name)
      && forall j :: 0 <= j < |ls| && j != k && IsMatch(ls[j], prefix) ==> NameLess(ls[k].name, ls[j].name))
  {
    FirstMatchIsFirst(ls, prefix);
    var k := FirstMatch(ls, prefix).value;
    forall j | 0 <= j < |ls| && j != k && IsMatch(ls[j], prefix)
      ensures NameLess(ls[k].name, ls[j].name)
    {
      assert k < j;
    }
  }

  /** The listing with its files removed. */
  function Directories(ls: Listing): Listing
  {
    if |ls| == 0 then []
    else if ls[0].node.Directory? then [ls[0]] + Directories(ls[1..])
    else Directories(ls[1..])
  }

  /** Removing the files keeps the first match: it is found in both
      listings or in neither, and it is the same entry. */
  lemma {:induction false} FirstMatchSkipsFiles(ls: Listing, prefix: string)
    ensures FirstMatch(Directories(ls), prefix).Some? == FirstMatch(ls, prefix).Some?
    ensures FirstMatch(ls, prefix).Some? ==>
      Directories(ls)[FirstMatch(Directories(ls), prefix).value] == ls[FirstMatch(ls, prefix).value]
  {
    if |ls| > 0 {
      FirstMatchSkipsFiles(ls[1..], prefix);
      if ls[0].node.Directory? {
        var ds := Directories(ls);
        assert ds[0] == ls[0] && ds[1..] == Directories(ls[1..]);
      } else {
        assert Directories(ls) == Directories(ls[1..]);
      }
    }
  }

  /** Files never take part in the detection: removing them all detects the
      same directory. */
  lemma FilesAreIgnored(base: string, ls: Listing, prefix: string)
    ensures AutoDetectRefDir(base, Some(Directories(ls)), prefix) ==
            AutoDetectRefDir(base, Some(ls), prefix)
  {
    FirstMatchSkipsFiles(ls, prefix);
  }

  /** The prefix searched for when `-r` is given: the flag itself when it
      contains `:`, `Ref:` otherwise. */
  function EffectivePrefix(flag: string): string
  {
    if ':' in flag then flag else DefaultPrefix
  }

  /** The prefix searched for always contains `:`, and it is the flag
      exactly when the flag contains `:`. */
  lemma PrefixPolicy(flag: string)
    ensures ':' in EffectivePrefix(flag)
    ensures EffectivePrefix(flag) == flag <==> ':' in flag
  {
    assert DefaultPrefix[3] == ':';
  }

  /** `refDir` as `main` settles it from the `-r` flag, the extraction
      directory `root` and its listing; `None` is the "could not detect the
      block directory" exit. */
  function ResolveRefDir(flag: string, root: string, dir: Option<Listing>): Option<string>
  {
    var refDir :=
      if flag != "" then AutoDetectRefDir(root, dir, EffectivePrefix(flag))
      else
        var found := AutoDetectRefDir(root, dir, DefaultPrefix);
        if found == "" then root else found;
    if refDir == "" then None else Some(refDir)
  }

  /** With `-r` given, the outcome is the detection for the effective
      prefix: an error exactly when no sub-directory matches, and never the
      extraction directory itself by fallback. */
  lemma FlagGivenNoFallback(flag: string, root: string, dir: Option<Listing>)
    requires flag != ""
    ensures ResolveRefDir(flag, root, dir).None? <==>
      dir.None? || forall k :: 0 <= k < |dir.value| ==> !IsMatch(dir.value[k], EffectivePrefix(flag))
    ensures ResolveRefDir(flag, root, dir).Some? ==>
      exists k :: 0 <= k < |dir.value| && IsMatch(dir.value[k], EffectivePrefix(flag))
        && ResolveRefDir(flag, root, dir).value == JoinPath(root, dir.value[k].name)
  {
  }

  /** A `-r` value without `:` is not used at all: it acts as `-r Ref:`. */
  lemma FlagWithoutColonIsRef(flag: string, root: string, dir: Option<Listing>)
    requires flag != "" && ':' !in flag
    ensures ResolveRefDir(flag, root, dir) == ResolveRefDir(DefaultPrefix, root, dir)
  {
    PrefixPolicy(DefaultPrefix);
  }

  /** Without `-r`, the first `Ref:` sub-directory is used, and failing that
      the extraction directory itself; the only error left is an empty
      extraction path. */
  lemma NoFlagFallsBackToRoot(root: string, dir: Option<Listing>)
    ensures (dir.Some? && exists k :: 0 <= k < |dir.value| && IsMatch(dir.value[k], DefaultPrefix)) ==>
      ResolveRefDir("", root, dir) == Some(AutoDetectRefDir(root, dir, DefaultPrefix))
    ensures (dir.None? || forall k :: 0 <= k < |dir.value| ==> !IsMatch(dir.value[k], DefaultPrefix)) ==>
      ResolveRefDir("", root, dir) == (if root == "" then None else Some(root))
    ensures root != "" ==> ResolveRefDir("", root, dir).Some?
  {
  }
}
