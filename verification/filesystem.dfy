/** The directory a disk's blocks were extracted to, as `ioutil.ReadDir`
    lists it and as `os.Stat`/`os.Open` find entries in it. */
module Filesystem {
  import opened Wrappers

  newtype byte = b: int | 0 <= b < 256

  /** How reading an input file goes wrong, if it does: opening it fails, or
      every read after the first `k` bytes returns an error. */
  datatype Fault = Healthy | OpenFails | ReadFailsAfter(k: nat)

  /** An entry of a directory: a sub-directory, or a regular file with its
      bytes and the fault its reads run into. */
  datatype Node = Directory | File(content: seq<byte>, fault: Fault)

  datatype Entry = Entry(name: string, node: Node)

  /** A directory listing in the order `ioutil.ReadDir` returns it. */
  type Listing = seq<Entry>

  /** Whether `os.Stat(filepath.Join(dir, name))` succeeds, and what it finds. */
  function Lookup(ls: Listing, name: string): Option<Node>
  {
    if |ls| == 0 then None
    else if ls[0].name == name then Some(ls[0].node)
    else Lookup(ls[1..], name)
  }

  /** The lookup finds a node exactly when some entry carries the name, and
      what it finds is that entry's node. */
  lemma {:induction false} LookupFinds(ls: Listing, name: string)
    ensures Lookup(ls, name).None? <==> forall k :: 0 <= k < |ls| ==> ls[k].name != name
    ensures Lookup(ls, name).Some? ==> exists k :: 0 <= k < |ls| && ls[k] == Entry(name, Lookup(ls, name).value)
  {
    if |ls| > 0 && ls[0].name != name {
      LookupFinds(ls[1..], name);
      assert forall k :: 1 <= k < |ls| ==> ls[k] == ls[1..][k - 1];
      if Lookup(ls, name).Some? {
        var k :| 0 <= k < |ls[1..]| && ls[1..][k] == Entry(name, Lookup(ls, name).value);
        assert ls[k + 1] == ls[1..][k];
      }
    }
  }

  /** Go's `<` on strings: byte-wise lexicographic order of the UTF-8
      encodings, which is the code-point order of the characters. */
  predicate NameLess(a: string, b: string)
  {
    if |a| == 0 then |b| > 0
    else if |b| == 0 then false
    else if a[0] != b[0] then a[0] < b[0]
    else NameLess(a[1..], b[1..])
  }

  /** `ioutil.ReadDir` returns the entries sorted by name; names in one
      directory are distinct. */
  predicate SortedByName(ls: Listing)
  {
    forall i, j :: 0 <= i < j < |ls| ==> NameLess(ls[i].name, ls[j].name)
  }

  /** No name is before itself, so a sorted listing never names an entry twice. */
  lemma {:induction false} NameLessIrreflexive(a: string)
    ensures !NameLess(a, a)
    decreases |a|
  {
    if |a| > 0 {
      NameLessIrreflexive(a[1..]);
    }
  }

  /** In a listing sorted by name no two entries share a name, so the entry
      a lookup finds is the only one with that name. */
  lemma SortedNamesDistinct(ls: Listing)
    requires SortedByName(ls)
    ensures forall i, j :: 0 <= i < j < |ls| ==> ls[i].name != ls[j].name
  {
    forall i, j | 0 <= i < j < |ls|
      ensures ls[i].name != ls[j].name
    {
      NameLessIrreflexive(ls[i].name);
    }
  }
}
