/** The difference between two manifests, as `ContentDifference.__init__`
    (src/lib/dreams_upgrade.py) computes it: which paths were added, removed or
    given a new fingerprint. */
module Diffs {
  import opened Wrappers
  import opened Seqs
  import opened PyStr
  import opened Manifest

  /** The value held by a `ContentDifference`: the three lists and the two version
      labels (`None` unless set afterwards). */
  datatype Difference = Difference(
    added: seq<Path>,
    removed: seq<Path>,
    modified: seq<Path>,
    oldVersion: Option<String>,
    newVersion: Option<String>)
  {
    predicate IsEmpty() {
      added == [] && removed == [] && modified == []
    }
  }

  /** `ContentDifference(old_content, new_content)`: removed paths in the old
      manifest's order, added and modified paths in the new manifest's order. */
  function Compare(before: Content, after: Content): (d: Difference)
    ensures forall p :: p in d.added <==> p in after.paths && p !in before.hashes
    ensures forall p :: p in d.removed <==> p in before.paths && p !in after.hashes
    ensures forall p :: p in d.modified <==>
      p in after.paths && p in before.hashes && p in after.hashes && before.hashes[p] != after.hashes[p]
    ensures d.oldVersion == None && d.newVersion == None
  {
    Difference(
      Filter(after.paths, p => p !in before.hashes),
      Filter(before.paths, p => p !in after.hashes),
      Filter(after.paths, p => p in before.hashes && p in after.hashes && before.hashes[p] != after.hashes[p]),
      None, None)
  }

  /** On well-formed manifests each list is exactly the set of keys it names, none
      holds a path twice, and no path is in two lists. */
  lemma CompareClassifies(before: Content, after: Content, p: Path)
    requires before.Valid() && after.Valid()
    ensures var d := Compare(before, after);
            && (p in d.added <==> p in after.hashes && p !in before.hashes)
            && (p in d.removed <==> p in before.hashes && p !in after.hashes)
            && (p in d.modified <==> p in before.hashes && p in after.hashes && before.hashes[p] != after.hashes[p])
            && Distinct(d.added) && Distinct(d.removed) && Distinct(d.modified)
  {
    assert p in after.paths <==> p in Elems(after.paths);
    assert p in before.paths <==> p in Elems(before.paths);
    FilterDistinct(after.paths, p => p !in before.hashes);
    FilterDistinct(before.paths, p => p !in after.hashes);
    FilterDistinct(after.paths, p => p in before.hashes && p in after.hashes && before.hashes[p] != after.hashes[p]);
  }

  /** A path in neither list is one both manifests hold with the same fingerprint,
      or one neither holds. */
  lemma CompareUnlisted(before: Content, after: Content, p: Path)
    requires before.Valid() && after.Valid()
    requires var d := Compare(before, after); p !in d.added && p !in d.removed && p !in d.modified
    ensures p in before.hashes <==> p in after.hashes
    ensures p in before.hashes ==> before.hashes[p] == after.hashes[p]
  {
    CompareClassifies(before, after, p);
  }

  /** A manifest compared with itself gives an empty difference. */
  lemma CompareSelf(c: Content)
    requires c.Valid()
    ensures Compare(c, c).IsEmpty()
  {
    assert forall p | p in c.paths :: p in Elems(c.paths);
    FilterNone(c.paths, p => p !in c.hashes);
    FilterNone(c.paths, p => p in c.hashes && p in c.hashes && c.hashes[p] != c.hashes[p]);
  }

  /** Comparing the other way round swaps the added and the removed lists and
      modifies the same paths. */
  lemma CompareSwapped(before: Content, after: Content)
    requires before.Valid() && after.Valid()
    ensures Compare(after, before).added == Compare(before, after).removed
    ensures Compare(after, before).removed == Compare(before, after).added
    ensures Elems(Compare(after, before).modified) == Elems(Compare(before, after).modified)
  {
    FilterCongruent(before.paths, p => p !in after.hashes, p => p !in after.hashes);
    FilterCongruent(after.paths, p => p !in before.hashes, p => p !in before.hashes);
    forall p ensures p in Compare(after, before).modified <==> p in Compare(before, after).modified {
      CompareClassifies(before, after, p);
      CompareClassifies(after, before, p);
    }
  }
}
