/** The content manifest in the form the sidecar file gives it: the parser
    `get_version_content` and the revalidation of a cached manifest against the
    files on disk (src/lib/dreams_upgrade.py). */
module Manifest {
  import opened Seqs
  import opened PyStr

  type Path = String
  type Fingerprint = String

  /** A Python dict from relative path to fingerprint: its keys in insertion order,
      and the mapping itself. */
  datatype Content = Content(paths: seq<Path>, hashes: map<Path, Fingerprint>) {

    /** The keys are listed once each, and exactly the keys of the mapping. */
    ghost predicate Valid() {
      && Distinct(paths)
      && Elems(paths) == hashes.Keys
    }

    /** `d[k] = v`: a new key goes to the end, an existing key keeps its place. */
    function Put(k: Path, v: Fingerprint): (r: Content)
      ensures Valid() ==> r.Valid()
      ensures r.hashes == hashes[k := v]
      ensures r.paths == if k in hashes then paths else paths + [k]
    {
      if k in hashes then Content(paths, hashes[k := v]) else Content(paths + [k], hashes[k := v])
    }

    /** `del d[k]`. */
    function Delete(k: Path): (r: Content)
      requires Valid()
      ensures r.Valid()
      ensures r.hashes == hashes - {k}
      ensures r.paths == Without(paths, {k})
    {
      WithoutDistinct(paths, {k});
      var r := Content(Without(paths, {k}), hashes - {k});
      assert Elems(r.paths) == Elems(paths) - {k};
      r
    }
  }

  const Empty: Content := Content([], map[])

  /** One sidecar line: stripped, backslashes turned into slashes, then cut at the
      colons (`line.split(":")[0]` and `[1]`); a line without a colon is a key
      with the fingerprint "". */
  function ParseLine(line: String): (Path, Fingerprint) {
    var stripped := ReplaceChar(Strip(line), '\\', '/');
    if ':' in stripped then
      var split := Split(stripped, ':');
      SplitFirstFields(stripped, ':');
      (split[0], split[1])
    else (stripped, [])
  }

  /** With a colon, the key is the text before the first colon and the fingerprint
      the text between the first and the second colon (or the end); without one,
      the whole cleaned line is the key. */
  lemma ParseLineFields(line: String)
    ensures var t := ReplaceChar(Strip(line), '\\', '/');
            var entry := ParseLine(line);
            && (':' in t ==>
                  var i := IndexOf(t, ':');
                  var rest := t[i + 1..];
                  && entry.0 == t[..i]
                  && ':' !in entry.1 && entry.1 <= rest
                  && (|entry.1| == |rest| || rest[|entry.1|] == ':'))
            && (':' !in t ==> entry == (t, []))
  {
    var t := ReplaceChar(Strip(line), '\\', '/');
    if ':' in t {
      SplitFirstFields(t, ':');
      FirstFieldOfSplit(t[IndexOf(t, ':') + 1..], ':');
    }
  }

  /** The first field of a split is a prefix ended by the separator or the end. */
  lemma FirstFieldOfSplit(s: String, c: char)
    ensures var f := Split(s, c)[0];
            c !in f && f <= s && (|f| == |s| || s[|f|] == c)
  {
    if c in s {
      SplitFirstFields(s, c);
    }
  }

  type Entry = (Path, Fingerprint)

  /** What each line parses to. */
  function Entries(lines: seq<String>): (entries: seq<Entry>)
    ensures |entries| == |lines|
    ensures forall i | 0 <= i < |lines| :: entries[i] == ParseLine(lines[i])
  {
    seq(|lines|, i requires 0 <= i < |lines| => ParseLine(lines[i]))
  }

  /** The dict built by assigning the entries in order. */
  function Collect(entries: seq<Entry>): (c: Content)
    ensures c.Valid()
    decreases |entries|
  {
    if entries == [] then Empty
    else
      var last := entries[|entries| - 1];
      Collect(entries[..|entries| - 1]).Put(last.0, last.1)
  }

  /** The dict `get_version_content` builds: one assignment per line, in order. */
  function ParseContent(lines: seq<String>): Content {
    Collect(Entries(lines))
  }

  /** One more line is one more assignment. */
  lemma ParseContentSnoc(lines: seq<String>, n: nat)
    requires n < |lines|
    ensures ParseContent(lines[..n + 1]) == ParseContent(lines[..n]).Put(ParseLine(lines[n]).0, ParseLine(lines[n]).1)
  {
    var e := Entries(lines[..n + 1]);
    assert e[..n] == Entries(lines[..n]);
    assert e[n] == ParseLine(lines[n]);
  }

  /** `get_version_content(lines)`. Decoding the bytes as UTF-8 is not modelled:
      the lines are given as text. */
  method GetVersionContent(lines: seq<String>) returns (content: Content)
    ensures content == ParseContent(lines)
  {
    content := Empty;
    for n := 0 to |lines|
      invariant content == ParseContent(lines[..n])
    {
      var entry := ParseLine(lines[n]);
      ParseContentSnoc(lines, n);
      content := content.Put(entry.0, entry.1);
    }
    assert lines[..|lines|] == lines;
  }

  /** The keys, each kept at its first occurrence. */
  function FirstOccurrences(keys: seq<Path>): seq<Path>
    decreases |keys|
  {
    if keys == [] then []
    else
      var init := FirstOccurrences(keys[..|keys| - 1]);
      if keys[|keys| - 1] in init then init else init + [keys[|keys| - 1]]
  }

  function Keys(entries: seq<Entry>): (keys: seq<Path>)
    ensures |keys| == |entries|
    ensures forall i | 0 <= i < |entries| :: keys[i] == entries[i].0
  {
    seq(|entries|, i requires 0 <= i < |entries| => entries[i].0)
  }

  /** The dict lists its keys in the order of their first line; a later line with
      the same key does not move it. */
  lemma {:induction false} CollectOrder(entries: seq<Entry>)
    ensures Collect(entries).paths == FirstOccurrences(Keys(entries))
    decreases |entries|
  {
    if entries != [] {
      var init := entries[..|entries| - 1];
      CollectOrder(init);
      var keys := Keys(entries);
      assert keys[..|keys| - 1] == Keys(init);
    }
  }

  lemma {:induction false} FirstOccurrencesElems(keys: seq<Path>)
    ensures Elems(FirstOccurrences(keys)) == Elems(keys)
    decreases |keys|
  {
    if keys != [] {
      var init := keys[..|keys| - 1];
      FirstOccurrencesElems(init);
      assert keys == init + [keys[|keys| - 1]];
      assert Elems(keys) == Elems(init) + {keys[|keys| - 1]};
    }
  }

  /** A key is in the dict exactly when some line has it. */
  lemma CollectKeys(entries: seq<Entry>, k: Path)
    ensures k in Collect(entries).hashes <==> exists i | 0 <= i < |entries| :: entries[i].0 == k
  {
    CollectOrder(entries);
    var keys := Keys(entries);
    FirstOccurrencesElems(keys);
    assert k in Collect(entries).hashes <==> k in Elems(keys);
    if k in keys {
      var i :| 0 <= i < |keys| && keys[i] == k;
    }
  }

  /** The fingerprint of a key comes from the last line that has the key: a later
      duplicate overwrites an earlier one. */
  lemma {:induction false} CollectLastWins(entries: seq<Entry>, i: nat)
    requires i < |entries|
    requires forall j | i < j < |entries| :: entries[j].0 != entries[i].0
    ensures entries[i].0 in Collect(entries).hashes
    ensures Collect(entries).hashes[entries[i].0] == entries[i].1
    decreases |entries|
  {
    var init := entries[..|entries| - 1];
    if i < |entries| - 1 {
      assert init[i] == entries[i];
      CollectLastWins(init, i);
    }
  }

  /** The same two properties for the lines of a sidecar file. */
  lemma ParseContentKeysAndValues(lines: seq<String>, k: Path)
    ensures k in ParseContent(lines).hashes <==> exists i | 0 <= i < |lines| :: ParseLine(lines[i]).0 == k
    ensures forall i | 0 <= i < |lines| && ParseLine(lines[i]).0 == k && (forall j | i < j < |lines| :: ParseLine(lines[j]).0 != k) ::
              k in ParseContent(lines).hashes && ParseContent(lines).hashes[k] == ParseLine(lines[i]).1
  {
    var entries := Entries(lines);
    CollectKeys(entries, k);
    forall i | 0 <= i < |lines| && entries[i].0 == k && (forall j | i < j < |lines| :: entries[j].0 != k)
      ensures k in Collect(entries).hashes && Collect(entries).hashes[k] == entries[i].1
    {
      CollectLastWins(entries, i);
    }
  }

  /** The manifest without the entries of `gone`, the rest in their order. */
  function Pruned(vc: Content, gone: set<Path>): (r: Content)
    requires vc.Valid()
    ensures r.Valid()
    ensures r.hashes == vc.hashes - gone
    ensures r.paths == Without(vc.paths, gone)
  {
    WithoutDistinct(vc.paths, gone);
    var r := Content(Without(vc.paths, gone), vc.hashes - gone);
    assert Elems(r.paths) == r.hashes.Keys;
    r
  }

  /** The cached manifest keeps only the entries whose file is present, in their
      order. */
  function Revalidated(vc: Content, present: set<Path>): (r: Content)
    requires vc.Valid()
    ensures r.Valid()
    ensures forall p :: p in r.hashes <==> p in vc.hashes && p in present
    ensures forall p | p in r.hashes :: r.hashes[p] == vc.hashes[p]
  {
    Pruned(vc, vc.hashes.Keys - present)
  }

  /** Deleting one more key from a pruned manifest prunes that key too. */
  lemma PrunedDelete(vc: Content, gone: set<Path>, f: Path)
    requires vc.Valid()
    ensures Pruned(vc, gone).Delete(f) == Pruned(vc, gone + {f})
  {
    WithoutWithout(vc.paths, gone, {f});
    assert (vc.hashes - gone) - {f} == vc.hashes - (gone + {f});
  }

  /** The bookkeeping of one round of the revalidation loop. */
  lemma GoneStep(keys: set<Path>, todo: set<Path>, present: set<Path>, gone: set<Path>, f: Path)
    requires f in todo && todo <= keys
    requires gone == (keys - todo) - present
    ensures (if f in present then gone else gone + {f}) == (keys - (todo - {f})) - present
  {
  }

  /** The revalidation loop of `get_content` (`for f in set(vc.keys()): if not
      isfile: del vc[f]`), with `present` the relative paths that are files. The
      set is visited in an unspecified order. */
  method RevalidateCache(vc: Content, present: set<Path>) returns (r: Content)
    requires vc.Valid()
    ensures r == Revalidated(vc, present)
  {
    r := vc;
    var todo := vc.hashes.Keys;
    ghost var gone: set<Path> := {};
    WithoutNothing(vc.paths);
    assert r == Pruned(vc, gone);
    while todo != {}
      invariant todo <= vc.hashes.Keys
      invariant gone == (vc.hashes.Keys - todo) - present
      invariant r == Pruned(vc, gone)
      decreases todo
    {
      var f :| f in todo;
      GoneStep(vc.hashes.Keys, todo, present, gone, f);
      if f !in present {
        PrunedDelete(vc, gone, f);
        r := r.Delete(f);
        gone := gone + {f};
      }
      todo := todo - {f};
    }
  }
}
