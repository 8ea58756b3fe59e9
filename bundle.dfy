/** The bundling helpers of src/lib/dreams_bundle.py: the version bump of a new
    release, the sidecar line format and its serialiser, the edit that takes a
    path out of a difference, and the rule that finds configuration files no mod
    claims. */
module DreamsBundle {
  import opened Wrappers
  import opened Seqs
  import opened PyStr
  import opened Dreams
  import opened Manifest
  import opened Diffs
  import opened DreamsUpgrade

  // --------------------------------------------------------- version bump

  /** The version's components, padded with "0" to at least three. */
  function Padded(split: seq<String>): (version: seq<String>)
    ensures |version| == if |split| >= 3 then |split| else 3
    ensures forall i | 0 <= i < |version| :: version[i] == if i < |split| then split[i] else "0"
  {
    seq(if |split| >= 3 then |split| else 3, i requires 0 <= i => if i < |split| then split[i] else "0")
  }

  /** Padding only appends "0"s: a version of three or more components is kept as
      it is, the given components always stay in front, and padding a padded
      version changes nothing. */
  lemma PaddedStable(split: seq<String>)
    ensures |split| >= 3 ==> Padded(split) == split
    ensures split <= Padded(split)
    ensures Padded(Padded(split)) == Padded(split)
  {
  }

  /** Whether the added or removed paths touch the mods directory. */
  predicate TouchesMods(d: Difference) {
    exists f | f in d.added + d.removed :: StartsWith(f, MODS)
  }

  /** The feature and patch numbers after a release with difference `d`: a change to
      the mods bumps the feature number and resets the patch, any other addition or
      removal, or any modification, bumps the patch. */
  function Bumped(feature: int, patch: int, d: Difference): (r: (int, int))
    ensures d.IsEmpty() ==> r == (feature, patch)
    ensures !d.IsEmpty() ==> r.0 > feature || (r.0 == feature && r.1 > patch)
    ensures (d.added != [] || d.removed != []) && TouchesMods(d) ==> r == (feature + 1, 0)
    ensures !TouchesMods(d) ==> r.0 == feature
    ensures !d.IsEmpty() && !TouchesMods(d) ==> r == (feature, patch + 1)
  {
    if |d.added| > 0 || |d.removed| > 0 then
      if TouchesMods(d) then (feature + 1, 0) else (feature, patch + 1)
    else if |d.modified| > 0 then (feature, patch + 1)
    else (feature, patch)
  }

  /** `f"{generation}.{feature}"`, with `.{patch}` only for a positive patch. */
  function VersionString(generation: String, feature: int, patch: int): String {
    generation + "." + IntToString(feature) + (if patch > 0 then "." + IntToString(patch) else "")
  }

  /** The bump applied to the padded components. */
  function AdjustedFrom(version: seq<String>, d: Difference): Option<String>
    requires |version| >= 3
  {
    match (ParseInt(version[1]), ParseInt(version[2]))
    case (Some(feature), Some(patch)) =>
      var bumped := Bumped(feature, patch, d);
      Some(VersionString(version[0], bumped.0, bumped.1))
    case _ => None
  }

  /** `get_version_adjustement(current, diff)`; a component `int()` rejects is a
      ValueError, given here as None. */
  function AdjustedVersion(current: String, d: Difference): Option<String> {
    AdjustedFrom(Padded(Split(current, '.')), d)
  }

  /** The method form of `get_version_adjustement`, with its padding loop. */
  method GetVersionAdjustment(current: String, diff: ContentDifference) returns (r: Option<String>)
    ensures r == AdjustedVersion(current, diff.Value())
  {
    var d := diff.Value();
    var split := Split(current, '.');
    var version: seq<String> := [];
    var n := if |split| >= 3 then |split| else 3;
    for v := 0 to n
      invariant |version| == v
      invariant forall i | 0 <= i < v :: version[i] == if i < |split| then split[i] else "0"
    {
      var sub := if |split| > v then split[v] else "0";
      version := version + [sub];
    }
    assert version == Padded(split);
    var feature := ParseInt(version[1]);
    var patch := ParseInt(version[2]);
    if feature.None? || patch.None? {
      return None;
    }
    var bumped := Bumped(feature.value, patch.value, d);
    r := Some(VersionString(version[0], bumped.0, bumped.1));
  }

  lemma NoDot(n: int)
    ensures '.' !in IntToString(n)
  {
    var s := IntToString(n);
    assert forall i | 0 <= i < |s| :: s[i] != '.';
  }

  /** Splitting three dot-free components joined by dots gives them back. */
  lemma SplitThree(a: String, b: String, c: String)
    requires '.' !in a && '.' !in b && '.' !in c
    ensures Split(a + "." + b + "." + c, '.') == [a, b, c]
  {
    var parts := [a, b, c];
    assert Join(parts[2..], '.') == c;
    assert parts[1..][1..] == parts[2..];
    assert Join(parts, '.') == a + "." + b + "." + c;
    SplitJoin(parts, '.');
  }

  /** Splitting two separator-free parts joined by the separator gives them back:
      a `major.minor` version, or a `path:fingerprint` sidecar line. */
  lemma SplitTwoBy(a: String, b: String, sep: char)
    requires sep !in a && sep !in b
    ensures Split(a + [sep] + b, sep) == [a, b]
  {
    var parts := [a, b];
    assert parts[1..] == [b];
    assert Join(parts, sep) == a + [sep] + b;
    SplitJoin(parts, sep);
  }

  lemma SmallNumbers()
    ensures IntToString(0) == "0" && IntToString(1) == "1" && IntToString(2) == "2"
    ensures IntToString(3) == "3" && IntToString(5) == "5"
  {
    assert DigitChar(0) == '0' && DigitChar(1) == '1' && DigitChar(2) == '2';
    assert DigitChar(3) == '3' && DigitChar(5) == '5';
  }

  lemma ZeroParses()
    ensures ParseInt("0") == Some(0)
  {
    SmallNumbers();
    IntToStringParses(0);
  }

  /** A version of three components parses back into the generation (which holds
      no dot) and the two numbers, whatever their signs. */
  lemma AdjustedVersionOf(generation: String, feature: int, patch: int, d: Difference)
    requires '.' !in generation
    ensures var bumped := Bumped(feature, patch, d);
            AdjustedVersion(generation + "." + IntToString(feature) + "." + IntToString(patch), d) ==
              Some(VersionString(generation, bumped.0, bumped.1))
  {
    NoDot(feature);
    NoDot(patch);
    var parts := [generation, IntToString(feature), IntToString(patch)];
    SplitThree(generation, IntToString(feature), IntToString(patch));
    assert Padded(parts) == parts;
    IntToStringParses(feature);
    IntToStringParses(patch);
  }

  /** A version of two components counts as patch 0. */
  lemma AdjustedVersionOfShort(generation: String, feature: int, d: Difference)
    requires '.' !in generation
    ensures var bumped := Bumped(feature, 0, d);
            AdjustedVersion(generation + "." + IntToString(feature), d) ==
              Some(VersionString(generation, bumped.0, bumped.1))
  {
    NoDot(feature);
    SplitTwoBy(generation, IntToString(feature), '.');
    assert Padded([generation, IntToString(feature)]) == [generation, IntToString(feature), "0"];
    IntToStringParses(feature);
    ZeroParses();
  }

  lemma AdjustedFromValue(version: seq<String>, d: Difference)
    requires |version| >= 3 && ParseInt(version[1]).Some? && ParseInt(version[2]).Some?
    ensures var bumped := Bumped(ParseInt(version[1]).value, ParseInt(version[2]).value, d);
            AdjustedFrom(version, d) == Some(VersionString(version[0], bumped.0, bumped.1))
  {
  }

  /** A rendered version is canonical: an empty difference gives it back. */
  lemma VersionStringStable(generation: String, feature: int, patch: int, empty: Difference)
    requires '.' !in generation && empty.IsEmpty()
    ensures AdjustedVersion(VersionString(generation, feature, patch), empty) ==
              Some(VersionString(generation, feature, patch))
  {
    if patch > 0 {
      Associative(generation + "." + IntToString(feature), ".", IntToString(patch));
      AdjustedVersionOf(generation, feature, patch, empty);
    } else {
      assert VersionString(generation, feature, patch) == generation + "." + IntToString(feature);
      AdjustedVersionOfShort(generation, feature, empty);
    }
  }

  /** Every version this produces is in canonical form: adjusting it again for a
      release that changes nothing gives it back. */
  lemma AdjustedVersionStable(current: String, d: Difference, empty: Difference)
    requires empty.IsEmpty()
    requires AdjustedVersion(current, d).Some?
    ensures AdjustedVersion(AdjustedVersion(current, d).value, empty) == AdjustedVersion(current, d)
  {
    var split := Split(current, '.');
    var version := Padded(split);
    assert '.' !in version[0] by {
      assert version[0] == split[0];
    }
    assert ParseInt(version[1]).Some? && ParseInt(version[2]).Some?;
    AdjustedFromValue(version, d);
    var bumped := Bumped(ParseInt(version[1]).value, ParseInt(version[2]).value, d);
    VersionStringStable(version[0], bumped.0, bumped.1, empty);
  }

  lemma RenderedExamples()
    ensures VersionString("1", 2, 1) == "1.2.1" && VersionString("1", 3, 0) == "1.3"
  {
    SmallNumbers();
  }

  /** A modification alone bumps the patch. */
  lemma ExampleModified(current: String, d: Difference)
    requires current == "1.2.0" && d == Difference([], [], ["config/a.toml"], None, None)
    ensures AdjustedVersion(current, d) == Some("1.2.1")
  {
    SmallNumbers();
    assert current == "1" + "." + IntToString(2) + "." + IntToString(0);
    AdjustedVersionOf("1", 2, 0, d);
    assert Bumped(2, 0, d) == (2, 1);
    RenderedExamples();
  }

  /** A new mod bumps the feature number and drops the patch. */
  lemma ExampleNewMod(current: String, mods: Difference)
    requires current == "1.2.5" && mods == Difference(["mods/a.jar"], [], [], None, None)
    ensures AdjustedVersion(current, mods) == Some("1.3")
  {
    SmallNumbers();
    assert TouchesMods(mods) by { assert "mods/a.jar" in mods.added + mods.removed; }
    assert current == "1" + "." + IntToString(2) + "." + IntToString(5);
    AdjustedVersionOf("1", 2, 5, mods);
    assert Bumped(2, 5, mods) == (3, 0);
    RenderedExamples();
  }

  /** An empty difference gives the canonical form: a zero patch is dropped, so
      "1.2.0" becomes "1.2". */
  lemma ZeroPatchDropped(generation: String, feature: int, empty: Difference)
    requires '.' !in generation && empty.IsEmpty()
    ensures AdjustedVersion(generation + "." + IntToString(feature) + "." + IntToString(0), empty) ==
              Some(generation + "." + IntToString(feature))
  {
    var head := generation + "." + IntToString(feature);
    assert VersionString(generation, feature, 0) == head by {
      assert VersionString(generation, feature, 0) == head + [];
    }
    AdjustedVersionOf(generation, feature, 0, empty);
    assert Bumped(feature, 0, empty) == (feature, 0);
  }

  /** A feature or patch component that is not a number gives no version. */
  lemma NotANumber(generation: String, feature: String, patch: String, d: Difference)
    requires '.' !in generation && '.' !in feature && '.' !in patch
    requires ParseInt(feature) == None || ParseInt(patch) == None
    ensures AdjustedVersion(generation + "." + feature + "." + patch, d) == None
  {
    SplitThree(generation, feature, patch);
    assert Padded([generation, feature, patch]) == [generation, feature, patch];
  }

  // ----------------------------------------------------- sidecar line format

  /** `get_file_content_format(relative, root)`: the path, a colon, the fingerprint
      of the file; `fingerprint` stands for `get_file_hash`. */
  function FileContentFormat(relative: Path, root: String, fingerprint: String -> Fingerprint): String {
    relative + ":" + fingerprint(root + "/" + relative)
  }

  /** What `split_file_hash` returns: a pair, or the entry itself. */
  datatype SplitEntry = Pair(path: Path, hash: Fingerprint) | Whole(entry: String)

  /** `split_file_hash(entry)`. */
  function SplitFileHash(entry: String): (r: SplitEntry)
    ensures r.Whole? <==> ':' !in entry
    ensures r.Whole? ==> r.entry == entry
    ensures r.Pair? ==> ':' in entry && r.path == entry[..IndexOf(entry, ':')] && ':' !in r.hash
                        && r.hash <= entry[IndexOf(entry, ':') + 1..]
                        && (|r.hash| == |entry| - IndexOf(entry, ':') - 1 || entry[IndexOf(entry, ':') + 1 + |r.hash|] == ':')
  {
    if ':' in entry then
      var split := Split(entry, ':');
      SplitFirstFields(entry, ':');
      FirstFieldOfSplit(entry[IndexOf(entry, ':') + 1..], ':');
      Pair(split[0], split[1])
    else Whole(entry)
  }

  /** A formatted line splits back into its path and fingerprint. */
  lemma SplitFileHashFormat(relative: Path, root: String, fingerprint: String -> Fingerprint)
    requires ':' !in relative && ':' !in fingerprint(root + "/" + relative)
    ensures SplitFileHash(FileContentFormat(relative, root, fingerprint)) ==
              Pair(relative, fingerprint(root + "/" + relative))
  {
    var h := fingerprint(root + "/" + relative);
    SplitJoin([relative, h], ':');
    assert Join([relative, h], ':') == relative + ":" + h by {
      assert [relative, h][1..] == [h];
    }
  }

  // ---------------------------------------------------------- exclude_from_diff

  /** `exclude_from_diff`: one copy of the path leaves each list selected by a flag. */
  function Excluded(d: Difference, relative: Path, added: bool, removed: bool, modified: bool): Difference {
    d.(added := if added then RemoveFirst(d.added, relative) else d.added,
       removed := if removed then RemoveFirst(d.removed, relative) else d.removed,
       modified := if modified then RemoveFirst(d.modified, relative) else d.modified)
  }

  /** On a list without repetitions the path leaves the list, and every other
      entry stays in order; the versions are kept. */
  lemma ExcludedFacts(d: Difference, relative: Path, added: bool, removed: bool, modified: bool, p: Path)
    requires Distinct(d.added) && Distinct(d.removed) && Distinct(d.modified)
    ensures var e := Excluded(d, relative, added, removed, modified);
            && e.oldVersion == d.oldVersion && e.newVersion == d.newVersion
            && Distinct(e.added) && Distinct(e.removed) && Distinct(e.modified)
            && (p in e.added <==> p in d.added && !(added && p == relative))
            && (p in e.removed <==> p in d.removed && !(removed && p == relative))
            && (p in e.modified <==> p in d.modified && !(modified && p == relative))
  {
    RemoveFirstOfDistinct(d.added, relative);
    RemoveFirstOfDistinct(d.removed, relative);
    RemoveFirstOfDistinct(d.modified, relative);
  }

  /** The edit on any lists, repeated entries included: a list not selected is kept
      as it was, and a selected list holding the path loses the path's first
      occurrence and nothing else. */
  lemma ExcludedEdits(d: Difference, relative: Path, added: bool, removed: bool, modified: bool)
    ensures var e := Excluded(d, relative, added, removed, modified);
            && (!added ==> e.added == d.added)
            && (!removed ==> e.removed == d.removed)
            && (!modified ==> e.modified == d.modified)
            && (added && relative in d.added ==> DropsFirst(d.added, relative, e.added))
            && (removed && relative in d.removed ==> DropsFirst(d.removed, relative, e.removed))
            && (modified && relative in d.modified ==> DropsFirst(d.modified, relative, e.modified))
  {
    RemoveFirstAt(d.added, relative);
    RemoveFirstAt(d.removed, relative);
    RemoveFirstAt(d.modified, relative);
  }

  /** A path in none of the lists leaves the difference as it was. */
  lemma ExcludedAbsent(d: Difference, relative: Path, added: bool, removed: bool, modified: bool)
    requires relative !in d.added && relative !in d.removed && relative !in d.modified
    ensures Excluded(d, relative, added, removed, modified) == d
  {
  }

  /** `exclude_from_diff(relative, diff, ...)`, which edits the lists in place. */
  method ExcludeFromDiff(relative: Path, diff: ContentDifference, added: bool, removed: bool, modified: bool)
    modifies diff
    ensures diff.Value() == Excluded(old(diff.Value()), relative, added, removed, modified)
  {
    if added && relative in diff.added {
      diff.added := RemoveFirst(diff.added, relative);
    }
    if removed && relative in diff.removed {
      diff.removed := RemoveFirst(diff.removed, relative);
    }
    if modified && relative in diff.modified {
      diff.modified := RemoveFirst(diff.modified, relative);
    }
  }

  // ------------------------------------------------------------- serialiser

  /** The "path:fingerprint" lines of the queued paths, each with its "\n". */
  function Serialised(queue: seq<Path>, dir: String, fingerprint: String -> Fingerprint): String
    decreases |queue|
  {
    if queue == [] then []
    else FileContentFormat(queue[0], dir, fingerprint) + "\n" + Serialised(queue[1..], dir, fingerprint)
  }

  /** The sidecar text: one line per queued path, then the sidecar's own path with
      no line break (and no fingerprint). */
  function SidecarText(queue: seq<Path>, dir: String, fingerprint: String -> Fingerprint): String {
    Serialised(queue, dir, fingerprint) + FILE_VERSION_CONTENT
  }

  lemma {:induction false} SerialisedSnoc(queue: seq<Path>, p: Path, dir: String, fingerprint: String -> Fingerprint)
    ensures Serialised(queue + [p], dir, fingerprint) ==
              Serialised(queue, dir, fingerprint) + (FileContentFormat(p, dir, fingerprint) + "\n")
    decreases |queue|
  {
    var line := FileContentFormat(p, dir, fingerprint) + "\n";
    if queue == [] {
      assert [p][1..] == [];
    } else {
      assert (queue + [p])[1..] == queue[1..] + [p];
      SerialisedSnoc(queue[1..], p, dir, fingerprint);
      var head := FileContentFormat(queue[0], dir, fingerprint) + "\n";
      Associative(head, Serialised(queue[1..], dir, fingerprint), line);
    }
  }

  /** The path of a walked file relative to the release directory: backslashes
      turned into slashes, then every `dir + "/"` removed. */
  function RelativePath(walked: String, dir: String): Path {
    RemoveAll(ReplaceChar(walked, '\\', '/'), dir + "/")
  }

  /** A file walked at `dir + "/" + rel` is queued as `rel`. */
  lemma RelativePathOf(dir: String, rel: Path)
    requires '\\' !in dir && '\\' !in rel && !Contains(rel, dir + "/")
    ensures RelativePath(dir + "/" + rel, dir) == rel
  {
    var s := dir + "/" + rel;
    assert '\\' !in s;
    assert s[..|dir + "/"|] == dir + "/";
    assert s[|dir + "/"|..] == rel;
  }

  /** The serialiser loop of the bundler: queue the walked files, then append one
      line per queued path and finally the sidecar's own path. */
  method SerialiseContent(walked: seq<String>, dir: String, fingerprint: String -> Fingerprint)
    returns (queue: seq<Path>, text: String)
    ensures |queue| == |walked| && forall i | 0 <= i < |walked| :: queue[i] == RelativePath(walked[i], dir)
    ensures text == SidecarText(queue, dir, fingerprint)
  {
    queue := [];
    for i := 0 to |walked|
      invariant |queue| == i && forall j | 0 <= j < i :: queue[j] == RelativePath(walked[j], dir)
    {
      queue := queue + [RelativePath(walked[i], dir)];
    }
    text := "";
    for i := 0 to |queue|
      invariant text == Serialised(queue[..i], dir, fingerprint)
    {
      SerialisedSnoc(queue[..i], queue[i], dir, fingerprint);
      assert queue[..i + 1] == queue[..i] + [queue[i]];
      text := text + (FileContentFormat(queue[i], dir, fingerprint) + "\n");
    }
    assert queue[..|queue|] == queue;
    text := text + FILE_VERSION_CONTENT;
  }

  /** A path and fingerprint write a line that reads back as they are: no colon, no
      line break and no backslash in either, no leading blank on the path and no
      trailing blank on the fingerprint. */
  ghost predicate Serialisable(p: Path, h: Fingerprint) {
    && ':' !in p && '\n' !in p && '\\' !in p
    && ':' !in h && '\n' !in h && '\\' !in h
    && (p == [] || !IsSpace(p[0])) && (h == [] || !IsSpace(h[|h| - 1]))
  }

  /** The lines read back from the serialised part, one per queued path. */
  function QueuedLines(queue: seq<Path>, dir: String, fingerprint: String -> Fingerprint): (lines: seq<String>)
    ensures |lines| == |queue|
  {
    seq(|queue|, i requires 0 <= i < |queue| => FileContentFormat(queue[i], dir, fingerprint) + "\n")
  }

  /** The serialised part is the queued lines written one after the other. */
  lemma {:induction false} SerialisedLines(queue: seq<Path>, dir: String, fingerprint: String -> Fingerprint)
    ensures Serialised(queue, dir, fingerprint) == Concat(QueuedLines(queue, dir, fingerprint))
    decreases |queue|
  {
    if queue != [] {
      SerialisedLines(queue[1..], dir, fingerprint);
      assert QueuedLines(queue, dir, fingerprint)[1..] == QueuedLines(queue[1..], dir, fingerprint);
    }
  }

  lemma ReadSerialised(queue: seq<Path>, dir: String, fingerprint: String -> Fingerprint, tail: String)
    requires forall p | p in queue :: Serialisable(p, fingerprint(dir + "/" + p))
    ensures ReadLines(Serialised(queue, dir, fingerprint) + tail) ==
              QueuedLines(queue, dir, fingerprint) + ReadLines(tail)
  {
    var lines := QueuedLines(queue, dir, fingerprint);
    forall i | 0 <= i < |lines|
      ensures IsLine(lines[i])
    {
      var l := FileContentFormat(queue[i], dir, fingerprint);
      assert queue[i] in queue;
      assert lines[i] == l + "\n" && lines[i][..|lines[i]| - 1] == l;
    }
    SerialisedLines(queue, dir, fingerprint);
    ReadConcat(lines, tail);
  }

  /** Each queued line parses back into its path and fingerprint. */
  lemma ParseQueuedLine(p: Path, dir: String, fingerprint: String -> Fingerprint)
    requires Serialisable(p, fingerprint(dir + "/" + p))
    ensures ParseLine(FileContentFormat(p, dir, fingerprint) + "\n") == (p, fingerprint(dir + "/" + p))
  {
    var h := fingerprint(dir + "/" + p);
    var s := p + ":" + h;
    assert Strip(s + "\n") == s by {
      assert s == [] || (!IsSpace(s[0]) && !IsSpace(s[|s| - 1]));
      StripOfTrimmed(s);
    }
    assert ReplaceChar(s, '\\', '/') == s by {
      assert '\\' !in s;
    }
    assert ':' in s by {
      assert s[|p|] == ':';
    }
    assert Split(s, ':') == [p, h] by {
      SplitTwoBy(p, h, ':');
    }
  }


  /** A line without a line break, colon or backslash, and without surrounding
      whitespace, reads back as a key with the fingerprint "". */
  lemma PlainLine(t: String)
    requires |t| > 0 && !IsSpace(t[0]) && !IsSpace(t[|t| - 1])
    requires '\n' !in t && ':' !in t && '\\' !in t
    ensures ReadLines(t) == [t]
    ensures ParseLine(t) == (t, [])
  {
    StripOfTrimmed(t);
  }

  /** The sidecar's own path reads back as a key with the fingerprint "". */
  lemma ParseSidecarPath()
    ensures ReadLines(FILE_VERSION_CONTENT) == [FILE_VERSION_CONTENT]
    ensures ParseLine(FILE_VERSION_CONTENT) == (FILE_VERSION_CONTENT, [])
  {
    var t := FILE_VERSION_CONTENT;
    assert forall i | 0 <= i < |t| :: t[i] != '\n' && t[i] != ':' && t[i] != '\\';
    PlainLine(t);
  }

  /** What the sidecar text parses to, entry by entry. */
  lemma SidecarEntries(queue: seq<Path>, dir: String, fingerprint: String -> Fingerprint)
    requires forall p | p in queue :: Serialisable(p, fingerprint(dir + "/" + p))
    ensures var entries := Entries(ReadLines(SidecarText(queue, dir, fingerprint)));
            && |entries| == |queue| + 1
            && (forall i | 0 <= i < |queue| :: entries[i] == (queue[i], fingerprint(dir + "/" + queue[i])))
            && entries[|queue|] == (FILE_VERSION_CONTENT, [])
  {
    ReadSerialised(queue, dir, fingerprint, FILE_VERSION_CONTENT);
    ParseSidecarPath();
    var lines := ReadLines(SidecarText(queue, dir, fingerprint));
    assert lines == QueuedLines(queue, dir, fingerprint) + [FILE_VERSION_CONTENT];
    forall i | 0 <= i < |queue|
      ensures ParseLine(lines[i]) == (queue[i], fingerprint(dir + "/" + queue[i]))
    {
      assert queue[i] in queue;
      ParseQueuedLine(queue[i], dir, fingerprint);
    }
  }

  /** When every entry with key `k` carries `v`, the dict maps `k` to `v`. */
  lemma {:induction false} CollectConsistent(entries: seq<Entry>, k: Path, v: Fingerprint, i: nat)
    requires i < |entries| && entries[i].0 == k
    requires forall j | 0 <= j < |entries| && entries[j].0 == k :: entries[j].1 == v
    ensures k in Collect(entries).hashes && Collect(entries).hashes[k] == v
    decreases |entries|
  {
    var last := entries[|entries| - 1];
    var init := entries[..|entries| - 1];
    if last.0 != k {
      assert i < |init| && init[i] == entries[i];
      CollectConsistent(init, k, v, i);
    }
  }

  /** The keys read back from the sidecar are the queued paths and then the
      sidecar's own path. */
  lemma SidecarKeys(queue: seq<Path>, dir: String, fingerprint: String -> Fingerprint)
    requires forall p | p in queue :: Serialisable(p, fingerprint(dir + "/" + p))
    ensures Keys(Entries(ReadLines(SidecarText(queue, dir, fingerprint)))) == queue + [FILE_VERSION_CONTENT]
  {
    SidecarEntries(queue, dir, fingerprint);
    QueuedKeys(Entries(ReadLines(SidecarText(queue, dir, fingerprint))), queue, dir, fingerprint, FILE_VERSION_CONTENT);
  }

  lemma QueuedKeys(entries: seq<Entry>, queue: seq<Path>, dir: String, fingerprint: String -> Fingerprint, own: Path)
    requires |entries| == |queue| + 1
    requires forall i | 0 <= i < |queue| :: entries[i] == (queue[i], fingerprint(dir + "/" + queue[i]))
    requires entries[|queue|] == (own, [])
    ensures Keys(entries) == queue + [own]
  {
    var keys := Keys(entries);
    var expected := queue + [own];
    forall i | 0 <= i < |keys|
      ensures keys[i] == expected[i]
    {
      if i < |queue| {
        assert entries[i] == (queue[i], fingerprint(dir + "/" + queue[i]));
      }
    }
  }

  /** A queued path other than the sidecar's own reads back with its fingerprint,
      even when the queue lists it twice. */
  lemma SidecarValue(queue: seq<Path>, dir: String, fingerprint: String -> Fingerprint, k: Path)
    requires forall p | p in queue :: Serialisable(p, fingerprint(dir + "/" + p))
    requires k in queue && k != FILE_VERSION_CONTENT
    ensures var c := ParseContent(ReadLines(SidecarText(queue, dir, fingerprint)));
            k in c.hashes && c.hashes[k] == fingerprint(dir + "/" + k)
  {
    var entries := Entries(ReadLines(SidecarText(queue, dir, fingerprint)));
    SidecarEntries(queue, dir, fingerprint);
    QueuedValue(entries, queue, dir, fingerprint, FILE_VERSION_CONTENT, k);
  }

  lemma QueuedValue(entries: seq<Entry>, queue: seq<Path>, dir: String, fingerprint: String -> Fingerprint, own: Path, k: Path)
    requires |entries| == |queue| + 1
    requires forall i | 0 <= i < |queue| :: entries[i] == (queue[i], fingerprint(dir + "/" + queue[i]))
    requires entries[|queue|] == (own, [])
    requires k in queue && k != own
    ensures k in Collect(entries).hashes && Collect(entries).hashes[k] == fingerprint(dir + "/" + k)
  {
    var v := fingerprint(dir + "/" + k);
    var i :| 0 <= i < |queue| && queue[i] == k;
    assert entries[i] == (queue[i], fingerprint(dir + "/" + queue[i]));
    forall j | 0 <= j < |entries| && entries[j].0 == k
      ensures entries[j].1 == v
    {
      assert j != |queue|;
      assert entries[j] == (queue[j], fingerprint(dir + "/" + queue[j]));
    }
    CollectConsistent(entries, k, v, i);
  }

  /** The sidecar's own path, written last, reads back with the fingerprint "". */
  lemma SidecarOwnPath(queue: seq<Path>, dir: String, fingerprint: String -> Fingerprint)
    requires forall p | p in queue :: Serialisable(p, fingerprint(dir + "/" + p))
    ensures var c := ParseContent(ReadLines(SidecarText(queue, dir, fingerprint)));
            FILE_VERSION_CONTENT in c.hashes && c.hashes[FILE_VERSION_CONTENT] == []
  {
    var entries := Entries(ReadLines(SidecarText(queue, dir, fingerprint)));
    SidecarEntries(queue, dir, fingerprint);
    CollectLastWins(entries, |queue|);
  }

  /** The sidecar round trip: reading the serialised text back gives every queued
      path its fingerprint, the sidecar's own path the fingerprint "", and no other
      key, in queue order. */
  lemma SidecarRoundTrip(queue: seq<Path>, dir: String, fingerprint: String -> Fingerprint, k: Path)
    requires forall p | p in queue :: Serialisable(p, fingerprint(dir + "/" + p))
    ensures var c := ParseContent(ReadLines(SidecarText(queue, dir, fingerprint)));
            && c.paths == FirstOccurrences(queue + [FILE_VERSION_CONTENT])
            && (k in c.hashes <==> k in queue || k == FILE_VERSION_CONTENT)
            && (k in queue && k != FILE_VERSION_CONTENT ==> c.hashes[k] == fingerprint(dir + "/" + k))
            && (k == FILE_VERSION_CONTENT ==> c.hashes[k] == [])
  {
    var entries := Entries(ReadLines(SidecarText(queue, dir, fingerprint)));
    var keys := queue + [FILE_VERSION_CONTENT];
    SidecarKeys(queue, dir, fingerprint);
    CollectOrder(entries);
    FirstOccurrencesElems(keys);
    if k == FILE_VERSION_CONTENT {
      SidecarOwnPath(queue, dir, fingerprint);
    } else if k in queue {
      SidecarValue(queue, dir, fingerprint, k);
    }
  }

  // ------------------------------------------------------------ orphan configs

  /** The file name before its last ".", or the whole name when it has none. */
  function Stem(file: String): (r: String)
    ensures r <= file
    ensures '.' in file ==> |r| < |file| && file[|r|] == '.' && '.' !in file[|r| + 1..]
    ensures '.' !in file ==> r == file
  {
    if '.' in file then file[..LastIndexOf(file, '.')] else file
  }

  /** The longest prefix of `s` made of letters and digits. */
  function AlnumPrefix(s: String): (r: String)
    ensures r <= s
    ensures forall i | 0 <= i < |r| :: IsAlnum(r[i])
    ensures |r| == |s| || !IsAlnum(s[|r|])
    decreases |s|
  {
    if s == [] || !IsAlnum(s[0]) then [] else [s[0]] + AlnumPrefix(s[1..])
  }

  /** The name a configuration file is matched by: its `config-matches` entry,
      else the alphanumeric start of its stem. */
  function ConfigName(file: String, matches: map<String, String>): String {
    if file in matches then matches[file] else AlnumPrefix(Stem(file))
  }

  /** A mod file name lowered, with "-" and "_" removed. */
  function Squashed(jar: String): String {
    RemoveChar(RemoveChar(Lower(jar), '-'), '_')
  }

  /** No mod claims `name`: it is in no squashed jar name, ignoring case. */
  predicate IsOrphan(name: String, jars: seq<String>) {
    forall j | j in jars :: !Contains(Squashed(j), Lower(name))
  }

  /** The ".jar" files of the mods directory. */
  function JarFiles(mods: seq<String>): (jars: seq<String>)
    ensures forall j :: j in jars <==> j in mods && EndsWith(j, ".jar")
    decreases |mods|
  {
    if mods == [] then []
    else
      var rest := JarFiles(mods[..|mods| - 1]);
      var last := mods[|mods| - 1];
      assert mods == mods[..|mods| - 1] + [last];
      if EndsWith(last, ".jar") then rest + [last] else rest
  }

  /** `get_orphan_configs`: the configuration files, in listing order, whose name
      no jar claims. */
  function Orphans(configs: seq<String>, jars: seq<String>, matches: map<String, String>): (r: seq<String>)
    ensures forall f :: f in r <==> f in configs && IsOrphan(ConfigName(f, matches), jars)
    decreases |configs|
  {
    if configs == [] then []
    else
      var rest := Orphans(configs[..|configs| - 1], jars, matches);
      var last := configs[|configs| - 1];
      assert configs == configs[..|configs| - 1] + [last];
      if IsOrphan(ConfigName(last, matches), jars) then rest + [last] else rest
  }

  /** The name of a configuration file without a `config-matches` entry, built
      character by character up to the first one that is not a letter or digit. */
  method DeriveName(file: String) returns (name: String)
    ensures name == AlnumPrefix(Stem(file))
  {
    var stem := if '.' in file then file[..LastIndexOf(file, '.')] else file;
    name := "";
    var i := 0;
    while i < |stem| && IsAlnum(stem[i])
      invariant 0 <= i <= |stem| && name == stem[..i]
      invariant forall j | 0 <= j < i :: IsAlnum(stem[j])
    {
      name := name + [stem[i]];
      i := i + 1;
    }
    AlnumPrefixUnique(stem, name);
  }

  /** `get_orphan_configs` over the listings of the config and mods directories,
      building each derived name character by character. */
  method GetOrphanConfigs(configFiles: seq<String>, modFiles: seq<String>, matches: map<String, String>)
    returns (orphans: seq<String>)
    ensures orphans == Orphans(configFiles, JarFiles(modFiles), matches)
  {
    var modlist := JarFiles(modFiles);
    orphans := [];
    for n := 0 to |configFiles|
      invariant orphans == Orphans(configFiles[..n], modlist, matches)
    {
      var file := configFiles[n];
      var name: String;
      if file in matches {
        name := matches[file];
      } else {
        name := DeriveName(file);
      }
      assert configFiles[..n + 1][..n] == configFiles[..n];
      if IsOrphan(name, modlist) {
        orphans := orphans + [file];
      }
    }
    assert configFiles[..|configFiles|] == configFiles;
  }

  /** Any alphanumeric prefix that stops at the end or at another character is the
      longest one. */
  lemma {:induction false} AlnumPrefixUnique(s: String, p: String)
    requires p <= s && (forall i | 0 <= i < |p| :: IsAlnum(p[i])) && (|p| == |s| || !IsAlnum(s[|p|]))
    ensures AlnumPrefix(s) == p
    decreases |s|
  {
    if p != [] {
      assert s[0] == p[0];
      AlnumPrefixUnique(s[1..], p[1..]);
    }
  }

  /** A derived name is empty exactly when the file name starts with something other
      than a letter or digit (a dot included); such a file is an orphan exactly when
      there is no jar at all. */
  lemma EmptyNameOrphan(file: String, matches: map<String, String>, jars: seq<String>)
    requires file !in matches
    ensures ConfigName(file, matches) == [] <==> file == [] || !IsAlnum(file[0])
    ensures ConfigName(file, matches) == [] ==> (IsOrphan([], jars) <==> jars == [])
  {
    var stem := Stem(file);
    if file != [] && IsAlnum(file[0]) {
      assert stem != [] by {
        if '.' in file { assert file[0] != '.'; }
      }
      assert stem[0] == file[0];
    }
    if jars != [] {
      assert jars[0] in jars;
      assert StartsWith(Squashed(jars[0]), Lower([]));
    }
  }

  /** The derived name of "name.ext" is the name when it is all letters and digits. */
  lemma DerivedName(name: String, ext: String, matches: map<String, String>)
    requires name + "." + ext !in matches
    requires forall i | 0 <= i < |name| :: IsAlnum(name[i])
    requires '.' !in ext
    ensures ConfigName(name + "." + ext, matches) == name
  {
    var file := name + "." + ext;
    assert file[|name|] == '.';
    assert file[|name| + 1..] == ext;
    assert file[..|name|] == name;
    assert Stem(file) == name;
    AlnumPrefixUnique(name, name);
  }

  /** Matching ignores case on both sides. */
  lemma OrphanIgnoresCase(name: String, jars: seq<String>)
    ensures IsOrphan(Lower(name), jars) == IsOrphan(name, jars)
  {
    LowerIdempotent(name);
  }

  /** A new jar can only claim configurations: every orphan with it was an orphan
      without it. */
  lemma MoreJarsFewerOrphans(configs: seq<String>, jars: seq<String>, jar: String, matches: map<String, String>)
    ensures forall f | f in Orphans(configs, jars + [jar], matches) :: f in Orphans(configs, jars, matches)
  {
  }
}
