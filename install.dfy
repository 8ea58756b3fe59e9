/** What `install_upgrade` (src/lib/dreams_upgrade.py) does to an installation, as
    functions of the files before the call: the ignore rules, the add, remove and
    replace passes, the defaults pass, and the difference it returns. Paths are
    relative to the installation (or to the new version's directory), and a tree of
    files is a map from such paths to their bytes. Directories matter only to the
    defaults walk, the one copy that does not create them. */
module Install {
  import opened Wrappers
  import opened Seqs
  import opened PyStr
  import opened Dreams
  import opened Manifest
  import opened Diffs

  newtype byte = x: int | 0 <= x < 256
  type Bytes = seq<byte>
  type Files = map<Path, Bytes>

  /** The list-valued options of the configuration. */
  type Config = map<String, seq<String>>

  /** The four `upgrade-ignore-*` lists. */
  datatype Rules = Rules(ignoreGlobal: seq<String>, ignoreRemove: seq<String>, ignoreAdd: seq<String>, ignoreModify: seq<String>)

  /** `config.get(key, [])`. */
  function ConfigList(config: Config, key: String): seq<String> {
    if key in config then config[key] else []
  }

  function RulesOf(config: Config): Rules {
    Rules(
      ConfigList(config, "upgrade-ignore-global"),
      ConfigList(config, "upgrade-ignore-remove"),
      ConfigList(config, "upgrade-ignore-add"),
      ConfigList(config, "upgrade-ignore-modify"))
  }

  /** `any(s for s in prefixes if p.startswith(s))`: an empty prefix matches but is
      falsy, so only non-empty prefixes count. */
  predicate StartsWithAny(p: Path, prefixes: seq<String>)
    decreases |prefixes|
  {
    |prefixes| > 0 && ((|prefixes[0]| > 0 && StartsWith(p, prefixes[0])) || StartsWithAny(p, prefixes[1..]))
  }

  /** The test a pass skips an entry on: a matching prefix, or an exact match. */
  predicate Ignored(p: Path, prefixes: seq<String>, exact: seq<String>) {
    StartsWithAny(p, prefixes) || p in exact
  }

  /** The list left once every ignored entry is removed from it, in order. */
  function Kept(s: seq<Path>, prefixes: seq<String>, exact: seq<String>): (r: seq<Path>)
    ensures forall x | x in r :: x in s && !Ignored(x, prefixes, exact)
    ensures forall x | x in s && !Ignored(x, prefixes, exact) :: x in r
    decreases |s|
  {
    if s == [] then []
    else
      var rest := Kept(s[..|s| - 1], prefixes, exact);
      assert s == s[..|s| - 1] + [s[|s| - 1]];
      if Ignored(s[|s| - 1], prefixes, exact) then rest else rest + [s[|s| - 1]]
  }

  /** The kept entries are a sublist of the list: none is added and none moves. */
  lemma {:induction false} KeptSublist(s: seq<Path>, prefixes: seq<String>, exact: seq<String>)
    ensures Sublist(Kept(s, prefixes, exact), s)
    decreases |s|
  {
    if s != [] {
      KeptSublist(s[..|s| - 1], prefixes, exact);
      var rest := Kept(s[..|s| - 1], prefixes, exact);
      if !Ignored(s[|s| - 1], prefixes, exact) {
        assert (rest + [s[|s| - 1]])[..|rest|] == rest;
      }
    }
  }

  /** `result.remove(x)` for each ignored `x` while walking the list: the first
      `i` entries filtered, the rest still to come. */
  lemma KeptStep(s: seq<Path>, i: nat, prefixes: seq<String>, exact: seq<String>)
    requires i < |s|
    ensures Ignored(s[i], prefixes, exact) ==>
              RemoveFirst(Kept(s[..i], prefixes, exact) + s[i..], s[i]) == Kept(s[..i + 1], prefixes, exact) + s[i + 1..]
    ensures !Ignored(s[i], prefixes, exact) ==>
              Kept(s[..i], prefixes, exact) + s[i..] == Kept(s[..i + 1], prefixes, exact) + s[i + 1..]
  {
    var k := Kept(s[..i], prefixes, exact);
    assert s[..i + 1][..i] == s[..i];
    assert s[i..] == [s[i]] + s[i + 1..];
    if Ignored(s[i], prefixes, exact) {
      RemoveFirstSkipsPrefix(k, s[i..], s[i]);
    } else {
      assert k + ([s[i]] + s[i + 1..]) == (k + [s[i]]) + s[i + 1..];
    }
  }

  // ---------------------------------------------------------------- add pass

  /** The tree after the add pass, and the first added path whose copy failed
      because the new version does not have it (`shutil.copy` raises, and nothing
      catches it). */
  datatype AddOutcome = AddOutcome(files: Files, missing: Option<Path>)

  function AddPass(files: Files, source: Files, added: seq<Path>, prefixes: seq<String>,
                   exact: seq<String>): (r: AddOutcome)
    decreases |added|
  {
    if added == [] then AddOutcome(files, None)
    else
      var prev := AddPass(files, source, added[..|added| - 1], prefixes, exact);
      var a := added[|added| - 1];
      if prev.missing.Some? || Ignored(a, prefixes, exact) || a in prev.files then prev
      else if a in source then AddOutcome(prev.files[a := source[a]], None)
      else AddOutcome(prev.files, Some(a))
  }

  /** The add pass fails on an added, non-ignored path that neither the installation
      nor the new version has, and on nothing else. */
  lemma {:induction false} AddPassFails(files: Files, source: Files, added: seq<Path>,
                                        prefixes: seq<String>, exact: seq<String>)
    ensures var r := AddPass(files, source, added, prefixes, exact);
            && (r.missing.Some? ==>
                  var a := r.missing.value;
                  a in added && !Ignored(a, prefixes, exact) && a !in files && a !in source)
            && (r.missing.None? <==>
                  forall a | a in added && !Ignored(a, prefixes, exact) :: a in files || a in source)
    decreases |added|
  {
    if added != [] {
      var init := added[..|added| - 1];
      var a := added[|added| - 1];
      AddPassFails(files, source, init, prefixes, exact);
      assert added == init + [a];
      var prev := AddPass(files, source, init, prefixes, exact);
      if prev.missing.None? {
        AddPassAt(files, source, init, prefixes, exact, a);
      }
    }
  }

  /** The add pass over one more entry. */
  lemma AddPassStep(files: Files, source: Files, added: seq<Path>, i: nat, prefixes: seq<String>, exact: seq<String>)
    requires i < |added|
    ensures var prev := AddPass(files, source, added[..i], prefixes, exact);
            var a := added[i];
            AddPass(files, source, added[..i + 1], prefixes, exact) ==
              if prev.missing.Some? || Ignored(a, prefixes, exact) || a in prev.files then prev
              else if a in source then AddOutcome(prev.files[a := source[a]], None)
              else AddOutcome(prev.files, Some(a))
  {
    assert added[..i + 1][..i] == added[..i];
  }

  /** Once the add pass has failed, the later entries change nothing. */
  lemma {:induction false} AddPassStopped(files: Files, source: Files, added: seq<Path>, n: nat,
                                          prefixes: seq<String>, exact: seq<String>)
    requires n <= |added|
    requires AddPass(files, source, added[..n], prefixes, exact).missing.Some?
    ensures AddPass(files, source, added, prefixes, exact) == AddPass(files, source, added[..n], prefixes, exact)
    decreases |added|
  {
    if n < |added| {
      var init := added[..|added| - 1];
      assert init[..n] == added[..n];
      AddPassStopped(files, source, init, n, prefixes, exact);
    } else {
      assert added[..n] == added;
    }
  }

  /** What the add pass does at one path: a file already there keeps its bytes, a
      new file is a copy of an added path, and a successful pass has copied every
      added path it does not skip. */
  lemma {:induction false} AddPassAt(files: Files, source: Files, added: seq<Path>,
                                     prefixes: seq<String>, exact: seq<String>, p: Path)
    ensures var r := AddPass(files, source, added, prefixes, exact);
            && (p in files ==> p in r.files && r.files[p] == files[p])
            && (p in r.files ==> p in files || (p in added && !Ignored(p, prefixes, exact) && p in source && r.files[p] == source[p]))
            && (r.missing.None? && p in added && !Ignored(p, prefixes, exact) ==> p in r.files)
    decreases |added|
  {
    if added != [] {
      var init := added[..|added| - 1];
      AddPassAt(files, source, init, prefixes, exact, p);
      assert added == init + [added[|added| - 1]];
    }
  }

  // ------------------------------------------------------------- remove pass

  function RemovePass(files: Files, removed: seq<Path>, prefixes: seq<String>, exact: seq<String>): (r: Files)
    decreases |removed|
  {
    if removed == [] then files
    else
      var prev := RemovePass(files, removed[..|removed| - 1], prefixes, exact);
      var p := removed[|removed| - 1];
      if Ignored(p, prefixes, exact) then prev else prev - {p}
  }

  /** The remove pass over one more entry; deleting a path that is not there
      changes nothing. */
  lemma RemovePassStep(files: Files, removed: seq<Path>, i: nat, prefixes: seq<String>, exact: seq<String>)
    requires i < |removed|
    ensures var prev := RemovePass(files, removed[..i], prefixes, exact);
            var p := removed[i];
            RemovePass(files, removed[..i + 1], prefixes, exact) ==
              if Ignored(p, prefixes, exact) || p !in prev then prev else prev - {p}
  {
    assert removed[..i + 1][..i] == removed[..i];
    var prev := RemovePass(files, removed[..i], prefixes, exact);
    if removed[i] !in prev {
      assert prev - {removed[i]} == prev;
    }
  }

  /** The remove pass deletes exactly the listed, non-ignored paths. */
  lemma {:induction false} RemovePassAt(files: Files, removed: seq<Path>, prefixes: seq<String>,
                                        exact: seq<String>, p: Path)
    ensures var r := RemovePass(files, removed, prefixes, exact);
            && (p in r <==> p in files && !(p in removed && !Ignored(p, prefixes, exact)))
            && (p in r ==> r[p] == files[p])
    decreases |removed|
  {
    if removed != [] {
      var init := removed[..|removed| - 1];
      RemovePassAt(files, init, prefixes, exact, p);
      assert removed == init + [removed[|removed| - 1]];
    }
  }

  // ------------------------------------------------------------ replace pass

  /** How the replace pass copies: the code opens the source in text mode and the
      target for writing before it reads ( `TextMode`), the intended copy is the
      bytes themselves (`Binary`). `decodes` says which contents the platform's
      text encoding accepts. */
  datatype CopyMode = Binary | TextMode(decodes: Bytes -> bool)

  /** Universal-newline reading: "\r\n" and a lone "\r" each become "\n". */
  function TranslateNewlines(b: Bytes): (r: Bytes)
    ensures |r| <= |b|
    ensures forall i | 0 <= i < |r| :: r[i] != 13
    ensures 13 !in b ==> r == b
    decreases |b|
  {
    if b == [] then []
    else if b[0] == 13 then
      if |b| > 1 && b[1] == 10 then [10] + TranslateNewlines(b[2..]) else [10] + TranslateNewlines(b[1..])
    else [b[0]] + TranslateNewlines(b[1..])
  }

  /** What the target holds once the copy is over. An undecodable source leaves the
      target truncated, since it was opened for writing before the read failed. */
  function Written(mode: CopyMode, content: Bytes): Bytes {
    match mode
    case Binary => content
    case TextMode(decodes) => if decodes(content) then TranslateNewlines(content) else []
  }

  function ReplacePass(files: Files, source: Files, modified: seq<Path>, prefixes: seq<String>,
                       exact: seq<String>, mode: CopyMode): (r: Files)
    decreases |modified|
  {
    if modified == [] then files
    else
      var prev := ReplacePass(files, source, modified[..|modified| - 1], prefixes, exact, mode);
      var m := modified[|modified| - 1];
      if Ignored(m, prefixes, exact) || m !in source then prev
      else prev[m := Written(mode, source[m])]
  }

  /** The replace pass over one more entry. */
  lemma ReplacePassStep(files: Files, source: Files, modified: seq<Path>, i: nat, prefixes: seq<String>,
                        exact: seq<String>, mode: CopyMode)
    requires i < |modified|
    ensures var prev := ReplacePass(files, source, modified[..i], prefixes, exact, mode);
            var m := modified[i];
            ReplacePass(files, source, modified[..i + 1], prefixes, exact, mode) ==
              if Ignored(m, prefixes, exact) || m !in source then prev
              else prev[m := Written(mode, source[m])]
  {
    assert modified[..i + 1][..i] == modified[..i];
  }

  /** The replace pass writes exactly the listed, non-ignored paths the new version
      has, each with its written copy; a failing read (a missing source) is
      swallowed. */
  lemma {:induction false} ReplacePassAt(files: Files, source: Files, modified: seq<Path>,
                                         prefixes: seq<String>, exact: seq<String>, mode: CopyMode, p: Path)
    ensures var r := ReplacePass(files, source, modified, prefixes, exact, mode);
            var written := p in modified && !Ignored(p, prefixes, exact) && p in source;
            && (p in r <==> p in files || written)
            && (p in r ==> r[p] == if written then Written(mode, source[p]) else files[p])
    decreases |modified|
  {
    if modified != [] {
      var init := modified[..|modified| - 1];
      ReplacePassAt(files, source, init, prefixes, exact, mode, p);
      assert modified == init + [modified[|modified| - 1]];
    }
  }

  // ----------------------------------------------------------- defaults pass

  const DefaultsDir: String := DEFAULTS + "/"

  /** The files under `install/defaults`. */
  predicate IsDefault(k: Path) {
    StartsWith(k, DefaultsDir) && |k| > |DefaultsDir|
  }

  /** Where a default goes: its path below `install/defaults`. */
  function DefaultTarget(k: Path): Path
    requires IsDefault(k)
  {
    k[|DefaultsDir|..]
  }

  /** The corrected defaults pass: every default copied to its place unless a file
      is already there, its directory created as the add and replace passes do. */
  function DefaultsApplied(files: Files): (r: Files) {
    files + DefaultCopies(files)
  }

  /** The copies the defaults pass makes: each default to its place, where that place
      is free. */
  function DefaultCopies(files: Files): Files {
    CopiesOf(files, set k | k in files && IsDefault(k))
  }

  /** The copies made from some of the defaults. */
  function CopiesOf(files: Files, sources: set<Path>): Files
    requires forall k | k in sources :: k in files && IsDefault(k)
  {
    var places := set k | k in sources && DefaultTarget(k) !in files :: DefaultTarget(k);
    assert forall p | p in places :: DefaultsDir + p in files by {
      forall p | p in places ensures DefaultsDir + p in files {
        var k :| k in sources && DefaultTarget(k) == p;
        DefaultSourceOf(k);
      }
    }
    map p | p in places :: files[DefaultsDir + p]
  }

  /** One default more: its place is free after the earlier copies exactly when it
      was free before the pass, its own bytes are still the original ones, and the
      copies made so far grow by this one. */
  lemma CopiesStep(files: Files, done: set<Path>, k: Path)
    requires forall q | q in done :: q in files && IsDefault(q)
    requires k in files && IsDefault(k) && k !in done
    ensures var now := files + CopiesOf(files, done);
            && (DefaultTarget(k) in now <==> DefaultTarget(k) in files)
            && k in now && now[k] == files[k]
            && files + CopiesOf(files, done + {k}) ==
                 if DefaultTarget(k) in files then now else now[DefaultTarget(k) := files[k]]
  {
    var p := DefaultTarget(k);
    var m := CopiesOf(files, done);
    DefaultSourceOf(k);
    if p in m {
      var q :| q in done && DefaultTarget(q) == p;
      DefaultSourceOf(q);
    }
    assert k !in m;
  }

  lemma DefaultSourceOf(k: Path)
    requires IsDefault(k)
    ensures DefaultsDir + DefaultTarget(k) == k
  {
  }

  /** The defaults pass never overwrites a file, fills every default's place, and
      adds nothing else. */
  lemma DefaultsAt(files: Files, p: Path)
    ensures var r := DefaultsApplied(files);
            && (p in files ==> p in r && r[p] == files[p])
            && (IsDefault(p) && p in files ==> DefaultTarget(p) in r)
            && (p in r && p !in files ==> DefaultsDir + p in files && r[p] == files[DefaultsDir + p])
  {
    var r := DefaultsApplied(files);
    if p in r && p !in files {
      var k :| k in files && IsDefault(k) && DefaultTarget(k) !in files && DefaultTarget(k) == p;
      DefaultSourceOf(k);
    }
  }

  /** Applying the defaults twice is applying them once, as long as the defaults do
      not themselves hold an `install/defaults` directory. */
  lemma DefaultsIdempotent(files: Files)
    requires forall k | k in files && IsDefault(k) :: !IsDefault(DefaultTarget(k))
    ensures DefaultsApplied(DefaultsApplied(files)) == DefaultsApplied(files)
  {
    var r := DefaultsApplied(files);
    forall k | k in r && IsDefault(k) ensures DefaultTarget(k) in r {
      DefaultsAt(files, k);
    }
  }

  /** The directory a path sits in: the text before its last "/", or "" (the
      installation itself) for a path with none. */
  function DirName(p: Path): (r: Path)
    ensures r <= p
    ensures (r == [] && '/' !in p) || (|r| < |p| && p[|r|] == '/' && '/' !in p[|r| + 1..])
    decreases |p|
  {
    if p == [] then []
    else if p[|p| - 1] == '/' then p[..|p| - 1]
    else
      var r := DirName(p[..|p| - 1]);
      if |r| < |p| - 1 then
        assert p[|r| + 1..] == p[..|p| - 1][|r| + 1..] + [p[|p| - 1]];
        r
      else
        r
  }

  /** Whether a directory of the installation exists: the installation itself does,
      a directory holding a file does, and `dirs` names the ones that exist without
      holding a file (emptied by the remove pass, say). */
  predicate DirExists(files: Files, dirs: set<Path>, dir: Path) {
    dir == [] || dir in dirs || exists k | k in files :: StartsWith(k, dir + "/")
  }

  /** The defaults walk as the code is written. `walk` is the order in which
      `os.walk` yields the files under `install/defaults`. A free place is filled by
      `shutil.copy`, which does not create directories: when the place's directory
      does not exist the copy raises, and the `except` around the walk abandons the
      rest of it. */
  function DefaultsAsWritten(files: Files, dirs: set<Path>, walk: seq<Path>): (r: Files)
    decreases |walk|
  {
    if walk == [] then files
    else
      var k := walk[0];
      if k !in files || !IsDefault(k) || DefaultTarget(k) in files then DefaultsAsWritten(files, dirs, walk[1..])
      else if DirExists(files, dirs, DirName(DefaultTarget(k))) then
        DefaultsAsWritten(files[DefaultTarget(k) := files[k]], dirs, walk[1..])
      else files
  }

  /** The walk as written only creates places of defaults it visits, so when no
      visited default has a place below `install/defaults`, it creates no default. */
  lemma {:induction false} DefaultsAsWrittenAddsNoDefault(files: Files, dirs: set<Path>, walk: seq<Path>, p: Path)
    requires forall k | k in walk && IsDefault(k) :: !IsDefault(DefaultTarget(k))
    ensures p in DefaultsAsWritten(files, dirs, walk) && p !in files ==> !IsDefault(p)
    decreases |walk|
  {
    if walk != [] {
      var k := walk[0];
      assert forall j | j in walk[1..] :: j in walk;
      if k !in files || !IsDefault(k) || DefaultTarget(k) in files {
        DefaultsAsWrittenAddsNoDefault(files, dirs, walk[1..], p);
      } else if DirExists(files, dirs, DirName(DefaultTarget(k))) {
        DefaultsAsWrittenAddsNoDefault(files[DefaultTarget(k) := files[k]], dirs, walk[1..], p);
      }
    }
  }

  /** Running the walk as written a second time, in the same order, changes nothing:
      every place the first run filled is skipped, and the walk ends again at the
      default whose directory is missing. */
  lemma {:induction false} DefaultsAsWrittenIdempotent(files: Files, dirs: set<Path>, walk: seq<Path>)
    requires forall k | k in walk && IsDefault(k) :: !IsDefault(DefaultTarget(k))
    ensures var r := DefaultsAsWritten(files, dirs, walk);
            DefaultsAsWritten(r, dirs, walk) == r
    decreases |walk|
  {
    if walk != [] {
      var k := walk[0];
      var rest := walk[1..];
      assert forall j | j in rest :: j in walk;
      var r := DefaultsAsWritten(files, dirs, walk);
      if k !in files || !IsDefault(k) || DefaultTarget(k) in files {
        DefaultsAsWrittenIdempotent(files, dirs, rest);
        assert r == DefaultsAsWritten(files, dirs, rest);
        if k !in files && IsDefault(k) {
          DefaultsAsWrittenAddsNoDefault(files, dirs, rest, k);
        }
        if IsDefault(k) && DefaultTarget(k) in files {
          DefaultsAsWrittenAt(files, dirs, rest, DefaultTarget(k));
        }
        assert DefaultsAsWritten(r, dirs, walk) == DefaultsAsWritten(r, dirs, rest);
      } else if DirExists(files, dirs, DirName(DefaultTarget(k))) {
        var next := files[DefaultTarget(k) := files[k]];
        DefaultsAsWrittenIdempotent(next, dirs, rest);
        DefaultsAsWrittenAt(next, dirs, rest, k);
        DefaultsAsWrittenAt(next, dirs, rest, DefaultTarget(k));
        assert DefaultsAsWritten(r, dirs, walk) == DefaultsAsWritten(r, dirs, rest);
      }
    }
  }

  /** As written, the walk still never overwrites a file, and a file it creates is a
      copy of the default for that place. */
  lemma {:induction false} DefaultsAsWrittenAt(files: Files, dirs: set<Path>, walk: seq<Path>, p: Path)
    ensures var r := DefaultsAsWritten(files, dirs, walk);
            && (p in files ==> p in r && r[p] == files[p])
            && (p in r && p !in files ==> DefaultsDir + p in r && r[p] == r[DefaultsDir + p])
    decreases |walk|
  {
    if walk != [] {
      var k := walk[0];
      if k !in files || !IsDefault(k) || DefaultTarget(k) in files {
        DefaultsAsWrittenAt(files, dirs, walk[1..], p);
      } else if DirExists(files, dirs, DirName(DefaultTarget(k))) {
        var next := files[DefaultTarget(k) := files[k]];
        DefaultsAsWrittenAt(next, dirs, walk[1..], p);
        DefaultSourceOf(k);
        if p == DefaultTarget(k) && p !in files {
          DefaultsAsWrittenAt(next, dirs, walk[1..], k);
        }
      }
    }
  }

  /** The defaults of the example below, and the installation they go into: it has
      an `options` directory but no `journeymap` directory. */
  function DefaultsExample(): Files {
    map["install/defaults/journeymap/a.cfg" := [1], "install/defaults/options/b.cfg" := [2], "options/c.cfg" := [3]]
  }

  /** A default whose directory is missing stops the walk as written: the first
      default's `journeymap` directory does not exist, so the second default is not
      copied either, although its `options` directory does exist. */
  lemma DefaultsMissingDirAbandonsWalk()
    ensures DefaultsAsWritten(DefaultsExample(), {},
              ["install/defaults/journeymap/a.cfg", "install/defaults/options/b.cfg"]) == DefaultsExample()
  {
    var files := DefaultsExample();
    var first: Path := "install/defaults/journeymap/a.cfg";
    var walk: seq<Path> := [first, "install/defaults/options/b.cfg"];
    assert DefaultsDir == "install/defaults/";
    assert first == DefaultsDir + "journeymap/a.cfg";
    assert first[..|DefaultsDir|] == DefaultsDir;
    assert IsDefault(first) && DefaultTarget(first) == "journeymap/a.cfg";
    assert first in files && "journeymap/a.cfg" !in files;
    JourneymapDir();
    assert !DirExists(files, {}, "journeymap") by {
      forall k | k in files ensures !StartsWith(k, "journeymap/") {
        assert k[0] != 'j';
      }
    }
    assert walk[0] == first;
  }

  /** With the directories created, as the add and replace passes do, both defaults
      of the example land. */
  lemma DefaultsExampleApplied()
    ensures "journeymap/a.cfg" in DefaultsApplied(DefaultsExample())
    ensures "options/b.cfg" in DefaultsApplied(DefaultsExample())
  {
    var first: Path := "install/defaults/journeymap/a.cfg";
    var second: Path := "install/defaults/options/b.cfg";
    assert DefaultsDir == "install/defaults/";
    assert IsDefault(first) && DefaultTarget(first) == "journeymap/a.cfg";
    assert IsDefault(second) && DefaultTarget(second) == "options/b.cfg";
    DefaultsAt(DefaultsExample(), first);
    DefaultsAt(DefaultsExample(), second);
  }

  lemma JourneymapDir()
    ensures DirName("journeymap/a.cfg") == "journeymap"
  {
    var p: Path := "journeymap/a.cfg";
    var r := DirName(p);
    assert p[10] == '/' && '/' !in p[11..];
    assert '/' in p;
  }

  // --------------------------------------------------------- whole operation

  /** The failures `install_upgrade` raises. */
  datatype InstallError = SourceNotADirectory | TargetNotADirectory | MissingSource(path: Path)

  /** The outcome of a call: the tree once the call is over (also when it raised),
      and the returned difference or the error. */
  datatype Outcome = Outcome(files: Files, result: Result<Difference, InstallError>)

  /** The returned difference: the input with every ignored entry taken out of its
      list. `removeExact` and `modifyExact` are the exact-match lists of those two
      passes. */
  function ResultDiff(d: Difference, rules: Rules, removeExact: seq<String>, modifyExact: seq<String>): Difference {
    Difference(
      Kept(d.added, rules.ignoreAdd, rules.ignoreGlobal),
      Kept(d.removed, rules.ignoreRemove, removeExact),
      Kept(d.modified, rules.ignoreModify, modifyExact),
      d.oldVersion, d.newVersion)
  }

  /** How the defaults pass copies: creating the place's directory first, as the
      add and replace passes do (`MakingDirs`), or with a bare `shutil.copy` over the
      walk order `walk`, where `dirs` are the directories that hold no file
      (`IntoExistingDirs`). */
  datatype DefaultsCopy = MakingDirs | IntoExistingDirs(dirs: set<Path>, walk: seq<Path>)

  function DefaultsPass(files: Files, how: DefaultsCopy): Files {
    match how
    case MakingDirs => DefaultsApplied(files)
    case IntoExistingDirs(dirs, walk) => DefaultsAsWritten(files, dirs, walk)
  }

  function Upgraded(files: Files, sourceIsDir: bool, source: Files, targetIsDir: bool, d: Difference,
                    installDefaults: bool, rules: Rules, removeExact: seq<String>, modifyExact: seq<String>,
                    mode: CopyMode, how: DefaultsCopy): Outcome
  {
    if !sourceIsDir then Outcome(files, Err(SourceNotADirectory))
    else if !targetIsDir then Outcome(files, Err(TargetNotADirectory))
    else
      var add := AddPass(files, source, d.added, rules.ignoreAdd, rules.ignoreGlobal);
      if add.missing.Some? then Outcome(add.files, Err(MissingSource(add.missing.value)))
      else
        var removed := RemovePass(add.files, d.removed, rules.ignoreRemove, removeExact);
        var replaced := ReplacePass(removed, source, d.modified, rules.ignoreModify, modifyExact, mode);
        var final := if installDefaults then DefaultsPass(replaced, how) else replaced;
        Outcome(final, Ok(ResultDiff(d, rules, removeExact, modifyExact)))
  }

  /** `install_upgrade` as the code is written: the global ignore list, written into
      the headers of the remove and replace loops, applies to neither, the replace
      pass copies in text mode, and the defaults walk copies into existing
      directories only, in the order `walk`. */
  function InstallAsWritten(files: Files, sourceIsDir: bool, source: Files, targetIsDir: bool, d: Difference,
                            installDefaults: bool, config: Config, decodes: Bytes -> bool,
                            dirs: set<Path>, walk: seq<Path>): Outcome
  {
    Upgraded(files, sourceIsDir, source, targetIsDir, d, installDefaults, RulesOf(config), [], [],
             TextMode(decodes), IntoExistingDirs(dirs, walk))
  }

  /** `install_upgrade` as intended: the global ignore list applies to all three
      passes, the replace pass copies bytes, and the defaults pass creates the
      directories it copies into. */
  function InstallIntended(files: Files, sourceIsDir: bool, source: Files, targetIsDir: bool, d: Difference,
                           installDefaults: bool, config: Config): Outcome
  {
    var rules := RulesOf(config);
    Upgraded(files, sourceIsDir, source, targetIsDir, d, installDefaults, rules, rules.ignoreGlobal, rules.ignoreGlobal,
             Binary, MakingDirs)
  }

  // ------------------------------------------------------------- properties

  /** The returned difference keeps the versions, and each of its lists is a
      sublist of the given one. */
  lemma ResultSublists(files: Files, sourceIsDir: bool, source: Files, targetIsDir: bool, d: Difference,
                       installDefaults: bool, rules: Rules, removeExact: seq<String>, modifyExact: seq<String>,
                       mode: CopyMode, how: DefaultsCopy)
    requires Upgraded(files, sourceIsDir, source, targetIsDir, d, installDefaults, rules, removeExact, modifyExact,
                      mode, how).result.Ok?
    ensures var e := Upgraded(files, sourceIsDir, source, targetIsDir, d, installDefaults, rules, removeExact,
                              modifyExact, mode, how).result.value;
            && Sublist(e.added, d.added) && Sublist(e.removed, d.removed) && Sublist(e.modified, d.modified)
            && e.oldVersion == d.oldVersion && e.newVersion == d.newVersion
  {
    KeptSublist(d.added, rules.ignoreAdd, rules.ignoreGlobal);
    KeptSublist(d.removed, rules.ignoreRemove, removeExact);
    KeptSublist(d.modified, rules.ignoreModify, modifyExact);
  }

  /** A path in the global ignore list is left alone: a file there keeps its bytes,
      and without the defaults pass an absent file stays absent. */
  lemma GlobalIgnoreHolds(files: Files, source: Files, d: Difference, installDefaults: bool,
                          config: Config, p: Path)
    requires p in RulesOf(config).ignoreGlobal
    ensures var o := InstallIntended(files, true, source, true, d, installDefaults, config);
            && (p in files ==> p in o.files && o.files[p] == files[p])
            && (p !in files && !installDefaults ==> p !in o.files)
  {
    var rules := RulesOf(config);
    var g := rules.ignoreGlobal;
    assert Ignored(p, rules.ignoreAdd, g) && Ignored(p, rules.ignoreRemove, g) && Ignored(p, rules.ignoreModify, g);
    AddPassAt(files, source, d.added, rules.ignoreAdd, g, p);
    var add := AddPass(files, source, d.added, rules.ignoreAdd, g);
    RemovePassAt(add.files, d.removed, rules.ignoreRemove, g, p);
    var removed := RemovePass(add.files, d.removed, rules.ignoreRemove, g);
    ReplacePassAt(removed, source, d.modified, rules.ignoreModify, g, Binary, p);
    var replaced := ReplacePass(removed, source, d.modified, rules.ignoreModify, g, Binary);
    DefaultsAt(replaced, p);
  }

  /** A replaced path the new version has ends up holding exactly the new bytes. */
  lemma ReplacedGetsNewBytes(files: Files, source: Files, d: Difference, installDefaults: bool,
                             config: Config, m: Path)
    requires m in d.modified && m in source
    requires !Ignored(m, RulesOf(config).ignoreModify, RulesOf(config).ignoreGlobal)
    requires InstallIntended(files, true, source, true, d, installDefaults, config).result.Ok?
    ensures var o := InstallIntended(files, true, source, true, d, installDefaults, config);
            m in o.files && o.files[m] == source[m]
  {
    var rules := RulesOf(config);
    var g := rules.ignoreGlobal;
    var add := AddPass(files, source, d.added, rules.ignoreAdd, g);
    var removed := RemovePass(add.files, d.removed, rules.ignoreRemove, g);
    ReplacePassAt(removed, source, d.modified, rules.ignoreModify, g, Binary, m);
    var replaced := ReplacePass(removed, source, d.modified, rules.ignoreModify, g, Binary);
    DefaultsAt(replaced, m);
  }

  /** The trees agree with a manifest on its paths, up to a fingerprint function. */
  ghost predicate Matches(files: Files, c: Content, fingerprint: Bytes -> Fingerprint) {
    forall p | p in c.hashes :: p in files && fingerprint(files[p]) == c.hashes[p]
  }

  /** Installing the difference between two manifests onto an installation that
      matches the first, from a new version that matches the second, with no ignore
      rules and no defaults: the call succeeds, the installation then matches the
      second manifest, the removed paths are gone, and every other file is as it
      was. The added paths must be free in the installation, because the add pass
      leaves a file it finds there alone. */
  lemma InstallRoundTrip(files: Files, source: Files, before: Content, after: Content,
                         fingerprint: Bytes -> Fingerprint)
    requires before.Valid() && after.Valid()
    requires Matches(files, before, fingerprint) && Matches(source, after, fingerprint)
    requires forall p | p in after.hashes && p !in before.hashes :: p !in files
    ensures var o := InstallIntended(files, true, source, true, Compare(before, after), false, map[]);
            && o.result.Ok?
            && Matches(o.files, after, fingerprint)
            && (forall p | p in before.hashes && p !in after.hashes :: p !in o.files)
            && (forall p | p !in before.hashes && p !in after.hashes ::
                  (p in o.files <==> p in files) && (p in files ==> o.files[p] == files[p]))
  {
    var d := Compare(before, after);
    assert RulesOf(map[]) == Rules([], [], [], []);
    forall a | a in d.added && !Ignored(a, [], []) ensures a in files || a in source {
      CompareClassifies(before, after, a);
    }
    AddPassFails(files, source, d.added, [], []);
    var add := AddPass(files, source, d.added, [], []);
    var removed := RemovePass(add.files, d.removed, [], []);
    var replaced := ReplacePass(removed, source, d.modified, [], [], Binary);
    var o := InstallIntended(files, true, source, true, d, false, map[]);
    assert o.result.Ok? && o.files == replaced;
    forall p | p in after.hashes ensures p in replaced && fingerprint(replaced[p]) == after.hashes[p] {
      RoundTripAt(files, source, before, after, fingerprint, p);
    }
    forall p | p in before.hashes && p !in after.hashes ensures p !in replaced {
      RoundTripAt(files, source, before, after, fingerprint, p);
    }
    forall p | p !in before.hashes && p !in after.hashes
      ensures (p in replaced <==> p in files) && (p in files ==> replaced[p] == files[p])
    {
      RoundTripAt(files, source, before, after, fingerprint, p);
    }
  }

  lemma RoundTripAt(files: Files, source: Files, before: Content, after: Content,
                    fingerprint: Bytes -> Fingerprint, p: Path)
    requires before.Valid() && after.Valid()
    requires Matches(files, before, fingerprint) && Matches(source, after, fingerprint)
    requires forall p | p in after.hashes && p !in before.hashes :: p !in files
    requires AddPass(files, source, Compare(before, after).added, [], []).missing.None?
    ensures var d := Compare(before, after);
            var add := AddPass(files, source, d.added, [], []);
            var removed := RemovePass(add.files, d.removed, [], []);
            PathRoundTrip(files, source, before, after, fingerprint, ReplacePass(removed, source, d.modified, [], [], Binary), p)
  {
    var d := Compare(before, after);
    CompareClassifies(before, after, p);
    AddPassAt(files, source, d.added, [], [], p);
    var add := AddPass(files, source, d.added, [], []);
    RemovePassAt(add.files, d.removed, [], [], p);
    var removed := RemovePass(add.files, d.removed, [], []);
    ReplacePassAt(removed, source, d.modified, [], [], Binary, p);
    assert !Ignored(p, [], []);
  }

  /** The round trip at one path. */
  ghost predicate PathRoundTrip(files: Files, source: Files, before: Content, after: Content,
                                fingerprint: Bytes -> Fingerprint, r: Files, p: Path)
  {
    && (p in after.hashes ==> p in r && fingerprint(r[p]) == after.hashes[p])
    && (p in before.hashes && p !in after.hashes ==> p !in r)
    && (p !in before.hashes && p !in after.hashes ==> (p in r <==> p in files) && (p in files ==> r[p] == files[p]))
  }

  // ---------------------------------------------------------------- findings

  /** The global ignore list does not protect a removed path as the code is written;
      as intended, it does. */
  lemma GlobalIgnoreMissedOnRemove()
    ensures var files: Files := map["mods/a.jar" := [1]];
            var d := Difference([], ["mods/a.jar"], [], None, None);
            var config: Config := map["upgrade-ignore-global" := ["mods/a.jar"]];
            && "mods/a.jar" !in InstallAsWritten(files, true, map[], true, d, false, config, _ => true, {}, []).files
            && "mods/a.jar" in InstallIntended(files, true, map[], true, d, false, config).files
  {
    var files: Files := map["mods/a.jar" := [1]];
    var rules := RulesOf(map["upgrade-ignore-global" := ["mods/a.jar"]]);
    assert !StartsWithAny("mods/a.jar", rules.ignoreRemove);
    assert RemovePass(files, ["mods/a.jar"], [], []) == files - {"mods/a.jar"} by {
      assert ["mods/a.jar"][..0] == [];
    }
    assert RemovePass(files, ["mods/a.jar"], [], rules.ignoreGlobal) == files by {
      assert ["mods/a.jar"][..0] == [];
    }
  }

  /** As the code is written, replacing a file whose new bytes the text encoding
      rejects leaves it empty, and one with a "\r\n" loses the "\r"; as intended,
      both get the new bytes. */
  lemma ReplaceInTextModeCorrupts(decodes: Bytes -> bool)
    ensures var d := Difference([], [], ["mods/a.jar"], None, None);
            var files: Files := map["mods/a.jar" := [1]];
            && (!decodes([255]) ==>
                  InstallAsWritten(files, true, map["mods/a.jar" := [255]], true, d, false, map[], decodes, {}, []).files["mods/a.jar"] == [])
            && (decodes([13, 10]) ==>
                  InstallAsWritten(files, true, map["mods/a.jar" := [13, 10]], true, d, false, map[], decodes, {}, []).files["mods/a.jar"] == [10])
            && InstallIntended(files, true, map["mods/a.jar" := [255]], true, d, false, map[]).files["mods/a.jar"] == [255]
  {
    var one := ["mods/a.jar"];
    assert one[..0] == [];
    assert !Ignored("mods/a.jar", [], []);
    var b: Bytes := [13, 10];
    assert b[2..] == [];
    assert TranslateNewlines(b) == [10];
  }
}
