/** The objects of src/lib/dreams_upgrade.py that change in place: a
    `ContentDifference`, whose lists `install_upgrade` and `upgrade_pack` edit, and
    the installation's tree of files, which `install_upgrade` changes. Each method
    is proved against the functions of the Install and Patchnotes modules. */
module DreamsUpgrade {
  import opened Wrappers
  import opened Seqs
  import opened PyStr
  import opened Dreams
  import opened Manifest
  import opened Diffs
  import opened Patchnotes
  import opened Install

  /** The files of a directory, by relative path. */
  class FileTree {
    var files: Files

    constructor (files: Files)
      ensures this.files == files
    {
      this.files := files;
    }
  }

  /** `upgrade_pack`'s edit of the difference it downloads: both sidecar files are
      always replaced, and never counted as added. */
  function SidecarsForced(d: Difference): Difference {
    var m1 := if FILE_VERSION_CONTENT in d.modified then d.modified else d.modified + [FILE_VERSION_CONTENT];
    var a1 := RemoveFirst(d.added, FILE_VERSION_CONTENT);
    var m2 := if FILE_VERSION_CHECKER in m1 then m1 else m1 + [FILE_VERSION_CHECKER];
    var a2 := RemoveFirst(a1, FILE_VERSION_CHECKER);
    d.(added := a2, modified := m2)
  }

  /** After the edit both sidecars are in the modified list, the old modified list
      is a prefix of the new one (at most two entries longer), and the removed list
      and the versions are unchanged. */
  lemma SidecarsForcedModified(d: Difference)
    ensures var e := SidecarsForced(d);
            && FILE_VERSION_CONTENT in e.modified && FILE_VERSION_CHECKER in e.modified
            && d.modified <= e.modified && |e.modified| <= |d.modified| + 2
            && e.removed == d.removed && e.oldVersion == d.oldVersion && e.newVersion == d.newVersion
  {
    var e := SidecarsForced(d);
    var m1 := if FILE_VERSION_CONTENT in d.modified then d.modified else d.modified + [FILE_VERSION_CONTENT];
    assert FILE_VERSION_CONTENT in m1 && d.modified <= m1;
    PrefixKeeps(m1, e.modified, FILE_VERSION_CONTENT);
  }

  /** The added list loses one copy of each sidecar; when it held each at most once
      it then holds neither, keeps every other entry, and still holds none twice. */
  lemma SidecarsForcedAdded(d: Difference, p: Path)
    requires Distinct(d.added)
    ensures var e := SidecarsForced(d);
            && Distinct(e.added)
            && (p in e.added <==> p in d.added && p != FILE_VERSION_CONTENT && p != FILE_VERSION_CHECKER)
  {
    var a1 := RemoveFirst(d.added, FILE_VERSION_CONTENT);
    RemoveFirstOfDistinct(d.added, FILE_VERSION_CONTENT);
    RemoveFirstOfDistinct(a1, FILE_VERSION_CHECKER);
    assert p in a1 <==> p in d.added && p != FILE_VERSION_CONTENT;
  }

  /** Forcing the sidecars twice changes nothing more. */
  lemma SidecarsForcedIdempotent(d: Difference)
    requires Distinct(d.added)
    ensures SidecarsForced(SidecarsForced(d)) == SidecarsForced(d)
  {
    SidecarsForcedModified(d);
    SidecarsForcedAdded(d, FILE_VERSION_CONTENT);
    SidecarsForcedAdded(d, FILE_VERSION_CHECKER);
  }

  /** The difference between two versions of the modpack. */
  class ContentDifference {
    var added: seq<Path>
    var removed: seq<Path>
    var modified: seq<Path>
    var oldVersion: Option<String>
    var newVersion: Option<String>

    function Value(): Difference
      reads this
    {
      Difference(added, removed, modified, oldVersion, newVersion)
    }

    /** `ContentDifference(old_content, new_content)`. */
    constructor (before: Content, after: Content)
      ensures Value() == Compare(before, after)
    {
      var d := Compare(before, after);
      added := d.added;
      removed := d.removed;
      modified := d.modified;
      oldVersion := None;
      newVersion := None;
    }

    /** `copy.deepcopy(difference)`. */
    constructor Copy(other: ContentDifference)
      ensures Value() == other.Value()
    {
      added := other.added;
      removed := other.removed;
      modified := other.modified;
      oldVersion := other.oldVersion;
      newVersion := other.newVersion;
    }

    /** The list edit of `upgrade_pack`. */
    method ForceSidecars()
      modifies this
      ensures Value() == SidecarsForced(old(Value()))
    {
      if FILE_VERSION_CONTENT !in modified {
        modified := modified + [FILE_VERSION_CONTENT];
      }
      if FILE_VERSION_CONTENT in added {
        added := RemoveFirst(added, FILE_VERSION_CONTENT);
      }
      if FILE_VERSION_CHECKER !in modified {
        modified := modified + [FILE_VERSION_CHECKER];
      }
      if FILE_VERSION_CHECKER in added {
        added := RemoveFirst(added, FILE_VERSION_CHECKER);
      }
    }

    /** `patchnote(fancy, indent)`. */
    method Patchnote(fancy: bool, indent: int) returns (text: String)
      ensures text == PatchnoteText(Value(), fancy, indent)
    {
      var d := Value();
      var rule := Rule(d);
      var head := if fancy then [rule, TitleLine(d), rule + "\n"] else [];
      var foot := if fancy then [rule] else [];
      text := AppendLines([], head, indent);
      text := AppendSection(text, if fancy then [] else ["Added :"], AddSymbol, added, [""], indent);
      text := AppendSection(text, if fancy then [rule, ""] else ["Removed :"], RemoveSymbol, removed, [""], indent);
      text := AppendSection(text, if fancy then [rule, ""] else ["Modified :"], ModifySymbol, modified, [], indent);
      text := AppendLines(text, foot, indent);
      PatchnoteTextSections(d, fancy, indent);
      assert [] + Render(head, indent) == Render(head, indent);
    }
  }

  /** A run of `patch_str += as_line(l)`. */
  method AppendLines(text: String, lines: seq<String>, indent: int) returns (r: String)
    ensures r == text + Render(lines, indent)
  {
    r := text;
    for i := 0 to |lines|
      invariant r == text + Render(lines[..i], indent)
    {
      RenderSnoc(lines, i, indent);
      var line := AsLine(lines[i], indent);
      Associative(text, Render(lines[..i], indent), line);
      r := r + line;
    }
    assert lines[..|lines|] == lines;
  }

  /** One section of `patchnote`: nothing for an empty list, else its header lines,
      an entry line per path and its closing lines. */
  method AppendSection(text: String, header: seq<String>, symbol: String, files: seq<Path>,
                       tail: seq<String>, indent: int) returns (r: String)
    ensures r == text + Render(Section(header, symbol, files, tail), indent)
  {
    r := text;
    RenderSection(header, symbol, files, tail, indent);
    if |files| > 0 {
      var r1 := AppendLines(r, header, indent);
      var r2 := AppendEntries(r1, symbol, files, indent);
      r := AppendLines(r2, tail, indent);
      ghost var h := Render(header, indent);
      ghost var e := Render(EntryLines(symbol, files), indent);
      ghost var t := Render(tail, indent);
      Associative(text, h, e);
      Associative(text, h + e, t);
    } else {
      assert text + [] == text;
    }
  }

  /** The loop of `patchnote` over one list: an entry line per path. */
  method AppendEntries(text: String, symbol: String, files: seq<Path>, indent: int) returns (r: String)
    ensures r == text + Render(EntryLines(symbol, files), indent)
  {
    r := text;
    for i := 0 to |files|
      invariant r == text + Render(EntryLines(symbol, files[..i]), indent)
    {
      RenderEntriesSnoc(symbol, files, i, indent);
      ghost var done := Render(EntryLines(symbol, files[..i]), indent);
      var line := AsLine(symbol + " " + files[i], indent);
      Associative(text, done, line);
      r := r + line;
    }
    assert files[..|files|] == files;
  }

  // ------------------------------------------------------------ install_upgrade

  /** The add loop of `install_upgrade`: a skipped entry is taken out of the returned
      difference, a path already installed is left alone (a warning), any other is
      copied from the new version, and a path the new version lacks stops the call. */
  method AddFiles(target: FileTree, source: Files, added: seq<Path>, rules: Rules, result: ContentDifference)
    returns (missing: Option<Path>)
    requires result.added == added
    modifies target, result
    ensures var o := AddPass(old(target.files), source, added, rules.ignoreAdd, rules.ignoreGlobal);
            target.files == o.files && missing == o.missing
    ensures missing.None? ==> result.added == Kept(added, rules.ignoreAdd, rules.ignoreGlobal)
    ensures result.removed == old(result.removed) && result.modified == old(result.modified)
    ensures result.oldVersion == old(result.oldVersion) && result.newVersion == old(result.newVersion)
  {
    ghost var start := target.files;
    missing := None;
    for i := 0 to |added|
      invariant target.files == AddPass(start, source, added[..i], rules.ignoreAdd, rules.ignoreGlobal).files
      invariant AddPass(start, source, added[..i], rules.ignoreAdd, rules.ignoreGlobal).missing.None?
      invariant result.added == Kept(added[..i], rules.ignoreAdd, rules.ignoreGlobal) + added[i..]
      invariant result.removed == old(result.removed) && result.modified == old(result.modified)
      invariant result.oldVersion == old(result.oldVersion) && result.newVersion == old(result.newVersion)
    {
      var a := added[i];
      AddPassStep(start, source, added, i, rules.ignoreAdd, rules.ignoreGlobal);
      KeptStep(added, i, rules.ignoreAdd, rules.ignoreGlobal);
      if StartsWithAny(a, rules.ignoreAdd) || a in rules.ignoreGlobal {
        result.added := RemoveFirst(result.added, a);
      } else if a !in target.files {
        if a !in source {
          missing := Some(a);
          AddPassStopped(start, source, added, i + 1, rules.ignoreAdd, rules.ignoreGlobal);
          return;
        }
        target.files := target.files[a := source[a]];
      }
    }
    assert added[..|added|] == added;
  }

  /** The remove loop: a skipped entry is taken out of the returned difference, any
      other path is deleted if it is there (a warning if not). */
  method RemoveFiles(target: FileTree, removed: seq<Path>, rules: Rules, result: ContentDifference)
    requires result.removed == removed
    modifies target, result
    ensures target.files == RemovePass(old(target.files), removed, rules.ignoreRemove, rules.ignoreGlobal)
    ensures result.removed == Kept(removed, rules.ignoreRemove, rules.ignoreGlobal)
    ensures result.added == old(result.added) && result.modified == old(result.modified)
    ensures result.oldVersion == old(result.oldVersion) && result.newVersion == old(result.newVersion)
  {
    ghost var start := target.files;
    for i := 0 to |removed|
      invariant target.files == RemovePass(start, removed[..i], rules.ignoreRemove, rules.ignoreGlobal)
      invariant result.removed == Kept(removed[..i], rules.ignoreRemove, rules.ignoreGlobal) + removed[i..]
      invariant result.added == old(result.added) && result.modified == old(result.modified)
      invariant result.oldVersion == old(result.oldVersion) && result.newVersion == old(result.newVersion)
    {
      var r := removed[i];
      RemovePassStep(start, removed, i, rules.ignoreRemove, rules.ignoreGlobal);
      KeptStep(removed, i, rules.ignoreRemove, rules.ignoreGlobal);
      if StartsWithAny(r, rules.ignoreRemove) || r in rules.ignoreGlobal {
        result.removed := RemoveFirst(result.removed, r);
        continue;
      }
      if r in target.files {
        target.files := target.files - {r};
      }
    }
    assert removed[..|removed|] == removed;
  }

  /** The replace loop: a skipped entry is taken out of the returned difference, any
      other path the new version has is overwritten with its bytes; a missing source
      is passed over. */
  method ReplaceFiles(target: FileTree, source: Files, modified: seq<Path>, rules: Rules,
                      result: ContentDifference)
    requires result.modified == modified
    modifies target, result
    ensures target.files ==
      ReplacePass(old(target.files), source, modified, rules.ignoreModify, rules.ignoreGlobal, Binary)
    ensures result.modified == Kept(modified, rules.ignoreModify, rules.ignoreGlobal)
    ensures result.added == old(result.added) && result.removed == old(result.removed)
    ensures result.oldVersion == old(result.oldVersion) && result.newVersion == old(result.newVersion)
  {
    ghost var start := target.files;
    for i := 0 to |modified|
      invariant target.files == ReplacePass(start, source, modified[..i], rules.ignoreModify, rules.ignoreGlobal, Binary)
      invariant result.modified == Kept(modified[..i], rules.ignoreModify, rules.ignoreGlobal) + modified[i..]
      invariant result.added == old(result.added) && result.removed == old(result.removed)
      invariant result.oldVersion == old(result.oldVersion) && result.newVersion == old(result.newVersion)
    {
      var m := modified[i];
      ReplacePassStep(start, source, modified, i, rules.ignoreModify, rules.ignoreGlobal, Binary);
      KeptStep(modified, i, rules.ignoreModify, rules.ignoreGlobal);
      if StartsWithAny(m, rules.ignoreModify) || m in rules.ignoreGlobal {
        result.modified := RemoveFirst(result.modified, m);
        continue;
      }
      if m in source {
        target.files := target.files[m := source[m]];
      }
    }
    assert modified[..|modified|] == modified;
  }

  /** The defaults pass, corrected: every file under `install/defaults` is copied to
      its place below the installation unless a file is already there, its directory
      created as the other passes do (`Install.DefaultsAsWritten` is the walk as the
      code is written). The files are visited in an unspecified order. */
  method MoveDefaults(target: FileTree)
    modifies target
    ensures target.files == DefaultsApplied(old(target.files))
  {
    ghost var start := target.files;
    var todo := set k | k in target.files && IsDefault(k);
    ghost var done: set<Path> := {};
    assert CopiesOf(start, {}) == map[];
    while todo != {}
      invariant forall k | k in done :: k in start && IsDefault(k)
      invariant todo !! done && todo + done == set k | k in start && IsDefault(k)
      invariant target.files == start + CopiesOf(start, done)
      decreases todo
    {
      var k :| k in todo;
      CopiesStep(start, done, k);
      var dest := k[|DefaultsDir|..];
      if dest !in target.files {
        target.files := target.files[dest := target.files[k]];
      }
      done := done + {k};
      todo := todo - {k};
    }
  }

  /** `install_upgrade` for a client installation: `source` is the new version's
      directory, `target` the installation, `sourceIsDir` and `targetIsDir` what
      `os.path.isdir` says of them. The returned difference is a new object; the
      given one is left as it was. */
  method InstallUpgrade(sourceIsDir: bool, source: Files, target: FileTree, targetIsDir: bool,
                        difference: ContentDifference, installDefaults: bool, config: Config)
    returns (r: Result<ContentDifference, InstallError>)
    modifies target
    ensures var o := InstallIntended(old(target.files), sourceIsDir, source, targetIsDir, difference.Value(),
                                     installDefaults, config);
            && target.files == o.files
            && (o.result.Err? ==> r == Err(o.result.error))
            && (o.result.Ok? ==> r.Ok? && fresh(r.value) && r.value.Value() == o.result.value)
  {
    if !sourceIsDir {
      return Err(SourceNotADirectory);
    }
    if !targetIsDir {
      return Err(TargetNotADirectory);
    }
    var result := new ContentDifference.Copy(difference);
    var rules := RulesOf(config);
    var missing := AddFiles(target, source, difference.added, rules, result);
    if missing.Some? {
      return Err(MissingSource(missing.value));
    }
    RemoveFiles(target, difference.removed, rules, result);
    ReplaceFiles(target, source, difference.modified, rules, result);
    if installDefaults {
      MoveDefaults(target);
    }
    return Ok(result);
  }
}
