/** The shared helpers of the toolkit (src/lib/dreams.py): the directory names,
    the path filter, the directory listing, the configuration lookup and the
    yes/no answer parser. */
module Dreams {
  import opened Wrappers
  import opened Seqs
  import opened PyStr

  // DirNames: relative locations inside a modpack root.
  const CONFIG: String := "config"
  const MODS: String := "mods"
  const INSTALL: String := "install"
  const DEFAULTS: String := INSTALL + "/defaults"
  const PATCHNOTES: String := INSTALL + "/version"
  const FILE_VERSION_CONTENT: String := PATCHNOTES + "/version_content.txt"
  const FILE_VERSION_CHECKER: String := CONFIG + "/bcc.json"

  /** Backslashes turned into forward slashes. */
  function Normalise(path: String): String {
    ReplaceChar(path, '\\', '/')
  }

  /** `get_as_path`: a path inside the root, unless it already starts with the root. */
  function GetAsPath(file: String, root: String): (r: String)
    ensures '\\' !in root ==> '\\' !in r && StartsWith(r, root)
  {
    var flatten := Normalise(file);
    if StartsWith(flatten, root) then flatten else root + "/" + flatten
  }

  /** `get_as_path` is idempotent. */
  lemma GetAsPathIdempotent(file: String, root: String)
    requires '\\' !in root
    ensures GetAsPath(GetAsPath(file, root), root) == GetAsPath(file, root)
  {
    var once := GetAsPath(file, root);
    assert Normalise(once) == once;
  }

  /** The path as `is_excluded` compares it: normalised, every "root/" removed. */
  function CleanPath(path: String, root: String): String {
    RemoveAll(Normalise(path), root + "/")
  }

  /** `is_excluded`: the cleaned path is an entry of the list or starts with a
      non-empty entry (an empty entry is falsy in the `any` and never matches as a
      prefix). */
  predicate IsExcluded(path: String, exclude: seq<String>, root: String) {
    var cleaned := CleanPath(path, root);
    cleaned in exclude || exists f | f in exclude :: f != [] && StartsWith(cleaned, f)
  }

  /** Adding entries to the exclude list never re-includes a path. */
  lemma IsExcludedMonotone(path: String, exclude: seq<String>, more: seq<String>, root: String)
    requires forall f | f in exclude :: f in more
    requires IsExcluded(path, exclude, root)
    ensures IsExcluded(path, more, root)
  {
    var cleaned := CleanPath(path, root);
    if cleaned !in exclude {
      var f :| f in exclude && f != [] && StartsWith(cleaned, f);
      assert f in more;
    }
  }

  /** An empty entry excludes only the path that cleans to "". */
  lemma IsExcludedEmptyEntry(path: String, exclude: seq<String>, root: String)
    ensures IsExcluded(path, exclude + [[]], root)
        <==> IsExcluded(path, exclude, root) || CleanPath(path, root) == []
  {
    var cleaned := CleanPath(path, root);
    if IsExcluded(path, exclude + [[]], root) && cleaned != [] && cleaned !in exclude {
      var f :| f in exclude + [[]] && f != [] && StartsWith(cleaned, f);
      assert f in exclude;
    }
    if IsExcluded(path, exclude, root) && cleaned !in exclude {
      var f :| f in exclude && f != [] && StartsWith(cleaned, f);
      assert f in exclude + [[]];
    }
  }

  /** The filter sees through backslash normalisation. */
  lemma IsExcludedNormalised(path: String, exclude: seq<String>, root: String)
    ensures IsExcluded(Normalise(path), exclude, root) == IsExcluded(path, exclude, root)
  {
    ReplaceCharIdempotent(path, '\\', '/');
  }

  /** A raw prefix match: "config" also excludes "configs/x". */
  lemma RawPrefixExcludes(path: String, entry: String, exclude: seq<String>, root: String)
    requires entry in exclude && entry != []
    requires StartsWith(CleanPath(path, root), entry)
    ensures IsExcluded(path, exclude, root)
  {
  }

  // ---- list_content over an abstract disk ----

  /** What `os.walk` yields for one directory: its path and its file names. */
  datatype WalkStep = WalkStep(dir: String, files: seq<String>)

  /** The disk as `list_content` sees it: which absolute paths are files, which are
      directories, and what `os.walk` yields for each directory, in walk order. */
  datatype Disk = Disk(files: set<String>, dirs: set<String>, walk: String -> seq<WalkStep>)

  /** The include entry after its trailing "/" is cut. The source's test
      `not path.endswith("/") or path.endswith("\\")` keeps a trailing backslash. */
  function TrimSlash(path: String): (r: String)
    ensures EndsWith(path, "/") ==> r == path[..|path| - 1]
    ensures !EndsWith(path, "/") ==> r == path
  {
    if !EndsWith(path, "/") || EndsWith(path, "\\") then path else path[..|path| - 1]
  }

  /** The directory of a walk step relative to the root. */
  function RootName(step: WalkStep, root: String): String {
    RemoveAll(step.dir, root + "/")
  }

  /** The inner loop over the files of one walk step. */
  function AddWalkedFiles(content: seq<String>, rootName: String, files: seq<String>,
                          exclude: seq<String>, root: String): (r: seq<String>)
    ensures content <= r
    decreases |files|
  {
    if files == [] then content
    else
      var c := AddWalkedFiles(content, rootName, files[..|files| - 1], exclude, root);
      var relFile := rootName + "/" + files[|files| - 1];
      if IsExcluded(relFile, exclude, root) || relFile in c then c else c + [Normalise(relFile)]
  }

  /** The loop over the steps of one `os.walk`. */
  function AddWalk(content: seq<String>, steps: seq<WalkStep>, exclude: seq<String>,
                   root: String): (r: seq<String>)
    ensures content <= r
    decreases |steps|
  {
    if steps == [] then content
    else
      var c := AddWalk(content, steps[..|steps| - 1], exclude, root);
      var rootName := RootName(steps[|steps| - 1], root);
      if IsExcluded(rootName, exclude, root) then c
      else AddWalkedFiles(c, rootName, steps[|steps| - 1].files, exclude, root)
  }

  /** One include entry: a file is appended without the exclusion check, a
      directory is walked. */
  function AddInclude(content: seq<String>, path: String, disk: Disk, exclude: seq<String>,
                      root: String): (r: seq<String>)
    ensures content <= r
  {
    var cleaned := TrimSlash(path);
    var absolute := GetAsPath(cleaned, root);
    if absolute in disk.files && cleaned !in content then content + [Normalise(cleaned)]
    else if absolute in disk.dirs then AddWalk(content, disk.walk(absolute), exclude, root)
    else content
  }

  /** The list `list_content` returns. */
  function ListContentOf(includes: seq<String>, disk: Disk, exclude: seq<String>,
                         root: String): seq<String>
    decreases |includes|
  {
    if includes == [] then []
    else AddInclude(ListContentOf(includes[..|includes| - 1], disk, exclude, root),
                    includes[|includes| - 1], disk, exclude, root)
  }

  /** One more include entry is one more `AddInclude`. */
  lemma ListContentStep(includes: seq<String>, i: nat, disk: Disk, exclude: seq<String>, root: String)
    requires i < |includes|
    ensures ListContentOf(includes[..i + 1], disk, exclude, root) ==
            AddInclude(ListContentOf(includes[..i], disk, exclude, root), includes[i], disk, exclude, root)
  {
    assert includes[..i + 1][..i] == includes[..i];
  }

  /** The loop over the files of one walked directory. */
  method AppendWalkedFiles(content: seq<String>, rootName: String, files: seq<String>,
                           exclude: seq<String>, root: String) returns (c: seq<String>)
    ensures c == AddWalkedFiles(content, rootName, files, exclude, root)
  {
    c := content;
    for j := 0 to |files|
      invariant c == AddWalkedFiles(content, rootName, files[..j], exclude, root)
    {
      assert files[..j + 1][..j] == files[..j];
      var relFile := rootName + "/" + files[j];
      if !(IsExcluded(relFile, exclude, root) || relFile in c) {
        c := c + [Normalise(relFile)];
      }
    }
    assert files[..|files|] == files;
  }

  /** The loop over what `os.walk` yields for one included directory. */
  method AppendWalk(content: seq<String>, steps: seq<WalkStep>, exclude: seq<String>,
                    root: String) returns (c: seq<String>)
    ensures c == AddWalk(content, steps, exclude, root)
  {
    c := content;
    for k := 0 to |steps|
      invariant c == AddWalk(content, steps[..k], exclude, root)
    {
      assert steps[..k + 1][..k] == steps[..k];
      var rootName := RemoveAll(steps[k].dir, root + "/");
      if !IsExcluded(rootName, exclude, root) {
        c := AppendWalkedFiles(c, rootName, steps[k].files, exclude, root);
      }
    }
    assert steps[..|steps|] == steps;
  }

  /** `list_content(root, include, exclude)`. The root it strips from walked
      directories and the root it builds absolute paths on are the same `root`. */
  method ListContent(root: String, includes: seq<String>, exclude: seq<String>, disk: Disk)
    returns (content: seq<String>)
    ensures content == ListContentOf(includes, disk, exclude, root)
  {
    content := [];
    for i := 0 to |includes|
      invariant content == ListContentOf(includes[..i], disk, exclude, root)
    {
      ListContentStep(includes, i, disk, exclude, root);
      var path := includes[i];
      var cleaned := if !EndsWith(path, "/") || EndsWith(path, "\\") then path else path[..|path| - 1];
      var absolute := GetAsPath(cleaned, root);
      if absolute in disk.files && cleaned !in content {
        content := content + [Normalise(cleaned)];
      } else if absolute in disk.dirs {
        content := AppendWalk(content, disk.walk(absolute), exclude, root);
      }
    }
    assert includes[..|includes|] == includes;
  }

  // ---- what list_content returns ----

  /** `x` is listed from walk step `step`: its directory and the file itself both
      pass the filter. */
  ghost predicate FromStep(x: String, step: WalkStep, exclude: seq<String>, root: String) {
    var rootName := RootName(step, root);
    && !IsExcluded(rootName, exclude, root)
    && exists j | 0 <= j < |step.files| ::
         && !IsExcluded(rootName + "/" + step.files[j], exclude, root)
         && x == Normalise(rootName + "/" + step.files[j])
  }

  /** `x` is listed because of include entry `path`: the entry names a file (no
      exclusion check), or a directory whose walk lists `x`. */
  ghost predicate FromInclude(x: String, path: String, disk: Disk, exclude: seq<String>,
                              root: String) {
    var cleaned := TrimSlash(path);
    var absolute := GetAsPath(cleaned, root);
    || (absolute in disk.files && x == Normalise(cleaned))
    || (absolute in disk.dirs &&
        exists k | 0 <= k < |disk.walk(absolute)| :: FromStep(x, disk.walk(absolute)[k], exclude, root))
  }

  /** No backslash in the include entries or in the names the walk yields. */
  ghost predicate NoBackslashes(includes: seq<String>, disk: Disk) {
    && (forall i | 0 <= i < |includes| :: '\\' !in includes[i])
    && (forall a, k | 0 <= k < |disk.walk(a)| ::
          && '\\' !in disk.walk(a)[k].dir
          && forall j | 0 <= j < |disk.walk(a)[k].files| :: '\\' !in disk.walk(a)[k].files[j])
  }

  lemma {:induction false} AddWalkedFilesSound(content: seq<String>, step: WalkStep, n: nat,
                                               exclude: seq<String>, root: String, x: String)
    requires n <= |step.files|
    requires !IsExcluded(RootName(step, root), exclude, root)
    requires x in AddWalkedFiles(content, RootName(step, root), step.files[..n], exclude, root)
    ensures x in content || FromStep(x, step, exclude, root)
    decreases n
  {
    if n > 0 {
      var rn := RootName(step, root);
      var files := step.files[..n];
      assert files[..|files| - 1] == step.files[..n - 1];
      var c := AddWalkedFiles(content, rn, step.files[..n - 1], exclude, root);
      if x in c {
        AddWalkedFilesSound(content, step, n - 1, exclude, root, x);
      } else {
        assert files[|files| - 1] == step.files[n - 1];
        assert !IsExcluded(rn + "/" + step.files[n - 1], exclude, root)
            && x == Normalise(rn + "/" + step.files[n - 1]);
      }
    }
  }

  lemma {:induction false} AddWalkSound(content: seq<String>, steps: seq<WalkStep>,
                                        exclude: seq<String>, root: String, x: String)
    requires x in AddWalk(content, steps, exclude, root)
    ensures x in content || exists k | 0 <= k < |steps| :: FromStep(x, steps[k], exclude, root)
    decreases |steps|
  {
    if steps != [] {
      var last := steps[|steps| - 1];
      var c := AddWalk(content, steps[..|steps| - 1], exclude, root);
      if x in c {
        AddWalkSound(content, steps[..|steps| - 1], exclude, root, x);
        if x !in content {
          var k :| 0 <= k < |steps| - 1 && FromStep(x, steps[..|steps| - 1][k], exclude, root);
          assert steps[..|steps| - 1][k] == steps[k];
        }
      } else {
        assert last.files[..|last.files|] == last.files;
        AddWalkedFilesSound(c, last, |last.files|, exclude, root, x);
      }
    }
  }

  /** Everything `list_content` returns is there because of some include entry. */
  lemma {:induction false} ListContentSound(includes: seq<String>, disk: Disk,
                                            exclude: seq<String>, root: String, x: String)
    requires x in ListContentOf(includes, disk, exclude, root)
    ensures exists i | 0 <= i < |includes| :: FromInclude(x, includes[i], disk, exclude, root)
    decreases |includes|
  {
    var init := includes[..|includes| - 1];
    var path := includes[|includes| - 1];
    var c := ListContentOf(init, disk, exclude, root);
    if x in c {
      ListContentSound(init, disk, exclude, root, x);
      var i :| 0 <= i < |init| && FromInclude(x, init[i], disk, exclude, root);
      assert init[i] == includes[i];
    } else {
      var cleaned := TrimSlash(path);
      var absolute := GetAsPath(cleaned, root);
      if !(absolute in disk.files && cleaned !in c) {
        AddWalkSound(c, disk.walk(absolute), exclude, root, x);
      }
      assert FromInclude(x, includes[|includes| - 1], disk, exclude, root);
    }
  }

  /** A file listed from a walk is never itself excluded. */
  lemma FromStepNotExcluded(x: String, step: WalkStep, exclude: seq<String>, root: String)
    requires FromStep(x, step, exclude, root)
    ensures !IsExcluded(x, exclude, root)
  {
    var rn := RootName(step, root);
    var j :| 0 <= j < |step.files| && !IsExcluded(rn + "/" + step.files[j], exclude, root)
             && x == Normalise(rn + "/" + step.files[j]);
    IsExcludedNormalised(rn + "/" + step.files[j], exclude, root);
  }

  /** An include entry naming a file is listed even when the exclude list covers it. */
  lemma DirectFileIgnoresExclusion(path: String, disk: Disk, exclude: seq<String>, root: String)
    requires GetAsPath(TrimSlash(path), root) in disk.files
    ensures ListContentOf([path], disk, exclude, root) == [Normalise(TrimSlash(path))]
  {
    assert [path][..0] == [];
  }

  /** Without backslashes, the duplicate checks see the appended strings. */
  lemma {:induction false} AddWalkedFilesDistinct(content: seq<String>, rootName: String,
                                                  files: seq<String>, exclude: seq<String>,
                                                  root: String)
    requires Distinct(content)
    requires '\\' !in rootName && forall j | 0 <= j < |files| :: '\\' !in files[j]
    ensures Distinct(AddWalkedFiles(content, rootName, files, exclude, root))
    decreases |files|
  {
    if files != [] {
      var init := files[..|files| - 1];
      AddWalkedFilesDistinct(content, rootName, init, exclude, root);
      var relFile := rootName + "/" + files[|files| - 1];
      assert '\\' !in relFile;
    }
  }

  lemma {:induction false} AddWalkDistinct(content: seq<String>, steps: seq<WalkStep>,
                                           exclude: seq<String>, root: String)
    requires Distinct(content)
    requires forall k | 0 <= k < |steps| ::
      '\\' !in steps[k].dir && forall j | 0 <= j < |steps[k].files| :: '\\' !in steps[k].files[j]
    ensures Distinct(AddWalk(content, steps, exclude, root))
    decreases |steps|
  {
    if steps != [] {
      var init := steps[..|steps| - 1];
      AddWalkDistinct(content, init, exclude, root);
      var last := steps[|steps| - 1];
      AddWalkedFilesDistinct(AddWalk(content, init, exclude, root), RootName(last, root),
                             last.files, exclude, root);
    }
  }

  /** Without backslashes in the include entries and in the walk, the list has no
      duplicates. */
  lemma {:induction false} ListContentDistinct(includes: seq<String>, disk: Disk,
                                               exclude: seq<String>, root: String)
    requires NoBackslashes(includes, disk)
    ensures Distinct(ListContentOf(includes, disk, exclude, root))
    decreases |includes|
  {
    if includes != [] {
      var init := includes[..|includes| - 1];
      assert NoBackslashes(init, disk);
      ListContentDistinct(init, disk, exclude, root);
      var c := ListContentOf(init, disk, exclude, root);
      var path := includes[|includes| - 1];
      var cleaned := TrimSlash(path);
      var absolute := GetAsPath(cleaned, root);
      assert '\\' !in cleaned;
      if !(absolute in disk.files && cleaned !in c) && absolute in disk.dirs {
        AddWalkDistinct(c, disk.walk(absolute), exclude, root);
      }
    }
  }

  lemma {:induction false} AddWalkedFilesComplete(content: seq<String>, rootName: String,
                                                  files: seq<String>, n: nat, j: nat,
                                                  exclude: seq<String>, root: String)
    requires j < n <= |files|
    requires '\\' !in rootName + "/" + files[j]
    requires !IsExcluded(rootName + "/" + files[j], exclude, root)
    ensures rootName + "/" + files[j] in AddWalkedFiles(content, rootName, files[..n], exclude, root)
    decreases n
  {
    assert files[..n][..n - 1] == files[..n - 1];
    if n > j + 1 {
      AddWalkedFilesComplete(content, rootName, files, n - 1, j, exclude, root);
      var c := AddWalkedFiles(content, rootName, files[..n - 1], exclude, root);
      PrefixKeeps(c, AddWalkedFiles(content, rootName, files[..n], exclude, root),
                  rootName + "/" + files[j]);
    }
  }

  lemma {:induction false} AddWalkComplete(content: seq<String>, steps: seq<WalkStep>,
                                           n: nat, k: nat, exclude: seq<String>, root: String,
                                           x: String)
    requires k < n <= |steps|
    requires '\\' !in steps[k].dir && forall j | 0 <= j < |steps[k].files| :: '\\' !in steps[k].files[j]
    requires FromStep(x, steps[k], exclude, root)
    ensures x in AddWalk(content, steps[..n], exclude, root)
    decreases n
  {
    var s := steps[..n];
    assert s[..n - 1] == steps[..n - 1];
    var c := AddWalk(content, steps[..n - 1], exclude, root);
    if n > k + 1 {
      AddWalkComplete(content, steps, n - 1, k, exclude, root, x);
      PrefixKeeps(c, AddWalk(content, s, exclude, root), x);
    } else {
      var step := steps[k];
      var rn := RootName(step, root);
      var j :| 0 <= j < |step.files| && !IsExcluded(rn + "/" + step.files[j], exclude, root)
               && x == Normalise(rn + "/" + step.files[j]);
      assert '\\' !in rn + "/" + step.files[j];
      assert step.files[..|step.files|] == step.files;
      AddWalkedFilesComplete(c, rn, step.files, |step.files|, j, exclude, root);
    }
  }

  lemma {:induction false} ListContentGrows(includes: seq<String>, n: nat, disk: Disk,
                                            exclude: seq<String>, root: String, x: String)
    requires n <= |includes|
    requires x in ListContentOf(includes[..n], disk, exclude, root)
    ensures x in ListContentOf(includes, disk, exclude, root)
    decreases |includes| - n
  {
    if n < |includes| {
      var s := includes[..n + 1];
      assert ListContentOf(includes[..n], disk, exclude, root) <= ListContentOf(s, disk, exclude, root) by {
        assert s[..n] == includes[..n];
      }
      PrefixKeeps(ListContentOf(includes[..n], disk, exclude, root),
                  ListContentOf(s, disk, exclude, root), x);
      ListContentGrows(includes, n + 1, disk, exclude, root, x);
    } else {
      assert includes[..n] == includes;
    }
  }

  /** Without backslashes, and with no path both a file and a directory, every
      file an include entry accounts for is listed. */
  lemma ListContentComplete(includes: seq<String>, disk: Disk, exclude: seq<String>,
                            root: String, i: nat, x: String)
    requires NoBackslashes(includes, disk)
    requires disk.files !! disk.dirs
    requires i < |includes| && FromInclude(x, includes[i], disk, exclude, root)
    ensures x in ListContentOf(includes, disk, exclude, root)
  {
    ListContentStep(includes, i, disk, exclude, root);
    AddIncludeComplete(ListContentOf(includes[..i], disk, exclude, root), includes, i, disk, exclude, root, x);
    ListContentGrows(includes, i + 1, disk, exclude, root, x);
  }

  /** One include entry adds every file it accounts for. */
  lemma AddIncludeComplete(c: seq<String>, includes: seq<String>, i: nat, disk: Disk,
                           exclude: seq<String>, root: String, x: String)
    requires NoBackslashes(includes, disk)
    requires disk.files !! disk.dirs
    requires i < |includes| && FromInclude(x, includes[i], disk, exclude, root)
    ensures x in AddInclude(c, includes[i], disk, exclude, root)
  {
    var cleaned := TrimSlash(includes[i]);
    var absolute := GetAsPath(cleaned, root);
    assert '\\' !in cleaned;
    if absolute in disk.files {
      assert x == cleaned;
    } else {
      var steps := disk.walk(absolute);
      var k :| 0 <= k < |steps| && FromStep(x, steps[k], exclude, root);
      assert steps[..|steps|] == steps;
      AddWalkComplete(c, steps, |steps|, k, exclude, root, x);
    }
  }

  /** The duplicate check compares the entry before normalisation, so a repeated
      entry written with a backslash is listed twice. */
  lemma BackslashEntryListedTwice()
    ensures var disk := Disk({"/r/a/b"}, {}, _ => []);
            ListContentOf(["a\\b", "a\\b"], disk, [], "/r") == ["a/b", "a/b"]
  {
    var disk := Disk({"/r/a/b"}, {}, _ => []);
    var entry := "a\\b";
    assert TrimSlash(entry) == entry;
    assert Normalise(entry) == "a/b";
    assert "a/b"[..2] != "/r" by { assert "a/b"[0] == 'a'; }
    assert GetAsPath(entry, "/r") == "/r/a/b";
    assert ["a\\b", "a\\b"][..1] == [entry];
    assert [entry][..0] == [];
    assert ListContentOf([entry], disk, [], "/r") == ["a/b"];
  }

  // ---- configuration lookup and answers ----

  /** `get_config_option`: the value from the first override map holding `key`,
      or `default` when none does. */
  function GetConfigOption<V>(key: String, default: V, overrides: seq<map<String, V>>): (r: V)
    ensures (forall i | 0 <= i < |overrides| :: key !in overrides[i]) ==> r == default
    ensures forall i | 0 <= i < |overrides| && key in overrides[i] ::
              (forall j | 0 <= j < i :: key !in overrides[j]) ==> r == overrides[i][key]
    decreases |overrides|
  {
    if overrides == [] then default
    else if key in overrides[0] then overrides[0][key]
    else GetConfigOption(key, default, overrides[1..])
  }

  /** `accept_answer`: None stands for the source's `return None`. */
  function AcceptAnswer(answer: String, default: bool, defaultIfEmpty: bool,
                        accept: seq<String>, reject: seq<String>): Option<bool>
  {
    if |answer| == 0 && defaultIfEmpty then Some(default)
    else if Lower(answer) in accept then Some(true)
    else if Lower(answer) in reject then Some(false)
    else None
  }

  /** The answer is compared case-insensitively. */
  lemma AcceptAnswerIgnoresCase(answer: String, default: bool, defaultIfEmpty: bool,
                                accept: seq<String>, reject: seq<String>)
    ensures AcceptAnswer(Lower(answer), default, defaultIfEmpty, accept, reject)
         == AcceptAnswer(answer, default, defaultIfEmpty, accept, reject)
  {
    LowerIdempotent(answer);
  }

  /** What `accept_answer` decides, case by case: the default for an empty answer
      (when asked), acceptance before rejection, None for anything else. */
  lemma AcceptAnswerCases(answer: String, default: bool, defaultIfEmpty: bool,
                          accept: seq<String>, reject: seq<String>)
    ensures var r := AcceptAnswer(answer, default, defaultIfEmpty, accept, reject);
            && (answer == [] && defaultIfEmpty ==> r == Some(default))
            && (answer != [] || !defaultIfEmpty ==>
                  && (r == Some(true) <==> Lower(answer) in accept)
                  && (r == Some(false) <==> Lower(answer) !in accept && Lower(answer) in reject)
                  && (r == None <==> Lower(answer) !in accept && Lower(answer) !in reject))
  {
  }

  /** An accept or reject entry holding a capital letter never matches, since the
      entries are not lower-cased. */
  lemma CapitalEntryNeverMatches(answer: String, entry: String, i: nat)
    requires i < |entry| && 'A' <= entry[i] <= 'Z'
    ensures Lower(answer) != entry
  {
    if |Lower(answer)| == |entry| {
      assert Lower(answer)[i] == LowerChar(answer[i]);
    }
  }
}
