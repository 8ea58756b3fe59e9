# dreams: a verified model of the modpack upgrade core

dreams is a toolkit that bundles a Minecraft modpack, publishes its versions and
upgrades an installed copy to a newer one. A version's *content* is a manifest
from each file's path, relative to the modpack root, to a fingerprint of its
bytes. It is written to a sidecar file, `install/version/version_content.txt`,
which holds one `path:fingerprint` line per file. Upgrading compares two
manifests, reports the difference as a patchnote, copies, deletes and replaces
the files the difference names (minus what the configuration says to ignore),
and then moves `install/defaults` into place. Bundling derives the next version
number from a difference, writes the sidecar, and finds configuration files that
no mod claims.

The modules follow the three source files of the core:

- `dreams.dfy` (module `Dreams`) covers `src/lib/dreams.py`:
  - the directory names
  - `get_as_path`
  - the exclusion filter `is_excluded`
  - the directory listing `list_content`, over a model of the disk that gives
    its files, its directories and what `os.walk` yields for each directory
  - `get_config_option`
  - `accept_answer`
- `manifest.dfy` (module `Manifest`) covers the parts of
  `src/lib/dreams_upgrade.py` that handle the manifest:
  - the ordered dict `Content`, that is, the keys in insertion order plus the
    mapping
  - the sidecar parser `get_version_content`
  - the revalidation of a cached manifest in `get_content`
- `diffs.dfy` (module `Diffs`) is the value that `ContentDifference.__init__`
  computes.
- `patchnotes.dfy` (module `Patchnotes`) specifies the text that
  `ContentDifference.patchnote` builds.
- `install.dfy` (module `Install`) specifies `install_upgrade` as functions of
  the installation's files before the call:
  - the ignore rules
  - the add, remove, replace and defaults passes
  - the returned difference
  - the version as written beside the version as intended
- `upgrade.dfy` (module `DreamsUpgrade`) holds the objects the source changes in
  place:
  - the class `ContentDifference`, with its constructor, the deep copy, the
    sidecar-forcing edit of `upgrade_pack` and `patchnote`
  - the installation's `FileTree`
  - the methods that perform `install_upgrade` pass by pass, each proved against
    the `Install` functions
- `bundle.dfy` (module `DreamsBundle`) covers `src/lib/dreams_bundle.py`:
  - the version policy `get_version_adjustement`
  - `get_file_content_format`
  - `split_file_hash`
  - `exclude_from_diff`
  - the sidecar serialiser of `main`, with its round trip through
    `get_version_content`
  - the orphan rule `get_orphan_configs`
- `pystr.dfy` (module `PyStr`) gives the Python string operations the core relies
  on: `strip`, `split`, `lower`, `isalnum`, `readlines`, `int()` and `str()` of
  an integer. Letters and digits are ASCII ones (see "Left out").
- `seqs.dfy` (module `Seqs`) holds list helpers: filtering, removing one
  occurrence, distinctness.
- `wrappers.dfy` holds `Option` and `Result`.

Python raises exceptions for errors. The model returns them as values: `None` for
the `ValueError` of `int()` and `Err(...)` for the errors of `install_upgrade`.
When the source visits a set in no particular order (`set(vc.keys())`, the
defaults walk), the model picks an element with `:|`, and the proofs hold for
every visiting order.

## Model

| member | source | states |
|---|---|---|
| Dreams.GetAsPath | src/lib/dreams.py:128-131 | with a root free of backslashes, the result has no backslash and starts with the root |
| Dreams.GetAsPathIdempotent | src/lib/dreams.py:128-131 | applying `get_as_path` to its own result changes nothing |
| Dreams.IsExcluded | src/lib/dreams.py:210-216 | the definition of the filter (no contract of its own): the cleaned path is an entry, or starts with a non-empty entry; the lemmas below state its properties |
| Dreams.IsExcludedMonotone | src/lib/dreams.py:210-216 | adding entries to the exclude list never re-includes a path |
| Dreams.IsExcludedEmptyEntry | src/lib/dreams.py:210-216 | an empty entry excludes exactly the paths that clean to "" (the empty string is falsy in the `any`) |
| Dreams.IsExcludedNormalised | src/lib/dreams.py:212 | the filter gives the same answer before and after backslashes become slashes |
| Dreams.RawPrefixExcludes | src/lib/dreams.py:215 | any non-empty entry that is a raw string prefix of the cleaned path excludes it ("config" also excludes "configs/x") |
| Dreams.TrimSlash | src/lib/dreams.py:227 | one trailing "/" is cut and every other entry is kept as it is |
| Dreams.AddWalkedFiles | src/lib/dreams.py:236-240 | the list only grows as the files of a walked directory are appended |
| Dreams.AddWalk | src/lib/dreams.py:232-240 | the list only grows over the steps of one walk |
| Dreams.AddInclude | src/lib/dreams.py:227-240 | the list only grows for each include entry |
| Dreams.ListContentStep | src/lib/dreams.py:226-240 | the list for one more include entry is the earlier list plus that entry's contribution |
| Dreams.AppendWalkedFiles | src/lib/dreams.py:236-240 | the inner loop computes the specified list for one directory |
| Dreams.AppendWalk | src/lib/dreams.py:232-240 | the walk loop computes the specified list for one walk |
| Dreams.ListContent | src/lib/dreams.py:218-241 | `list_content` returns the list the specification function defines |
| Dreams.ListContentOf | src/lib/dreams.py:218-241 | the definition of the returned list (no contract of its own), one `AddInclude` per include entry; ListContentSound, ListContentComplete and ListContentDistinct state what it holds |
| Dreams.AddWalkedFilesSound | src/lib/dreams.py:236-240 | every entry the inner loop adds is a file of that step whose path passes the filter |
| Dreams.AddWalkSound | src/lib/dreams.py:232-240 | every entry a walk adds comes from some step whose directory and file both pass the filter |
| Dreams.ListContentSound | src/lib/dreams.py:218-241 | every listed path is accounted for by some include entry: a file it names, or a file its walk reaches that passes the filter |
| Dreams.FromStepNotExcluded | src/lib/dreams.py:234-238 | a file listed from a walk is never itself excluded |
| Dreams.DirectFileIgnoresExclusion | src/lib/dreams.py:229-230 | an include entry naming a file is listed, normalised, even when the exclude list covers it |
| Dreams.AddWalkedFilesDistinct | src/lib/dreams.py:238 | without backslashes, the inner loop never appends a path that is already listed |
| Dreams.AddWalkDistinct | src/lib/dreams.py:232-240 | without backslashes, a walk keeps the list free of duplicates |
| Dreams.ListContentDistinct | src/lib/dreams.py:218-241 | without backslashes in the include entries or in the walk, the returned list has no duplicates |
| Dreams.AddWalkedFilesComplete | src/lib/dreams.py:236-240 | every file of a walked directory that passes the filter is listed |
| Dreams.AddWalkComplete | src/lib/dreams.py:232-240 | every file a step of the walk accounts for is listed |
| Dreams.ListContentGrows | src/lib/dreams.py:226 | what the first include entries list stays listed after the rest |
| Dreams.AddIncludeComplete | src/lib/dreams.py:227-240 | one include entry adds every file it accounts for |
| Dreams.ListContentComplete | src/lib/dreams.py:218-241 | without backslashes, and with no path that is both a file and a directory, every file that some include entry accounts for is listed (the converse of soundness) |
| Dreams.BackslashEntryListedTwice | src/lib/dreams.py:229-230 | the duplicate check looks at the entry before normalisation, so `a\b` given twice is listed twice as `a/b` |
| Dreams.GetConfigOption | src/lib/dreams.py:171-190 | the value comes from the first override map that holds the key, and is the default when none holds it |
| Dreams.AcceptAnswer | src/lib/dreams.py:333-346 | the definition of `accept_answer` (no contract of its own); AcceptAnswerCases and AcceptAnswerIgnoresCase state its cases |
| Dreams.AcceptAnswerCases | src/lib/dreams.py:333-346 | when asked, an empty answer gives the default; otherwise an answer gives True if and only if it is in the accept list, False if and only if it is in the reject list and not in accept, and None otherwise |
| Dreams.AcceptAnswerIgnoresCase | src/lib/dreams.py:342-344 | the answer is compared after lower-casing, so its case never matters |
| Dreams.CapitalEntryNeverMatches | src/lib/dreams.py:342-344 | an accept or reject entry with a capital letter can never match, since only the answer is lowered |
| PyStr.LowerIdempotent | src/lib/dreams_bundle.py:29 | lowering twice is lowering once |
| PyStr.RemoveAll | src/lib/dreams.py:212 | `replace(sub, "")`: a string without `sub` is kept, and no character is introduced |
| PyStr.Strip | src/lib/dreams_upgrade.py:19 | the definition of `strip` (no contract of its own) as TrimRight of TrimLeft; TrimLeft and TrimRight state what is dropped |
| PyStr.ReadLines | src/lib/dreams_upgrade.py:45-46 | the definition of `readlines` (no contract of its own); ReadConcat states its round trip |
| PyStr.ParseInt | src/lib/dreams_bundle.py:41-42 | the definition of `int()` on ASCII text (no contract of its own): whitespace, an optional sign and digits; IntToStringParses states its round trip |
| PyStr.IntToString | src/lib/dreams_bundle.py:57-59 | `str()` of an integer: never empty, digits with at most a leading minus sign |
| PyStr.ReplaceChar | src/lib/dreams_upgrade.py:19 | `replace` of one character keeps the length and leaves none of the replaced character |
| PyStr.Split | src/lib/dreams_bundle.py:34 | `split` yields at least one field, no field holds the separator, and joining the fields gives back the string |
| PyStr.SplitJoin | src/lib/dreams_bundle.py:34 | splitting a join of separator-free fields gives back the fields |
| PyStr.TrimLeft | src/lib/dreams_upgrade.py:19 | `strip` drops exactly the leading whitespace |
| PyStr.TrimRight | src/lib/dreams_upgrade.py:19 | `strip` drops exactly the trailing whitespace |
| PyStr.ReadConcat | src/lib/dreams_upgrade.py:46 | `readlines` on text made of whole lines gives back those lines |
| PyStr.IntToStringParses | src/lib/dreams_bundle.py:41-42 | `int(str(n)) == n` for every integer |
| Seqs.RemoveFirst | src/lib/dreams_bundle.py:80-85 | `list.remove(x)` on a list holding `x`: the list is one shorter; without `x` it is unchanged; `Seqs.RemoveFirstAt` states which entry goes |
| Seqs.RemoveFirstAt | src/lib/dreams_bundle.py:80-85 | `list.remove(x)` on a list holding `x` removes the first occurrence of `x`: the result is the list without the entry at the lowest index holding `x`, every other entry in its order |
| Manifest.Content.Put | src/lib/dreams_upgrade.py:22-24 | dict assignment: the mapping is updated, a new key goes to the end, an existing key keeps its place, and well-formedness is kept |
| Manifest.Content.Delete | src/lib/dreams_upgrade.py:49 | `del`: the key leaves the mapping and the key order, and the rest keep their order |
| Manifest.ParseLineFields | src/lib/dreams_upgrade.py:19-24 | after strip and slash normalisation, the key is the text before the first colon and the fingerprint is the text between the first and second colons (or the end); a line without a colon is a key with fingerprint "" |
| Manifest.ParseLine | src/lib/dreams_upgrade.py:19-24 | the definition of one line's entry (no contract of its own); ParseLineFields states it |
| Manifest.ParseContent | src/lib/dreams_upgrade.py:16-25 | the definition of the dict built from the lines (no contract of its own); ParseContentKeysAndValues, CollectOrder and CollectLastWins state it |
| Manifest.Collect | src/lib/dreams_upgrade.py:17-24 | assigning the entries in order gives a well-formed dict |
| Manifest.ParseContentSnoc | src/lib/dreams_upgrade.py:18-24 | one more line is one more dict assignment |
| Manifest.GetVersionContent | src/lib/dreams_upgrade.py:16-25 | the loop builds the dict the lines specify |
| Manifest.CollectOrder | src/lib/dreams_upgrade.py:22-24 | the dict lists each key at the place of its first line |
| Manifest.CollectKeys | src/lib/dreams_upgrade.py:22-24 | a key is in the dict if and only if some line has it |
| Manifest.CollectLastWins | src/lib/dreams_upgrade.py:22-24 | a key's fingerprint comes from the last line that has that key |
| Manifest.ParseContentKeysAndValues | src/lib/dreams_upgrade.py:16-25 | for the lines of a sidecar: keys exactly from the lines, values from the last line with each key |
| Manifest.Pruned | src/lib/dreams_upgrade.py:47-49 | dropping a set of keys keeps the rest of the mapping and their order |
| Manifest.PrunedDelete | src/lib/dreams_upgrade.py:49 | deleting one more key is pruning one more key |
| Manifest.GoneStep | src/lib/dreams_upgrade.py:47-49 | the keys deleted so far are exactly the visited keys whose file is missing |
| Manifest.Revalidated | src/lib/dreams_upgrade.py:47-49 | the cached manifest keeps exactly the keys whose file exists, with their fingerprints |
| Manifest.RevalidateCache | src/lib/dreams_upgrade.py:47-49 | the loop, in any visiting order, produces the revalidated manifest |
| Diffs.Compare | src/lib/dreams_upgrade.py:69-77 | added holds the new keys absent before, removed holds the old keys absent after, modified holds the new keys present before with another fingerprint; the versions are None |
| Diffs.CompareClassifies | src/lib/dreams_upgrade.py:71-73 | on well-formed manifests each list is exactly its set of keys, with no path twice |
| Diffs.CompareUnlisted | src/lib/dreams_upgrade.py:71-73 | a path in none of the lists is held by both manifests with the same fingerprint, or by neither |
| Diffs.CompareSelf | src/lib/dreams_upgrade.py:69-77 | a manifest compared with itself gives an empty difference |
| Diffs.CompareSwapped | src/lib/dreams_upgrade.py:71-73 | reversing the comparison swaps added and removed and modifies the same paths |
| Patchnotes.Rule | src/lib/dreams_upgrade.py:119-127 | the rule is a run of dashes longer than both title separators together |
| Patchnotes.AsLine | src/lib/dreams_upgrade.py:123-124 | `as_line` gives exactly one line: no inner newline, one newline at the end |
| Patchnotes.PatchLines | src/lib/dreams_upgrade.py:126-154 | the definition of the `as_line` arguments, in order (no contract of its own); PatchLinesListFiles, PatchLinesCount, PlainHeaders and FancyLines state its shape |
| Patchnotes.PatchnoteText | src/lib/dreams_upgrade.py:113-156 | the definition of the patchnote text (no contract of its own); RenderLines and PatchnoteTextSections state it |
| Patchnotes.RenderConcat | src/lib/dreams_upgrade.py:123-154 | rendering a concatenation concatenates the renderings |
| Patchnotes.RenderIsConcat | src/lib/dreams_upgrade.py:123-154 | the text is the concatenation of the `as_line`s |
| Patchnotes.RenderLines | src/lib/dreams_upgrade.py:113-156 | reading the patchnote back line by line gives exactly the `as_line` of each line |
| Patchnotes.MarkedConcat | src/lib/dreams_upgrade.py:130-152 | the entries with a given symbol split over a concatenation |
| Patchnotes.MarkedOfUnmarked | src/lib/dreams_upgrade.py:126-154 | headers, blanks and rules carry no symbol |
| Patchnotes.MarkedEntries | src/lib/dreams_upgrade.py:130-152 | the entries of a section give back its files under its own symbol and nothing under another |
| Patchnotes.MarkedSection | src/lib/dreams_upgrade.py:130-152 | a whole section gives back its files under its own symbol only |
| Patchnotes.MarkedFramed | src/lib/dreams_upgrade.py:126-154 | unmarked frame lines do not change which files can be read back |
| Patchnotes.FrameUnmarked | src/lib/dreams_upgrade.py:126-154 | the frame and header lines of both styles carry no symbol |
| Patchnotes.MarkedLayout | src/lib/dreams_upgrade.py:126-154 | the files read back from the layout are those of the three sections, in order |
| Patchnotes.SymbolsDiffer | src/lib/dreams_upgrade.py:116-118 | the three symbols are pairwise different |
| Patchnotes.SectionsListFiles | src/lib/dreams_upgrade.py:130-152 | each symbol reads back exactly its own list |
| Patchnotes.SectionsAsListed | src/lib/dreams_upgrade.py:130-152 | each section reads back its list under its own symbol and nothing under the others |
| Patchnotes.PatchLinesListFiles | src/lib/dreams_upgrade.py:113-156 | the entries with `[+]`, `[-]` and `[~]` are exactly the added, removed and modified lists, in their order, for both styles |
| Patchnotes.PatchLinesCount | src/lib/dreams_upgrade.py:126-154 | the line count: a fixed frame, plus each non-empty section's files and its header and blank lines |
| Patchnotes.EmptyPatchnote | src/lib/dreams_upgrade.py:126-154 | an empty difference gives an empty plain patchnote and a fancy one that is only the frame |
| Patchnotes.PlainHeaders | src/lib/dreams_upgrade.py:131-132 | a plain header appears if and only if its list is non-empty |
| Patchnotes.HeaderOnlyIn | src/lib/dreams_upgrade.py:130-152 | a header line occurs in a section only when the section has files |
| Patchnotes.FancyFrame | src/lib/dreams_upgrade.py:126-129 | a fancy patchnote opens with rule, title and rule and ends with a rule |
| Patchnotes.FancyLines | src/lib/dreams_upgrade.py:126-154 | the fancy lines open with rule, title and rule-plus-newline and end with the rule |
| Patchnotes.RuleLine | src/lib/dreams_upgrade.py:124 | the rule with an extra newline renders as the plain rule, since `as_line` drops newlines |
| Patchnotes.PatchnoteTextSections | src/lib/dreams_upgrade.py:113-156 | the text is the rendering of the frame, the three sections and the footer |
| Patchnotes.RenderSection | src/lib/dreams_upgrade.py:130-152 | an empty list renders nothing; a non-empty one renders its header, its entries and its tail |
| Patchnotes.RenderEntriesSnoc | src/lib/dreams_upgrade.py:133-134 | one more file adds one more entry line |
| Patchnotes.RenderSnoc | src/lib/dreams_upgrade.py:123-124 | one more line adds one more `as_line` |
| Install.Kept | src/lib/dreams_upgrade.py:246-248 | the list without its ignored entries: an entry stays if and only if it is not ignored |
| Install.KeptStep | src/lib/dreams_upgrade.py:246-248 | removing the first occurrence of an ignored entry, as `list.remove` does, advances the kept list by one entry |
| Install.KeptSublist | src/lib/dreams_upgrade.py:237-285 | the kept entries are a sublist of the list: none is added and none moves |
| Install.RulesOf | src/lib/dreams_upgrade.py:239-242 | the definition of the four ignore lists, `config.get(key, [])` each (no contract of its own) |
| Install.StartsWithAny | src/lib/dreams_upgrade.py:246 | the definition of `any(s for s in prefixes if p.startswith(s))` (no contract of its own), in which an empty prefix is falsy |
| Install.Ignored | src/lib/dreams_upgrade.py:246 | the definition of the skip test (no contract of its own): a matching prefix or an exact entry |
| Install.AddPass | src/lib/dreams_upgrade.py:245-262 | the definition of the add pass (no contract of its own); AddPassFails, AddPassStep, AddPassStopped and AddPassAt state it |
| Install.AddPassFails | src/lib/dreams_upgrade.py:245-262 | the add pass stops on, and only on, a non-ignored added path that is neither installed nor in the source |
| Install.AddPassStep | src/lib/dreams_upgrade.py:245-262 | one more added path: skipped when ignored or already there, copied when in the source, otherwise the copy fails |
| Install.AddPassStopped | src/lib/dreams_upgrade.py:258-260 | once a copy has failed, the rest of the list changes nothing |
| Install.AddPassAt | src/lib/dreams_upgrade.py:245-262 | existing files keep their bytes, a new file is a non-ignored added path with the source's bytes, and without a failure every non-ignored added path is installed |
| Install.RemovePassStep | src/lib/dreams_upgrade.py:265-279 | one more removed path: deleted unless ignored or already gone |
| Install.RemovePassAt | src/lib/dreams_upgrade.py:265-279 | a file remains if and only if it was there and is not a non-ignored removed path, and then with its bytes |
| Install.RemovePass | src/lib/dreams_upgrade.py:265-279 | the definition of the remove pass (no contract of its own); RemovePassStep and RemovePassAt state it |
| Install.ReplacePassStep | src/lib/dreams_upgrade.py:282-302 | one more modified path: rewritten from the source unless ignored or missing from the source |
| Install.ReplacePassAt | src/lib/dreams_upgrade.py:282-302 | a file is there if and only if it was there or was rewritten, and a rewritten file holds what the copy writes |
| Install.ReplacePass | src/lib/dreams_upgrade.py:282-302 | the definition of the replace pass (no contract of its own); ReplacePassStep and ReplacePassAt state it |
| Install.TranslateNewlines | src/lib/dreams_upgrade.py:297-299 | text-mode reading: no "\r" is left, the bytes never grow, and bytes without "\r" come through unchanged |
| Install.DefaultsApplied | src/lib/dreams_upgrade.py:304-317 | the definition of the corrected defaults pass (no contract of its own); DefaultsAt and DefaultsIdempotent state it |
| Install.CopiesStep | src/lib/dreams_upgrade.py:309-315 | one more default: its place is free after the earlier copies exactly when it was free at the start, and it is copied only then |
| Install.DefaultSourceOf | src/lib/dreams_upgrade.py:311-312 | a default's place, put back under `install/defaults/`, is the default itself |
| Install.DefaultsAt | src/lib/dreams_upgrade.py:304-317 | existing files keep their bytes, every default has its place filled, and a new file is a copy of its default |
| Install.DefaultsIdempotent | src/lib/dreams_upgrade.py:304-317 | when no default targets another default, moving defaults a second time changes nothing |
| Install.DirName | src/lib/dreams_upgrade.py:313-315 | the directory a place lies in: a prefix of the path ending just before its last "/", or "" when the path has no "/" |
| Install.DefaultsAsWritten | src/lib/dreams_upgrade.py:304-317 | the definition of the defaults walk as written (no contract of its own): a copy into a missing directory raises and ends the walk; DefaultsAsWrittenAt and DefaultsMissingDirAbandonsWalk state it |
| Install.DefaultsAsWrittenIdempotent | src/lib/dreams_upgrade.py:304-317 | as written, when no visited default targets another default, running the walk again in the same order changes nothing |
| Install.DefaultsAsWrittenAddsNoDefault | src/lib/dreams_upgrade.py:309-315 | as written, when no visited default targets another default, the walk creates no file under `install/defaults` |
| Install.DefaultsAsWrittenAt | src/lib/dreams_upgrade.py:309-315 | as written, the walk still never overwrites a file, and a file it creates holds the bytes of the default for that place |
| Install.DefaultsMissingDirAbandonsWalk | src/lib/dreams_upgrade.py:309-316 | as written, a default whose directory is missing stops the walk, so a later default whose directory exists is not copied either |
| Install.DefaultsExampleApplied | src/lib/dreams_upgrade.py:304-317 | with the directories created, both defaults of the same example are copied |
| Install.DefaultsPass | src/lib/dreams_upgrade.py:304-317 | the definition of the choice between the two defaults passes (no contract of its own) |
| Install.ResultDiff | src/lib/dreams_upgrade.py:237-285 | the definition of the returned difference (no contract of its own): the deep copy with every ignored entry removed |
| Install.Upgraded | src/lib/dreams_upgrade.py:221-317 | the definition of the whole call (no contract of its own): the two directory checks, then the three passes and the defaults pass |
| Install.InstallAsWritten | src/lib/dreams_upgrade.py:221-317 | the definition of the call as the code is written (no contract of its own): no global ignore on remove and replace, a text-mode replace, and a defaults walk without `makedirs` |
| Install.InstallIntended | src/lib/dreams_upgrade.py:221-317 | the definition of the call as intended (no contract of its own): global ignore on every pass, a byte copy, and directories created for the defaults |
| Install.ResultSublists | src/lib/dreams_upgrade.py:237-285 | for every variant of the call (as written or corrected: any exact lists for the remove and replace filters, any copy mode, either defaults walk), each list of the returned difference is an order-preserving sublist of the given one, and the versions are kept |
| Install.GlobalIgnoreHolds | src/lib/dreams_upgrade.py:239-302 | with the corrected loops, a globally ignored path keeps its bytes, and without defaults an absent one stays absent |
| Install.GlobalIgnoreMissedOnRemove | src/lib/dreams_upgrade.py:265-266 | as written, a globally ignored file listed as removed is deleted; as intended, it is kept |
| Install.ReplacedGetsNewBytes | src/lib/dreams_upgrade.py:282-302 | with a byte copy, a non-ignored modified file ends up with exactly the source's bytes |
| Install.ReplaceInTextModeCorrupts | src/lib/dreams_upgrade.py:297-302 | as written, an undecodable source leaves the target empty and `\r\n` becomes `\n`; a byte copy keeps the bytes |
| Install.InstallRoundTrip | src/lib/dreams_upgrade.py:221-302 | for the corrected call (byte copy in the replace pass), applying the difference between two manifests to an installation matching the first, with no ignores and no defaults, succeeds and yields files matching the second; removed files are gone and unlisted files are untouched |
| Install.RoundTripAt | src/lib/dreams_upgrade.py:245-302 | the round trip path by path through the three passes |
| DreamsUpgrade.FileTree.constructor | src/lib/dreams_upgrade.py:221 | the tree holds the given files |
| DreamsUpgrade.SidecarsForced | src/lib/dreams_upgrade.py:387-395 | the definition of the list edit (no contract of its own); the three lemmas below state it |
| DreamsUpgrade.SidecarsForcedModified | src/lib/dreams_upgrade.py:387-395 | after the edit both sidecar files are in modified, the old modified list is a prefix of the new one (at most two longer), and removed and the versions are unchanged |
| DreamsUpgrade.SidecarsForcedAdded | src/lib/dreams_upgrade.py:390-395 | on a duplicate-free added list neither sidecar remains, every other entry does, and no entry is doubled |
| DreamsUpgrade.SidecarsForcedIdempotent | src/lib/dreams_upgrade.py:387-395 | forcing the sidecars twice is forcing them once |
| DreamsUpgrade.ContentDifference.constructor | src/lib/dreams_upgrade.py:69-77 | the object holds the comparison of the two manifests, with both versions None |
| DreamsUpgrade.ContentDifference.Copy | src/lib/dreams_upgrade.py:237 | the deep copy holds the same lists and versions |
| DreamsUpgrade.ContentDifference.ForceSidecars | src/lib/dreams_upgrade.py:387-395 | the in-place edit leaves the forced difference |
| DreamsUpgrade.ContentDifference.Patchnote | src/lib/dreams_upgrade.py:113-156 | the text built by appending is the specified patchnote |
| DreamsUpgrade.AppendLines | src/lib/dreams_upgrade.py:127-129 | appending lines one `as_line` at a time appends their rendering |
| DreamsUpgrade.AppendSection | src/lib/dreams_upgrade.py:130-152 | appending one section appends its rendering, or nothing for an empty list |
| DreamsUpgrade.AppendEntries | src/lib/dreams_upgrade.py:133-134 | the entry loop appends the rendering of the entry lines |
| DreamsUpgrade.AddFiles | src/lib/dreams_upgrade.py:245-262 | the add loop leaves the tree that the add pass specifies, reports the copy that failed, and removes ignored entries from the result's added list |
| DreamsUpgrade.RemoveFiles | src/lib/dreams_upgrade.py:265-279 | the corrected remove loop, with the global ignore applied, leaves the specified tree and the result's removed list without ignored entries |
| DreamsUpgrade.ReplaceFiles | src/lib/dreams_upgrade.py:282-302 | the corrected replace loop, with the global ignore applied and a byte copy, leaves the specified tree and the result's modified list without ignored entries |
| DreamsUpgrade.MoveDefaults | src/lib/dreams_upgrade.py:304-317 | the defaults walk, in any order, leaves every default copied where its place was free |
| DreamsUpgrade.InstallUpgrade | src/lib/dreams_upgrade.py:221-317 | the installation ends as the corrected specification says, the errors are those of the two directory checks and a failed copy, and the returned difference is a new object |
| DreamsBundle.Bumped | src/lib/dreams_bundle.py:44-55 | no change for an empty difference, otherwise a strictly later (feature, patch); an added or removed mod bumps the feature and resets the patch; any other change keeps the feature and raises the patch by exactly one |
| DreamsBundle.PaddedStable | src/lib/dreams_bundle.py:34-38 | padding keeps a version of three or more components, keeps the given components in front, and padding twice is padding once |
| DreamsBundle.AdjustedVersion | src/lib/dreams_bundle.py:33-61 | the definition of `get_version_adjustement` (no contract of its own); AdjustedVersionOf, AdjustedVersionStable and NotANumber state it |
| DreamsBundle.GetVersionAdjustment | src/lib/dreams_bundle.py:33-61 | the padding loop and the bump compute the specified version, or None when a component is not an integer |
| DreamsBundle.NoDot | src/lib/dreams_bundle.py:57-59 | a rendered number has no dot |
| DreamsBundle.SplitThree | src/lib/dreams_bundle.py:34 | a dotted triple of dot-free parts splits back into its parts |
| DreamsBundle.SplitTwoBy | src/lib/dreams_bundle.py:34 | two separator-free parts joined by the separator split back into themselves: a `major.minor` version at the dots, a sidecar line at the colon |
| DreamsBundle.SmallNumbers | src/lib/dreams_bundle.py:57-59 | the rendering of small numbers used by the examples |
| DreamsBundle.ZeroParses | src/lib/dreams_bundle.py:37-42 | a padding "0" parses as 0 |
| DreamsBundle.AdjustedVersionOf | src/lib/dreams_bundle.py:33-61 | a `g.f.p` version becomes `g` followed by the bumped feature and patch |
| DreamsBundle.AdjustedVersionOfShort | src/lib/dreams_bundle.py:33-61 | a `g.f` version is read with patch 0 |
| DreamsBundle.VersionStringStable | src/lib/dreams_bundle.py:33-61 | an empty difference leaves a rendered version as it is |
| DreamsBundle.AdjustedVersionStable | src/lib/dreams_bundle.py:33-61 | adjusting an adjusted version again with an empty difference gives the same version |
| DreamsBundle.RenderedExamples | src/lib/dreams_bundle.py:57-59 | `1.2.1` keeps its patch, and `1.3` with patch 0 drops it |
| DreamsBundle.ExampleModified | src/lib/dreams_bundle.py:54-55 | a modified config bumps `1.2.0` to `1.2.1` |
| DreamsBundle.ExampleNewMod | src/lib/dreams_bundle.py:48-51 | a new mod bumps `1.2.5` to `1.3` |
| DreamsBundle.ZeroPatchDropped | src/lib/dreams_bundle.py:57-59 | an empty difference drops a zero patch: `g.f.0` becomes `g.f`, so "1.2.0" becomes "1.2" |
| DreamsBundle.NotANumber | src/lib/dreams_bundle.py:41-42 | a feature or patch that `int()` rejects makes the adjustment fail |
| DreamsBundle.SplitFileHash | src/lib/dreams_bundle.py:67-71 | without a colon the entry comes back whole; with one, it gives the text before the first colon and the field after it |
| DreamsBundle.SplitFileHashFormat | src/lib/dreams_bundle.py:63-71 | splitting a formatted entry gives back its path and fingerprint when neither holds a colon |
| DreamsBundle.FileContentFormat | src/lib/dreams_bundle.py:63-65 | the definition of a sidecar line (no contract of its own); SplitFileHashFormat states that it splits back |
| DreamsBundle.Excluded | src/lib/dreams_bundle.py:73-85 | the definition of the edit (no contract of its own); ExcludedFacts and ExcludedAbsent state it |
| DreamsBundle.ExcludedEdits | src/lib/dreams_bundle.py:73-85 | on any lists, repeated entries included: a list whose flag is off is kept as it is, and a list whose flag is on and that holds the path loses the path's first occurrence, every other entry staying in order |
| DreamsBundle.ExcludedFacts | src/lib/dreams_bundle.py:73-85 | on duplicate-free lists the path leaves exactly the lists chosen by the flags, everything else stays, and the versions are kept |
| DreamsBundle.ExcludedAbsent | src/lib/dreams_bundle.py:80-85 | a path in no list changes nothing |
| DreamsBundle.ExcludeFromDiff | src/lib/dreams_bundle.py:73-85 | the in-place edit leaves the specified difference |
| DreamsBundle.SerialisedSnoc | src/lib/dreams_bundle.py:235-241 | one more queued path appends one more formatted line |
| DreamsBundle.Serialised | src/lib/dreams_bundle.py:235-241 | the definition of the queued lines (no contract of its own); SerialisedSnoc and SerialisedLines state it |
| DreamsBundle.SidecarText | src/lib/dreams_bundle.py:235-242 | the definition of the sidecar text (no contract of its own); SidecarRoundTrip states its round trip |
| DreamsBundle.RelativePath | src/lib/dreams_bundle.py:232 | the definition of the relative path of a walked file (no contract of its own); RelativePathOf states it |
| DreamsBundle.RelativePathOf | src/lib/dreams_bundle.py:232 | a walked file below the directory gets back its relative path |
| DreamsBundle.SerialiseContent | src/lib/dreams_bundle.py:228-242 | the queue holds each walked file's relative path in walk order, and the text is one formatted line per queued path followed by the sidecar's own path |
| DreamsBundle.QueuedLines | src/lib/dreams_bundle.py:235-241 | one line per queued path |
| DreamsBundle.SerialisedLines | src/lib/dreams_bundle.py:235-241 | the text is the concatenation of the queued lines |
| DreamsBundle.ReadSerialised | src/lib/dreams_bundle.py:235-242 | reading the text back line by line gives the queued lines followed by the tail's lines |
| DreamsBundle.ParseQueuedLine | src/lib/dreams_bundle.py:241 | each queued line parses back to its path and fingerprint |
| DreamsBundle.PlainLine | src/lib/dreams_bundle.py:242 | a last line without colon, newline, backslash or surrounding space reads back as itself, with fingerprint "" |
| DreamsBundle.ParseSidecarPath | src/lib/dreams_bundle.py:242 | the sidecar's own path, written last, parses back as a key with fingerprint "" |
| DreamsBundle.SidecarEntries | src/lib/dreams_bundle.py:228-242 | the sidecar lines parse to one entry per queued path plus one for the sidecar itself |
| DreamsBundle.CollectConsistent | src/lib/dreams_upgrade.py:22-24 | a key whose every line carries the same fingerprint gets that fingerprint |
| DreamsBundle.SidecarKeys | src/lib/dreams_bundle.py:228-242 | the keys read back are the queue followed by the sidecar's own path |
| DreamsBundle.QueuedKeys | src/lib/dreams_bundle.py:228-242 | the keys of the parsed entries |
| DreamsBundle.SidecarValue | src/lib/dreams_bundle.py:235-241 | every queued path reads back with its fingerprint |
| DreamsBundle.QueuedValue | src/lib/dreams_bundle.py:235-241 | a queued path's value in the collected dict is its fingerprint |
| DreamsBundle.SidecarOwnPath | src/lib/dreams_bundle.py:242 | the sidecar's own path reads back with fingerprint "" |
| DreamsBundle.SidecarRoundTrip | src/lib/dreams_bundle.py:228-242 | `get_version_content` of the written sidecar gives back the manifest: the queue's keys in first-occurrence order plus the sidecar path, each with its fingerprint |
| DreamsBundle.Stem | src/lib/dreams_bundle.py:25 | the name before its last dot, or the whole name when it has none |
| DreamsBundle.AlnumPrefix | src/lib/dreams_bundle.py:25-28 | the longest prefix made of letters and digits |
| DreamsBundle.JarFiles | src/lib/dreams_bundle.py:19 | exactly the `.jar` entries of the mods listing |
| DreamsBundle.ConfigName | src/lib/dreams_bundle.py:22-28 | the definition of a configuration file's name (no contract of its own); DerivedName, AlnumPrefixUnique and EmptyNameOrphan state it |
| DreamsBundle.Squashed | src/lib/dreams_bundle.py:29 | the definition of a lowered jar name without "-" and "_" (no contract of its own) |
| DreamsBundle.IsOrphan | src/lib/dreams_bundle.py:29-30 | the definition of the orphan test (no contract of its own); Orphans, OrphanIgnoresCase and MoreJarsFewerOrphans state it |
| DreamsBundle.Orphans | src/lib/dreams_bundle.py:21-31 | a configuration file is an orphan if and only if no squashed jar name contains its name, ignoring case |
| DreamsBundle.DeriveName | src/lib/dreams_bundle.py:22-28 | the character loop builds the alphanumeric start of the stem |
| DreamsBundle.GetOrphanConfigs | src/lib/dreams_bundle.py:13-31 | the loop returns the orphans in listing order |
| DreamsBundle.AlnumPrefixUnique | src/lib/dreams_bundle.py:25-28 | any alphanumeric prefix that stops at the end or at another character is the name the loop builds |
| DreamsBundle.EmptyNameOrphan | src/lib/dreams_bundle.py:22-30 | the derived name is empty exactly when the file starts with a non-alphanumeric character; such a file is an orphan if and only if there are no jars |
| DreamsBundle.DerivedName | src/lib/dreams_bundle.py:22-28 | `name.ext` with an alphanumeric name and no `config-matches` entry is matched by `name` |
| DreamsBundle.OrphanIgnoresCase | src/lib/dreams_bundle.py:29 | the case of the name does not matter |
| DreamsBundle.MoreJarsFewerOrphans | src/lib/dreams_bundle.py:29 | adding a jar never creates an orphan |

## Left out

- Network access is out of the model, and so is everything that depends on it: the `from_path`, `compute_difference` and download paths and `upgrade_pack` apart from its list edit. The same goes for zip archives and JSON files, progress bars and colours, `ask_user`, subprocesses and the server-only world copy.
- I/O becomes parameters:
  - a tree of files is a map from relative path to bytes
  - the disk that `list_content` sees is a `Disk` value
  - `os.walk` is the list of steps it yields
  - `get_file_hash` is a function parameter
  - `os.path.isfile` in the revalidation is a set of present paths
  - the two `os.path.isdir` checks of `install_upgrade` are booleans
- GetVersionContent: the UTF-8 decoding of each line is not modelled; the lines are given as text.
- `get_content` is modelled only through its cache revalidation. The listing branch is `list_content` followed by hashing, and `list_content` itself is modelled.
- Directories are modelled only where a copy does not create them, in the defaults walk (`Install.DirExists`). Elsewhere `os.makedirs` always succeeds, and an include entry is a file or a directory according to the `Disk` value. A directory that `os.makedirs` creates for a replaced file whose read then fails is not modelled.
- Dreams.ListContent: `get_as_path` and `is_excluded` inside `list_content` use the profile root from `get_root()`, while the walk strips the `root` argument. The model takes both to be the same `root`.
- PyStr.Lower: `str.lower`, `str.isalnum` and `str.isspace` are modelled on ASCII letters and digits and on Python's whitespace set; other Unicode case mappings are not modelled.
- Dreams.GetConfigOption: the override maps hold values of one type. JSON's mixed value types and `null` are not modelled.
- DreamsBundle.Orphans: `config-matches` values are taken to be strings.
- The first `ContentDifference.__init__` (src/lib/dreams_upgrade.py:34-39) is replaced by the second definition in the same class, so it is never called and is not modelled. The second one does not set the versions, so they are the class attributes, `None`.
- DreamsUpgrade.InstallUpgrade: only the client mode is modelled. `print` warnings and `verbose` output are left out. The add pass's `shutil.copy` of a missing source raises outside any `try`, so the model ends the call with `MissingSource` after the earlier copies, as the code does.
- DreamsUpgrade.InstallUpgrade is proved against the corrected install (`Install.InstallIntended`), not the one as written. See "Findings".
- DreamsUpgrade.MoveDefaults: this method performs the corrected defaults pass (`Install.DefaultsApplied`), which creates the place's directory. The code's `shutil.copy` does not create it. A copy into a missing directory raises, and the `except` at src/lib/dreams_upgrade.py:316 abandons the rest of the walk. That behaviour is modelled by `Install.DefaultsAsWritten`; see "Findings". The method also works from the files as they were when the pass began, so a default copied into a place under `install/defaults` during the same walk is not copied again.
- Install.DefaultsAt: states the corrected pass. In the code as written, "every default has its place filled" fails for a default whose directory does not exist in the installation (`Install.DefaultsMissingDirAbandonsWalk`).
- Install.CopiesStep: describes one step of the corrected pass, which never fails. As written, the step for a default whose directory is missing raises and ends the walk.
- DreamsUpgrade.InstallUpgrade: its final tree includes the corrected defaults pass. As written, the defaults that follow a default with a missing directory in the walk are not copied.
- DreamsUpgrade.RemoveFiles: performs the corrected remove loop, which skips the paths of the global ignore list. The code as written never evaluates that list in this loop (src/lib/dreams_upgrade.py:265), and `Install.RemovePass` with an empty exact list models the code as written; see "Findings".
- DreamsUpgrade.ReplaceFiles: performs the corrected replace loop, which skips the paths of the global ignore list and copies bytes. The code as written never evaluates that list in this loop (src/lib/dreams_upgrade.py:282), and it copies in text mode (src/lib/dreams_upgrade.py:297-302); `Install.ReplacePass` with an empty exact list and `TextMode` models the code as written; see "Findings".
- Install.InstallRoundTrip: is proved for the corrected call only. As written, the text-mode replace pass translates "\r" and truncates a file that does not decode, so the round trip holds only when every modified file decodes and has no "\r".
- Install.DefaultsIdempotent: states the corrected pass. For the walk as written, `Install.DefaultsAsWrittenIdempotent` states the same property.
- PyStr.ParseInt: accepts only the ASCII digits `0`-`9`. Python's `int()` also accepts every Unicode decimal digit (`int("\u0661") == 1`), which is not modelled.
- Install.TranslateNewlines: is the POSIX text-mode round trip, where the write leaves "\n" as it is. On Windows the write turns each "\n" back into "\r\n", which is not modelled.
- Dreams.ListContentDistinct and Dreams.ListContentComplete assume no backslashes, because the duplicate check uses the path before normalisation. Dreams.BackslashEntryListedTwice shows what happens otherwise.
- DreamsBundle.SidecarRoundTrip needs every path and fingerprint to be free of colons, newlines and backslashes and to have no surrounding whitespace. Those characters do not survive the sidecar format.

## Findings

| source | as written | input that shows it | evidently intended | confidence | as-written member | corrected member |
|---|---|---|---|---|---|---|
| src/lib/dreams_upgrade.py:265, 282 | the global ignore test is appended to the `for` headers of the remove and replace loops (`enumerate(...) or r in ignore_global`). The enumerate object is always truthy, so the test is never evaluated | config `upgrade-ignore-global: ["mods/a.jar"]`, installed `mods/a.jar`, difference removing `mods/a.jar`: the file is deleted | a globally ignored path is skipped by every pass, as in the add loop at line 246 | not executed | Install.InstallAsWritten, Install.GlobalIgnoreMissedOnRemove | Install.InstallIntended, Install.GlobalIgnoreHolds |
| src/lib/dreams_upgrade.py:297-302 | the replace pass opens the source in text mode and opens the target for writing before it reads. A source the platform encoding cannot decode leaves the target truncated, and the error is then discarded | a modified `mods/a.jar` whose new bytes are `[255]` under an encoding that rejects them: the target becomes empty. New bytes `\r\n` become `\n` | the target holds exactly the source's bytes (a binary copy) | not executed | Install.InstallAsWritten, Install.ReplaceInTextModeCorrupts | Install.InstallIntended, Install.ReplacedGetsNewBytes |
| src/lib/dreams_upgrade.py:309-316 | the defaults walk copies with `shutil.copy`, which does not create the target's directory; the add and replace passes call `os.makedirs` first (257-258, 293-294). A copy into a missing directory raises, and the `except` at 316 abandons the rest of the walk | defaults `install/defaults/journeymap/a.cfg` and `install/defaults/options/b.cfg`, walked in that order, into an installation with an `options` directory and no `journeymap` directory: neither default is copied | every default lands where no file is, its directory created as in the other passes | not executed | Install.DefaultsAsWritten, Install.DefaultsMissingDirAbandonsWalk | Install.DefaultsApplied, Install.DefaultsExampleApplied, Install.DefaultsAt |
