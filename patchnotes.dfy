/** The patchnote text of `ContentDifference.patchnote` (src/lib/dreams_upgrade.py):
    the lines it passes to its `as_line` helper, how they are rendered, and what the
    rendered text is known to contain. */
module Patchnotes {
  import opened Wrappers
  import opened Seqs
  import opened PyStr
  import opened Diffs

  const AddSymbol: String := "[+]"
  const RemoveSymbol: String := "[-]"
  const ModifySymbol: String := "[~]"
  const TitleSepLength: nat := 20

  /** A version label as an f-string prints it: `None` when unset. */
  function Label(v: Option<String>): String {
    match v
    case None => "None"
    case Some(s) => s
  }

  function Title(d: Difference): String {
    "[PATCHNOTE " + Label(d.oldVersion) + " -> " + Label(d.newVersion) + "]"
  }

  /** Twenty dashes, the title, twenty dashes. */
  function TitleLine(d: Difference): String {
    Repeat('-', TitleSepLength) + " " + Title(d) + " " + Repeat('-', TitleSepLength)
  }

  /** A line of dashes as wide as the title line. */
  function Rule(d: Difference): (r: String)
    ensures |r| == |TitleLine(d)| && |r| > 2 * TitleSepLength
    ensures forall i | 0 <= i < |r| :: r[i] == '-'
  {
    Repeat('-', |TitleLine(d)|)
  }

  /** `as_line`: the indent, the line without its newlines, one newline. */
  function AsLine(l: String, indent: int): (r: String)
    ensures |r| > 0 && '\n' !in r[..|r| - 1] && r[|r| - 1] == '\n'
  {
    var body := Repeat(' ', indent) + RemoveChar(l, '\n');
    assert (body + "\n")[..|body|] == body;
    body + "\n"
  }

  /** The text of a sequence of `as_line` calls. */
  function Render(lines: seq<String>, indent: int): String
    decreases |lines|
  {
    if lines == [] then [] else AsLine(lines[0], indent) + Render(lines[1..], indent)
  }

  /** The entry lines of one list: the symbol, a space, the path. */
  function EntryLines(symbol: String, files: seq<String>): (r: seq<String>)
    ensures |r| == |files|
    ensures forall i | 0 <= i < |files| :: r[i] == symbol + " " + files[i]
  {
    seq(|files|, i requires 0 <= i < |files| => symbol + " " + files[i])
  }

  /** The arguments of the `as_line` calls of `patchnote(fancy)`, in order. */
  function PatchLines(d: Difference, fancy: bool): seq<String> {
    var rule := Rule(d);
    (if fancy then [rule, TitleLine(d), rule + "\n"] else [])
    + (if |d.added| > 0 then
         (if fancy then [] else ["Added :"]) + EntryLines(AddSymbol, d.added) + [""]
       else [])
    + (if |d.removed| > 0 then
         (if fancy then [rule, ""] else ["Removed :"]) + EntryLines(RemoveSymbol, d.removed) + [""]
       else [])
    + (if |d.modified| > 0 then
         (if fancy then [rule, ""] else ["Modified :"]) + EntryLines(ModifySymbol, d.modified)
       else [])
    + (if fancy then [rule] else [])
  }

  /** The patchnote string itself. */
  function PatchnoteText(d: Difference, fancy: bool, indent: int): String {
    Render(PatchLines(d, fancy), indent)
  }

  lemma {:induction false} RenderConcat(a: seq<String>, b: seq<String>, indent: int)
    ensures Render(a + b, indent) == Render(a, indent) + Render(b, indent)
    decreases |a|
  {
    if a != [] {
      assert (a + b)[1..] == a[1..] + b;
      RenderConcat(a[1..], b, indent);
    } else {
      assert a + b == b;
    }
  }

  /** The rendered lines, one per `as_line` call. */
  function AsLines(lines: seq<String>, indent: int): (r: seq<String>)
    ensures |r| == |lines|
    ensures forall i | 0 <= i < |lines| :: r[i] == AsLine(lines[i], indent)
  {
    seq(|lines|, i requires 0 <= i < |lines| => AsLine(lines[i], indent))
  }

  lemma {:induction false} RenderIsConcat(lines: seq<String>, indent: int)
    ensures Render(lines, indent) == Concat(AsLines(lines, indent))
    decreases |lines|
  {
    if lines != [] {
      RenderIsConcat(lines[1..], indent);
      assert AsLines(lines, indent)[1..] == AsLines(lines[1..], indent);
    }
  }

  /** Every `as_line` call yields exactly one line of the text. */
  lemma RenderLines(lines: seq<String>, indent: int)
    ensures ReadLines(Render(lines, indent)) == AsLines(lines, indent)
  {
    var ls := AsLines(lines, indent);
    forall i | 0 <= i < |ls|
      ensures IsLine(ls[i])
    {
      assert ls[i] == AsLine(lines[i], indent);
    }
    RenderIsConcat(lines, indent);
    ReadConcat(ls, []);
    assert Concat(ls) + [] == Concat(ls);
    assert ls + ReadLines([]) == ls;
  }

  /** The paths of the lines that start with `symbol` and a space. */
  function Marked(lines: seq<String>, symbol: String): seq<String>
    decreases |lines|
  {
    if lines == [] then []
    else
      var tag := symbol + " ";
      (if StartsWith(lines[0], tag) then [lines[0][|tag|..]] else []) + Marked(lines[1..], symbol)
  }

  lemma {:induction false} MarkedConcat(a: seq<String>, b: seq<String>, symbol: String)
    ensures Marked(a + b, symbol) == Marked(a, symbol) + Marked(b, symbol)
    decreases |a|
  {
    if a != [] {
      assert (a + b)[1..] == a[1..] + b;
      MarkedConcat(a[1..], b, symbol);
    } else {
      assert a + b == b;
    }
  }

  /** A list of lines none of which starts with a symbol of its own. */
  predicate Unmarked(lines: seq<String>) {
    forall i | 0 <= i < |lines| :: lines[i] == [] || lines[i][0] != '['
  }

  lemma {:induction false} MarkedOfUnmarked(lines: seq<String>, symbol: String)
    requires Unmarked(lines) && |symbol| > 0 && symbol[0] == '['
    ensures Marked(lines, symbol) == []
    decreases |lines|
  {
    if lines != [] {
      var tag := symbol + " ";
      assert !StartsWith(lines[0], tag) by {
        if |tag| <= |lines[0]| { assert lines[0][..|tag|][0] == lines[0][0]; }
      }
      MarkedOfUnmarked(lines[1..], symbol);
    }
  }

  /** The entry lines of a list give back the list under their own symbol and
      nothing under another. */
  lemma {:induction false} MarkedEntries(symbol: String, other: String, files: seq<String>)
    requires symbol in [AddSymbol, RemoveSymbol, ModifySymbol]
    requires other in [AddSymbol, RemoveSymbol, ModifySymbol]
    ensures Marked(EntryLines(symbol, files), symbol) == files
    ensures other != symbol ==> Marked(EntryLines(other, files), symbol) == []
    decreases |files|
  {
    if files != [] {
      var tag := symbol + " ";
      var l := EntryLines(symbol, files);
      assert l[0][..|tag|] == tag && l[0][|tag|..] == files[0];
      assert l[1..] == EntryLines(symbol, files[1..]);
      var m := EntryLines(other, files);
      assert m[1..] == EntryLines(other, files[1..]);
      if other != symbol {
        assert m[0][1] == other[1];
        assert !StartsWith(m[0], tag) by { assert m[0][..|tag|][1] == other[1]; }
      }
      MarkedEntries(symbol, other, files[1..]);
      assert files == [files[0]] + files[1..];
    }
  }

  function Section(header: seq<String>, symbol: String, files: seq<String>, tail: seq<String>): seq<String> {
    if |files| > 0 then header + EntryLines(symbol, files) + tail else []
  }

  lemma MarkedSection(header: seq<String>, symbol: String, other: String, files: seq<String>, tail: seq<String>)
    requires Unmarked(header) && Unmarked(tail)
    requires symbol in [AddSymbol, RemoveSymbol, ModifySymbol]
    requires other in [AddSymbol, RemoveSymbol, ModifySymbol]
    ensures Marked(Section(header, other, files, tail), symbol) == if other == symbol then files else []
  {
    if |files| > 0 {
      var e := EntryLines(other, files);
      assert Marked(header + e + tail, symbol) == Marked(e, symbol) by {
        MarkedFramed(header, e, tail, symbol);
      }
      MarkedEntries(symbol, other, files);
    } else {
      assert Marked([], symbol) == [];
    }
  }

  lemma MarkedFramed(header: seq<String>, e: seq<String>, tail: seq<String>, symbol: String)
    requires Unmarked(header) && Unmarked(tail) && |symbol| > 0 && symbol[0] == '['
    ensures Marked(header + e + tail, symbol) == Marked(e, symbol)
  {
    MarkedConcat(header + e, tail, symbol);
    MarkedConcat(header, e, symbol);
    MarkedOfUnmarked(header, symbol);
    MarkedOfUnmarked(tail, symbol);
    assert [] + Marked(e, symbol) + [] == Marked(e, symbol);
  }

  /** `PatchLines` written section by section. */
  lemma PatchLinesSections(d: Difference, fancy: bool)
    ensures var rule := Rule(d);
            PatchLines(d, fancy) ==
              (if fancy then [rule, TitleLine(d), rule + "\n"] else [])
              + Section(if fancy then [] else ["Added :"], AddSymbol, d.added, [""])
              + Section(if fancy then [rule, ""] else ["Removed :"], RemoveSymbol, d.removed, [""])
              + Section(if fancy then [rule, ""] else ["Modified :"], ModifySymbol, d.modified, [])
              + (if fancy then [rule] else [])
  {
  }

  /** The frame lines of both styles carry no symbol. */
  lemma FrameUnmarked(d: Difference, fancy: bool)
    ensures Unmarked(if fancy then [Rule(d), TitleLine(d), Rule(d) + "\n"] else [])
    ensures Unmarked(if fancy then [Rule(d)] else [])
    ensures Unmarked(if fancy then [Rule(d), ""] else ["Removed :"])
    ensures Unmarked(if fancy then [Rule(d), ""] else ["Modified :"])
  {
    var rule := Rule(d);
    assert rule[0] == '-';
    assert TitleLine(d)[0] == '-';
    assert (rule + "\n")[0] == '-';
  }

  /** Unmarked lines around and between the sections contribute nothing. */
  lemma MarkedLayout(head: seq<String>, a: seq<String>, r: seq<String>, m: seq<String>, foot: seq<String>,
                     symbol: String)
    requires Unmarked(head) && Unmarked(foot) && |symbol| > 0 && symbol[0] == '['
    ensures Marked(head + a + r + m + foot, symbol) == Marked(a, symbol) + Marked(r, symbol) + Marked(m, symbol)
  {
    var x1 := head + a;
    var x2 := x1 + r;
    var x3 := x2 + m;
    MarkedOfUnmarked(head, symbol);
    MarkedOfUnmarked(foot, symbol);
    MarkedConcat(head, a, symbol);
    assert Marked(x1, symbol) == Marked(a, symbol);
    MarkedConcat(x1, r, symbol);
    MarkedConcat(x2, m, symbol);
    MarkedConcat(x3, foot, symbol);
  }

  /** The symbols differ from each other. */
  lemma SymbolsDiffer()
    ensures AddSymbol != RemoveSymbol && AddSymbol != ModifySymbol && RemoveSymbol != ModifySymbol
  {
    assert AddSymbol[1] == '+' && RemoveSymbol[1] == '-' && ModifySymbol[1] == '~';
  }

  /** Three sections framed by unmarked lines read back as their lists. */
  lemma SectionsListFiles(head: seq<String>, ah: seq<String>, rh: seq<String>, mh: seq<String>,
                          foot: seq<String>, d: Difference, symbol: String)
    requires Unmarked(head) && Unmarked(ah) && Unmarked(rh) && Unmarked(mh) && Unmarked(foot)
    requires symbol in [AddSymbol, RemoveSymbol, ModifySymbol]
    ensures Marked(head + Section(ah, AddSymbol, d.added, [""]) + Section(rh, RemoveSymbol, d.removed, [""])
                   + Section(mh, ModifySymbol, d.modified, []) + foot, symbol) ==
      if symbol == AddSymbol then d.added
      else if symbol == RemoveSymbol then d.removed
      else d.modified
  {
    var a := Section(ah, AddSymbol, d.added, [""]);
    var r := Section(rh, RemoveSymbol, d.removed, [""]);
    var m := Section(mh, ModifySymbol, d.modified, []);
    MarkedLayout(head, a, r, m, foot, symbol);
    assert Unmarked([""]) && Unmarked([]);
    SymbolsDiffer();
    if symbol == AddSymbol {
      SectionsAsListed(ah, rh, mh, d, AddSymbol, d.added, [], []);
    } else if symbol == RemoveSymbol {
      SectionsAsListed(ah, rh, mh, d, RemoveSymbol, [], d.removed, []);
    } else {
      SectionsAsListed(ah, rh, mh, d, ModifySymbol, [], [], d.modified);
    }
  }

  lemma SectionsAsListed(ah: seq<String>, rh: seq<String>, mh: seq<String>, d: Difference, symbol: String,
                         ma: seq<String>, mr: seq<String>, mm: seq<String>)
    requires Unmarked(ah) && Unmarked(rh) && Unmarked(mh)
    requires symbol in [AddSymbol, RemoveSymbol, ModifySymbol]
    requires ma == (if symbol == AddSymbol then d.added else [])
    requires mr == (if symbol == RemoveSymbol then d.removed else [])
    requires mm == (if symbol == ModifySymbol then d.modified else [])
    ensures Marked(Section(ah, AddSymbol, d.added, [""]), symbol) == ma
    ensures Marked(Section(rh, RemoveSymbol, d.removed, [""]), symbol) == mr
    ensures Marked(Section(mh, ModifySymbol, d.modified, []), symbol) == mm
  {
    assert Unmarked([""]) && Unmarked([]);
    MarkedSection(ah, symbol, AddSymbol, d.added, [""]);
    MarkedSection(rh, symbol, RemoveSymbol, d.removed, [""]);
    MarkedSection(mh, symbol, ModifySymbol, d.modified, []);
  }

  /** Reading the patchnote back: the lines marked with each symbol name exactly the
      paths of that list, in order. */
  lemma PatchLinesListFiles(d: Difference, fancy: bool, symbol: String)
    requires symbol in [AddSymbol, RemoveSymbol, ModifySymbol]
    ensures Marked(PatchLines(d, fancy), symbol) ==
      if symbol == AddSymbol then d.added
      else if symbol == RemoveSymbol then d.removed
      else d.modified
  {
    var rule := Rule(d);
    var ah: seq<String> := if fancy then [] else ["Added :"];
    PatchLinesSections(d, fancy);
    FrameUnmarked(d, fancy);
    assert Unmarked(ah);
    SectionsListFiles(if fancy then [rule, TitleLine(d), rule + "\n"] else [], ah,
                      if fancy then [rule, ""] else ["Removed :"], if fancy then [rule, ""] else ["Modified :"],
                      if fancy then [rule] else [], d, symbol);
  }

  /** The number of lines: one per entry, plus the headers, separators and blank
      lines of each non-empty section, plus the frame in the fancy style. */
  lemma PatchLinesCount(d: Difference, fancy: bool)
    ensures |PatchLines(d, fancy)| ==
      if fancy then
        4 + (if |d.added| > 0 then |d.added| + 1 else 0)
          + (if |d.removed| > 0 then |d.removed| + 3 else 0)
          + (if |d.modified| > 0 then |d.modified| + 2 else 0)
      else
        (if |d.added| > 0 then |d.added| + 2 else 0)
          + (if |d.removed| > 0 then |d.removed| + 2 else 0)
          + (if |d.modified| > 0 then |d.modified| + 1 else 0)
  {
  }

  /** The plain patchnote of an empty difference is the empty string; the fancy one
      is only its frame. */
  lemma EmptyPatchnote(d: Difference, indent: int)
    requires d.IsEmpty()
    ensures PatchnoteText(d, false, indent) == []
    ensures PatchLines(d, true) == [Rule(d), TitleLine(d), Rule(d) + "\n", Rule(d)]
  {
  }

  /** A plain section header appears exactly when its list is non-empty. */
  lemma PlainHeaders(d: Difference)
    ensures "Added :" in PatchLines(d, false) <==> |d.added| > 0
    ensures "Removed :" in PatchLines(d, false) <==> |d.removed| > 0
    ensures "Modified :" in PatchLines(d, false) <==> |d.modified| > 0
  {
    var a := Section(["Added :"], AddSymbol, d.added, [""]);
    var r := Section(["Removed :"], RemoveSymbol, d.removed, [""]);
    var m := Section(["Modified :"], ModifySymbol, d.modified, []);
    PatchLinesSections(d, false);
    assert PatchLines(d, false) == a + r + m;
    HeaderOnlyIn("Added :", ["Added :"], AddSymbol, d.added, [""]);
    HeaderOnlyIn("Added :", ["Removed :"], RemoveSymbol, d.removed, [""]);
    HeaderOnlyIn("Added :", ["Modified :"], ModifySymbol, d.modified, []);
    HeaderOnlyIn("Removed :", ["Added :"], AddSymbol, d.added, [""]);
    HeaderOnlyIn("Removed :", ["Removed :"], RemoveSymbol, d.removed, [""]);
    HeaderOnlyIn("Removed :", ["Modified :"], ModifySymbol, d.modified, []);
    HeaderOnlyIn("Modified :", ["Added :"], AddSymbol, d.added, [""]);
    HeaderOnlyIn("Modified :", ["Removed :"], RemoveSymbol, d.removed, [""]);
    HeaderOnlyIn("Modified :", ["Modified :"], ModifySymbol, d.modified, []);
  }

  /** A header, which does not start with `[`, is in a section only as its header. */
  lemma HeaderOnlyIn(h: String, header: seq<String>, symbol: String, files: seq<String>, tail: seq<String>)
    requires |h| > 0 && h[0] != '[' && h !in tail
    requires |symbol| > 0 && symbol[0] == '['
    ensures h in Section(header, symbol, files, tail) <==> |files| > 0 && h in header
  {
    var e := EntryLines(symbol, files);
    forall i | 0 <= i < |e| ensures e[i] != h {
      assert e[i][0] == '[';
    }
  }

  /** The fancy patchnote opens with a rule, the title line and a rule (the newline
      of the third is dropped by `as_line`), and closes with a rule. */
  lemma FancyFrame(d: Difference, indent: int)
    ensures var text := ReadLines(PatchnoteText(d, true, indent));
            var rule := AsLine(Rule(d), indent);
            && |text| >= 4
            && text[0] == rule && text[1] == AsLine(TitleLine(d), indent)
            && text[2] == rule && text[|text| - 1] == rule
  {
    FancyLines(d);
    RenderLines(PatchLines(d, true), indent);
    RuleLine(d, indent);
  }

  lemma FancyLines(d: Difference)
    ensures var lines := PatchLines(d, true);
            && |lines| >= 4 && lines[0] == Rule(d) && lines[1] == TitleLine(d) && lines[2] == Rule(d) + "\n"
            && lines[|lines| - 1] == Rule(d)
  {
    var rule := Rule(d);
    var mid := Section([], AddSymbol, d.added, [""])
               + Section([rule, ""], RemoveSymbol, d.removed, [""])
               + Section([rule, ""], ModifySymbol, d.modified, []);
    PatchLinesSections(d, true);
    Framed(rule, TitleLine(d), rule + "\n", mid);
  }

  lemma Framed(a: String, b: String, c: String, mid: seq<String>)
    ensures var lines := [a, b, c] + mid + [a];
            |lines| >= 4 && lines[0] == a && lines[1] == b && lines[2] == c && lines[|lines| - 1] == a
  {
  }

  lemma RuleLine(d: Difference, indent: int)
    ensures AsLine(Rule(d) + "\n", indent) == AsLine(Rule(d), indent)
  {
    RemoveCharTrailing(Rule(d), '\n');
  }

  /** The text, section by section. */
  lemma PatchnoteTextSections(d: Difference, fancy: bool, indent: int)
    ensures var rule := Rule(d);
            PatchnoteText(d, fancy, indent) ==
              Render(if fancy then [rule, TitleLine(d), rule + "\n"] else [], indent)
              + Render(Section(if fancy then [] else ["Added :"], AddSymbol, d.added, [""]), indent)
              + Render(Section(if fancy then [rule, ""] else ["Removed :"], RemoveSymbol, d.removed, [""]), indent)
              + Render(Section(if fancy then [rule, ""] else ["Modified :"], ModifySymbol, d.modified, []), indent)
              + Render(if fancy then [rule] else [], indent)
  {
    var rule := Rule(d);
    var head := if fancy then [rule, TitleLine(d), rule + "\n"] else [];
    var a := Section(if fancy then [] else ["Added :"], AddSymbol, d.added, [""]);
    var r := Section(if fancy then [rule, ""] else ["Removed :"], RemoveSymbol, d.removed, [""]);
    var m := Section(if fancy then [rule, ""] else ["Modified :"], ModifySymbol, d.modified, []);
    var foot := if fancy then [rule] else [];
    PatchLinesSections(d, fancy);
    var x1 := head + a;
    var x2 := x1 + r;
    var x3 := x2 + m;
    RenderConcat(head, a, indent);
    RenderConcat(x1, r, indent);
    RenderConcat(x2, m, indent);
    RenderConcat(x3, foot, indent);
  }

  lemma RenderSection(header: seq<String>, symbol: String, files: seq<String>, tail: seq<String>, indent: int)
    ensures Render(Section(header, symbol, files, tail), indent) ==
      if |files| > 0 then Render(header, indent) + Render(EntryLines(symbol, files), indent) + Render(tail, indent)
      else []
  {
    if |files| > 0 {
      RenderConcat(header + EntryLines(symbol, files), tail, indent);
      RenderConcat(header, EntryLines(symbol, files), indent);
    }
  }

  /** One more entry appends one more rendered line. */
  lemma RenderEntriesSnoc(symbol: String, files: seq<String>, i: nat, indent: int)
    requires i < |files|
    ensures Render(EntryLines(symbol, files[..i + 1]), indent) ==
      Render(EntryLines(symbol, files[..i]), indent) + AsLine(symbol + " " + files[i], indent)
  {
    var line := symbol + " " + files[i];
    assert EntryLines(symbol, files[..i + 1]) == EntryLines(symbol, files[..i]) + [line];
    RenderConcat(EntryLines(symbol, files[..i]), [line], indent);
    assert Render([line], indent) == AsLine(line, indent) + Render([], indent);
  }

  /** One more line appends one more rendered line. */
  lemma RenderSnoc(lines: seq<String>, i: nat, indent: int)
    requires i < |lines|
    ensures Render(lines[..i + 1], indent) == Render(lines[..i], indent) + AsLine(lines[i], indent)
  {
    assert lines[..i + 1] == lines[..i] + [lines[i]];
    RenderConcat(lines[..i], [lines[i]], indent);
    assert Render([lines[i]], indent) == AsLine(lines[i], indent) + Render([], indent);
  }
}
