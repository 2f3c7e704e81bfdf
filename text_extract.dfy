/**
 * Turning a course file into indexable text: whitespace normalisation, the title
 * hint of JSX and Markdown files, and the dispatch on the file extension.
 */
module TextExtract {
  import opened Prelude
  import opened Text
  import opened AttrMatch
  import opened Paths

  datatype ExtractedDoc = ExtractedDoc(
    text: string,
    courseId: Option<string>,
    moduleId: Option<string>,
    titleHint: Option<string>)

  // ---------------------------------------------------------------------------
  // _normalize_text, one stage per line of the pipeline

  /** `text.replace("\r\n", "\n")`: left-to-right, non-overlapping. */
  function ReplaceCrLf(s: string): (r: string)
    ensures forall c <- r :: c in s
  {
    if |s| >= 2 && s[0] == '\r' && s[1] == '\n' then "\n" + ReplaceCrLf(s[2..])
    else if s == [] then []
    else [s[0]] + ReplaceCrLf(s[1..])
  }

  /** The characters of the class `[\t\f\v]`. */
  predicate IsTabLike(c: char) {
    c == '\t' || c == '\U{000C}' || c == '\U{000B}'
  }

  predicate NoTabLike(s: string) {
    forall c <- s :: !IsTabLike(c)
  }

  /**
   * `re.sub(r"[\t\f\v]+", " ", text)`: every maximal run of tab-like characters
   * becomes one space. `inRun` says the previous input character was tab-like.
   */
  function SubTabRuns(s: string, inRun: bool): (r: string)
    ensures NoTabLike(r)
    ensures forall c <- r :: c in s || c == ' '
  {
    if s == [] then []
    else if IsTabLike(s[0]) then (if inRun then "" else " ") + SubTabRuns(s[1..], true)
    else [s[0]] + SubTabRuns(s[1..], false)
  }

  /** No two adjacent spaces. */
  predicate NoDoubleSpace(s: string) {
    forall i :: 0 <= i < |s| - 1 ==> !(s[i] == ' ' && s[i + 1] == ' ')
  }

  /** No three adjacent newlines. */
  predicate NoTripleNewline(s: string) {
    forall i :: 0 <= i < |s| - 2 ==> !(s[i] == '\n' && s[i + 1] == '\n' && s[i + 2] == '\n')
  }

  /**
   * `re.sub(r" +", " ", text)`: every maximal run of spaces becomes one space.
   * `inRun` says the previous input character was a space.
   */
  function CollapseSpaces(s: string, inRun: bool): (r: string)
    ensures forall c <- r :: c in s
    ensures NoDoubleSpace(r)
    ensures inRun ==> r == [] || r[0] != ' '
    ensures !inRun ==> (r == [] <==> s == []) && (s != [] ==> r[0] == s[0])
  {
    if s == [] then []
    else if s[0] == ' ' then
      var rest := CollapseSpaces(s[1..], true);
      (if inRun then "" else " ") + rest
    else
      var rest := CollapseSpaces(s[1..], false);
      [s[0]] + rest
  }

  /**
   * `re.sub(r"\n{3,}", "\n\n", text)`: a run of three or more newlines becomes two,
   * shorter runs stay. `run` counts the newlines immediately before `s`.
   */
  function CapNewlines(s: string, run: nat): (r: string)
    ensures forall c <- r :: c in s
    ensures run < 2 ==> (r == [] <==> s == []) && (s != [] ==> r[0] == s[0])
    ensures run >= 2 ==> r == [] || r[0] != '\n'
    ensures run == 1 ==> |r| < 2 || r[0] != '\n' || r[1] != '\n'
    ensures NoTripleNewline(r)
    ensures NoDoubleSpace(s) ==> NoDoubleSpace(r)
  {
    if s == [] then []
    else if s[0] == '\n' then
      var rest := CapNewlines(s[1..], run + 1);
      (if run >= 2 then "" else "\n") + rest
    else
      var rest := CapNewlines(s[1..], 0);
      assert NoDoubleSpace(s) ==> NoDoubleSpace(s[1..]);
      [s[0]] + rest
  }


  /** What normalised text looks like. */
  predicate NormalForm(t: string) {
    && '\r' !in t
    && NoTabLike(t)
    && NoDoubleSpace(t)
    && NoTripleNewline(t)
    && (t == [] || (!IsSpace(t[0]) && !IsSpace(t[|t| - 1])))
  }

  /** The parts of the normal form that every slice of a text keeps. */
  predicate SliceClosedForm(t: string) {
    '\r' !in t && NoTabLike(t) && NoDoubleSpace(t) && NoTripleNewline(t)
  }

  /** Dropping a prefix keeps the slice-closed parts of the normal form. */
  lemma SuffixKeepsForm(s: string, t: string)
    requires SliceClosedForm(s) && |t| <= |s| && t == s[|s| - |t|..]
    ensures SliceClosedForm(t)
  {
    assert forall i :: 0 <= i < |t| ==> t[i] == s[|s| - |t| + i];
  }

  /** Dropping a suffix keeps the slice-closed parts of the normal form. */
  lemma PrefixKeepsForm(s: string, t: string)
    requires SliceClosedForm(s) && |t| <= |s| && t == s[..|t|]
    ensures SliceClosedForm(t)
  {
    assert forall i :: 0 <= i < |t| ==> t[i] == s[i];
  }

  /** Text free of the patterns the substitutions remove is in normal form once stripped. */
  lemma StripKeepsForm(s: string)
    requires SliceClosedForm(s)
    ensures NormalForm(Strip(s))
  {
    var l := LStrip(s);
    SuffixKeepsForm(s, l);
    PrefixKeepsForm(l, RStrip(l));
  }

  /**
   * `_normalize_text`. Normalised text has no carriage return, no tab, form feed or
   * vertical tab, no two adjacent spaces, no three adjacent newlines, and no
   * surrounding whitespace.
   */
  function Normalize(text: string): (r: string)
    ensures NormalForm(r)
  {
    var noCrLf := ReplaceCrLf(text);
    var noCr := ReplaceChar(noCrLf, '\r', '\n');
    var noTabs := SubTabRuns(noCr, false);
    var oneSpace := CollapseSpaces(noTabs, false);
    var capped := CapNewlines(oneSpace, 0);
    assert NormalForm(Strip(capped)) by {
      assert SliceClosedForm(capped);
      StripKeepsForm(capped);
    }
    Strip(capped)
  }

  // ---------------------------------------------------------------------------
  // Lines

  /** Length of the leading run of characters other than `c`. */
  function CharFreeLen(s: string, c: char): (k: nat)
    ensures k <= |s| && c !in s[..k]
    ensures k < |s| ==> s[k] == c
  {
    if s == [] || s[0] == c then 0
    else
      var k := CharFreeLen(s[1..], c);
      assert s[..k + 1] == [s[0]] + s[1..][..k];
      k + 1
  }

  /** `s.split(c)` with an explicit one-character separator: never empty, pieces free of `c`. */
  function SplitOn(s: string, c: char): (parts: seq<string>)
    ensures |parts| >= 1
    ensures forall p <- parts :: c !in p
    decreases |s|
  {
    var k := CharFreeLen(s, c);
    if k == |s| then [s] else [s[..k]] + SplitOn(s[k + 1..], c)
  }

  /** Joining the pieces with the separator gives the string back. */
  lemma {:induction false} JoinSplitOn(s: string, c: char)
    ensures Join(SplitOn(s, c), [c]) == s
    decreases |s|
  {
    var k := CharFreeLen(s, c);
    if k < |s| {
      var rest := SplitOn(s[k + 1..], c);
      JoinSplitOn(s[k + 1..], c);
      assert SplitOn(s, c) == [s[..k]] + rest;
      assert s == s[..k] + [c] + s[k + 1..];
    }
  }

  // ---------------------------------------------------------------------------
  // extract_from_jsx: the title hint

  /** Line `i` is the first whose stripped form has at least eight characters. */
  predicate FirstLongAt(lines: seq<string>, i: int) {
    0 <= i < |lines| && |Strip(lines[i])| >= 8 && forall j :: 0 <= j < i ==> |Strip(lines[j])| < 8
  }

  /** The first line whose stripped form has at least eight characters, stripped. */
  function FirstLongLine(lines: seq<string>): (t: Option<string>)
    ensures t.None? <==> forall l <- lines :: |Strip(l)| < 8
    ensures t.Some? ==> exists i :: FirstLongAt(lines, i) && t.value == Strip(lines[i])
  {
    if lines == [] then None
    else if |Strip(lines[0])| >= 8 then
      assert FirstLongAt(lines, 0);
      Some(Strip(lines[0]))
    else
      var t := FirstLongLine(lines[1..]);
      ShortHeadLines(lines);
      if t.Some? then
        var i :| FirstLongAt(lines[1..], i) && t.value == Strip(lines[1..][i]);
        FirstLongShift(lines, i);
        t
      else t
  }

  /** With a short first line, every line is short exactly when every later line is. */
  lemma ShortHeadLines(lines: seq<string>)
    requires lines != [] && |Strip(lines[0])| < 8
    ensures (forall l <- lines :: |Strip(l)| < 8) <==> (forall l <- lines[1..] :: |Strip(l)| < 8)
  {
    assert forall l <- lines :: l == lines[0] || l in lines[1..];
  }

  /** Behind a short first line, the first long line of the rest is the first long line. */
  lemma FirstLongShift(lines: seq<string>, i: int)
    requires lines != [] && |Strip(lines[0])| < 8 && FirstLongAt(lines[1..], i)
    ensures FirstLongAt(lines, i + 1) && lines[i + 1] == lines[1..][i]
  {
    forall j | 0 < j < i + 1 ensures |Strip(lines[j])| < 8 {
      assert lines[j] == lines[1..][j - 1];
    }
  }

  /** The title-hint loop of `extract_from_jsx`: stop at the first long stripped line. */
  method JsxTitleHint(text: string) returns (title: Option<string>)
    ensures title == FirstLongLine(SplitOn(text, '\n'))
  {
    var lines := SplitOn(text, '\n');
    title := None;
    var i := 0;
    assert lines[0..] == lines;
    while i < |lines|
      invariant 0 <= i <= |lines|
      invariant FirstLongLine(lines[i..]) == FirstLongLine(lines)
    {
      assert lines[i..][0] == lines[i] && lines[i..][1..] == lines[i + 1..];
      var line := Strip(lines[i]);
      if |line| >= 8 {
        title := Some(line);
        return;
      }
      i := i + 1;
    }
    assert lines[i..] == [];
  }

  /**
   * The document `extract_from_jsx` produces. The import/export, comment, expression
   * and tag substitutions and the fragment replacements are the parameter `markup`;
   * the ids are read from the source before any of them.
   */
  function JsxDoc(source: string, markup: string -> string): ExtractedDoc {
    var text := Normalize(markup(source));
    ExtractedDoc(text, FirstAttr(source, "courseId", 0), FirstAttr(source, "moduleId", 0),
      FirstLongLine(SplitOn(text, '\n')))
  }

  method ExtractFromJsx(source: string, markup: string -> string) returns (doc: ExtractedDoc)
    ensures doc == JsxDoc(source, markup)
    ensures NormalForm(doc.text)
    ensures doc.courseId == FirstAttr(source, "courseId", 0) && doc.moduleId == FirstAttr(source, "moduleId", 0)
    ensures doc.titleHint.Some? ==> |doc.titleHint.value| >= 8
  {
    var courseId := FirstAttr(source, "courseId", 0);
    var moduleId := FirstAttr(source, "moduleId", 0);
    var text := Normalize(markup(source));
    var title := JsxTitleHint(text);
    doc := ExtractedDoc(text, courseId, moduleId, title);
    if title.Some? {
      var k :| FirstLongAt(SplitOn(text, '\n'), k) && title.value == Strip(SplitOn(text, '\n')[k]);
    }
  }

  // ---------------------------------------------------------------------------
  // extract_from_markdown

  /** `line.startswith("#")`. */
  predicate IsHeading(line: string) {
    StartsWith(line, "#")
  }

  /** `s.lstrip("#")`. */
  function LStripHashes(s: string): (r: string)
    ensures |r| <= |s| && r == s[|s| - |r|..]
    ensures r == [] || r[0] != '#'
  {
    if s != [] && s[0] == '#' then LStripHashes(s[1..]) else s
  }

  /** `line.lstrip("#").strip()`. */
  function HeadingText(line: string): string {
    Strip(LStripHashes(line))
  }

  /** Line `i` is the first heading with non-empty text. */
  predicate FirstTitledAt(lines: seq<string>, i: int) {
    && 0 <= i < |lines| && IsHeading(lines[i]) && HeadingText(lines[i]) != ""
    && forall j :: 0 <= j < i && IsHeading(lines[j]) ==> HeadingText(lines[j]) == ""
  }

  /**
   * The markdown loop from `cur` on: each heading line assigns its text, and a
   * non-empty text stops the loop. `cur` is what the loop has assigned so far.
   */
  function MarkdownTitle(lines: seq<string>, cur: Option<string>): (t: Option<string>)
    requires cur.None? || cur.value == ""
    ensures t.None? <==> cur.None? && forall l <- lines :: !IsHeading(l)
    ensures t.Some? && t.value != "" ==> exists i :: FirstTitledAt(lines, i) && HeadingText(lines[i]) == t.value
    ensures t == Some("") ==> forall l <- lines :: IsHeading(l) ==> HeadingText(l) == ""
  {
    if lines == [] then cur
    else
      assert forall l <- lines :: l == lines[0] || l in lines[1..];
      if IsHeading(lines[0]) && HeadingText(lines[0]) != "" then
        assert FirstTitledAt(lines, 0);
        Some(HeadingText(lines[0]))
      else
        var next := if IsHeading(lines[0]) then Some(HeadingText(lines[0])) else cur;
        var t := MarkdownTitle(lines[1..], next);
        assert t.Some? && t.value != "" ==> exists i :: FirstTitledAt(lines, i) && HeadingText(lines[i]) == t.value by {
          if t.Some? && t.value != "" {
            var i :| FirstTitledAt(lines[1..], i) && HeadingText(lines[1..][i]) == t.value;
            forall j | 0 < j < i + 1 && IsHeading(lines[j]) ensures HeadingText(lines[j]) == "" {
              assert lines[j] == lines[1..][j - 1];
            }
            assert FirstTitledAt(lines, i + 1);
          }
        }
        t
  }

  /**
   * One turn of the title loop at line `i`: a heading with non-empty text ends it with
   * that text, any other heading assigns its text, and other lines change nothing.
   */
  lemma MarkdownTitleStep(lines: seq<string>, i: int, cur: Option<string>)
    requires 0 <= i < |lines| && (cur.None? || cur.value == "")
    ensures IsHeading(lines[i]) && HeadingText(lines[i]) != "" ==>
      MarkdownTitle(lines[i..], cur) == Some(HeadingText(lines[i]))
    ensures !(IsHeading(lines[i]) && HeadingText(lines[i]) != "") ==>
      MarkdownTitle(lines[i..], cur) == MarkdownTitle(lines[i + 1..], if IsHeading(lines[i]) then Some(HeadingText(lines[i])) else cur)
  {
    assert lines[i..][0] == lines[i] && lines[i..][1..] == lines[i + 1..];
  }

  /** The title-hint loop of `extract_from_markdown`. */
  method MarkdownTitleHint(text: string) returns (title: Option<string>)
    ensures title == MarkdownTitle(SplitOn(text, '\n'), None)
  {
    var lines := SplitOn(text, '\n');
    ghost var goal := MarkdownTitle(lines, None);
    title := None;
    var i := 0;
    assert lines[0..] == lines;
    while i < |lines|
      invariant 0 <= i <= |lines|
      invariant title.None? || title.value == ""
      invariant MarkdownTitle(lines[i..], title) == goal
    {
      MarkdownTitleStep(lines, i, title);
      if IsHeading(lines[i]) {
        var heading := HeadingText(lines[i]);
        title := Some(heading);
        if heading != "" {
          return;
        }
      }
      i := i + 1;
    }
    assert lines[i..] == [];
  }

  function MarkdownDoc(source: string): ExtractedDoc {
    var text := Normalize(source);
    ExtractedDoc(text, None, None, MarkdownTitle(SplitOn(text, '\n'), None))
  }

  method ExtractFromMarkdown(source: string) returns (doc: ExtractedDoc)
    ensures doc == MarkdownDoc(source)
    ensures NormalForm(doc.text) && doc.courseId.None? && doc.moduleId.None?
  {
    var text := Normalize(source);
    var title := MarkdownTitleHint(text);
    doc := ExtractedDoc(text, None, None, title);
  }

  // ---------------------------------------------------------------------------
  // extract_file_text

  predicate IsMarkdownExt(ext: string) { ext == ".md" || ext == ".markdown" }

  predicate IsScriptExt(ext: string) { ext == ".jsx" || ext == ".tsx" || ext == ".js" || ext == ".ts" }

  /** The document `extract_file_text` produces for `path`, chosen by the lower-cased extension. */
  function FileDoc(path: string, content: string, markup: string -> string): ExtractedDoc {
    var ext := Lower(Extension(path));
    if IsMarkdownExt(ext) then MarkdownDoc(content)
    else if IsScriptExt(ext) then JsxDoc(content, markup)
    else ExtractedDoc(Normalize(content), None, None, None)
  }

  method ExtractFileText(path: string, content: string, markup: string -> string) returns (doc: ExtractedDoc)
    ensures doc == FileDoc(path, content, markup)
    ensures NormalForm(doc.text)
    ensures !IsScriptExt(Lower(Extension(path))) ==> doc.courseId.None? && doc.moduleId.None?
    ensures !IsMarkdownExt(Lower(Extension(path))) && !IsScriptExt(Lower(Extension(path))) ==> doc.titleHint.None?
  {
    var ext := Lower(Extension(path));
    if IsMarkdownExt(ext) {
      doc := ExtractFromMarkdown(content);
    } else if IsScriptExt(ext) {
      doc := ExtractFromJsx(content, markup);
    } else {
      doc := ExtractedDoc(Normalize(content), None, None, None);
    }
  }
}
