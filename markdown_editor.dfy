/**
 * The text transforms of the Markdown editor: each toolbar button and the
 * Tab and Enter keys turn the current text and selection into new text and
 * a new caret position. The DOM work around them (focus, deferred caret
 * restore) is not modelled; the caret position is returned instead.
 */
module MarkdownEditor {
  import opened Wrappers
  import opened JsString

  /** The text handed to `onChange` and the caret position set afterwards. */
  datatype Edit = Edit(text: string, cursor: int)

  /** A textarea's selection: `0 <= selectionStart <= selectionEnd <= value.length`. */
  predicate ValidSelection(value: string, start: int, end: int) {
    0 <= start <= end <= |value|
  }

  /** `insertMarkdown(before, after)`: wraps the selection in `before` and `after`. */
  function InsertMarkdown(value: string, start: int, end: int, before: string, after: string): (e: Edit)
    ensures ValidSelection(value, start, end) ==>
      && |e.text| == |value| + |before| + |after|
      && e.cursor == end + |before| == |e.text| - |after| - (|value| - end)
  {
    var selectedText := Substring(value, start, end);
    var newText := Substring(value, 0, start) + before + selectedText + after
                   + Substring(value, end, |value|);
    Edit(newText, start + |before| + |selectedText|)
  }

  /**
   * Wrapping keeps the text before the selection, the selected text and the
   * text after it, adds exactly `before` and `after` around the selection,
   * and leaves the caret after the selected text, just before `after`.
   */
  lemma InsertMarkdownSplices(value: string, start: int, end: int, before: string, after: string)
    requires ValidSelection(value, start, end)
    ensures var e := InsertMarkdown(value, start, end, before, after);
      && |e.text| == |value| + |before| + |after|
      && e.cursor == start + |before| + (end - start)
      && 0 <= e.cursor <= |e.text| - |after|
      && e.text[..start] == value[..start]
      && e.text[start..start + |before|] == before
      && e.text[start + |before|..e.cursor] == value[start..end]
      && e.text[e.cursor..e.cursor + |after|] == after
      && e.text[e.cursor + |after|..] == value[end..]
  {
    var e := InsertMarkdown(value, start, end, before, after);
    assert e.text == value[..start] + before + value[start..end] + after + value[end..];
    Wrapped(value[..start], before, value[start..end], after, value[end..]);
  }

  /** The five parts of `a + m1 + s + m2 + b` sit at the offsets their lengths give. */
  lemma Wrapped(a: string, m1: string, s: string, m2: string, b: string)
    ensures var t := a + m1 + s + m2 + b; var c := |a| + |m1| + |s|;
      && |t| == c + |m2| + |b|
      && t[..|a|] == a && t[|a|..|a| + |m1|] == m1 && t[|a| + |m1|..c] == s
      && t[c..c + |m2|] == m2 && t[c + |m2|..] == b
  {
  }

  /** The three parts of `p + m + q` sit at the offsets their lengths give. */
  lemma Spliced(p: string, m: string, q: string)
    ensures |p + m + q| == |p| + |m| + |q|
    ensures (p + m + q)[..|p|] == p
    ensures (p + m + q)[|p|..|p| + |m|] == m
    ensures (p + m + q)[..|p| + |m|] == p + m
    ensures (p + m + q)[|p| + |m|..] == q
  {
  }

  /** The toolbar buttons. */
  datatype Button = Bold | Italic | Code | Heading1 | Heading2 | List | Quote | Link

  /** The two arguments a button passes to `insertMarkdown`. */
  datatype MarkerPair = MarkerPair(before: string, after: string)

  /** The `before` and `after` text each button passes to `insertMarkdown`. */
  function Markers(b: Button): (m: MarkerPair)
    ensures m.before != []
    ensures m.after == [] <==> b == Heading1 || b == Heading2 || b == List || b == Quote
  {
    match b
    case Bold => MarkerPair("**", "**")
    case Italic => MarkerPair("*", "*")
    case Code => MarkerPair("`", "`")
    case Heading1 => MarkerPair("# ", "")
    case Heading2 => MarkerPair("## ", "")
    case List => MarkerPair("- ", "")
    case Quote => MarkerPair("> ", "")
    case Link => MarkerPair("[", "](url)")
  }

  /** A click on a toolbar button. */
  function Press(value: string, start: int, end: int, b: Button): (e: Edit)
    ensures ValidSelection(value, start, end) ==> |e.text| == |value| + |Markers(b).before| + |Markers(b).after|
    ensures ValidSelection(value, start, end) ==> e.cursor == end + |Markers(b).before|
  {
    InsertMarkdown(value, start, end, Markers(b).before, Markers(b).after)
  }

  /** Wrapping with an empty `after` inserts `before` at the selection start. */
  lemma PrefixOnly(value: string, start: int, end: int, before: string)
    requires ValidSelection(value, start, end)
    ensures var e := InsertMarkdown(value, start, end, before, "");
      && e.text == value[..start] + before + value[start..]
      && e.cursor == end + |before|
  {
    assert value[start..end] + value[end..] == value[start..];
    assert value[..start] + before + value[start..end] + "" + value[end..]
      == value[..start] + before + (value[start..end] + value[end..]);
  }

  /**
   * The heading, list and quote buttons only insert their prefix at the start
   * of the selection: the text grows by exactly the prefix and the caret
   * ends after the selected text.
   */
  lemma LinePrefixButtonsInsert(value: string, start: int, end: int, b: Button)
    requires ValidSelection(value, start, end)
    requires b == Heading1 || b == Heading2 || b == List || b == Quote
    ensures var e := Press(value, start, end, b);
      && Markers(b).after == ""
      && e.text == value[..start] + Markers(b).before + value[start..]
      && |e.text| == |value| + |Markers(b).before|
      && e.cursor == end + |Markers(b).before|
  {
    var before := Markers(b).before;
    assert Markers(b).after == "";
    PrefixOnly(value, start, end, before);
  }

  /** Tab: the selection is replaced by one tab character and the caret goes after it. */
  function TabKey(value: string, start: int, end: int): (e: Edit)
    ensures ValidSelection(value, start, end) ==>
      && |e.text| == |value| - (end - start) + 1
      && e.cursor == start + 1
      && e.text[start] == '\t'
  {
    Edit(Substring(value, 0, start) + "\t" + Substring(value, end, |value|), start + 1)
  }

  /** Tab keeps the text on either side of the selection and puts the caret right after the tab. */
  lemma TabReplacesSelection(value: string, start: int, end: int)
    requires ValidSelection(value, start, end)
    ensures var e := TabKey(value, start, end);
      && |e.text| == |value| - (end - start) + 1
      && e.text[..start] == value[..start]
      && e.text[start] == '\t'
      && e.text[start + 1..] == value[end..]
      && e.cursor == start + 1 <= |e.text|
  {
    var e := TabKey(value, start, end);
    assert e.text == value[..start] + "\t" + value[end..];
  }

  /** Tab is the same as deleting the selection and then wrapping the empty selection with a tab. */
  lemma TabIsDeleteThenInsert(value: string, start: int, end: int)
    requires ValidSelection(value, start, end)
    ensures TabKey(value, start, end) == InsertMarkdown(value[..start] + value[end..], start, start, "\t", "")
  {
    var rest := value[..start] + value[end..];
    assert rest[..start] == value[..start];
    assert rest[start..] == value[end..];
  }

  /** The white space at the start of `s`. */
  function LeadingWhitespace(s: string): (w: string)
    ensures w <= s && AllWhitespace(w)
    ensures |w| == |s| || !IsWhitespace(s[|w|])
  {
    var rest := TrimStart(s);
    assert rest == [] || rest[0] == s[|s| - |rest|];
    s[..|s| - |rest|]
  }

  /**
   * `line.match(/^(\s*)-\s/)`: group 1 when the line opens with white space,
   * a dash and one more white-space character. `\s*` is greedy and the dash
   * is not white space, so group 1 is all the leading white space.
   */
  function BulletIndent(line: string): (indent: Option<string>)
    ensures indent.Some? ==> IsBulletPrefix(line, indent.value)
  {
    var w := LeadingWhitespace(line);
    if |line| >= |w| + 2 && line[|w|] == '-' && IsWhitespace(line[|w| + 1]) then Some(w) else None
  }

  /** The regular expression `^(\s*)-\s` matches `line` with `indent` as group 1. */
  predicate IsBulletPrefix(line: string, indent: string) {
    && |line| >= |indent| + 2
    && line[..|indent|] == indent
    && AllWhitespace(indent)
    && line[|indent|] == '-'
    && IsWhitespace(line[|indent| + 1])
  }

  /** `BulletIndent` finds a match exactly when the pattern matches, and then the only possible group. */
  lemma BulletIndentMatchesPattern(line: string, indent: string)
    ensures BulletIndent(line) == Some(indent) <==> IsBulletPrefix(line, indent)
  {
    var w := LeadingWhitespace(line);
    if IsBulletPrefix(line, indent) {
      assert !IsWhitespace(line[|indent|]);
      assert forall i :: 0 <= i < |indent| ==> IsWhitespace(line[i]) by {
        forall i | 0 <= i < |indent| ensures IsWhitespace(line[i]) {
          assert line[i] == line[..|indent|][i];
        }
      }
      assert forall i :: 0 <= i < |w| ==> IsWhitespace(line[i]);
      assert |w| == |indent|;
    }
  }

  /** Where the caret's line starts: one past the last newline before the caret. */
  function LineStart(value: string, start: int): (ls: int)
    ensures 0 <= ls <= |value|
    ensures ls > 0 ==> value[ls - 1] == '\n'
    ensures forall k :: ls <= k < start && k < |value| ==> value[k] != '\n'
  {
    LastIndexOf(value, '\n', start - 1) + 1
  }

  /** The text from the start of the caret's line up to the caret. */
  function LineBeforeCaret(value: string, start: int): (line: string)
    ensures 0 < start <= |value| ==> line == value[LineStart(value, start)..start] && '\n' !in line
  {
    Substring(value, LineStart(value, start), start)
  }

  /**
   * Enter: on a bullet line, a newline, the same indent and `- ` are inserted
   * at the caret (any selected text stays) and the caret goes after them;
   * None where the handler leaves the key to the browser.
   */
  function EnterKey(value: string, start: int): (r: Option<Edit>)
    ensures r.Some? ==>
      var line := LineBeforeCaret(value, start);
      && IsBulletPrefix(line, LeadingWhitespace(line))
      && r.value == ContinueBullet(value, start, LeadingWhitespace(line))
  {
    var line := LineBeforeCaret(value, start);
    match BulletIndent(line)
    case None => None
    case Some(indent) =>
      BulletIndentMatchesPattern(line, indent);
      Some(ContinueBullet(value, start, indent))
  }

  /** The edit Enter makes on a bullet line with the given indent. */
  function ContinueBullet(value: string, start: int, indent: string): (e: Edit)
    ensures 0 <= start <= |value| ==>
      && |e.text| == |value| + |indent| + 3
      && e.cursor == start + |indent| + 3
      && e.text[..start] == value[..start]
      && e.text[start] == '\n'
  {
    Edit(Substring(value, 0, start) + "\n" + indent + "- " + Substring(value, start, |value|),
         start + |indent| + 3)
  }

  /**
   * Away from the very start of a text that begins with a newline, the line
   * text read is the current line: it starts at the text's start or just
   * after a newline and holds no newline.
   */
  lemma LineBeforeCaretIsCurrentLine(value: string, start: int)
    requires 0 <= start <= |value|
    requires start > 0 || value == [] || value[0] != '\n'
    ensures var ls := LineStart(value, start);
      && 0 <= ls <= start
      && (ls == 0 || value[ls - 1] == '\n')
      && LineBeforeCaret(value, start) == value[ls..start]
      && '\n' !in value[ls..start]
  {
    var ls := LineStart(value, start);
    forall i | 0 <= i < start - ls ensures value[ls..start][i] != '\n' {
      assert value[ls..start][i] == value[ls + i];
    }
  }

  /**
   * With the caret at position 0 of a text that begins with a newline,
   * `lastIndexOf("\n", -1)` still finds that newline, so the line text read
   * is that newline itself; it is never a bullet and Enter is left alone.
   */
  lemma CaretAtStartBeforeNewline(value: string)
    requires value != [] && value[0] == '\n'
    ensures LineStart(value, 0) == 1
    ensures LineBeforeCaret(value, 0) == "\n"
    ensures EnterKey(value, 0) == None
  {
  }

  /** Inserting `ins` at `start` keeps both sides of the text around it. */
  lemma ContinueBulletSplices(value: string, start: int, indent: string)
    requires 0 <= start <= |value|
    ensures var e := ContinueBullet(value, start, indent);
      && e.text == value[..start] + "\n" + indent + "- " + value[start..]
      && |e.text| == |value| + |indent| + 3
      && e.cursor == start + |indent| + 3 <= |e.text|
      && e.text[..e.cursor] == value[..start] + "\n" + indent + "- "
      && e.text[e.cursor..] == value[start..]
  {
    var e := ContinueBullet(value, start, indent);
    var ins := "\n" + indent + "- ";
    assert e.text == value[..start] + ins + value[start..];
    Spliced(value[..start], ins, value[start..]);
    assert value[..start] + ins == value[..start] + "\n" + indent + "- ";
  }

  /** Enter on a bullet line inserts a newline, the indent and `- ` at the caret and moves the caret after them. */
  lemma EnterContinuesBullet(value: string, start: int, end: int, indent: string)
    requires ValidSelection(value, start, end)
    requires IsBulletPrefix(LineBeforeCaret(value, start), indent)
    ensures EnterKey(value, start).Some?
    ensures var e := EnterKey(value, start).value;
      && e.text == value[..start] + "\n" + indent + "- " + value[start..]
      && |e.text| == |value| + |indent| + 3
      && e.cursor == start + |indent| + 3 <= |e.text|
      && e.text[..e.cursor] == value[..start] + "\n" + indent + "- "
      && e.text[e.cursor..] == value[start..]
      && AllWhitespace(indent)
  {
    var line := LineBeforeCaret(value, start);
    BulletIndentMatchesPattern(line, indent);
    assert EnterKey(value, start) == Some(ContinueBullet(value, start, indent));
    ContinueBulletSplices(value, start, indent);
  }

  /** Enter on a line that does not open with a bullet leaves the text alone. */
  lemma EnterOnPlainLine(value: string, start: int)
    requires forall indent :: !IsBulletPrefix(LineBeforeCaret(value, start), indent)
    ensures EnterKey(value, start) == None
  {
    var line := LineBeforeCaret(value, start);
    if BulletIndent(line).Some? {
      BulletIndentMatchesPattern(line, BulletIndent(line).value);
      assert false;
    }
  }
}
