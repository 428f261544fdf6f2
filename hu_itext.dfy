/** The input line editor (hu_itext_t) as a value: one text line, a left
    margin `lm` protecting a prefix from deletion, and `laston`. */
module HuIText {
  import opened HuText
  import opened HuErase

  /** Key codes of the game's keyboard layer (KEY_BACKSPACE, KEY_ENTER). */
  const KeyBackspace: int := 127
  const KeyEnter: int := 13

  /** An `unsigned char` key code. */
  type byte = x: int | 0 <= x < 256

  datatype EditorState = EditorState(line: LineState, lm: nat, laston: bool)

  /** The editor invariant: a well-formed line whose length never falls
      below the left margin. */
  predicate EditorWellFormed(e: EditorState) {
    WellFormed(e.line) && e.lm <= e.line.len
  }

  /** HUlib_initIText: margin at 0, marked visible, line initialised. */
  function InitEditor(x: int, y: int, fontHeight: int, sc: int): (r: EditorState)
    ensures EditorWellFormed(r) && r.lm == 0 && r.laston && Text(r.line) == []
  {
    EditorState(InitLine(x, y, fontHeight, sc), 0, true)
  }

  /** HUlib_delCharFromIText: deletes only above the left margin. */
  function DelCharAboveMargin(e: EditorState): (r: EditorState)
    requires EditorWellFormed(e)
    ensures EditorWellFormed(r) && r.lm == e.lm && r.laston == e.laston
    ensures e.line.len == e.lm ==> r == e
    ensures e.line.len > e.lm ==> r.line.len == e.line.len - 1 && Text(r.line) == Text(e.line)[..r.line.len]
  {
    if e.line.len != e.lm then e.(line := DelChar(e.line).1) else e
  }

  /** HUlib_eraseLineFromIText: delete until the length is the margin. */
  function EraseToMargin(e: EditorState): (r: EditorState)
    requires EditorWellFormed(e)
    ensures EditorWellFormed(r)
    decreases e.line.len - e.lm
  {
    if e.lm == e.line.len then e else EraseToMargin(e.(line := DelChar(e.line).1))
  }

  /** Erasing the line ends exactly at the margin, keeping the first `lm`
      characters (the prefix) untouched. */
  lemma {:induction false} EraseToMarginKeepsPrefix(e: EditorState)
    requires EditorWellFormed(e)
    ensures EraseToMargin(e).line.len == e.lm && EraseToMargin(e).lm == e.lm
    ensures Text(EraseToMargin(e).line) == Text(e.line)[..e.lm]
    ensures SamePlace(EraseToMargin(e).line, e.line)
    decreases e.line.len - e.lm
  {
    if e.lm != e.line.len {
      var d := e.(line := DelChar(e.line).1);
      EraseToMarginKeepsPrefix(d);
      assert Text(d.line) == Text(e.line)[..e.line.len - 1];
    }
  }

  /** HUlib_resetIText: margin back to 0 and the line cleared, prefix and all. */
  function Reset(e: EditorState): (r: EditorState)
    requires EditorWellFormed(e)
    ensures EditorWellFormed(r) && r.lm == 0 && Text(r.line) == [] && r.laston == e.laston
  {
    EditorState(Cleared(e.line), 0, e.laston)
  }

  /** HUlib_addPrefixToIText: append the string, then protect everything
      now on the line. */
  function AddPrefix(e: EditorState, str: seq<char>): (r: EditorState)
    requires EditorWellFormed(e)
    ensures EditorWellFormed(r) && r.lm == r.line.len && r.laston == e.laston
  {
    var l := AppendAll(e.line, CStr(str));
    EditorState(l, l.len, e.laston)
  }

  /** After a prefix is added the line holds the old text and the prefix,
      cut at MaxLineLength, and all of it is protected. */
  lemma AddPrefixProtects(e: EditorState, str: seq<char>)
    requires EditorWellFormed(e)
    ensures Text(AddPrefix(e, str).line) == FitLine(Text(e.line) + CStr(str))
    ensures |Text(AddPrefix(e, str).line)| == AddPrefix(e, str).lm
    ensures DelCharAboveMargin(AddPrefix(e, str)) == AddPrefix(e, str)
  {
    AppendAllText(e.line, CStr(str));
  }

  /** C's toupper in the "C" locale. */
  function ToUpper(c: byte): (r: byte)
    ensures 'a' as int <= c <= 'z' as int ==> r == c - ('a' as int - 'A' as int)
    ensures !('a' as int <= c <= 'z' as int) ==> r == c
  {
    if 'a' as int <= c <= 'z' as int then c - 32 else c
  }

  /** The keys the editor prints: ' ' through '_' after upper-casing. */
  predicate Printable(c: byte)
    ensures Printable(c) ==> c != KeyBackspace && c != KeyEnter
  {
    ' ' as int <= c <= '_' as int
  }

  /** HUlib_keyInIText: whether the key was eaten, and the editor after
      it. A printable key (after upper-casing) is eaten and appended when
      there is room, and eaten without effect when the line is full;
      backspace is eaten and deletes above the margin; enter is eaten and
      changes nothing; every other key is refused and changes nothing. */
  function KeyIn(e: EditorState, ch: byte): (r: (bool, EditorState))
    requires EditorWellFormed(e)
    ensures EditorWellFormed(r.1) && r.1.lm == e.lm && r.1.laston == e.laston
    ensures r.0 <==> Printable(ToUpper(ch)) || ToUpper(ch) == KeyBackspace || ToUpper(ch) == KeyEnter
    ensures Printable(ToUpper(ch)) ==>
      Text(r.1.line) ==
        (if e.line.len < MaxLineLength then Text(e.line) + [ToUpper(ch) as char] else Text(e.line))
    ensures Printable(ToUpper(ch)) && e.line.len == MaxLineLength ==> r.1 == e
    ensures ToUpper(ch) == KeyBackspace ==> r.1 == DelCharAboveMargin(e)
    ensures ToUpper(ch) == KeyEnter || !r.0 ==> r.1 == e
  {
    var c := ToUpper(ch);
    if Printable(c) then (true, e.(line := AddChar(e.line, c as char).1))
    else if c == KeyBackspace then (true, DelCharAboveMargin(e))
    else if c != KeyEnter then (false, e)
    else (true, e)
  }

  /** Lower-case letters are eaten and stored as their capitals. */
  lemma LowerCaseStoredUpper(e: EditorState, ch: byte)
    requires EditorWellFormed(e) && 'a' as int <= ch <= 'z' as int && e.line.len < MaxLineLength
    ensures KeyIn(e, ch).0
    ensures Text(KeyIn(e, ch).1.line) == Text(e.line) + [(ch - 32) as char]
  {
  }

  /** HUlib_eraseIText: force a full erase when the editor has just been
      switched off, erase the line, and remember the visibility. */
  function EraseEditor(e: EditorState, on: bool, v: View): (r: (EditorState, seq<Span>))
    requires EditorWellFormed(e)
    ensures EditorWellFormed(r.0) && r.0.lm == e.lm && r.0.laston == on
    ensures Text(r.0.line) == Text(e.line)
    ensures r.0.line.needsupdate ==
      (if e.laston && !on then MaxUpdate - 1 else Decay(e.line.needsupdate))
    ensures e.laston && !on && !v.automapActive && v.windowX != 0 ==>
      r.1 == RowsSpans(v, e.line.y, e.line.y + EraseHeight(e.line.fontHeight, v))
  {
    var l := if e.laston && !on then e.line.(needsupdate := MaxUpdate) else e.line;
    (e.(line := Decayed(l), laston := on), EraseCalls(l, v))
  }
}
