/** The HUD text line (hu_textline_t) as a value: a fixed buffer of
    MaxLineLength + 1 characters, NUL-terminated at `len`, with a redraw
    counter. The functions here are the specifications that the TextLine
    class in HuLib is proved against. */
module HuText {

  /** HU_MAXLINELENGTH: the most characters a line can hold. */
  const MaxLineLength: nat := 80

  /** The largest value of the redraw counter (set by every edit). */
  const MaxUpdate: int := 4

  /** A snapshot of one text line: screen position, start character of the
      font, the font's glyph height, the raw buffer `l`, the length and
      the redraw counter `needsupdate`. */
  datatype LineState = LineState(
    x: int,
    y: int,
    sc: int,
    fontHeight: int,
    buf: seq<char>,
    len: nat,
    needsupdate: int)

  /** The line invariant: the buffer has room for MaxLineLength characters
      and the terminator, the text fits, the buffer is NUL-terminated at
      `len`, and the counter lies in 0..4. */
  predicate WellFormed(s: LineState) {
    |s.buf| == MaxLineLength + 1 &&
    s.len <= MaxLineLength &&
    s.buf[s.len] == '\0' &&
    0 <= s.needsupdate <= MaxUpdate
  }

  /** The characters of the line: the buffer up to its length. */
  function Text(s: LineState): seq<char>
    requires s.len <= |s.buf|
  {
    s.buf[..s.len]
  }

  /** Position, font and start character: what editing never touches. */
  predicate SamePlace(s: LineState, t: LineState) {
    s.x == t.x && s.y == t.y && s.sc == t.sc && s.fontHeight == t.fontHeight
  }

  /** The longest prefix of `u` that fits in a line. */
  function FitLine(u: seq<char>): seq<char> {
    if |u| <= MaxLineLength then u else u[..MaxLineLength]
  }

  /** HUlib_clearTextLine: empty text, terminator at slot 0, and the
      counter set to `true` (1), not to its maximum. */
  function Cleared(s: LineState): (r: LineState)
    requires |s.buf| == MaxLineLength + 1
    ensures WellFormed(r) && SamePlace(r, s)
    ensures Text(r) == [] && r.needsupdate == 1
    ensures r.buf[1..] == s.buf[1..]
  {
    s.(len := 0, buf := s.buf[0 := '\0'], needsupdate := 1)
  }

  /** HUlib_initTextLine on zero-filled storage: records position, font
      and start character, then clears the line. */
  function InitLine(x: int, y: int, fontHeight: int, sc: int): (r: LineState)
    ensures WellFormed(r) && Text(r) == [] && r.needsupdate == 1
    ensures r.x == x && r.y == y && r.fontHeight == fontHeight && r.sc == sc
  {
    Cleared(LineState(x, y, sc, fontHeight, seq(MaxLineLength + 1, _ => '\0'), 0, 0))
  }

  /** HUlib_addCharToTextLine: refuses a full line and leaves it as it
      was; otherwise stores `ch` at the old length, re-terminates, and
      raises the counter to 4. */
  function AddChar(s: LineState, ch: char): (r: (bool, LineState))
    requires WellFormed(s)
    ensures WellFormed(r.1) && SamePlace(r.1, s)
    ensures r.0 <==> s.len < MaxLineLength
    ensures !r.0 ==> r.1 == s
    ensures r.0 ==> Text(r.1) == Text(s) + [ch] && r.1.needsupdate == MaxUpdate
    ensures r.0 ==> r.1.buf[s.len + 2..] == s.buf[s.len + 2..]
  {
    if s.len == MaxLineLength then (false, s)
    else
      (true, s.(buf := s.buf[s.len := ch][s.len + 1 := '\0'],
                len := s.len + 1,
                needsupdate := MaxUpdate))
  }

  /** HUlib_delCharFromTextLine: refuses an empty line and leaves it as
      it was; otherwise drops the last character, zeroing its slot, and
      raises the counter to 4. */
  function DelChar(s: LineState): (r: (bool, LineState))
    requires WellFormed(s)
    ensures WellFormed(r.1) && SamePlace(r.1, s)
    ensures r.0 <==> s.len > 0
    ensures !r.0 ==> r.1 == s
    ensures r.0 ==> Text(r.1) + [s.buf[s.len - 1]] == Text(s) && r.1.needsupdate == MaxUpdate
    ensures r.0 ==> r.1.buf[s.len - 1] == '\0' && r.1.buf[s.len..] == s.buf[s.len..]
  {
    if s.len == 0 then (false, s)
    else
      (true, s.(len := s.len - 1,
                buf := s.buf[s.len - 1 := '\0'],
                needsupdate := MaxUpdate))
  }

  /** Appending every character of `t` in turn, ignoring refusals, as the
      message and prefix loops do. */
  function AppendAll(s: LineState, t: seq<char>): (r: LineState)
    requires WellFormed(s)
    ensures WellFormed(r) && SamePlace(r, s)
    decreases |t|
  {
    if t == [] then s else AddChar(AppendAll(s, t[..|t| - 1]), t[|t| - 1]).1
  }

  /** Deleting a character just appended gives back the text before it. */
  lemma AddThenDelete(s: LineState, ch: char)
    requires WellFormed(s) && s.len < MaxLineLength
    ensures DelChar(AddChar(s, ch).1).0
    ensures Text(DelChar(AddChar(s, ch).1).1) == Text(s)
  {
    var t := AddChar(s, ch).1;
    assert t.buf[t.len - 1] == ch;
    assert Text(t) == Text(s) + [ch];
  }

  /** Appending a string keeps exactly the part of the old text plus the
      string that fits; everything past MaxLineLength is dropped. */
  lemma {:induction false} AppendAllText(s: LineState, t: seq<char>)
    requires WellFormed(s)
    ensures Text(AppendAll(s, t)) == FitLine(Text(s) + t)
    decreases |t|
  {
    if t != [] {
      var init, c := t[..|t| - 1], t[|t| - 1];
      assert t == init + [c];
      AppendAllText(s, init);
      var p := AppendAll(s, init);
      var u := Text(s) + init;
      assert Text(s) + t == u + [c];
      if p.len < MaxLineLength {
        assert |u| < MaxLineLength;
      } else {
        assert |u| >= MaxLineLength;
        assert (u + [c])[..MaxLineLength] == u[..MaxLineLength];
      }
    }
  }

  /** Appending two strings in turn is appending their concatenation. */
  lemma {:induction false} AppendAllConcat(s: LineState, a: seq<char>, b: seq<char>)
    requires WellFormed(s)
    ensures AppendAll(AppendAll(s, a), b) == AppendAll(s, a + b)
    decreases |b|
  {
    if b == [] {
      assert a + b == a;
    } else {
      var init := b[..|b| - 1];
      AppendAllConcat(s, a, init);
      assert (a + b)[..|a + b| - 1] == a + init;
      assert (a + b)[|a + b| - 1] == b[|b| - 1];
    }
  }

  /** Once an append has succeeded the counter is at its maximum. */
  lemma {:induction false} AppendAllMarks(s: LineState, t: seq<char>)
    requires WellFormed(s) && s.len < MaxLineLength && t != []
    ensures AppendAll(s, t).needsupdate == MaxUpdate
    decreases |t|
  {
    var init := t[..|t| - 1];
    if init != [] {
      AppendAllMarks(s, init);
    }
  }

  /** Appending never lowers a counter that is already at its maximum:
      a refused character leaves the line as it was. */
  lemma {:induction false} AppendAllKeepsMarked(s: LineState, t: seq<char>)
    requires WellFormed(s) && s.needsupdate == MaxUpdate
    ensures AppendAll(s, t).needsupdate == MaxUpdate
    decreases |t|
  {
    if t != [] {
      AppendAllKeepsMarked(s, t[..|t| - 1]);
    }
  }

  /** Clearing a line and appending a string that fits yields that string
      exactly (the clear-then-append round trip). */
  lemma ClearThenAppend(s: LineState, t: seq<char>)
    requires |s.buf| == MaxLineLength + 1 && |t| <= MaxLineLength
    ensures Text(AppendAll(Cleared(s), t)) == t
  {
    AppendAllText(Cleared(s), t);
    assert [] + t == t;
  }

  /** Filling an empty line to capacity succeeds, and one more character
      is refused, leaving the length at MaxLineLength. */
  lemma FillThenOverflow(s: LineState, t: seq<char>, ch: char)
    requires WellFormed(s) && Text(s) == [] && |t| == MaxLineLength
    ensures Text(AppendAll(s, t)) == t
    ensures !AddChar(AppendAll(s, t), ch).0
    ensures AddChar(AppendAll(s, t), ch).1.len == MaxLineLength
  {
    AppendAllText(s, t);
    assert Text(s) + t == t;
  }

  /** The length of a NUL-terminated C string held in `p` (all of `p` when
      it holds no NUL). */
  function StrLen(p: seq<char>): (n: nat)
    ensures n <= |p| && '\0' !in p[..n]
    ensures n < |p| ==> p[n] == '\0'
  {
    if p == [] || p[0] == '\0' then 0
    else
      var m := StrLen(p[1..]);
      assert p[..m + 1] == [p[0]] + p[1..][..m];
      m + 1
  }

  /** A string with no NUL in it is read to its end. */
  lemma StrLenWithoutNul(p: seq<char>)
    requires forall i :: 0 <= i < |p| ==> p[i] != '\0'
    ensures CStr(p) == p
  {
    assert p[..|p|] == p;
  }

  /** The characters a `while (*p)` loop visits. */
  function CStr(p: seq<char>): seq<char> {
    p[..StrLen(p)]
  }
}
