/** The scrolling message log (hu_stext_t) as a value: `h` text lines used
    as a ring, the cursor `cl` on the newest line, and `laston`, whether
    the log was visible at the previous erase. */
module HuSText {
  import opened HuText
  import opened HuErase

  /** HU_MAXLINES: the number of line slots a log has room for. */
  const MaxLines: nat := 4

  datatype Option<T> = None | Some(value: T)

  datatype LogState = LogState(lines: seq<LineState>, cl: nat, laston: bool)

  predicate LogWellFormed(g: LogState) {
    0 < |g.lines| <= MaxLines &&
    g.cl < |g.lines| &&
    forall i :: 0 <= i < |g.lines| ==> WellFormed(g.lines[i])
  }

  /** HUlib_initSText: `h` empty lines stacked upwards from `y`, one glyph
      height plus one pixel apart; the cursor on slot 0; marked visible. */
  function InitLog(x: int, y: int, h: nat, fontHeight: int, sc: int): (r: LogState)
    requires 0 < h <= MaxLines
    ensures LogWellFormed(r) && |r.lines| == h && r.cl == 0 && r.laston
    ensures forall i :: 0 <= i < h ==>
      Text(r.lines[i]) == [] && r.lines[i].needsupdate == 1 &&
      r.lines[i].x == x && r.lines[i].y == y - i * (fontHeight + 1) &&
      r.lines[i].fontHeight == fontHeight && r.lines[i].sc == sc
  {
    LogState(seq(h, i => InitLine(x, y - i * (fontHeight + 1), fontHeight, sc)), 0, true)
  }

  /** The cursor step of HUlib_addLineToSText: one on, wrapping at h. */
  function NextCursor(cl: nat, h: nat): (r: nat)
    requires cl < h
    ensures r < h && r == (cl + 1) % h
  {
    if cl + 1 == h then
      ModUnique(cl + 1, h, 1, 0);
      0
    else
      ModUnique(cl + 1, h, 0, cl + 1);
      cl + 1
  }

  /** n % h is the remainder of any division of n by h. */
  lemma ModUnique(n: int, h: int, q: int, r: int)
    requires h > 0 && 0 <= r < h && n == q * h + r
    ensures n % h == r
  {
    var q0, r0 := n / h, n % h;
    assert n == q0 * h + r0;
    if q < q0 {
      MulGap(q, q0, h);
    } else if q > q0 {
      MulGap(q0, q, h);
    }
  }

  /** HUlib_addLineToSText: the cursor moves on, the slot it lands on (the
      oldest message) is cleared, and every slot is marked for redraw. */
  function AddLine(g: LogState): (r: LogState)
    requires LogWellFormed(g)
    ensures LogWellFormed(r) && |r.lines| == |g.lines| && r.laston == g.laston
    ensures r.cl == NextCursor(g.cl, |g.lines|)
    ensures Text(r.lines[r.cl]) == []
    ensures r.lines[r.cl] == Cleared(g.lines[r.cl]).(needsupdate := MaxUpdate)
    ensures forall i :: 0 <= i < |g.lines| && i != r.cl ==> r.lines[i] == g.lines[i].(needsupdate := MaxUpdate)
    ensures forall i :: 0 <= i < |g.lines| ==> r.lines[i].needsupdate == MaxUpdate && SamePlace(r.lines[i], g.lines[i])
  {
    var c := NextCursor(g.cl, |g.lines|);
    var ls := seq(|g.lines|, i requires 0 <= i < |g.lines| =>
      if i == c then Cleared(g.lines[i]).(needsupdate := MaxUpdate)
      else g.lines[i].(needsupdate := MaxUpdate));
    LogState(ls, c, g.laston)
  }

  /** `k` calls of AddLine in a row. */
  function AddLines(g: LogState, k: nat): (r: LogState)
    requires LogWellFormed(g)
    ensures LogWellFormed(r) && |r.lines| == |g.lines|
  {
    if k == 0 then g else AddLine(AddLines(g, k - 1))
  }

  /** The cursor after k steps of NextCursor. */
  function CursorAfter(cl: nat, h: nat, k: nat): (r: nat)
    requires cl < h
    ensures r < h
  {
    if k == 0 then cl else NextCursor(CursorAfter(cl, h, k - 1), h)
  }

  /** k steps move the cursor k slots round the ring. */
  lemma {:induction false} CursorAfterMod(cl: nat, h: nat, k: nat)
    requires cl < h
    ensures CursorAfter(cl, h, k) == (cl + k) % h
  {
    if k == 0 {
      ModUnique(cl, h, 0, cl);
    } else {
      CursorAfterMod(cl, h, k - 1);
      ModStep(cl + k - 1, h);
    }
  }

  /** k new lines take the cursor k steps. */
  lemma {:induction false} AddLinesCursor(g: LogState, k: nat)
    requires LogWellFormed(g)
    ensures AddLines(g, k).cl == CursorAfter(g.cl, |g.lines|, k)
  {
    if k > 0 {
      AddLinesCursor(g, k - 1);
    }
  }

  /** After k new lines the cursor has moved k slots round the ring. */
  lemma CursorAfterLines(g: LogState, k: nat)
    requires LogWellFormed(g)
    ensures AddLines(g, k).cl == (g.cl + k) % |g.lines|
  {
    AddLinesCursor(g, k);
    CursorAfterMod(g.cl, |g.lines|, k);
  }

  lemma ModStep(n: nat, h: nat)
    requires h > 0
    ensures (n % h + 1) % h == (n + 1) % h
  {
    var q, r := n / h, n % h;
    assert n == q * h + r;
    if r + 1 < h {
      ModUnique(r + 1, h, 0, r + 1);
      ModUnique(n + 1, h, q, r + 1);
    } else {
      ModUnique(r + 1, h, 1, 0);
      assert n + 1 == (q + 1) * h + 0;
      ModUnique(n + 1, h, q + 1, 0);
    }
  }

  /** The ring wraps: h new lines bring the cursor back to where it was,
      and h + 1 new lines leave it where one new line does. */
  lemma CursorWraps(g: LogState)
    requires LogWellFormed(g)
    ensures AddLines(g, |g.lines|).cl == g.cl
    ensures AddLines(g, |g.lines| + 1).cl == AddLines(g, 1).cl
  {
    var h := |g.lines|;
    CursorAfterLines(g, h);
    CursorAfterLines(g, h + 1);
    CursorAfterLines(g, 1);
    ModUnique(g.cl + h, h, 1, g.cl);
    if g.cl + 1 < h {
      ModUnique(g.cl + 1, h, 0, g.cl + 1);
      ModUnique(g.cl + h + 1, h, 1, g.cl + 1);
    } else {
      ModUnique(g.cl + 1, h, 1, 0);
      ModUnique(g.cl + h + 1, h, 2, 0);
    }
  }

  /** The slot indices in drawing order, newest first, as HUlib_drawSText
      walks them: back from the cursor, wrapping round. */
  function NewestFirst(cl: nat, h: nat): (r: seq<nat>)
    requires cl < h
    ensures |r| == h
    ensures forall i :: 0 <= i < h ==> r[i] < h && r[i] == (cl - i) % h
  {
    var r := seq(h, i requires 0 <= i < h => if cl - i < 0 then cl - i + h else cl - i);
    assert forall i :: 0 <= i < h ==> r[i] == (cl - i) % h by {
      forall i | 0 <= i < h
        ensures r[i] == (cl - i) % h
      {
        if cl - i < 0 {
          ModUnique(cl - i, h, -1, cl - i + h);
        } else {
          ModUnique(cl - i, h, 0, cl - i);
        }
      }
    }
    r
  }

  /** The drawing order starts at the newest line and visits every slot
      exactly once. */
  lemma NewestFirstVisitsAll(cl: nat, h: nat)
    requires cl < h
    ensures NewestFirst(cl, h)[0] == cl
    ensures forall i, j :: 0 <= i < j < h ==> NewestFirst(cl, h)[i] != NewestFirst(cl, h)[j]
    ensures forall k :: 0 <= k < h ==> k in NewestFirst(cl, h)
  {
    var r := NewestFirst(cl, h);
    forall k | 0 <= k < h
      ensures k in r
    {
      var i := if k <= cl then cl - k else cl - k + h;
      assert r[i] == k;
    }
  }

  /** A new line takes the oldest slot (last in drawing order), and the
      older messages keep their order, each moved one place down. */
  lemma AddLineShiftsOrder(cl: nat, h: nat)
    requires cl < h
    ensures NextCursor(cl, h) == NewestFirst(cl, h)[h - 1]
    ensures NewestFirst(NextCursor(cl, h), h) == [NextCursor(cl, h)] + NewestFirst(cl, h)[..h - 1]
  {
    var c := NextCursor(cl, h);
    var a, b := NewestFirst(c, h), NewestFirst(cl, h);
    forall i | 1 <= i < h
      ensures a[i] == b[i - 1]
    {
      if cl + 1 == h {
        assert c == 0;
      }
    }
    assert a == [c] + b[..h - 1];
  }

  /** The characters a prefix argument contributes; a null prefix gives none. */
  function PrefixText(prefix: Option<seq<char>>): (r: seq<char>)
    ensures prefix.None? ==> r == []
    ensures prefix.Some? ==> r <= prefix.value && '\0' !in r
  {
    if prefix.Some? then CStr(prefix.value) else []
  }

  /** HUlib_addMessageToSText: a new line, then the prefix (if any) and
      the message appended one character at a time. The cursor moves as
      for AddLine, and no line but the newest changes its text. */
  function AddMessage(g: LogState, prefix: Option<seq<char>>, msg: seq<char>): (r: LogState)
    requires LogWellFormed(g)
    ensures LogWellFormed(r) && |r.lines| == |g.lines| && r.laston == g.laston
    ensures r.cl == NextCursor(g.cl, |g.lines|)
    ensures forall i :: 0 <= i < |g.lines| && i != r.cl ==> Text(r.lines[i]) == Text(g.lines[i])
  {
    var a := AddLine(g);
    var withPrefix := AppendAll(a.lines[a.cl], PrefixText(prefix));
    a.(lines := a.lines[a.cl := AppendAll(withPrefix, CStr(msg))])
  }

  /** The newest line holds the first MaxLineLength characters of prefix
      and message; the rest is silently dropped. */
  lemma AddMessageText(g: LogState, prefix: Option<seq<char>>, msg: seq<char>)
    requires LogWellFormed(g)
    ensures Text(AddMessage(g, prefix, msg).lines[NextCursor(g.cl, |g.lines|)])
            == FitLine(PrefixText(prefix) + CStr(msg))
  {
    var a := AddLine(g);
    var line := a.lines[a.cl];
    var t := PrefixText(prefix) + CStr(msg);
    AppendAllConcat(line, PrefixText(prefix), CStr(msg));
    AppendAllText(line, t);
    assert Text(line) + t == t;
  }

  /** After a message every slot is marked for a full redraw (the marking
      loop of the new line), and every line keeps its place. */
  lemma AddMessageMarks(g: LogState, prefix: Option<seq<char>>, msg: seq<char>)
    requires LogWellFormed(g)
    ensures forall i :: 0 <= i < |g.lines| ==>
      AddMessage(g, prefix, msg).lines[i].needsupdate == MaxUpdate &&
      SamePlace(AddMessage(g, prefix, msg).lines[i], g.lines[i])
  {
    var a := AddLine(g);
    AppendAllKeepsMarked(a.lines[a.cl], PrefixText(prefix));
    AppendAllKeepsMarked(AppendAll(a.lines[a.cl], PrefixText(prefix)), CStr(msg));
  }

  /** A prefix and a message without NULs that fit together ("Picked up "
      and "a clip.") are stored joined verbatim on the newest line. */
  lemma ShortMessageStored(g: LogState, prefix: seq<char>, msg: seq<char>)
    requires LogWellFormed(g)
    requires forall i :: 0 <= i < |prefix| ==> prefix[i] != '\0'
    requires forall i :: 0 <= i < |msg| ==> msg[i] != '\0'
    requires |prefix| + |msg| <= MaxLineLength
    ensures Text(AddMessage(g, Some(prefix), msg).lines[NextCursor(g.cl, |g.lines|)]) == prefix + msg
  {
    AddMessageText(g, Some(prefix), msg);
    StrLenWithoutNul(prefix);
    StrLenWithoutNul(msg);
  }

  /** The counter forced to its maximum when the log has just been hidden. */
  function Forced(s: LineState, force: bool): (r: LineState)
    requires WellFormed(s)
    ensures WellFormed(r) && r.needsupdate == (if force then MaxUpdate else s.needsupdate)
  {
    if force then s.(needsupdate := MaxUpdate) else s
  }

  /** The erase calls of HUlib_eraseSText for the first `n` slots, in
      slot order, each line possibly forced first. */
  function EraseSpans(ls: seq<LineState>, n: nat, force: bool, v: View): (r: seq<Span>)
    requires n <= |ls| && forall i :: 0 <= i < |ls| ==> WellFormed(ls[i])
    ensures v.automapActive || v.windowX == 0 ==> r == []
  {
    if n == 0 then [] else EraseSpans(ls, n - 1, force, v) + EraseCalls(Forced(ls[n - 1], force), v)
  }

  /** The full row-by-row calls for each of the first `n` slots, in slot
      order: what a forced erase must issue. */
  function FullRows(ls: seq<LineState>, n: nat, v: View): seq<Span>
    requires n <= |ls|
  {
    if n == 0 then []
    else FullRows(ls, n - 1, v) + RowsSpans(v, ls[n - 1].y, ls[n - 1].y + EraseHeight(ls[n - 1].fontHeight, v))
  }

  /** When the log has just been hidden, with the automap off and a reduced
      view, every slot's rows are erased in full, slot after slot, whatever
      the counters were. */
  lemma {:induction false} ForcedEraseSpans(ls: seq<LineState>, n: nat, v: View)
    requires n <= |ls| && forall i :: 0 <= i < |ls| ==> WellFormed(ls[i])
    requires !v.automapActive && v.windowX != 0
    ensures EraseSpans(ls, n, true, v) == FullRows(ls, n, v)
  {
    if n > 0 {
      ForcedEraseSpans(ls, n - 1, v);
      var s := ls[n - 1];
      assert EraseCalls(Forced(s, true), v) == RowsSpans(v, s.y, s.y + EraseHeight(s.fontHeight, v));
    }
  }

  /** HUlib_eraseSText: erase every line (forcing a full erase when the
      log has just been switched off) and remember the visibility. */
  function EraseLog(g: LogState, on: bool, v: View): (r: (LogState, seq<Span>))
    requires LogWellFormed(g)
    ensures LogWellFormed(r.0) && r.0.cl == g.cl && r.0.laston == on
    ensures |r.0.lines| == |g.lines|
    ensures forall i :: 0 <= i < |g.lines| ==>
      Text(r.0.lines[i]) == Text(g.lines[i]) && SamePlace(r.0.lines[i], g.lines[i]) &&
      r.0.lines[i].needsupdate ==
        (if g.laston && !on then MaxUpdate - 1 else Decay(g.lines[i].needsupdate))
    ensures v.automapActive || v.windowX == 0 ==> r.1 == []
    ensures g.laston && !on && !v.automapActive && v.windowX != 0 ==>
      r.1 == FullRows(g.lines, |g.lines|, v)
  {
    var force := g.laston && !on;
    var spans := EraseSpans(g.lines, |g.lines|, force, v);
    assert force && !v.automapActive && v.windowX != 0 ==> spans == FullRows(g.lines, |g.lines|, v) by {
      if force && !v.automapActive && v.windowX != 0 {
        ForcedEraseSpans(g.lines, |g.lines|, v);
      }
    }
    var ls := seq(|g.lines|, i requires 0 <= i < |g.lines| => Decayed(Forced(g.lines[i], force)));
    (LogState(ls, g.cl, on), spans)
  }
}
