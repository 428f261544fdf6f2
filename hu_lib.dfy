/** The HUD text library as the game uses it: objects updated in place.
    Each method is proved to leave the object in the state the
    specification functions of HuText, HuErase, HuSText and HuIText
    compute from the state before the call. */
module HuLib {
  import opened HuText
  import opened HuErase
  import opened HuSText
  import opened HuIText

  /** The video layer, reduced to the calls R_VideoErase receives. */
  class Video {
    ghost var erased: seq<Span>

    constructor ()
      ensures erased == []
    {
      erased := [];
    }

    /** R_VideoErase(offset, count): recorded, not performed. */
    method VideoErase(offset: int, count: int)
      modifies this
      ensures erased == old(erased) + [Span(offset, count)]
    {
      erased := erased + [Span(offset, count)];
    }
  }

  /** hu_textline_t: the character buffer `l` (MaxLineLength characters
      and a terminator), its length and the redraw counter. */
  class TextLine {
    var x: int
    var y: int
    var sc: int
    var fontHeight: int
    const l: array<char>
    var len: nat
    var needsupdate: int

    ghost function State(): LineState
      reads this, l
    {
      LineState(x, y, sc, fontHeight, l[..], len, needsupdate)
    }

    ghost predicate Valid()
      reads this, l
    {
      WellFormed(State())
    }

    /** HUlib_initTextLine on fresh, zero-filled storage. */
    constructor Init(x: int, y: int, fontHeight: int, sc: int)
      ensures Valid() && fresh(l)
      ensures State() == InitLine(x, y, fontHeight, sc)
    {
      this.x := x;
      this.y := y;
      this.fontHeight := fontHeight;
      this.sc := sc;
      l := new char[MaxLineLength + 1](_ => '\0');
      len := 0;
      needsupdate := 0;
      new;
      Clear();
    }

    /** HUlib_clearTextLine. */
    method Clear()
      requires l.Length == MaxLineLength + 1
      modifies this, l
      ensures Valid()
      ensures State() == Cleared(old(State()))
    {
      len := 0;
      l[0] := '\0';
      needsupdate := 1;
    }

    /** HUlib_addCharToTextLine. */
    method AddChar(ch: char) returns (ok: bool)
      requires Valid()
      modifies this, l
      ensures Valid()
      ensures (ok, State()) == HuText.AddChar(old(State()), ch)
    {
      if len == MaxLineLength {
        ok := false;
      } else {
        l[len] := ch;
        len := len + 1;
        l[len] := '\0';
        needsupdate := MaxUpdate;
        ok := true;
      }
    }

    /** HUlib_delCharFromTextLine. */
    method DelChar() returns (ok: bool)
      requires Valid()
      modifies this, l
      ensures Valid()
      ensures (ok, State()) == HuText.DelChar(old(State()))
    {
      if len == 0 {
        ok := false;
      } else {
        len := len - 1;
        l[len] := '\0';
        needsupdate := MaxUpdate;
        ok := true;
      }
    }

    /** The `while (*p) HUlib_addCharToTextLine(t, *(p++))` loop shared by
        the message log and the input editor. */
    method AppendString(p: seq<char>)
      requires Valid()
      modifies this, l
      ensures Valid()
      ensures State() == AppendAll(old(State()), CStr(p))
    {
      var i := 0;
      while i < |p| && p[i] != '\0'
        invariant 0 <= i <= StrLen(p)
        invariant Valid()
        invariant State() == AppendAll(old(State()), p[..i])
      {
        var _ := AddChar(p[i]);
        assert p[..i + 1][..i] == p[..i];
        i := i + 1;
      }
    }

    /** HUlib_eraseTextLine: erase the rows under the line (whole rows
        outside the view window, its side borders inside it) when the
        erase acts, then let the counter decay. */
    method Erase(v: View, video: Video)
      requires Valid()
      modifies this, video
      ensures Valid()
      ensures State() == Decayed(old(State()))
      ensures video.erased == old(video.erased) + EraseCalls(old(State()), v)
    {
      if !v.automapActive && v.windowX != 0 && needsupdate != 0 {
        var lh := (fontHeight + 4) * v.screenScale;
        var row := y;
        var yoffset := row * v.screenWidth;
        while row < y + lh
          invariant y <= row && (row <= y + lh || row == y)
          invariant yoffset == row * v.screenWidth
          invariant video.erased == old(video.erased) + RowsSpans(v, y, row)
          invariant State() == old(State())
          decreases y + lh - row
        {
          if row < v.windowY || row >= v.windowY + v.height {
            video.VideoErase(yoffset, v.screenWidth);
          } else {
            video.VideoErase(yoffset, v.windowX);
            video.VideoErase(yoffset + v.windowX + v.width, v.windowX);
          }
          row := row + 1;
          yoffset := yoffset + v.screenWidth;
        }
      }
      if needsupdate != 0 {
        needsupdate := needsupdate - 1;
      }
    }
  }

  /** hu_stext_t: `h` line slots used as a ring, the cursor `cl` on the
      newest line, and the visibility at the previous erase. The
      visibility flag the C struct points to is passed to Draw and Erase. */
  class SText {
    const lines: seq<TextLine>
    const h: nat
    var cl: nat
    var laston: bool
    ghost const Repr: set<object>

    /** The slots: h distinct lines with distinct buffers, all in Repr. */
    ghost predicate Owned() {
      |lines| == h && 0 < h <= MaxLines && this !in Repr &&
      (forall i :: 0 <= i < h ==> lines[i] in Repr && lines[i].l in Repr) &&
      (forall i, j :: 0 <= i < h && 0 <= j < h && i != j ==>
        lines[i] != lines[j] && lines[i].l != lines[j].l)
    }

    ghost predicate Valid()
      reads this, Repr
    {
      Owned() && cl < h && forall i :: 0 <= i < h ==> lines[i].Valid()
    }

    ghost function State(): LogState
      requires Owned()
      reads this, Repr
    {
      LogState(seq(h, i requires 0 <= i < h reads Repr => lines[i].State()), cl, laston)
    }

    /** HUlib_initSText. */
    constructor Init(x: int, y: int, h: nat, fontHeight: int, sc: int)
      requires 0 < h <= MaxLines
      ensures Valid() && fresh(Repr)
      ensures State() == InitLog(x, y, h, fontHeight, sc)
    {
      var ls, r := NewLines(x, y, h, fontHeight, sc);
      this.h := h;
      lines := ls;
      cl := 0;
      laston := true;
      Repr := r;
      new;
      assert Owned();
      assert State().lines == InitLog(x, y, h, fontHeight, sc).lines;
    }

    /** The line-initialising loop of HUlib_initSText: slot i sits i glyph
        heights plus i pixels above `y`. `r` gathers the lines and their
        buffers. */
    static method NewLines(x: int, y: int, h: nat, fontHeight: int, sc: int)
      returns (ls: seq<TextLine>, ghost r: set<object>)
      ensures |ls| == h && fresh(r)
      ensures forall j :: 0 <= j < h ==>
        ls[j] in r && ls[j].l in r && ls[j].Valid() &&
        ls[j].State() == InitLine(x, y - j * (fontHeight + 1), fontHeight, sc)
      ensures forall j, k :: 0 <= j < h && 0 <= k < h && j != k ==>
        ls[j] != ls[k] && ls[j].l != ls[k].l
    {
      ls, r := [], {};
      var i := 0;
      while i < h
        invariant 0 <= i <= h && |ls| == i && fresh(r)
        invariant forall j :: 0 <= j < i ==>
          ls[j] in r && ls[j].l in r && ls[j].Valid() &&
          ls[j].State() == InitLine(x, y - j * (fontHeight + 1), fontHeight, sc)
        invariant forall j, k :: 0 <= j < i && 0 <= k < i && j != k ==>
          ls[j] != ls[k] && ls[j].l != ls[k].l
      {
        var t := new TextLine.Init(x, y - i * (fontHeight + 1), fontHeight, sc);
        ls, r := ls + [t], r + {t, t.l};
        i := i + 1;
      }
    }

    /** HUlib_addLineToSText. */
    method AddLine()
      requires Valid()
      modifies this, Repr
      ensures Valid()
      ensures State() == HuSText.AddLine(old(State()))
    {
      ghost var g := State();
      ghost var r := HuSText.AddLine(g);
      cl := cl + 1;
      if cl == h {
        cl := 0;
      }
      lines[cl].Clear();
      MarkAll();
      assert forall j :: 0 <= j < h ==> lines[j].State() == r.lines[j];
      assert State().lines == r.lines;
    }

    /** The "everything needs updating" loop of HUlib_addLineToSText. */
    method MarkAll()
      requires Owned() && forall i :: 0 <= i < h ==> lines[i].Valid()
      modifies Repr
      ensures forall i :: 0 <= i < h ==> lines[i].Valid()
      ensures forall i :: 0 <= i < h ==> lines[i].State() == old(lines[i].State()).(needsupdate := MaxUpdate)
    {
      for i := 0 to h
        invariant forall j :: 0 <= j < h ==> lines[j].Valid()
        invariant forall j :: 0 <= j < i ==> lines[j].State() == old(lines[j].State()).(needsupdate := MaxUpdate)
        invariant forall j :: i <= j < h ==> lines[j].State() == old(lines[j].State())
      {
        lines[i].needsupdate := MaxUpdate;
      }
    }

    /** HUlib_addMessageToSText: a new line, then the prefix (if not null)
        and the message, truncated at MaxLineLength. */
    method AddMessage(prefix: Option<seq<char>>, msg: seq<char>)
      requires Valid()
      modifies this, Repr
      ensures Valid()
      ensures State() == HuSText.AddMessage(old(State()), prefix, msg)
    {
      AddLine();
      ghost var a := State();
      assert a == HuSText.AddLine(old(State()));
      WriteNewest(prefix, msg);
      assert State().lines == a.lines[cl := AppendAll(AppendAll(a.lines[cl], PrefixText(prefix)), CStr(msg))];
    }

    /** The appending half of HUlib_addMessageToSText, on the newest line
        only. */
    method WriteNewest(prefix: Option<seq<char>>, msg: seq<char>)
      requires Valid()
      modifies lines[cl], lines[cl].l
      ensures Valid()
      ensures lines[cl].State() == AppendAll(AppendAll(old(lines[cl].State()), PrefixText(prefix)), CStr(msg))
    {
      var line := lines[cl];
      if prefix.Some? {
        line.AppendString(prefix.value);
      }
      line.AppendString(msg);
    }

    /** HUlib_drawSText reduced to the slots it hands to the renderer, in
        order: none when the log is off, else newest first. */
    method Draw(on: bool) returns (drawn: seq<nat>)
      requires Valid()
      ensures drawn == if on then NewestFirst(cl, h) else []
    {
      drawn := [];
      if !on {
        return;
      }
      for i := 0 to h
        invariant drawn == NewestFirst(cl, h)[..i]
      {
        var idx := cl - i;
        if idx < 0 {
          idx := idx + h;
        }
        drawn := drawn + [idx];
      }
    }

    /** HUlib_eraseSText. */
    method Erase(on: bool, v: View, video: Video)
      requires Valid()
      modifies this, Repr, video
      ensures Valid()
      ensures State() == EraseLog(old(State()), on, v).0
      ensures video.erased == old(video.erased) + EraseLog(old(State()), on, v).1
    {
      ghost var g := State();
      assert LogWellFormed(g);
      EraseAll(g.lines, laston && !on, v, video);
      laston := on;
      assert State().lines == EraseLog(g, on, v).0.lines;
    }

    /** The per-line loop of HUlib_eraseSText, in slot order; `g` holds
        the lines as they were before the loop. */
    method EraseAll(ghost g: seq<LineState>, force: bool, v: View, video: Video)
      requires Owned() && |g| == h
      requires forall j :: 0 <= j < h ==> lines[j].Valid() && lines[j].State() == g[j] && WellFormed(g[j])
      modifies Repr, video
      ensures forall j :: 0 <= j < h ==> lines[j].Valid()
      ensures forall j :: 0 <= j < h ==> lines[j].State() == Decayed(Forced(g[j], force))
      ensures video.erased == old(video.erased) + EraseSpans(g, h, force, v)
    {
      for i := 0 to h
        invariant forall j :: 0 <= j < h ==> lines[j].Valid()
        invariant forall j :: 0 <= j < i ==> lines[j].State() == Decayed(Forced(g[j], force))
        invariant forall j :: i <= j < h ==> lines[j].State() == g[j]
        invariant video.erased == old(video.erased) + EraseSpans(g, i, force, v)
      {
        EraseSlot(g, old(video.erased), i, force, v, video);
      }
    }

    /** One slot of HUlib_eraseSText: forced to a full redraw when asked,
        then erased; the slots before it are done, those after untouched. */
    method EraseSlot(ghost g: seq<LineState>, ghost e0: seq<Span>, i: nat, force: bool, v: View, video: Video)
      requires Owned() && |g| == h && i < h
      requires forall j :: 0 <= j < h ==> lines[j].Valid() && WellFormed(g[j])
      requires video.erased == e0 + EraseSpans(g, i, force, v)
      requires forall j :: 0 <= j < i ==> lines[j].State() == Decayed(Forced(g[j], force))
      requires forall j :: i <= j < h ==> lines[j].State() == g[j]
      modifies lines[i], video
      ensures forall j :: 0 <= j < h ==> lines[j].Valid()
      ensures forall j :: 0 <= j < i + 1 ==> lines[j].State() == Decayed(Forced(g[j], force))
      ensures forall j :: i + 1 <= j < h ==> lines[j].State() == g[j]
      ensures video.erased == e0 + EraseSpans(g, i + 1, force, v)
    {
      if force {
        lines[i].needsupdate := MaxUpdate;
      }
      lines[i].Erase(v, video);
    }
  }

  /** hu_itext_t: one line and the left margin `lm` that deletion may not
      cross. The visibility flag the C struct points to is passed to Erase. */
  class IText {
    const line: TextLine
    var lm: nat
    var laston: bool

    ghost function State(): EditorState
      reads this, line, line.l
    {
      EditorState(line.State(), lm, laston)
    }

    ghost predicate Valid()
      reads this, line, line.l
    {
      EditorWellFormed(State())
    }

    /** HUlib_initIText. */
    constructor Init(x: int, y: int, fontHeight: int, sc: int)
      ensures Valid() && fresh(line) && fresh(line.l)
      ensures State() == InitEditor(x, y, fontHeight, sc)
    {
      lm := 0;
      laston := true;
      line := new TextLine.Init(x, y, fontHeight, sc);
    }

    /** HUlib_delCharFromIText. */
    method DelChar()
      requires Valid()
      modifies line, line.l
      ensures Valid()
      ensures State() == DelCharAboveMargin(old(State()))
    {
      if line.len != lm {
        var _ := line.DelChar();
      }
    }

    /** HUlib_eraseLineFromIText: the loop ends because every pass takes
        the length one closer to the margin, which it never passes. */
    method EraseLine()
      requires Valid()
      modifies line, line.l
      ensures Valid()
      ensures State() == EraseToMargin(old(State()))
    {
      while lm != line.len
        invariant Valid()
        invariant EraseToMargin(State()) == EraseToMargin(old(State()))
        decreases line.len - lm
      {
        var _ := line.DelChar();
      }
    }

    /** HUlib_resetIText. */
    method Reset()
      requires Valid()
      modifies this, line, line.l
      ensures Valid()
      ensures State() == HuIText.Reset(old(State()))
    {
      lm := 0;
      line.Clear();
    }

    /** HUlib_addPrefixToIText. */
    method AddPrefix(str: seq<char>)
      requires Valid()
      modifies this, line, line.l
      ensures Valid()
      ensures State() == HuIText.AddPrefix(old(State()), str)
    {
      line.AppendString(str);
      lm := line.len;
    }

    /** HUlib_keyInIText: returns whether the key was eaten. */
    method KeyIn(ch: byte) returns (ate: bool)
      requires Valid()
      modifies line, line.l
      ensures Valid()
      ensures (ate, State()) == HuIText.KeyIn(old(State()), ch)
    {
      var c := ToUpper(ch);
      if Printable(c) {
        var _ := line.AddChar(c as char);
      } else if c == KeyBackspace {
        DelChar();
      } else if c != KeyEnter {
        return false;
      }
      return true;
    }

    /** HUlib_eraseIText. */
    method Erase(on: bool, v: View, video: Video)
      requires Valid()
      modifies this, line, video
      ensures Valid()
      ensures State() == EraseEditor(old(State()), on, v).0
      ensures video.erased == old(video.erased) + EraseEditor(old(State()), on, v).1
    {
      if laston && !on {
        line.needsupdate := MaxUpdate;
      }
      line.Erase(v, video);
      laston := on;
    }
  }
}
