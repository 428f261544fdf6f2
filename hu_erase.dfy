/** HUlib_eraseTextLine: which screen spans are handed to R_VideoErase
    before a line is redrawn, and how the redraw counter decays. */
module HuErase {
  import opened HuText

  /** The renderer state the erase consults: automap flag, the view
      window (viewwindowx, viewwindowy, viewwidth, viewheight), the
      screen width and the screen scale factor. */
  datatype View = View(
    automapActive: bool,
    windowX: int,
    windowY: int,
    width: int,
    height: int,
    screenWidth: int,
    screenScale: int)

  /** One R_VideoErase(offset, count) call. */
  datatype Span = Span(offset: int, count: int)

  /** The erase acts only off the automap, with a reduced view, and while
      the line still needs updating. */
  predicate Acts(v: View, needsupdate: int) {
    !v.automapActive && v.windowX != 0 && needsupdate != 0
  }

  /** The number of screen rows the erase covers: glyph height plus four,
      scaled. */
  function EraseHeight(fontHeight: int, v: View): int {
    (fontHeight + 4) * v.screenScale
  }

  /** The calls for one screen row: the whole row when it lies outside the
      view window's rows, else the left and right borders. */
  function RowSpans(v: View, y: int): (r: seq<Span>)
    ensures |r| == if y < v.windowY || y >= v.windowY + v.height then 1 else 2
    ensures r[0].offset == y * v.screenWidth
  {
    if y < v.windowY || y >= v.windowY + v.height then
      [Span(y * v.screenWidth, v.screenWidth)]
    else
      [Span(y * v.screenWidth, v.windowX),
       Span(y * v.screenWidth + v.windowX + v.width, v.windowX)]
  }

  /** The calls for rows `top` up to but excluding `y`, in order. */
  function RowsSpans(v: View, top: int, y: int): (r: seq<Span>)
    ensures y <= top ==> r == []
    decreases y - top
  {
    if y <= top then [] else RowsSpans(v, top, y - 1) + RowSpans(v, y - 1)
  }

  /** The redraw counter after one erase pass: one less, but not below 0. */
  function Decay(n: int): int {
    if n != 0 then n - 1 else n
  }

  /** The line after an erase pass of HUlib_eraseTextLine: the text,
      buffer and place are kept and only the counter decays. */
  function Decayed(s: LineState): (r: LineState)
    requires WellFormed(s)
    ensures WellFormed(r) && SamePlace(r, s)
    ensures r.len == s.len && r.buf == s.buf
    ensures r.needsupdate == if s.needsupdate > 0 then s.needsupdate - 1 else 0
  {
    s.(needsupdate := Decay(s.needsupdate))
  }

  /** The R_VideoErase calls of HUlib_eraseTextLine: none unless the erase
      acts, and then the rows under the line, from its top, glyph height
      plus four scaled rows deep. */
  function EraseCalls(s: LineState, v: View): (r: seq<Span>)
    ensures r != [] <==> Acts(v, s.needsupdate) && EraseHeight(s.fontHeight, v) > 0
    ensures Acts(v, s.needsupdate) ==> r == RowsSpans(v, s.y, s.y + EraseHeight(s.fontHeight, v))
  {
    if Acts(v, s.needsupdate) then
      RowsSpansEmpty(v, s.y, s.y + EraseHeight(s.fontHeight, v));
      RowsSpans(v, s.y, s.y + EraseHeight(s.fontHeight, v))
    else []
  }

  /** A row range yields calls exactly when it holds a row. */
  lemma RowsSpansEmpty(v: View, top: int, y: int)
    ensures RowsSpans(v, top, y) == [] <==> y <= top
  {
  }

  /** The calls come row by row in increasing order: the calls for a row
      range are those of any lower part followed by those of the rest. */
  lemma {:induction false} RowsSpansSplit(v: View, top: int, mid: int, bottom: int)
    requires top <= mid <= bottom
    ensures RowsSpans(v, top, bottom) == RowsSpans(v, top, mid) + RowsSpans(v, mid, bottom)
    decreases bottom - mid
  {
    if bottom > mid {
      RowsSpansSplit(v, top, mid, bottom - 1);
      assert RowsSpans(v, mid, bottom) == RowsSpans(v, mid, bottom - 1) + RowSpans(v, bottom - 1);
    } else {
      assert RowsSpans(v, mid, bottom) == [];
    }
  }

  /** The row loop makes one or two calls per row. */
  lemma {:induction false} RowsSpansCount(v: View, top: int, y: int)
    requires top <= y
    ensures y - top <= |RowsSpans(v, top, y)| <= 2 * (y - top)
    decreases y - top
  {
    if y > top {
      RowsSpansCount(v, top, y - 1);
    }
  }

  /** Row y (top <= y < bottom) contributes exactly its own calls, in place:
      one full-width call outside the window's rows, two border calls of
      width windowX inside them. */
  lemma RowsSpansRow(v: View, top: int, y: int, bottom: int)
    requires top <= y < bottom
    ensures RowsSpans(v, top, bottom) == RowsSpans(v, top, y) + RowSpans(v, y) + RowsSpans(v, y + 1, bottom)
    ensures |RowSpans(v, y)| == if y < v.windowY || y >= v.windowY + v.height then 1 else 2
  {
    RowsSpansSplit(v, top, y, bottom);
    RowsSpansSplit(v, y, y + 1, bottom);
    assert RowsSpans(v, y, y + 1) == RowsSpans(v, y, y) + RowSpans(v, y);
  }

  /** `k` erase passes over a line that is not edited in between. */
  function ErasePasses(s: LineState, k: nat): (r: LineState)
    requires WellFormed(s)
    ensures WellFormed(r)
  {
    if k == 0 then s else Decayed(ErasePasses(s, k - 1))
  }

  /** The counter falls by exactly one per pass until it reaches 0 and
      then stays there; nothing else about the line changes. */
  lemma {:induction false} DecayAfterPasses(s: LineState, k: nat)
    requires WellFormed(s)
    ensures ErasePasses(s, k).needsupdate == if s.needsupdate > k then s.needsupdate - k else 0
    ensures ErasePasses(s, k) == s.(needsupdate := ErasePasses(s, k).needsupdate)
  {
    if k > 0 {
      DecayAfterPasses(s, k - 1);
    }
  }

  /** The view window is centred horizontally and inset from both edges,
      so the two border strips together with it fill a screen row. */
  predicate Centred(v: View) {
    v.screenWidth > 0 && v.windowX > 0 && v.width >= 0 &&
    2 * v.windowX + v.width == v.screenWidth
  }

  /** Screen pixel (x, y) lies inside the view window. */
  predicate InWindow(v: View, y: int, x: int) {
    v.windowY <= y < v.windowY + v.height && v.windowX <= x < v.windowX + v.width
  }

  /** Some call in `spans` erases the pixel at offset `p`. */
  predicate Covers(spans: seq<Span>, p: int) {
    exists k :: 0 <= k < |spans| && spans[k].offset <= p < spans[k].offset + spans[k].count
  }

  lemma CoversConcat(a: seq<Span>, b: seq<Span>, p: int)
    ensures Covers(a + b, p) <==> Covers(a, p) || Covers(b, p)
  {
    if Covers(a + b, p) {
      var k :| 0 <= k < |a + b| && (a + b)[k].offset <= p < (a + b)[k].offset + (a + b)[k].count;
      if k >= |a| {
        assert b[k - |a|] == (a + b)[k];
      }
    }
    if Covers(b, p) {
      var k :| 0 <= k < |b| && b[k].offset <= p < b[k].offset + b[k].count;
      assert (a + b)[|a| + k] == b[k];
    }
    if Covers(a, p) {
      var k :| 0 <= k < |a| && a[k].offset <= p < a[k].offset + a[k].count;
      assert (a + b)[k] == a[k];
    }
  }

  /** An offset y * w + x with 0 <= x < w lies in row y and no other. */
  lemma RowOfOffset(r: int, y: int, x: int, w: int)
    requires w > 0 && 0 <= x < w
    ensures r * w <= y * w + x < r * w + w <==> r == y
  {
    if r < y {
      MulGap(r, y, w);
    } else if r > y {
      MulGap(y, r, w);
    }
  }

  /** Multiples of w are at least w apart: for a < b, a * w + w <= b * w.
      Used for screen rows (w the screen width) and for quotients. */
  lemma MulGap(a: int, b: int, w: int)
    requires a < b && w > 0
    ensures a * w + w <= b * w
  {
    var d := b - a - 1;
    assert d >= 0;
    assert d * w >= 0;
    calc {
      b * w;
      (a + 1 + d) * w;
      a * w + w + d * w;
    }
  }

  /** The calls for row `r` erase pixel (x, y) exactly when y is that row
      and the pixel is outside the view window. */
  lemma RowSpansCover(v: View, r: int, y: int, x: int)
    requires Centred(v) && 0 <= x < v.screenWidth
    ensures Covers(RowSpans(v, r), y * v.screenWidth + x) <==> r == y && !InWindow(v, y, x)
  {
    var w := v.screenWidth;
    var p := y * w + x;
    var spans := RowSpans(v, r);
    RowOfOffset(r, y, x, w);
    if Covers(spans, p) {
      var k :| 0 <= k < |spans| && spans[k].offset <= p < spans[k].offset + spans[k].count;
      assert r * w <= p < r * w + w;
    }
    if r == y && !InWindow(v, y, x) {
      if y < v.windowY || y >= v.windowY + v.height {
        assert spans[0].offset <= p < spans[0].offset + spans[0].count;
      } else if x < v.windowX {
        assert spans[0].offset <= p < spans[0].offset + spans[0].count;
      } else {
        assert spans[1].offset <= p < spans[1].offset + spans[1].count;
      }
    }
  }

  /** With a centred view window, the erase of rows top..bottom-1 clears
      precisely the pixels of those rows that lie outside the window:
      nothing inside the window, nothing in other rows, and every border
      pixel of the rows it covers. */
  lemma {:induction false} RowsSpansCover(v: View, top: int, bottom: int, y: int, x: int)
    requires Centred(v) && 0 <= x < v.screenWidth
    ensures Covers(RowsSpans(v, top, bottom), y * v.screenWidth + x)
            <==> top <= y < bottom && !InWindow(v, y, x)
    decreases bottom - top
  {
    var p := y * v.screenWidth + x;
    if bottom > top {
      RowsSpansCover(v, top, bottom - 1, y, x);
      CoversConcat(RowsSpans(v, top, bottom - 1), RowSpans(v, bottom - 1), p);
      RowSpansCover(v, bottom - 1, y, x);
    }
  }
}
