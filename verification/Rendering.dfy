/**
  The canvas as a cache of the framebuffer (web/src/renderer.ts): outside the dirty rectangles the
  two agree, and rendering the bounding box of the dirty rectangles makes them agree everywhere.
 */
module Rendering {
  import opened Grid
  import opened Framebuffers

  /** The canvas shows the framebuffer at every pixel of the screen outside the dirty rectangles. */
  ghost predicate Agrees(canvas: View, pic: View, screen: Rect, dirty: seq<Rect>) {
    forall x: int, y: int :: screen.Contains(x, y) ==> InSome(dirty, x, y) || canvas(x, y) == pic(x, y)
  }

  function Hull(a: Rect, b: Rect): Rect {
    Rect(Min(a.x0, b.x0), Min(a.y0, b.y0), Max(a.x1, b.x1), Max(a.y1, b.y1))
  }

  function Max(a: int, b: int): int {
    if a >= b then a else b
  }

  /** The smallest rectangle around all of `rects`. */
  function Box(rects: seq<Rect>): Rect
    requires rects != []
  {
    if |rects| == 1 then rects[0] else Hull(Box(rects[..|rects| - 1]), rects[|rects| - 1])
  }

  lemma {:induction false} BoxCovers(rects: seq<Rect>, i: nat)
    requires i < |rects|
    ensures rects[i].Within(Box(rects))
    decreases |rects|
  {
    if |rects| > 1 && i < |rects| - 1 {
      var before := rects[..|rects| - 1];
      BoxCovers(before, i);
      assert before[i] == rects[i];
    }
  }

  /** The box is no larger than it must be: any rectangle around all of them is around it. */
  lemma {:induction false} BoxLeast(rects: seq<Rect>, outer: Rect)
    requires rects != [] && forall i :: 0 <= i < |rects| ==> rects[i].Within(outer)
    ensures Box(rects).Within(outer)
    decreases |rects|
  {
    assert rects[|rects| - 1].Within(outer);
    if |rects| > 1 {
      var before := rects[..|rects| - 1];
      forall i | 0 <= i < |before| ensures before[i].Within(outer) {
        assert rects[i].Within(outer);
      }
      BoxLeast(before, outer);
    }
  }

  lemma {:induction false} DirtyInBox(dirty: seq<Rect>, x: int, y: int)
    requires dirty != [] && InSome(dirty, x, y)
    ensures Box(dirty).Contains(x, y)
  {
    var i :| 0 <= i < |dirty| && dirty[i].Contains(x, y);
    BoxCovers(dirty, i);
  }

  /** The canvas element's 2D context. */
  class Canvas {
    ghost var shown: View

    /** Copies the part of the picture inside `area`; both have the size of `screen`. */
    ghost method PutImageData(pic: View, screen: Rect, area: Rect)
      modifies this
      ensures Painted(shown, old(shown), screen.Intersect(area), pic)
    {
      var before := shown;
      shown := (x, y) => if screen.Intersect(area).Contains(x, y) then pic(x, y) else before(x, y);
    }
  }

  /** Whatever was dirty reaches the canvas, and nothing is dirty afterwards. */
  method Render(canvas: Canvas, fb: Framebuffer)
    requires fb.Valid()
    modifies canvas, fb`dirty
    ensures fb.Valid() && fb.dirty == []
    ensures old(fb.dirty) == [] ==> canvas.shown == old(canvas.shown)
    ensures old(fb.dirty) != [] ==>
              Painted(canvas.shown, old(canvas.shown), Rect(0, 0, fb.width, fb.height).Intersect(Box(old(fb.dirty))), fb.pic)
  {
    var dirtyRects := fb.dirty;
    if |dirtyRects| == 0 { return; }
    var minX, minY := dirtyRects[0].x0, dirtyRects[0].y0;
    var maxX, maxY := dirtyRects[0].x1, dirtyRects[0].y1;
    assert dirtyRects[..1] == [dirtyRects[0]];
    for i := 1 to |dirtyRects|
      modifies {}
      invariant Rect(minX, minY, maxX, maxY) == Box(dirtyRects[..i])
    {
      var r := dirtyRects[i];
      assert dirtyRects[..i + 1][..i] == dirtyRects[..i];
      if r.x0 < minX { minX := r.x0; }
      if r.y0 < minY { minY := r.y0; }
      if r.x1 > maxX { maxX := r.x1; }
      if r.y1 > maxY { maxY := r.y1; }
    }
    assert dirtyRects[..|dirtyRects|] == dirtyRects;
    canvas.PutImageData(fb.pic, Rect(0, 0, fb.width, fb.height), Rect(minX, minY, maxX, maxY));
    fb.ClearDirty();
  }

  /** What the screen holds between two calls. */
  datatype Display = Display(pic: View, canvas: View, dirty: seq<Rect>)

  /** The calls the decoders and the render loop make. */
  datatype Call =
    | Paint(area: Rect, content: View)
    | Copy(srcX: int, srcY: int, area: Rect)
    | Set(x: int, y: int, pixel: Rgba)
    | Show

  /** writeRect, writeRectRGB and fillRect paint and mark; setPixel paints and does not mark. */
  ghost function Step(d: Display, call: Call, screen: Rect): Display {
    match call
    case Paint(area, content) => Display(Overlay(d.pic, area, content), d.canvas, d.dirty + [area])
    case Copy(srcX, srcY, area) =>
      Display(Overlay(d.pic, area, Moved(d.pic, area.x0 - srcX, area.y0 - srcY)), d.canvas, d.dirty + [area])
    case Set(x, y, pixel) => d.(pic := Overlay(d.pic, Rect(x, y, x + 1, y + 1), Plain(pixel)))
    case Show =>
      if d.dirty == [] then d
      else Display(d.pic, Overlay(d.canvas, screen.Intersect(Box(d.dirty)), d.pic), [])
  }

  ghost function Run(d: Display, calls: seq<Call>, screen: Rect): Display
    decreases |calls|
  {
    if calls == [] then d else Run(Step(d, calls[0], screen), calls[1..], screen)
  }

  ghost predicate Consistent(d: Display, screen: Rect) {
    Agrees(d.canvas, d.pic, screen, d.dirty)
  }

  /** A write that marks the rectangle it painted leaves the rest of the canvas right. */
  lemma {:induction false} MarkedKeeps(
    canvas: View, before: View, after: View, screen: Rect, dirty: seq<Rect>, area: Rect, content: View)
    requires Agrees(canvas, before, screen, dirty) && Painted(after, before, area, content)
    ensures Agrees(canvas, after, screen, dirty + [area])
  {
    var marked := dirty + [area];
    forall x: int, y: int | screen.Contains(x, y)
      ensures InSome(marked, x, y) || canvas(x, y) == after(x, y)
    {
      if area.Contains(x, y) { assert marked[|dirty|].Contains(x, y); }
      if InSome(dirty, x, y) {
        var i :| 0 <= i < |dirty| && dirty[i].Contains(x, y);
        assert marked[i].Contains(x, y);
      }
    }
  }

  /** After rendering, a pixel is right exactly when it was right before or lies in the bounding box. */
  lemma {:induction false} RenderRepairs(d: Display, screen: Rect, x: int, y: int)
    requires screen.Contains(x, y)
    ensures var after := Step(d, Show, screen);
            after.canvas(x, y) == after.pic(x, y) <==>
              d.canvas(x, y) == d.pic(x, y) || (d.dirty != [] && Box(d.dirty).Contains(x, y))
  {
  }

  lemma {:induction false} RenderAgrees(d: Display, screen: Rect)
    requires Consistent(d, screen)
    ensures Agrees(Step(d, Show, screen).canvas, Step(d, Show, screen).pic, screen, [])
  {
    forall x: int, y: int | screen.Contains(x, y)
      ensures Step(d, Show, screen).canvas(x, y) == Step(d, Show, screen).pic(x, y)
    {
      if InSome(d.dirty, x, y) { DirtyInBox(d.dirty, x, y); }
      RenderRepairs(d, screen, x, y);
    }
  }

  /** Over any run of marking calls and renders, canvas and framebuffer agree outside the dirty rectangles. */
  lemma {:induction false} AlwaysConsistent(d: Display, calls: seq<Call>, screen: Rect)
    requires Consistent(d, screen) && forall i :: 0 <= i < |calls| ==> !calls[i].Set?
    ensures Consistent(Run(d, calls, screen), screen)
    decreases |calls|
  {
    if calls != [] {
      var next := Step(d, calls[0], screen);
      assert Consistent(next, screen) by {
        match calls[0] {
          case Paint(area, content) => MarkedKeeps(d.canvas, d.pic, next.pic, screen, d.dirty, area, content);
          case Copy(srcX, srcY, area) =>
            MarkedKeeps(d.canvas, d.pic, next.pic, screen, d.dirty, area, Moved(d.pic, area.x0 - srcX, area.y0 - srcY));
          case Show => RenderAgrees(d, screen);
        }
      }
      AlwaysConsistent(next, calls[1..], screen);
    }
  }

  /** And everywhere once such a run is followed by a render. */
  lemma {:induction false} AgreesAfterRender(d: Display, calls: seq<Call>, screen: Rect)
    requires Consistent(d, screen) && forall i :: 0 <= i < |calls| ==> !calls[i].Set?
    ensures var after := Step(Run(d, calls, screen), Show, screen);
            forall x: int, y: int :: screen.Contains(x, y) ==> after.canvas(x, y) == after.pic(x, y)
  {
    AlwaysConsistent(d, calls, screen);
    RenderAgrees(Run(d, calls, screen), screen);
  }

  /**
    A write that marks nothing, as when a rectangle is drawn with setPixel. From a canvas that agreed
    everywhere, the next render makes it agree again exactly when every visible pixel of the rectangle
    keeps its colour or some other call made its position part of the bounding box.
   */
  lemma {:induction false} UnmarkedRectangle(
    canvas: View, before: View, after: View, screen: Rect, dirty: seq<Rect>, area: Rect, content: View)
    requires Agrees(canvas, before, screen, []) && Painted(after, before, area, content)
    ensures var shown := Step(Display(after, canvas, dirty), Show, screen);
            Agrees(shown.canvas, after, screen, []) <==>
              forall x: int, y: int :: screen.Contains(x, y) && area.Contains(x, y) ==> Repaired(before, content, dirty, x, y)
  {
    var d := Display(after, canvas, dirty);
    var shown := Step(d, Show, screen);
    forall x: int, y: int | screen.Contains(x, y)
      ensures shown.canvas(x, y) == after(x, y) <==> !area.Contains(x, y) || Repaired(before, content, dirty, x, y)
    {
      RenderRepairs(d, screen, x, y);
      assert !InSome([], x, y);
    }
    if Agrees(shown.canvas, after, screen, []) {
      forall x: int, y: int | screen.Contains(x, y) && area.Contains(x, y) ensures Repaired(before, content, dirty, x, y) {
        assert !InSome([], x, y);
      }
    }
  }

  ghost predicate Repaired(before: View, content: View, dirty: seq<Rect>, x: int, y: int) {
    content(x, y) == before(x, y) || (dirty != [] && Box(dirty).Contains(x, y))
  }
}
