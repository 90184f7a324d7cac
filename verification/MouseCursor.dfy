/** Save-under drawing of the mouse pointer: `DrawCursor` of src/core/graphics/console.cpp. */
module MouseCursor {
  import opened Machine32

  const POINTER_W := 12
  const POINTER_H := 18
  const BLACK: Word := 0x000000
  const POINTER_WHITE: Word := 0xFFFFFF

  /** Position (dx, dy) lies in the pointer's box. */
  predicate InBox(dx: int, dy: int) { 0 <= dx < POINTER_W && 0 <= dy < POINTER_H }

  /** The boxes' cells before (fx, fy) in row-major order. */
  predicate Before(dx: int, dy: int, fx: int, fy: int) { InBox(dx, dy) && (dy < fy || (dy == fy && dx < fx)) }

  /** A pixel with pointer cell (dx, dy) drawn over it: 1 is border, 2 is fill, anything else is transparent. */
  function Over(shape: seq<int>, dx: int, dy: int, under: Word): Word
    requires |shape| == POINTER_W * POINTER_H
  {
    if !InBox(dx, dy) then under
    else if shape[dy * POINTER_W + dx] == 1 then BLACK
    else if shape[dy * POINTER_W + dx] == 2 then POINTER_WHITE
    else under
  }

  /** Row-major positions are in range and name one pixel each. */
  lemma PixelIndex(w: int, h: int, x: int, y: int)
    requires 0 <= x < w && 0 <= y < h
    ensures 0 <= y * w + x < w * h
  {
    assert y * w + x < (y + 1) * w <= h * w;
  }

  lemma PixelsDiffer(w: int, x: int, y: int, x': int, y': int)
    requires 0 <= x < w && 0 <= x' < w && (x != x' || y != y')
    ensures y * w + x != y' * w + x'
  {
    if y < y' {
      assert (y + 1) * w <= y' * w;
    } else if y' < y {
      assert (y' + 1) * w <= y * w;
    }
  }

  lemma RowBelow(w: int, h: int, k: int)
    requires 0 <= w && 0 <= h && 0 <= k < w * h
    ensures w > 0 && k / w < h && k == k / w * w + k % w
  {
    assert w > 0;
    var q := k / w;
    assert q * w <= k;
    assert q >= h ==> q * w >= h * w;
  }

  class Console {
    const width: int
    const height: int
    const shape: seq<int>              // mouse_pointer
    const backBuffer: array<Word>
    const mouseBackbuffer: array<Word>
    var prevX: int
    var prevY: int
    ghost var picture: seq<Word>       // what the screen shows without the pointer

    predicate Sized() {
      && 0 <= width && 0 <= height && backBuffer.Length == width * height
      && |shape| == POINTER_W * POINTER_H && mouseBackbuffer.Length == POINTER_W * POINTER_H
      && backBuffer != mouseBackbuffer
    }

    predicate OnScreen(x: int, y: int) { 0 <= x < width && 0 <= y < height }

    /** Pixel (x, y) of a picture of the screen's size; nothing is there off the screen. */
    ghost function Pixel(p: seq<Word>, x: int, y: int): Word
      requires Sized() && |p| == backBuffer.Length
    {
      if OnScreen(x, y) then
        PixelIndex(width, height, x, y);
        p[y * width + x]
      else 0
    }

    /** `shown` is `under` with the pointer at (x, y) over it. */
    ghost predicate Overlaid(shown: seq<Word>, under: seq<Word>, x: int, y: int)
      requires Sized() && |shown| == |under| == backBuffer.Length
    {
      forall i, j :: OnScreen(i, j) ==> Pixel(shown, i, j) == Over(shape, i - x, j - y, Pixel(under, i, j))
    }

    /** The saved pixels are those of `under` at (x, y). */
    ghost predicate Saved(under: seq<Word>, x: int, y: int)
      requires Sized() && |under| == backBuffer.Length
      reads mouseBackbuffer
    {
      forall i, j :: InBox(i - x, j - y) ==> mouseBackbuffer[(j - y) * POINTER_W + (i - x)] == Pixel(under, i, j)
    }

    /** The screen shows the picture, with the pointer over it unless the x position is the sentinel -1. */
    ghost predicate Valid()
      reads this, backBuffer, mouseBackbuffer
    {
      && Sized() && |picture| == backBuffer.Length
      && if prevX == -1 then backBuffer[..] == picture
         else Overlaid(backBuffer[..], picture, prevX, prevY) && Saved(picture, prevX, prevY)
    }

    constructor (width: int, height: int, shape: seq<int>, buffer: array<Word>)
      requires 0 <= width && 0 <= height && buffer.Length == width * height && |shape| == POINTER_W * POINTER_H
      ensures Valid() && picture == buffer[..] && backBuffer == buffer && prevX == -1
      ensures this.width == width && this.height == height && this.shape == shape
    {
      this.width, this.height, this.shape, backBuffer := width, height, shape, buffer;
      mouseBackbuffer := new Word[POINTER_W * POINTER_H](_ => 0);
      prevX, prevY := -1, -1;
      picture := buffer[..];
    }

    method GetPixel(x: int, y: int) returns (c: Word)
      requires Sized()
      ensures c == Pixel(backBuffer[..], x, y)
    {
      if x < 0 || x >= width || y < 0 || y >= height {
        return 0;
      }
      PixelIndex(width, height, x, y);
      c := backBuffer[y * width + x];
    }

    method PutPixel(x: int, y: int, color: Word)
      requires Sized()
      modifies backBuffer
      ensures forall i, j :: OnScreen(i, j) ==>
                Pixel(backBuffer[..], i, j) == if i == x && j == y then color else Pixel(old(backBuffer[..]), i, j)
    {
      if x < 0 || x >= width || y < 0 || y >= height {
        return;
      }
      PixelIndex(width, height, x, y);
      ghost var before := backBuffer[..];
      backBuffer[y * width + x] := color;
      forall i, j | OnScreen(i, j)
        ensures Pixel(backBuffer[..], i, j) == if i == x && j == y then color else Pixel(before, i, j)
      {
        PixelIndex(width, height, i, j);
        if i != x || j != y {
          PixelsDiffer(width, i, j, x, y);
        }
      }
    }

    /** Put the saved pixels back: every pixel in the box becomes what was saved for it. */
    method Restore()
      requires Sized()
      modifies backBuffer
      ensures forall i, j :: OnScreen(i, j) ==>
                Pixel(backBuffer[..], i, j) ==
                if InBox(i - prevX, j - prevY) then mouseBackbuffer[(j - prevY) * POINTER_W + (i - prevX)]
                else Pixel(old(backBuffer[..]), i, j)
    {
      ghost var b := backBuffer[..];
      var fy := 0;
      while fy < 18
        invariant 0 <= fy <= 18
        invariant forall i, j :: OnScreen(i, j) ==>
                    Pixel(backBuffer[..], i, j) ==
                    if Before(i - prevX, j - prevY, 0, fy) then mouseBackbuffer[(j - prevY) * POINTER_W + (i - prevX)]
                    else Pixel(b, i, j)
      {
        var fx := 0;
        while fx < 12
          invariant 0 <= fx <= 12
          invariant forall i, j :: OnScreen(i, j) ==>
                      Pixel(backBuffer[..], i, j) ==
                      if Before(i - prevX, j - prevY, fx, fy) then mouseBackbuffer[(j - prevY) * POINTER_W + (i - prevX)]
                      else Pixel(b, i, j)
        {
          PutPixel(prevX + fx, prevY + fy, mouseBackbuffer[fy * 12 + fx]);
          fx := fx + 1;
        }
        fy := fy + 1;
      }
    }

    /** Save the pixels under the box at (x, y). */
    method Save(x: int, y: int)
      requires Sized()
      modifies mouseBackbuffer
      ensures Saved(backBuffer[..], x, y)
    {
      ghost var b := backBuffer[..];
      var fy := 0;
      while fy < 18
        invariant 0 <= fy <= 18 && backBuffer[..] == b
        invariant forall i, j :: Before(i - x, j - y, 0, fy) ==>
                    mouseBackbuffer[(j - y) * POINTER_W + (i - x)] == Pixel(b, i, j)
      {
        var fx := 0;
        while fx < 12
          invariant 0 <= fx <= 12 && backBuffer[..] == b
          invariant forall i, j :: Before(i - x, j - y, fx, fy) ==>
                      mouseBackbuffer[(j - y) * POINTER_W + (i - x)] == Pixel(b, i, j)
        {
          var c := GetPixel(x + fx, y + fy);
          mouseBackbuffer[fy * 12 + fx] := c;
          fx := fx + 1;
        }
        fy := fy + 1;
      }
    }

    /** Draw the pointer's border and fill at (x, y). */
    method DrawPointer(x: int, y: int)
      requires Sized()
      modifies backBuffer
      ensures Overlaid(backBuffer[..], old(backBuffer[..]), x, y)
    {
      ghost var b := backBuffer[..];
      var fy := 0;
      while fy < 18
        invariant 0 <= fy <= 18
        invariant forall i, j :: OnScreen(i, j) ==>
                    Pixel(backBuffer[..], i, j) ==
                    if Before(i - x, j - y, 0, fy) then Over(shape, i - x, j - y, Pixel(b, i, j)) else Pixel(b, i, j)
      {
        var fx := 0;
        while fx < 12
          invariant 0 <= fx <= 12
          invariant forall i, j :: OnScreen(i, j) ==>
                      Pixel(backBuffer[..], i, j) ==
                      if Before(i - x, j - y, fx, fy) then Over(shape, i - x, j - y, Pixel(b, i, j)) else Pixel(b, i, j)
        {
          var type_ := shape[fy * 12 + fx];
          if type_ == 1 {
            PutPixel(x + fx, y + fy, 0x000000);
          } else if type_ == 2 {
            PutPixel(x + fx, y + fy, 0xFFFFFF);
          }
          fx := fx + 1;
        }
        fy := fy + 1;
      }
    }

    /** Every position of the buffer is a pixel of the screen. */
    lemma PixelOf(k: int)
      requires Sized() && 0 <= k < backBuffer.Length
      ensures width > 0 && OnScreen(k % width, k / width) && k == k / width * width + k % width
    {
      RowBelow(width, height, k);
    }

    /** Erasing the old pointer brings the picture back. */
    method EraseOld()
      requires Valid()
      modifies backBuffer
      ensures backBuffer[..] == picture
    {
      if prevX != -1 {
        ghost var b := backBuffer[..];
        Restore();
        forall k | 0 <= k < backBuffer.Length ensures backBuffer[k] == picture[k] {
          PixelOf(k);
          ghost var i, j := k % width, k / width;
          assert Pixel(backBuffer[..], i, j) == Pixel(picture, i, j);
        }
      }
    }

    /**
      One call, at any position: the screen shows the picture with the pointer at the new
      position only.  The picture stays what it was, except that a pointer drawn at x == -1
      becomes part of it, because -1 also stands for "no pointer".
    */
    method DrawCursor(x: int, y: int)
      requires Valid()
      modifies this`prevX, this`prevY, this`picture, backBuffer, mouseBackbuffer
      ensures Valid() && prevX == x && prevY == y
      ensures Overlaid(backBuffer[..], old(picture), x, y)
      ensures picture == if x == -1 then backBuffer[..] else old(picture)
    {
      EraseOld();
      Save(x, y);
      DrawPointer(x, y);
      prevX := x;
      prevY := y;
      if x == -1 {
        picture := backBuffer[..];
      }
    }

    /** What cell (fx, fy) of the shape puts on its pixel: black, white, or what was there. */
    lemma CellDrawn(shown: seq<Word>, under: seq<Word>, x: int, y: int, fx: int, fy: int)
      requires Sized() && |shown| == |under| == backBuffer.Length && Overlaid(shown, under, x, y)
      requires 0 <= fx < 12 && 0 <= fy < 18 && 0 <= x + fx < width && 0 <= y + fy < height
      ensures 0 <= (y + fy) * width + (x + fx) < |shown|
      ensures var at, cell := (y + fy) * width + (x + fx), shape[fy * 12 + fx];
              && (cell == 1 ==> shown[at] == 0x000000)
              && (cell == 2 ==> shown[at] == 0xFFFFFF)
              && (cell != 1 && cell != 2 ==> shown[at] == under[at])
    {
      PixelIndex(width, height, x + fx, y + fy);
      assert Pixel(shown, x + fx, y + fy) == Over(shape, fx, fy, Pixel(under, x + fx, y + fy));
    }

    /** Beside the shape's 12 by 18 pixels nothing is drawn. */
    lemma BesideKept(shown: seq<Word>, under: seq<Word>, x: int, y: int, i: int, j: int)
      requires Sized() && |shown| == |under| == backBuffer.Length && Overlaid(shown, under, x, y)
      requires 0 <= i < width && 0 <= j < height && !(x <= i < x + 12 && y <= j < y + 18)
      ensures 0 <= j * width + i < |shown| && shown[j * width + i] == under[j * width + i]
    {
      PixelIndex(width, height, i, j);
      assert Pixel(shown, i, j) == Over(shape, i - x, j - y, Pixel(under, i, j));
    }

    /**
      Any number of moves, none of them to x == -1 (the mouse driver clamps to the screen),
      leaves the original picture with the pointer at the last position.
    */
    method MoveThrough(positions: seq<(int, int)>)
      requires Valid() && positions != []
      requires forall i :: 0 <= i < |positions| ==> positions[i].0 != -1
      modifies this`prevX, this`prevY, this`picture, backBuffer, mouseBackbuffer
      ensures Valid() && picture == old(picture)
      ensures (prevX, prevY) == positions[|positions| - 1]
      ensures Overlaid(backBuffer[..], old(picture), prevX, prevY)
    {
      ghost var p := picture;
      var k := 0;
      while k < |positions|
        invariant 0 <= k <= |positions| && Valid() && picture == p
        invariant k > 0 ==> (prevX, prevY) == positions[k - 1]
      {
        DrawCursor(positions[k].0, positions[k].1);
        k := k + 1;
      }
    }
  }
}
