/** `video::device`: the CPU framebuffer, a row-major array of packed 32-bit pixels. */
module Framebuffer {
  import opened Numeric

  /** `glm::vec2`, a screen coordinate; its float components are idealised as reals. */
  datatype Vec2 = Vec2(x: real, y: real)

  /** The value `clear` writes when called without an argument (opaque black). */
  const DefaultClearValue: uint32 := 0xFF00_0000

  /** The value `draw_point` writes. */
  const PointValue: uint32 := 0xFFFF_FF00

  // ---------------------------------------------------------------------------
  // Index mapping

  /** `index_from_xy`: the cell of column `x`, row `y` in a buffer `width` cells wide. */
  function IndexFromXY(width: int, x: int, y: int): int {
    width * y + x
  }

  /** The coordinate lies inside a `width` by `height` buffer. */
  predicate ValidXY(width: int, height: int, x: int, y: int) {
    0 <= x < width && 0 <= y < height
  }

  /** Column of cell `i`: the inverse of `IndexFromXY` in its first coordinate. */
  function ColumnOf(width: int, i: int): int
    requires width > 0
  {
    i % width
  }

  /** Row of cell `i`: the inverse of `IndexFromXY` in its second coordinate. */
  function RowOf(width: int, i: int): int
    requires width > 0
  {
    i / width
  }

  /** A valid coordinate maps to a cell of the buffer; the product `width * y`
      computed on the way lies in the same range, so neither overflows a
      32-bit `int` when the buffer size does not. */
  lemma IndexInRange(width: int, height: int, x: int, y: int)
    requires ValidXY(width, height, x, y)
    ensures 0 <= width * y <= IndexFromXY(width, x, y) < width * height
  {
    assert width * y + width == width * (y + 1);
    MulMonotone(width, y + 1, height);
  }

  lemma MulMonotone(a: nat, b: int, c: int)
    requires b <= c
    ensures a * b <= a * c
  {
    assert a * c - a * b == a * (c - b);
  }

  /** Column and row are recovered from the index of a valid coordinate. */
  lemma IndexRoundTrip(width: int, height: int, x: int, y: int)
    requires ValidXY(width, height, x, y)
    ensures ColumnOf(width, IndexFromXY(width, x, y)) == x
    ensures RowOf(width, IndexFromXY(width, x, y)) == y
  {
    DivModUnique(width, IndexFromXY(width, x, y), y, x);
  }

  /** Euclidean division is unique: `q` and `r` with `n == d * q + r`, `0 <= r < d`
      are the quotient and remainder. */
  lemma DivModUnique(d: int, n: int, q: int, r: int)
    requires 0 <= r < d && n == d * q + r
    ensures n / d == q && n % d == r
  {
    var q', r' := n / d, n % d;
    assert n == d * q' + r' && 0 <= r' < d;
    assert d * (q - q') == r' - r;
    SmallMultipleIsZero(d, q - q');
  }

  /** The only multiple of a positive `d` strictly between `-d` and `d` is zero. */
  lemma SmallMultipleIsZero(d: int, k: int)
    requires d > 0 && -d < d * k < d
    ensures k == 0
  {
    if k > 0 {
      MulMonotone(d, 1, k);
    } else if k < 0 {
      MulMonotone(d, k, -1);
    }
  }

  /** Every cell of the buffer is the index of exactly the coordinate given by
      `ColumnOf` and `RowOf`, which is valid. */
  lemma IndexOnto(width: int, height: int, i: int)
    requires 0 <= width && 0 <= height && 0 <= i < width * height
    ensures width > 0
    ensures ValidXY(width, height, ColumnOf(width, i), RowOf(width, i))
    ensures IndexFromXY(width, ColumnOf(width, i), RowOf(width, i)) == i
  {
    var x, y := i % width, i / width;
    assert i == width * y + x;
    if y >= height {
      MulMonotone(width, height, y);
    }
  }

  /** Distinct valid coordinates write distinct cells. */
  lemma IndexInjective(width: int, height: int, x1: int, y1: int, x2: int, y2: int)
    requires ValidXY(width, height, x1, y1) && ValidXY(width, height, x2, y2)
    requires IndexFromXY(width, x1, y1) == IndexFromXY(width, x2, y2)
    ensures x1 == x2 && y1 == y2
  {
    IndexRoundTrip(width, height, x1, y1);
    IndexRoundTrip(width, height, x2, y2);
  }

  // ---------------------------------------------------------------------------
  // Points

  /** C++'s `(int)` conversion of a floating-point value: truncation toward zero. */
  function Truncate(v: real): (r: int)
    ensures v >= 0.0 ==> r as real <= v < r as real + 1.0
    ensures v < 0.0 ==> r as real - 1.0 < v <= r as real
    ensures v >= 0.0 ==> r == v.Floor
  {
    if v >= 0.0 then v.Floor else -((-v).Floor)
  }

  /** The range test of `draw_point`. */
  predicate OnScreen(width: int, height: int, p: Vec2) {
    p.x >= 0.0 && p.y >= 0.0 && p.x < width as real && p.y < height as real
  }

  /** The cell `draw_point` writes for `p`. */
  function PointIndex(width: int, p: Vec2): int {
    IndexFromXY(width, Truncate(p.x), Truncate(p.y))
  }

  /** An on-screen point truncates to a valid coordinate. */
  lemma OnScreenIsValidXY(width: int, height: int, p: Vec2)
    requires OnScreen(width, height, p)
    ensures ValidXY(width, height, Truncate(p.x), Truncate(p.y))
    ensures 0 <= PointIndex(width, p) < width * height
  {
    IndexInRange(width, height, Truncate(p.x), Truncate(p.y));
  }

  /** The row-major cells of a `width` by `height` buffer. */
  predicate IsBuffer(cells: seq<uint32>, width: int, height: int) {
    0 <= width && 0 <= height && |cells| == width * height
  }

  /** The cells after `draw_point(p)`. */
  function PointDrawn(cells: seq<uint32>, width: int, height: int, p: Vec2): seq<uint32>
    requires IsBuffer(cells, width, height)
  {
    if OnScreen(width, height, p) then
      OnScreenIsValidXY(width, height, p);
      cells[PointIndex(width, p) := PointValue]
    else
      cells
  }

  /** On screen, exactly the cell of `p` is set to `PointValue` and every other
      cell keeps its value. */
  lemma DrawPointOnScreen(cells: seq<uint32>, width: int, height: int, p: Vec2)
    requires IsBuffer(cells, width, height) && OnScreen(width, height, p)
    ensures 0 <= PointIndex(width, p) < |cells|
    ensures |PointDrawn(cells, width, height, p)| == |cells|
    ensures PointDrawn(cells, width, height, p)[PointIndex(width, p)] == PointValue
    ensures forall j :: 0 <= j < |cells| && j != PointIndex(width, p) ==>
      PointDrawn(cells, width, height, p)[j] == cells[j]
  {
    OnScreenIsValidXY(width, height, p);
  }

  /** Off screen, nothing changes. */
  lemma DrawPointOffScreen(cells: seq<uint32>, width: int, height: int, p: Vec2)
    requires IsBuffer(cells, width, height) && !OnScreen(width, height, p)
    ensures PointDrawn(cells, width, height, p) == cells
  {
  }

  /** The cells after `clear(value)` on a buffer of `n` cells: cell `i` is written
      at step `i`, and every cell holds `value`. */
  function Filled(n: nat, value: uint32): (r: seq<uint32>)
    ensures |r| == n
    ensures forall i :: 0 <= i < n ==> r[i] == value
  {
    if n == 0 then [] else Filled(n - 1, value) + [value]
  }

  /** One frame with one point: after a clear to a value other than `PointValue`
      and an on-screen `draw_point`, the point's cell is the only cell that
      holds `PointValue`. */
  lemma ClearThenDrawPoint(width: int, height: int, value: uint32, p: Vec2)
    requires 0 <= width && 0 <= height && OnScreen(width, height, p)
    requires value != PointValue
    ensures var r := PointDrawn(Filled(width * height, value), width, height, p);
      forall j :: 0 <= j < |r| ==> (r[j] == PointValue <==> j == PointIndex(width, p))
  {
    var cells := Filled(width * height, value);
    DrawPointOnScreen(cells, width, height, p);
  }

  // ---------------------------------------------------------------------------
  // The device

  class Device {
    const width: int
    const height: int
    /** `m_buffer`: never reassigned after construction, only written through. */
    const buffer: array<uint32>

    ghost predicate Valid() {
      0 <= width && 0 <= height && IsInt32(width) && IsInt32(height) &&
      width * height <= Int32Max &&
      buffer.Length == width * height
    }

    /** Allocates `width * height` cells; their contents are unspecified until
        the first `Clear`. The size is computed in a 32-bit `int` and a negative
        size makes `new[]` throw, so the dimensions must be non-negative and
        their product must fit. */
    constructor (width: int, height: int)
      requires IsInt32(width) && IsInt32(height)
      requires 0 <= width && 0 <= height && width * height <= Int32Max
      ensures Valid()
      ensures this.width == width && this.height == height
      ensures fresh(buffer) && buffer.Length == width * height
    {
      this.width := width;
      this.height := height;
      buffer := new uint32[width * height];
    }

    /** Writes `value` into every cell, whatever the buffer held before. */
    method Clear(value: uint32 := DefaultClearValue)
      requires Valid()
      modifies buffer
      ensures buffer[..] == Filled(width * height, value)
    {
      var size := width * height;
      for i := 0 to size
        invariant forall k :: 0 <= k < i ==> buffer[k] == value
      {
        buffer[i] := value;
      }
    }

    /** Writes one cell without a bounds check: the caller must pass a cell of the buffer. */
    method Poke(index: int, value: uint32)
      requires Valid()
      requires 0 <= index < buffer.Length
      modifies buffer
      ensures buffer[..] == old(buffer[..])[index := value]
    {
      buffer[index] := value;
    }

    /** Writes `PointValue` at `p` when `p` lies in `[0, width) x [0, height)`,
        and does nothing otherwise. */
    method DrawPoint(p: Vec2)
      requires Valid()
      modifies buffer
      ensures buffer[..] == PointDrawn(old(buffer[..]), width, height, p)
      ensures !OnScreen(width, height, p) ==> buffer[..] == old(buffer[..])
      ensures OnScreen(width, height, p) ==>
        0 <= PointIndex(width, p) < buffer.Length &&
        buffer[PointIndex(width, p)] == PointValue &&
        forall j :: 0 <= j < buffer.Length && j != PointIndex(width, p) ==> buffer[j] == old(buffer[j])
    {
      if OnScreen(width, height, p) {
        OnScreenIsValidXY(width, height, p);
        Poke(PointIndex(width, p), PointValue);
      }
    }
  }

  /** A client of `Clear` showing idempotence: clearing twice with one value
      leaves the buffer as a single clear does. This already follows from
      `Clear`'s postcondition, which does not depend on the old contents. */
  method ClearTwice(d: Device, value: uint32)
    requires d.Valid()
    modifies d.buffer
    ensures d.buffer[..] == Filled(d.width * d.height, value)
  {
    d.Clear(value);
    ghost var once := d.buffer[..];
    d.Clear(value);
    assert d.buffer[..] == once;
  }
}
