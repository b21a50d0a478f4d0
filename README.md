# SoftRenderer framebuffer, modelled in Dafny

This project models the CPU framebuffer of the SoftRenderer program (`video::device`)
and the two small value types beside it (`video::color`, `video::mesh`), all in
`SoftRenderer/main.cpp`.

The device owns a row-major array of `width * height` packed 32-bit pixels. It can
clear every cell to one value (opaque black `0xFF000000` by default), write one cell
by index without a check (`poke`), map a column and row to an index
(`index_from_xy`, `width * y + x`), and plot a screen point in `0xFFFFFF00`. A point
outside `[0, width) x [0, height)` is dropped.

Files:

- `numeric.dfy` (module `Numeric`): the `uint8` and `uint32` types and the range of a 32-bit `int`.
- `color.dfy` (module `Colors`): the colour record and its constructor, whose alpha defaults to 255.
- `mesh.dfy` (module `Meshes`): `glm::vec3` as a record of reals, and the `Mesh` class, whose constructor copies the vertex array.
- `framebuffer.dfy` (module `Framebuffer`): the index map and its inverse, the spec functions `Filled` (what clear leaves) and `PointDrawn` (what draw_point leaves), and the `Device` class with its constructor, `Clear`, `Poke` and `DrawPoint`.

`Device` keeps `width`, `height` and `buffer` as `const` fields, because the source
never reassigns them after construction. Only the contents of the buffer change,
so every mutating method has `modifies buffer`. Each method's `ensures` gives the
whole new buffer as a function of the old one. The lemmas state what those
functions mean.

Floats are idealised as reals. The C++ `(int)` cast is modelled as `Truncate`,
which rounds toward zero. After the range test both coordinates are
non-negative, so truncation there is the same as `Floor`.

This revision of `main.cpp` has no depth buffer, line drawing, triangle filling,
colour packing or resizing. `index_from_xy` performs no bounds check, and
`draw_point` does its own range test.

## Model

| member | source | states |
|---|---|---|
| `Colors.NewColor` | SoftRenderer/main.cpp:31-41 | the colour stores the given red, green, blue and alpha channels |
| `Colors.DefaultAlphaIsOpaque` | SoftRenderer/main.cpp:38 | leaving out alpha gives the same colour as passing 255 |
| `Meshes.Prefix` | SoftRenderer/main.cpp:66-68 | what `n` successive `push_back`s of the array's elements build: `max(n, 0)` vertices, the i-th equal to the array's i-th, in order |
| `Meshes.Mesh.constructor` | SoftRenderer/main.cpp:62-69 | the vertex list is the first `vertCount` vertices of the array, in order (empty when the count is not positive); position and rotation are the zero vector |
| `Framebuffer.Device.constructor` | SoftRenderer/main.cpp:78-82 | records width and height and allocates a fresh buffer of exactly `width * height` cells (both dimensions and their product must fit a 32-bit `int`) |
| `Framebuffer.IndexFromXY` | SoftRenderer/main.cpp:96 | the index `width * y + x` of column `x`, row `y`; the four lemmas below state its range and that it is a bijection between valid coordinates and cells |
| `Framebuffer.IndexInRange` | SoftRenderer/main.cpp:96 | for `0 <= x < width` and `0 <= y < height`, `width * y + x` lies in `[0, width * height)`, and so does the intermediate product `width * y`, so nothing overflows |
| `Framebuffer.IndexRoundTrip` | SoftRenderer/main.cpp:96 | `index % width` and `index / width` give back the column and row of a valid coordinate |
| `Framebuffer.IndexOnto` | SoftRenderer/main.cpp:96 | every cell of the buffer is the index of a valid coordinate, namely its column and row, so the index map is a bijection onto the buffer |
| `Framebuffer.IndexInjective` | SoftRenderer/main.cpp:96 | distinct valid coordinates give distinct indices |
| `Framebuffer.Truncate` | SoftRenderer/main.cpp:122 | the `(int)` cast rounds toward zero, ending less than 1 from the value, and equals `Floor` for non-negative values |
| `Framebuffer.OnScreen` | SoftRenderer/main.cpp:121 | the range test of `draw_point`: `0 <= x < width` and `0 <= y < height` on the unconverted coordinates |
| `Framebuffer.PointIndex` | SoftRenderer/main.cpp:122 | the cell `draw_point` writes: the index of the truncated coordinates |
| `Framebuffer.OnScreenIsValidXY` | SoftRenderer/main.cpp:121-122 | a point that passes the range test truncates to a valid coordinate, whose index is a cell of the buffer |
| `Framebuffer.PointDrawn` | SoftRenderer/main.cpp:119-124 | the buffer after `draw_point`: on screen, the buffer with the point's cell set to `0xFFFFFF00`; otherwise the buffer unchanged |
| `Framebuffer.DrawPointOnScreen` | SoftRenderer/main.cpp:119-124 | for an on-screen point, the cell at `width * floor(y) + floor(x)` becomes `0xFFFFFF00` and every other cell keeps its value |
| `Framebuffer.DrawPointOffScreen` | SoftRenderer/main.cpp:121 | for a point outside `[0, width) x [0, height)` the buffer is unchanged |
| `Framebuffer.Filled` | SoftRenderer/main.cpp:106-112 | what clear leaves in a buffer of `n` cells, built one cell per step as the loop does: exactly `n` cells, every one equal to the value |
| `Framebuffer.ClearThenDrawPoint` | SoftRenderer/main.cpp:106-124 | after clearing to a value other than `0xFFFFFF00` and drawing one on-screen point, exactly the point's cell holds `0xFFFFFF00` |
| `Framebuffer.Device.Clear` | SoftRenderer/main.cpp:106-112 | every one of the `width * height` cells holds the value afterwards, whatever was there before; the value defaults to `0xFF000000` |
| `Framebuffer.Device.Poke` | SoftRenderer/main.cpp:114-117 | cell `index` holds the value and every other cell is unchanged; the index must lie in the buffer because the source does not check it |
| `Framebuffer.Device.DrawPoint` | SoftRenderer/main.cpp:119-124 | the new buffer is `PointDrawn` of the old one: on screen exactly the point's cell becomes `0xFFFFFF00`; off screen nothing changes and no cell is accessed |
| `Framebuffer.ClearTwice` | SoftRenderer/main.cpp:106-112 | a client of `Clear`: two clears with one value leave the buffer exactly as one clear does |

## Left out

- `device::project` (SoftRenderer/main.cpp:126-133): a matrix-vector product and viewport mapping in float arithmetic through glm, a library that is not part of this model.
- `device::render` (SoftRenderer/main.cpp:140-161): built on glm's `lookAt`, `perspective`, `rotate` and `translate`. It calls `draw_point` once for each vertex of each mesh. The world matrix it computes from each mesh's position and rotation is never used, so of `render`'s arguments only the camera and the mesh vertices affect what is drawn.
- `device::create_surface` (SoftRenderer/main.cpp:135-138): a thin wrapper over SDL.
- The destructor (SoftRenderer/main.cpp:84-87): memory management only. It releases an array with `delete` rather than `delete[]`.
- `camera` (SoftRenderer/main.cpp:44-48): plain data with no logic.
- `main` (SoftRenderer/main.cpp:170-250): window creation, the event loop and presentation through SDL, a console dump of the cube's vertices (SoftRenderer/main.cpp:192-195), and the per-frame animation that adds small steps to the camera's and the mesh's fields (SoftRenderer/main.cpp:227-231).
- Framebuffer.Device.constructor: the precondition excludes negative dimensions, dimensions outside the 32-bit `int` range, and a product `width * height` above the largest 32-bit `int`. In C++, a negative size makes `new[]` throw, two negative dimensions would allocate a buffer whose size does not match them, and an overflowing product is undefined behaviour.
- Framebuffer.Device.constructor: the contents of a freshly allocated buffer are not specified, matching the uninitialised `new uint32[...]`.
- Framebuffer.Truncate: floats are idealised as reals. So there is no NaN or infinity, and there is no rounding in the comparison of a float with `width` and `height`.
- Framebuffer.IndexInRange: `index_from_xy` is modelled on unbounded integers. Its 32-bit overflow for coordinates far outside the buffer is not modelled; for valid coordinates the lemma proves that no overflow happens.
