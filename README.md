# Field<V>: the grid container of a stable-fluid solver

This project models `Field<V>`, the generic 2D grid container of a small stable-fluid
simulator. A `Field<V>` holds a `row x col` grid of cells of type `V`. The cells sit in one
row-major buffer (a `std::vector<V>`) of `row * col` entries. `row` and `col` are `const`,
and no member function resizes the buffer. The container offers three operations:

- a constructor that value-initialises every cell;
- `operator[](Index2D{x, y})`, which gives a mutable reference to the cell at flat position
  `x * col + y`. Its only guard is an assertion that this position is below `row * col`;
- `ForEach(f)`, a nested loop over rows and then columns. It keeps a running position
  `pos == i * col + j` and calls `f(cell, i, j)` on every cell in place.

The model has two modules:

- `Layout` (layout.dfy) holds the index arithmetic. It proves that the row-major
  mapping is a bijection between `[0,row) x [0,col)` and `[0,row*col)`. It also covers
  what the flat-position check admits, and the order in which `ForEach` visits the cells.
- `Mats` (field.dfy) holds the class `Field<V>`. It is generic over an opaque cell
  type `V`, and its `const` buffer `data: array<V>` is updated in place. The abstract
  state is exposed in two ways: `Cells()` gives the flat buffer, and `Grid()` gives the
  same cells as a `row x col` matrix. `operator[]` becomes two methods: `Get` reads
  through the reference and `Set` writes through it. The `ForEach` callback is a pure
  function `(V, int, int) -> V`, and the method returns a ghost trace of the coordinates
  in the order they were handed to `f`.

## Model

| member | source | states |
|---|---|---|
| `Layout.PosInRange` | include/mats.hpp:36 | every coordinate with `x < row` and `y < col` has a flat position `x * col + y` below `row * col` |
| `Layout.PosInjective` | include/mats.hpp:36 | two in-range coordinates with the same flat position are the same coordinate |
| `Layout.UnflattenPos` | include/mats.hpp:36 | dividing a flat position by `col` recovers the coordinate (row = quotient, column = remainder) |
| `Layout.PosUnflatten` | include/mats.hpp:36-37 | every position below `row * col` is the flat position of the coordinate `(p / col, p % col)`, whose row is below `row` and column below `col`, so the mapping is onto (with `Layout.PosInjective`, a bijection) |
| `Layout.NormalizeSameCell` | include/mats.hpp:35-37 | an index that passes the flat-position check has `x < row`; when `y >= col` it denotes the same cell as `(x + y / col, y % col)`, which is in range; an index with `y < col` denotes itself |
| `Layout.WrappedCheckAdmitsRowOutOfRange` | include/mats.hpp:36-37 | with 64-bit `size_t` wrap-around, index `(2^63, 0)` on a 1 x 2 field passes the assertion as written and wraps to position 0, i.e. cell `(0, 0)`, although its row is out of range |
| `Layout.WrappedAgreesWithoutOverflow` | include/mats.hpp:36-37 | when neither `x * col + y` nor `row * col` overflows, the wrapped check and the unbounded check accept the same indices |
| `Layout.RowMajor` | include/mats.hpp:28-29 | the visiting order of the nested loop (all rows, and within a row all columns) has exactly `row * col` entries |
| `Layout.RowMajorAt` | include/mats.hpp:28-31 | the `p`-th coordinate visited is the one whose flat position is `p`, so the running counter `pos` and the pair `(i, j)` always name the same cell |
| `Layout.RowMajorExactlyOnce` | include/mats.hpp:28-31 | every in-range coordinate is visited exactly once, at the step equal to its flat position |
| `Mats.TransformedAt` | include/mats.hpp:28-30 | the cell handed to `f` together with `(i, j)` is the cell at `i * col + j`, the one `operator[]({i, j})` names; that cell receives `f(old value, i, j)` |
| `Mats.RowsTransformed` | include/mats.hpp:27-32 | the flat in-place walk equals the matrix-level update in which every cell `(i, j)` becomes `f(old(i, j), i, j)` |
| `Mats.RowsUpdate` | include/mats.hpp:35-38 | writing one flat position changes exactly the matrix cell at that coordinate and leaves every other cell unchanged |
| `Mats.Field.constructor` | include/mats.hpp:20-24 | the new field has the given `row` and `col` and exactly `row * col` cells, and every cell holds the value-initialised `V{}`, given as `zero` (for cell types whose value-initialisation yields one fixed value) |
| `Mats.Field.Get` | include/mats.hpp:35-38 | for an index that passes the flat-position check, the result is the matrix cell it denotes: `(x, y)` when `y < col`, otherwise the aliased cell `(x + y / col, y % col)` |
| `Mats.Field.Set` | include/mats.hpp:35-38 | writing through the reference changes only flat position `x * col + y`, i.e. only the matrix cell the index denotes; shape and cell count are unchanged |
| `Mats.Field.ForEach` | include/mats.hpp:26-33 | afterwards every cell `(i, j)` holds `f(old(i, j), i, j)`; `f` is called once per cell in row-major order; the cell count is unchanged |

In the source, `row` and `col` are `const` (include/mats.hpp:20-21), and the buffer
`m_data` (include/mats.hpp:46) is not `const` but no member function resizes or replaces it.
The model captures this by declaring its own Dafny fields `row`, `col` and the array `data`
as `const`, so every method may change only the elements of `data`.

## Left out

- `Field::data()` (include/mats.hpp:41-43) is not modelled. It returns a byte view of the storage made with `reinterpret_cast`, which is a matter of representation, not behaviour.
- The Eigen cell types `Vec2f`, `Vec3f`, `Vec3u8` and `Vec4u8` (include/mats.hpp:7-10) are not modelled. They are foreign library types; the cell type is the opaque `V`. The `std::is_standard_layout_v<V>` constraint is compile-time only.
- Mats.Field.constructor: value-initialisation `V{}` is passed in as the parameter `zero`, because an opaque type has no default value that can be named. `zero` stands for `V{}` only for cell types whose value-initialisation gives one fixed value (scalars, aggregates). For the Eigen fixed-size vector types the program actually stores (fluid_solver.cpp:6-9), value-initialisation runs Eigen's default constructor, which leaves the coefficients uninitialised; the cells are then neither zero nor necessarily equal, which the model does not describe. The product `row * col` is taken unbounded, without modelling its `size_t` overflow.
- Mats.Field.ForEach: the callback is a pure function of the cell and its coordinate. It cannot have side effects on other state or throw, and the `noexcept` propagation is not modelled. The coordinates are passed as unbounded integers; the narrowing of `size_t` to `int` for grids with more than 2^31 rows or columns is not modelled.
- Mats.Field.Get and Mats.Field.Set: the `assert` of `operator[]` becomes the precondition `Layout.InBounds`, the check on the unbounded position `x * col + y`. This is stricter than the assertion as written (`Layout.InBoundsAsWritten`), which admits some indices whose position wraps in `size_t`; that case is the row under "## Findings" (`Layout.WrappedCheckAdmitsRowOutOfRange`), and `Layout.WrappedAgreesWithoutOverflow` shows the two checks agree whenever nothing overflows. Builds with `NDEBUG` drop the assertion, so there an out-of-range position is undefined behaviour, which the model does not describe. The returned reference is modelled by a separate read and write; aliasing of a reference held across other updates is not modelled.
- The fluid solver (fluid_solver.cpp, include/fluid_solver.h) is not modelled. All of its stages (`SolveStep`, `Advection`, `Reset`, `ExternalForce`, `Projection`, `UdpateVelocity`, `UpdateDye`) have empty bodies. Its constructor builds six `Field`s of the given shape (fluid_solver.cpp:17-20, 24), the only constructions of `Field` in the program, and sets the dye colour and two floating-point defaults (decay 0.98, time step 0.04); its stages have empty bodies.
- The window, Direct3D device, texture and ImGui rendering code (gui.cpp, include/gui.h) is not modelled, and neither is the interactive main loop with its timing and title text (main.cpp). All of it is foreign I/O.
- Moves are not modelled: `Field` declares no copy or move operations, so the implicit move constructor copies `row`/`col` and moves `m_data`, leaving the moved-from `Field` with its shape but an empty buffer. The model's `Valid()` describes only fields that have not been moved from.
- `Field` in include/mats.hpp has no clamped sampling, neighbour sum, fill, buffer swap or read-only span, so none is modelled.
- `ForEach` is a sequential row-major loop (include/mats.hpp:28-31), not a parallel or unordered one, and nothing checks that the dimensions are positive: a zero dimension gives an empty field (include/mats.hpp:24).
- `operator[]` never compares `y` with `col` (include/mats.hpp:36-37); see `Layout.NormalizeSameCell` for what such an index denotes.

## Findings

| source | as written | input that shows it | evidently intended | confidence | as-written member | corrected member |
|---|---|---|---|---|---|---|
| include/mats.hpp:36-37 | `index.x * col + index.y` is computed in `size_t` and wraps modulo 2^64 before the assertion compares it with `m_data.size()` | a 1 x 2 field and `Index2D{2^63, 0}`: the position wraps to 0, the assertion passes, and cell `(0, 0)` is returned for a row far out of range | the assertion should reject every index whose unbounded flat position is at or past `row * col`; any index it accepts then has `x < row` | medium; not executed | `Layout.WrappedCheckAdmitsRowOutOfRange` | `Layout.NormalizeSameCell` |
