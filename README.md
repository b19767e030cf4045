# Matrix product and Fibonacci fixtures, verified

The repository's fixture scripts hold two small algorithms, and this project
models both in Dafny:

- `matrixMultiply(A, B)` in `spec/fixtures/05.js`. This is the naive
  triple-loop product. It builds a fresh `result` array row by row. Every
  entry starts at 0 and then accumulates `A[i][k] * B[k][j]` for
  `k < A[0].length`. Module `Matrix` (`matrix.dfy`) models it:
  - `MatrixMultiply` is the outer loop. It allocates the result and one fresh
    row per row of `A`.
  - `ProductRow` is that loop's body, i.e. the `j` and `k` loops for one row.
  - Both are proved against the pure specification `Product`, which is built
    from the sum `Dot`.
  - Lemmas tie `Product` to matrix algebra: identity on both sides and
    associativity. They also cover the sample call, the empty left operand,
    and the fact that only the first `A[0].length` columns of `A` are used.
- `fibonacci(n)` in `spec/fixtures/08.rb`. This is the doubly recursive
  Fibonacci function. Module `Fibonacci` (`fibonacci.dfy`) models it as the
  recursive function `Fib` on unbounded integers. It is checked against an
  independent single-pass definition `FibPair`, and lemmas cover
  monotonicity and the sample value. The recurrence
  `Fib(n) == Fib(n - 1) + Fib(n - 2)` for `n >= 2` is `Fib`'s definition
  itself, the recursive case of `fibonacci`, so it needs no lemma of its own.

Shape precondition. The JavaScript never checks shapes. `Conformable` states
exactly what the loops read, so that nothing they read can be `undefined`:

- if `A` is empty, nothing of `B` is read;
- otherwise `B[0]` must exist;
- if `B[0]` has entries, then:
  - `B` must have at least `A[0].length` rows;
  - every row of `A` must be at least as long as `A[0]`;
  - every row `B[k]` with `k < A[0].length` must be at least as long as `B[0]`.

Apart from one case, this is weaker than "the column count of `A` equals
the row count of `B`". The code follows the weaker rule, and the model
follows the code. The exception is a shared dimension of 0: whenever `A` has
a row, `B` needs a row too. An m×0 times 0×p product with m > 0 throws when
it reads `B[0].length`, so `Conformable([[]], [])` is false. This is why
`RightIdentity` excludes a matrix with rows but no columns, and why
`Associativity` asks for non-zero inner dimensions.

Negative Fibonacci arguments. A reading of the function as "the n-th
Fibonacci number for n >= 0" would leave negative arguments undefined. The
code instead returns every `n <= 1` unchanged, negative values included, and
the model does the same (`Fib`).

## Model

| member | source | states |
|---|---|---|
| `Matrix.MatrixMultiply` | spec/fixtures/05.js:5-17 | The result has `A.length` rows. Each row has `B[0].length` entries. The result and all its rows are freshly allocated, and no two rows are the same array. Its value is `Product(A, B)`. The outer loop invariant says rows `0..i` are final once iteration `i` ends. |
| `Matrix.ProductRow` | spec/fixtures/05.js:8-14 | The fresh row `i` holds, at every column `j < B[0].length`, the sum over `k < A[0].length` of `A[i][k] * B[k][j]` (row `i` of `Product`). The loop invariants give the finished columns and the partial sum. |
| `Matrix.Sample` | spec/fixtures/05.js:20-28 | Running the method on the sample inputs returns `[[19, 22], [43, 50]]`. |
| `Matrix.SampleProduct` | spec/fixtures/05.js:20-28 | `[[1, 2], [3, 4]]` times `[[5, 6], [7, 8]]` is `[[19, 22], [43, 50]]`. |
| `Matrix.ProductOfEmpty` | spec/fixtures/05.js:7-9 | With no rows in `A`, every `B`, even an empty one, meets the precondition, and the result is empty. |
| `Matrix.ProductUsesLeadingColumns` | spec/fixtures/05.js:11-13 | Cutting every row of `A` to the length of `A[0]` gives a rectangular matrix with the same product: entries past `A[0].length` never count. |
| `Matrix.RightIdentity` | spec/fixtures/05.js:5-17 | `M` times the identity of its column count is `M`, and it meets the precondition. |
| `Matrix.LeftIdentity` | spec/fixtures/05.js:5-17 | The identity of the row count of `M`, times `M`, is `M`, and it meets the precondition. |
| `Matrix.Associativity` | spec/fixtures/05.js:5-17 | Take rectangular `m×n`, `n×p` and `p×q` matrices with `n, p > 0`. Every product involved meets the precondition, and `(A·B)·C == A·(B·C)`. |
| `Fibonacci.Fib` | spec/fixtures/08.rb:5-8 | `n <= 1` returns `n`. From `n >= 0` the result is non-negative; the proof needs the contract of both recursive calls. As a mathematical function it is total on the integers, because `n` decreases and recursion only happens at `n >= 2`. |
| `Fibonacci.FibMatchesSequence` | spec/fixtures/08.rb:5-8 | For every `n >= 0`, `(Fib(n), Fib(n + 1))` equals the pair from a single pass over the sequence seeded with 0 and 1. |
| `Fibonacci.FibMonotone` | spec/fixtures/08.rb:6-7 | For `0 <= m <= n`, `Fib(m) <= Fib(n)`. |
| `Fibonacci.FibTen` | spec/fixtures/08.rb:11 | `Fib(10) == 55`. |

## Left out

- JavaScript numbers are IEEE doubles. Matrix entries are Dafny `int`s here, which fits the integer sample data. Floating-point rounding and overflow to infinity are not modelled.
- Malformed shapes are excluded by the precondition `Conformable` instead of being modelled. In JavaScript, a row `A[i]` shorter than `A[0]` gives `NaN` entries, and so does a row `B[k]` shorter than `B[0]`, for `k < A[0].length`, because `B[k][j]` is then `undefined`. A missing `B[0]`, or a missing `B[k]` for `k < A[0].length`, throws a `TypeError`. The integer model has no `NaN` and no exception.
- JavaScript grows arrays by assignment (`result[i] = []`, then `result[i][j] = 0`). The model allocates `result` with `A.length` placeholder rows and each row with `B[0].length` zeros up front. Each entry is still set to 0 and then accumulated, as in the source.
- `MatrixMultiply` takes `A` and `B` as immutable values. That captures that the function only reads them. Aliasing between the inputs and other live arrays is therefore not expressed; the result is fresh, so it is distinct from anything that existed before the call.
- `console.log` of the sample result is output only. `Sample` returns the value instead.
- The `%%` cell-marker comments have no behaviour in these files. The plugin code that interprets them is not part of this model.
- spec/fixtures/01.py is not modelled. It uses random numbers, a one-line greeting wrapper, a class that only stores a field, and printing.
- Fib: Ruby's call stack is not modelled. The first chain of recursive calls goes about `n` frames deep before any call returns, so an argument in the tens of thousands raises `SystemStackError`, while the model returns a value for every integer. Non-Integer arguments such as Floats, which Ruby's `<=` and `-` also accept, are not modelled either: the argument is an `int`.
- The running time is not modelled: exponential for the recursion, and proportional to the product of the three loop bounds for the matrix product.
