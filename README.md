# Line sorter, modelled in Dafny

The program reads a text file line by line, removes six punctuation marks
(`. , ; : ! ?`) from every line, keeps the cleaned lines in a growable vector,
sorts them in descending byte order with `qsort` and a comparator that swaps
the arguments of `strcmp`, and prints the first 100 of them.

The model follows `src/sorter.c`, one module per part of it:

- `Filter` (filter.dfy): the `issortable` test, `strlen`, and the two passes
  that clean one buffer: a counting loop, then a right-to-left copy that
  uses `lineSize` as a decrementing write index. The copy is proved to
  leave `line[0..n)` equal to the order-preserving filter `Filtered` of the
  buffer, with `line[n] == '\0'`. Lemmas about `Filtered`: it distributes
  over concatenation, keeps only sortable characters, preserves each kept
  character's count, and is idempotent.
- `GrowableVector` (vector.dfy): the `Vector` struct as a class over an
  `array?<Line>` with `cap` and `size`. `Init`, `Push` and `Erase` are
  methods that change those fields. `Valid()` is the invariant: `items`
  is non-null, `items.Length == cap`, `0 < cap` and `size <= cap`.
  `Contents()` is `items[0..size)`.
- `Order` (order.dfy): `strcmp` on unsigned bytes, `linesCmp`, an in-place
  sort, a functional reference sort `SortDesc`, and lemmas about them. The
  lemmas prove that `strcmp` is antisymmetric, reflexive and transitive,
  that it agrees with dictionary order, and that it is 0 only for equal
  NUL-free strings. They also prove that a non-increasing permutation of
  NUL-free lines is unique. So `qsort`'s lack of stability cannot change
  the result, and the in-place sort provably returns `SortDesc` of its
  input.
- `Emit` (emit.dfy): `printFirstLines`.
- `Sorter` (sorter.dfy): `readAndParseInputFile` over a modelled input file,
  the pipeline of `main` (`Run`), and example scenarios.

A byte is modelled as the Dafny `char` whose code is the byte's unsigned
value, so comparing `c as int` is `strcmp`'s `unsigned char` comparison.
The input file is a sequence of chunks of the shape successive
`fgets(buf, 1000, f)` calls deliver on a file that contains no NUL byte.
Each chunk has 1 to 999 bytes, and a newline may appear only as its last
byte (`IsFgetsChunk`). Every chunk but the last ends in a newline or has
exactly 999 bytes (`WellFormed`). The file also records whether `fopen`
fails, whether the `fgets` loop ended on a read error, and whether `fclose`
fails. Whether the i-th `printf` succeeds is the parameter
`printOk(i)`, and the output is the sequence of strings printed.

Two behaviours of the code are easy to misread; the model follows the code:

- `issortable` does not exclude the newline, so every cleaned line keeps the
  newline `fgets` left in it, and the printed output keeps its line breaks.
  A line of punctuation only, such as `...,;:!?\n`, becomes `"\n"`, not
  `""`. A chunk of punctuation only is cleaned to `""` when it has no
  newline: the file's unterminated last line (`PunctuationOnlyScenario`), or
  a 999-byte piece that `fgets` cut from a longer line.
- When `fclose` fails, `readAndParseInputFile` reports the failure without
  erasing the vector (src/sorter.c:151).

## Model

| member | source | states |
|---|---|---|
| Filter.IsSortable | src/sorter.c:12 | `issortable(c)` holds exactly when `c` is not one of the six marks `. , ; : ! ?` |
| Filter.PunctuationIsRejected | src/sorter.c:12 | a character is rejected exactly when it is one of `. , ; : ! ?`; the newline and NUL are kept |
| Filter.FilteredAppend | src/sorter.c:122-125 | cleaning a concatenation is the concatenation of the cleaned parts |
| Filter.FilteredIsSortable | src/sorter.c:134-137 | a cleaned line contains only sortable characters and is no longer than its input |
| Filter.FilteredOfSortable | src/sorter.c:12 | a line made of sortable characters is left unchanged by cleaning |
| Filter.FilteredIdempotent | src/sorter.c:134-137 | cleaning a cleaned line returns it unchanged |
| Filter.FilteredCounts | src/sorter.c:134-137 | every sortable character occurs in the cleaned line as often as in the input, every other character not at all |
| Filter.FilteredNoNul | src/sorter.c:133-137 | a NUL-free input gives a NUL-free cleaned line |
| Filter.Strlen | src/sorter.c:119 | returns the index of the first NUL in the buffer |
| Filter.CountSortable | src/sorter.c:121-125 | the counting loop ends with `lineSize` equal to the number of sortable characters of `buf[0..bufSize)` |
| Filter.CopySortable | src/sorter.c:127-137 | the right-to-left copy brings `lineSize` down to 0 and leaves `line[0..n)` equal to the sortable characters of `buf[0..bufSize)` in their original order, with `line[n] == '\0'` |
| Filter.ParseChunk | src/sorter.c:119-137 | both passes together: a buffer of `n + 1` bytes holding the cleaned line and its terminator |
| GrowableVector.Vector.constructor | src/sorter.c:172 | a declared vector that is not yet initialised |
| GrowableVector.Vector.Init | src/sorter.c:53-65 | fails when `initCapacity == 0` or `malloc` fails; a zero capacity leaves the vector untouched, a failed `malloc` leaves `items` NULL with `cap` and `size` unchanged; otherwise an empty vector with `cap == initCapacity > 0` and the invariant |
| GrowableVector.Vector.Push | src/sorter.c:67-81 | `cap` doubles exactly when `size == cap`; on success `size` grows by one, the item is stored at the old `size`, earlier items are unchanged and the invariant holds; a failed `realloc` leaves `cap` doubled over the old array, breaking the invariant |
| GrowableVector.Vector.Erase | src/sorter.c:83-90 | `items` becomes NULL; `cap` and `size` keep their values |
| Order.Strcmp | src/sorter.c:166 | `strcmp` is 0 exactly when the two C strings, the bytes before each one's first NUL, are equal |
| Order.LinesCmp | src/sorter.c:166 | the sign of `linesCmp(a, b)` is the opposite of the sign of `strcmp(a, b)`, and both are 0 together |
| Order.StrcmpSwap | src/sorter.c:166 | swapping the arguments of `strcmp` flips the sign of its result and keeps a 0 result 0 |
| Order.StrcmpReflexive | src/sorter.c:166 | a string compares equal to itself |
| Order.StrcmpTransitive | src/sorter.c:166 | `strcmp(a, b) <= 0` and `strcmp(b, c) <= 0` imply `strcmp(a, c) <= 0` |
| Order.StrcmpZeroIffEqual | src/sorter.c:166 | on NUL-free strings `strcmp` is 0 exactly for equal strings |
| Order.LinesCmpIsDescending | src/sorter.c:166 | on NUL-free lines `linesCmp(a, b)` is negative exactly when `b` comes before `a` in dictionary order, and 0 exactly when `a == b` |
| Order.StrcmpIsLexicographic | src/sorter.c:166 | on NUL-free strings `strcmp` is negative exactly when the first string is a proper prefix of the second or has the smaller unsigned byte at the first difference |
| Order.AdjacentIsSorted | src/sorter.c:175 | when every pair of neighbours is in `linesCmp` order, every pair is |
| Order.SortDescCorrect | src/sorter.c:175 | the reference sort returns a non-increasing permutation of its input |
| Order.SortedUnique | src/sorter.c:175 | two non-increasing permutations of the same NUL-free lines are equal, so an unstable sort gives the same result |
| Order.SortedIsSortDesc | src/sorter.c:175 | every non-increasing permutation of NUL-free lines is the reference sort of them |
| Order.SortLines | src/sorter.c:175 | after the in-place sort, `a[0..n)` is a permutation of its old contents, non-increasing under `linesCmp`, and, for NUL-free lines, equal to the reference sort; slots from `n` on are untouched |
| Emit.PrintFirstLines | src/sorter.c:156-163 | prints `items[0..k)` with `k = min(100, size)` in index order and nothing else; it stops at the first `printf` that fails and reports the failure |
| Sorter.Fgets | src/sorter.c:118 | the chunk and its terminator are stored at the start of `buf` |
| Sorter.ReadAndParseInputFile | src/sorter.c:107-154 | `fopen` failure returns an error without touching the vector; a read error erases the vector, leaving `size` at the number of chunks loaded; otherwise the vector holds exactly one cleaned line per chunk in file order, and an `fclose` failure is reported after loading |
| Sorter.CleanedNoNul | src/sorter.c:119 | lines cleaned from `fgets` chunks contain no NUL |
| Sorter.Run | src/sorter.c:168-183 | a loading failure prints nothing and fails; otherwise the output is the longest prefix, up to the first failing `printf`, of the first `min(100, n)` lines of the cleaned chunks in non-increasing order |
| Sorter.PrintedAreGreatest | src/sorter.c:156-157 | the printed lines are `min(100, n)` of the loaded lines, and every unprinted line is at most every printed one |
| Sorter.CleanedWordLine | src/sorter.c:134-137 | a word followed by one punctuation mark and a newline is cleaned to the word and the newline |
| Sorter.FruitCleaning | src/sorter.c:118-137 | `banana!\n`, `apple.\n` and `cherry\n` are cleaned to `banana\n`, `apple\n` and `cherry\n` |
| Sorter.FruitSorting | src/sorter.c:175 | those three lines sort to `cherry\n`, `banana\n`, `apple\n` |
| Sorter.FruitOutput | src/sorter.c:156-163 | printing them writes `cherry\nbanana\napple\n`: the line breaks survive |
| Sorter.PunctuationOnlyScenario | src/sorter.c:12 | `...,;:!?\n` is cleaned to `"\n"`, and `...,;:!?` to `""`; the empty line sorts after every other line |

## Left out

- File and stream I/O (`fopen`, `fgets`, `ferror`, `fclose`, `printf`): these are library calls. They are replaced by the `InputFile` value and the `printOk` parameter. `Fgets` copies an already-delivered chunk into the buffer.
- How `fgets` splits a line longer than 999 bytes: the model starts from the chunks, which must have the shape `fgets` gives them on a NUL-free file (`WellFormed`).
- Input containing a NUL byte: `strlen` ends the chunk at the first NUL, so the bytes after it are dropped; `IsFgetsChunk` excludes such chunks.
- `getInputFilename`, the exit codes and the diagnostic text (`errprintf`, `stopRunIf`, `stopRunAndPrintErrIf`): plumbing. A failure is a `Status` value.
- `checkArgIsNotNull`: a Dafny reference cannot be null, so these checks cannot fail.
- ReadAndParseInputFile: allocation never fails inside the loader (the 16-slot `malloc`, each line's `malloc`, and `realloc` in `Vector_push`). Allocation failure is modelled only by the `mallocOk` and `reallocOk` parameters of `Vector.Init` and `Vector.Push`.
- SortLines: `qsort`'s own algorithm is not modelled; an insertion sort stands in for it. The result is the same, because `SortedUnique` shows the sorted permutation is unique.
- Memory ownership: which strings `Vector_erase` frees, and the leaks on the error paths, have no Dafny counterpart.
- Run: the return value of the final `Vector_erase` is not modelled, since it cannot fail for a non-null vector.
- `size_t` overflow of `cap * 2` and the `long long` cast of the copy index: integers are unbounded, and sizes are assumed small.
- Strcmp: C promises only the sign of `strcmp`'s result. The model returns the difference of the first differing bytes, and every contract uses only the sign.
