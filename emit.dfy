/**
 * `printFirstLines`: the first `min(MAX_LINES_NUMBER_TO_PRINT, size)` items
 * are printed with `printf("%s", ...)`, in index order. Standard output is
 * modelled as the sequence of strings written; its bytes are their
 * concatenation, with no separator added. Whether the i-th `printf` call
 * succeeds is the parameter `printOk(i)`.
 */
module Emit {
  import opened GrowableVector

  const MaxLinesToPrint: nat := 100

  function Min(a: nat, b: nat): nat {
    if a < b then a else b
  }

  /** The lines `printFirstLines` is asked to print. */
  function FirstLines(s: seq<Line>): seq<Line> {
    s[..Min(MaxLinesToPrint, |s|)]
  }

  /** The bytes that reach standard output when `lines` are printed one after
      the other with `%s`. */
  function Stdout(lines: seq<Line>): seq<char> {
    if lines == [] then [] else lines[0] + Stdout(lines[1..])
  }

  /** `out` is what printing `todo` in order writes when call `i` succeeds
      exactly when `printOk(i)`: the longest prefix of `todo` whose calls all
      succeed, with `failed` set when a call failed and the rest was skipped. */
  ghost predicate PrintedPrefix(todo: seq<Line>, printOk: nat -> bool, out: seq<Line>, failed: bool) {
    && |out| <= |todo|
    && out == todo[..|out|]
    && (forall i :: 0 <= i < |out| ==> printOk(i))
    && (failed <==> |out| < |todo|)
    && (failed ==> !printOk(|out|))
  }

  /** `printFirstLines`: writes `items[0..k)` for `k = min(100, size)` and
      nothing else, stopping at the first `printf` that fails. */
  method PrintFirstLines(lines: Vector, printOk: nat -> bool) returns (out: seq<Line>, err: bool)
    requires lines.Valid()
    ensures PrintedPrefix(FirstLines(lines.Contents()), printOk, out, err)
    ensures !err ==> out == FirstLines(lines.Contents())
  {
    var size := if MaxLinesToPrint < lines.size then MaxLinesToPrint else lines.size;
    out := [];
    var i := 0;
    while i < size
      invariant i <= size <= lines.size
      invariant out == lines.Contents()[..i]
      invariant forall k :: 0 <= k < i ==> printOk(k)
    {
      if !printOk(i) {
        return out, true;
      }
      out := out + [lines.items[i]];
      i := i + 1;
    }
    err := false;
  }
}
