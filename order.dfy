/**
 * Descending order of the lines: `strcmp` on unsigned bytes, the comparator
 * `linesCmp` with its arguments swapped, and the sort `main` runs with it.
 */
module Order {
  import opened Filter
  import opened GrowableVector

  /** The byte `strcmp` reads at the head of a C string whose contents are
      `s`: its first byte, or the terminator once `s` is used up. */
  function Head(s: seq<char>): int {
    if s == [] then 0 else s[0] as int
  }

  /** The C string stored in `s`: the bytes before its first NUL. */
  function UpToNul(s: seq<char>): seq<char>
    decreases |s|
  {
    if Head(s) == 0 then [] else [s[0]] + UpToNul(s[1..])
  }

  /** `strcmp` on the C strings whose contents are `a` and `b`: the
      difference of the first pair of unsigned bytes that differ, or 0 when
      both reach a terminator together. It is 0 exactly when the two C
      strings are equal. */
  function Strcmp(a: seq<char>, b: seq<char>): (r: int)
    ensures r == 0 <==> UpToNul(a) == UpToNul(b)
    decreases |a|
  {
    if Head(a) != Head(b) then
      assert Head(a) != 0 ==> UpToNul(a)[0] as int == Head(a);
      assert Head(b) != 0 ==> UpToNul(b)[0] as int == Head(b);
      Head(a) - Head(b)
    else if Head(a) == 0 then 0
    else
      assert a[0] == b[0];
      assert UpToNul(a)[1..] == UpToNul(a[1..]) && UpToNul(b)[1..] == UpToNul(b[1..]);
      Strcmp(a[1..], b[1..])
  }

  /** `linesCmp`: `strcmp` with its arguments swapped, so that `qsort`
      places the greater string first: its sign is the opposite of
      `strcmp(a, b)`'s. */
  function LinesCmp(a: Line, b: Line): (r: int)
    ensures r < 0 <==> Strcmp(a, b) > 0
    ensures r > 0 <==> Strcmp(a, b) < 0
    ensures r == 0 <==> Strcmp(a, b) == 0
  {
    StrcmpSwap(a, b);
    Strcmp(b, a)
  }

  /** Dictionary order: `a` is a proper prefix of `b`, or `a` has the smaller
      byte at the first position where the two differ. */
  ghost predicate LexLess(a: seq<char>, b: seq<char>) {
    (|a| < |b| && a == b[..|a|]) ||
    exists k :: 0 <= k < |a| && k < |b| && a[..k] == b[..k] && a[k] < b[k]
  }

  lemma {:induction false} StrcmpSwap(a: seq<char>, b: seq<char>)
    ensures Strcmp(b, a) < 0 <==> Strcmp(a, b) > 0
    ensures Strcmp(b, a) == 0 <==> Strcmp(a, b) == 0
    decreases |a|
  {
    if Head(a) == Head(b) && Head(a) != 0 {
      StrcmpSwap(a[1..], b[1..]);
    }
  }

  lemma StrcmpReflexive(a: seq<char>)
    ensures Strcmp(a, a) == 0
  {
  }

  lemma {:induction false} StrcmpTransitive(a: seq<char>, b: seq<char>, c: seq<char>)
    requires Strcmp(a, b) <= 0 && Strcmp(b, c) <= 0
    ensures Strcmp(a, c) <= 0
    decreases |a|
  {
    if Head(a) == Head(b) && Head(b) == Head(c) && Head(a) != 0 {
      StrcmpTransitive(a[1..], b[1..], c[1..]);
    }
  }

  /** On NUL-free strings (the only ones the loader produces) `strcmp`
      returns 0 exactly for equal strings. */
  lemma {:induction false} StrcmpZeroIffEqual(a: seq<char>, b: seq<char>)
    requires NoNul(a) && NoNul(b)
    ensures Strcmp(a, b) == 0 <==> a == b
    decreases |a|
  {
    if a == b {
      StrcmpReflexive(a);
    } else if a != [] && b != [] && a[0] == b[0] {
      assert NoNul(a[1..]) && NoNul(b[1..]);
      assert a[0] as int != 0;
      StrcmpZeroIffEqual(a[1..], b[1..]);
      assert a == [a[0]] + a[1..] && b == [b[0]] + b[1..];
    } else if a != [] && b != [] {
      assert Head(a) != Head(b);
    } else if a == [] {
      assert b[0] as int != 0;
    } else {
      assert a[0] as int != 0;
    }
  }

  lemma LexLessTail(a: seq<char>, b: seq<char>)
    requires a != [] && b != [] && a[0] == b[0]
    ensures LexLess(a, b) <==> LexLess(a[1..], b[1..])
  {
    if LexLess(a[1..], b[1..]) {
      if |a[1..]| < |b[1..]| && a[1..] == b[1..][..|a[1..]|] {
        assert a == b[..|a|] by {
          assert a == [a[0]] + a[1..];
          assert b[..|a|] == [b[0]] + b[1..][..|a[1..]|];
        }
      } else {
        var k :| 0 <= k < |a[1..]| && k < |b[1..]| && a[1..][..k] == b[1..][..k] && a[1..][k] < b[1..][k];
        assert a[..k + 1] == [a[0]] + a[1..][..k];
        assert b[..k + 1] == [b[0]] + b[1..][..k];
        assert a[k + 1] < b[k + 1];
      }
    }
    if LexLess(a, b) {
      if |a| < |b| && a == b[..|a|] {
        assert b[1..][..|a| - 1] == b[..|a|][1..];
        assert a[1..] == b[1..][..|a[1..]|];
      } else {
        var k :| 0 <= k < |a| && k < |b| && a[..k] == b[..k] && a[k] < b[k];
        assert k != 0;
        assert a[1..][..k - 1] == a[..k][1..];
        assert b[1..][..k - 1] == b[..k][1..];
        assert a[1..][k - 1] < b[1..][k - 1];
      }
    }
  }

  /** On NUL-free strings, `strcmp` is negative exactly when the first string
      comes first in dictionary order of unsigned bytes. */
  lemma {:induction false} StrcmpIsLexicographic(a: seq<char>, b: seq<char>)
    requires NoNul(a) && NoNul(b)
    ensures Strcmp(a, b) < 0 <==> LexLess(a, b)
    decreases |a|
  {
    if a == [] {
      if b != [] {
        assert b[0] as int != 0;
        assert a == b[..0];
      }
    } else if b == [] {
      assert a[0] as int != 0;
    } else if a[0] == b[0] {
      assert a[0] as int != 0;
      assert NoNul(a[1..]) && NoNul(b[1..]);
      StrcmpIsLexicographic(a[1..], b[1..]);
      LexLessTail(a, b);
    } else {
      if a[0] < b[0] {
        assert a[..0] == b[..0];
      } else if LexLess(a, b) {
        if !(|a| < |b| && a == b[..|a|]) {
          var k :| 0 <= k < |a| && k < |b| && a[..k] == b[..k] && a[k] < b[k];
          if k > 0 {
            assert a[..k][0] == b[..k][0];
          }
        }
      }
    }
  }

  /** On NUL-free lines `linesCmp` is reverse dictionary order: `a` goes
      before `b` exactly when `b` comes first in dictionary order, and the
      two tie exactly when they are the same line. */
  lemma LinesCmpIsDescending(a: Line, b: Line)
    requires NoNul(a) && NoNul(b)
    ensures LinesCmp(a, b) < 0 <==> LexLess(b, a)
    ensures LinesCmp(a, b) == 0 <==> a == b
  {
    StrcmpIsLexicographic(b, a);
    StrcmpZeroIffEqual(b, a);
  }

  /** Every pair of lines, not only neighbours, is in `qsort` order. */
  predicate SortedDesc(s: seq<Line>) {
    forall i, j :: 0 <= i < j < |s| ==> LinesCmp(s[i], s[j]) <= 0
  }

  predicate AdjacentSortedDesc(s: seq<Line>) {
    forall k :: 0 < k < |s| ==> LinesCmp(s[k - 1], s[k]) <= 0
  }

  predicate AllNoNul(s: seq<Line>) {
    forall i :: 0 <= i < |s| ==> NoNul(s[i])
  }

  lemma {:induction false} AdjacentPair(s: seq<Line>, i: nat, j: nat)
    requires AdjacentSortedDesc(s) && i < j < |s|
    ensures LinesCmp(s[i], s[j]) <= 0
    decreases j - i
  {
    if i + 1 < j {
      AdjacentPair(s, i, j - 1);
      StrcmpTransitive(s[j], s[j - 1], s[i]);
    }
  }

  /** By transitivity, neighbours in order means every pair in order. */
  lemma AdjacentIsSorted(s: seq<Line>)
    requires AdjacentSortedDesc(s)
    ensures SortedDesc(s)
  {
    forall i, j | 0 <= i < j < |s|
      ensures LinesCmp(s[i], s[j]) <= 0
    {
      AdjacentPair(s, i, j);
    }
  }

  /** Reference definition of the sorted result: insertion sort into a
      non-increasing sequence. */
  function Insert(x: Line, s: seq<Line>): seq<Line> {
    if s == [] || LinesCmp(x, s[0]) <= 0 then [x] + s
    else [s[0]] + Insert(x, s[1..])
  }

  function SortDesc(s: seq<Line>): seq<Line> {
    if s == [] then [] else Insert(s[0], SortDesc(s[1..]))
  }

  lemma AdjacentCons(y: Line, t: seq<Line>)
    ensures AdjacentSortedDesc([y] + t) <==>
      AdjacentSortedDesc(t) && (t == [] || LinesCmp(y, t[0]) <= 0)
  {
    var s := [y] + t;
    if AdjacentSortedDesc(s) {
      forall k | 0 < k < |t| ensures LinesCmp(t[k - 1], t[k]) <= 0 {
        assert s[k] == t[k - 1] && s[k + 1] == t[k];
      }
      if t != [] {
        assert s[0] == y && s[1] == t[0];
      }
    }
  }

  lemma {:induction false} InsertPermutes(x: Line, s: seq<Line>)
    ensures multiset(Insert(x, s)) == multiset{x} + multiset(s)
  {
    if s != [] && LinesCmp(x, s[0]) > 0 {
      InsertPermutes(x, s[1..]);
      assert s == [s[0]] + s[1..];
    }
  }

  lemma {:induction false} InsertSorted(x: Line, s: seq<Line>)
    requires AdjacentSortedDesc(s)
    ensures AdjacentSortedDesc(Insert(x, s))
  {
    if s == [] || LinesCmp(x, s[0]) <= 0 {
      AdjacentCons(x, s);
    } else {
      assert s == [s[0]] + s[1..];
      AdjacentCons(s[0], s[1..]);
      InsertSorted(x, s[1..]);
      var t := Insert(x, s[1..]);
      StrcmpSwap(s[0], x);
      if s[1..] == [] || LinesCmp(x, s[1..][0]) <= 0 {
        assert t[0] == x;
      } else {
        assert t[0] == s[1..][0];
      }
      AdjacentCons(s[0], t);
    }
  }

  /** The reference sort yields a non-increasing permutation of its input. */
  lemma {:induction false} SortDescCorrect(s: seq<Line>)
    ensures SortedDesc(SortDesc(s))
    ensures multiset(SortDesc(s)) == multiset(s)
  {
    SortDescAdjacent(s);
    AdjacentIsSorted(SortDesc(s));
  }

  lemma {:induction false} SortDescAdjacent(s: seq<Line>)
    ensures AdjacentSortedDesc(SortDesc(s))
    ensures multiset(SortDesc(s)) == multiset(s)
  {
    if s != [] {
      SortDescAdjacent(s[1..]);
      InsertSorted(s[0], SortDesc(s[1..]));
      InsertPermutes(s[0], SortDesc(s[1..]));
      assert s == [s[0]] + s[1..];
    }
  }

  lemma MultisetNoNul(s: seq<Line>, t: seq<Line>)
    requires multiset(s) == multiset(t) && AllNoNul(s)
    ensures AllNoNul(t)
  {
    forall i | 0 <= i < |t| ensures NoNul(t[i]) {
      assert t[i] in multiset(t);
      var j :| 0 <= j < |s| && s[j] == t[i];
    }
  }

  lemma SortedTail(s: seq<Line>)
    requires SortedDesc(s) && s != []
    ensures SortedDesc(s[1..])
  {
  }

  /** The first line of a non-increasing sequence is at least every line
      of it. */
  lemma SortedHeadIsGreatest(s: seq<Line>, x: Line)
    requires SortedDesc(s) && x in multiset(s)
    ensures Strcmp(x, s[0]) <= 0
  {
    var j :| 0 <= j < |s| && s[j] == x;
    if j > 0 {
      assert LinesCmp(s[0], s[j]) <= 0;
    } else {
      StrcmpReflexive(x);
    }
  }

  lemma SortedHeadsEqual(s: seq<Line>, t: seq<Line>)
    requires SortedDesc(s) && SortedDesc(t) && s != [] && t != []
    requires multiset(s) == multiset(t)
    requires NoNul(s[0]) && NoNul(t[0])
    ensures s[0] == t[0]
  {
    assert s[0] in multiset(t) && t[0] in multiset(s);
    SortedHeadIsGreatest(t, s[0]);
    SortedHeadIsGreatest(s, t[0]);
    StrcmpSwap(s[0], t[0]);
    StrcmpZeroIffEqual(s[0], t[0]);
  }

  /** Removing the same first line from two permutations of each other
      leaves permutations of each other. */
  lemma MultisetTails(s: seq<Line>, t: seq<Line>)
    requires s != [] && t != [] && s[0] == t[0] && multiset(s) == multiset(t)
    ensures multiset(s[1..]) == multiset(t[1..])
  {
    assert s == [s[0]] + s[1..] && t == [t[0]] + t[1..];
    assert multiset(s) == multiset{s[0]} + multiset(s[1..]);
    assert multiset(t) == multiset{t[0]} + multiset(t[1..]);
    assert multiset(s[1..]) == multiset(s) - multiset{s[0]};
    assert multiset(t[1..]) == multiset(t) - multiset{t[0]};
  }

  lemma NoNulTail(s: seq<Line>)
    requires s != [] && AllNoNul(s)
    ensures AllNoNul(s[1..])
  {
    forall i | 0 <= i < |s| - 1 ensures NoNul(s[1..][i]) {
      assert s[1..][i] == s[i + 1];
    }
  }

  /** Two non-increasing permutations of the same NUL-free lines are equal:
      although `qsort` is not stable, lines that compare equal are the same
      string, so the sorted result does not depend on the sort used. */
  lemma {:induction false} SortedUnique(s: seq<Line>, t: seq<Line>)
    requires SortedDesc(s) && SortedDesc(t)
    requires multiset(s) == multiset(t)
    requires AllNoNul(s)
    ensures s == t
    decreases |s|
  {
    assert |s| == |multiset(s)| == |t|;
    if s != [] {
      MultisetNoNul(s, t);
      SortedHeadsEqual(s, t);
      MultisetTails(s, t);
      SortedTail(s);
      SortedTail(t);
      NoNulTail(s);
      SortedUnique(s[1..], t[1..]);
    }
  }

  /** Any non-increasing permutation of NUL-free lines is the reference
      sort of them. */
  lemma SortedIsSortDesc(s: seq<Line>, orig: seq<Line>)
    requires SortedDesc(s) && multiset(s) == multiset(orig) && AllNoNul(orig)
    ensures s == SortDesc(orig)
  {
    SortDescCorrect(orig);
    MultisetNoNul(orig, SortDesc(orig));
    SortedUnique(SortDesc(orig), s);
  }

  /** Exchanges two slots of the array. */
  method Swap(a: array<Line>, i: nat, j: nat)
    requires i < j < a.Length
    modifies a
    ensures a[i] == old(a[j]) && a[j] == old(a[i])
    ensures forall k :: 0 <= k < a.Length && k != i && k != j ==> a[k] == old(a[k])
    ensures multiset(a[..]) == multiset(old(a[..]))
  {
    a[i], a[j] := a[j], a[i];
  }

  /** The state of `InsertNext` while the line that started at `i` sits at
      `j`: every neighbouring pair of `s[0..i]` is in order except the two
      that touch slot `j`, and the line at `j` is in order with the one
      after it and with the one before it. */
  ghost predicate Sifting(s: seq<Line>, i: nat, j: nat)
    requires j <= i < |s|
  {
    && (forall k :: 0 < k <= i && k != j && k != j + 1 ==> LinesCmp(s[k - 1], s[k]) <= 0)
    && (0 < j < i ==> LinesCmp(s[j - 1], s[j + 1]) <= 0)
    && (j < i ==> LinesCmp(s[j], s[j + 1]) <= 0)
  }

  /** Exchanging an out-of-order line at `j` with its left neighbour moves
      the sifting line to `j - 1`. */
  lemma SiftStep(s: seq<Line>, i: nat, j: nat)
    requires 0 < j <= i < |s| && Sifting(s, i, j)
    requires LinesCmp(s[j - 1], s[j]) > 0
    ensures Sifting(s[j - 1 := s[j]][j := s[j - 1]], i, j - 1)
  {
    var t := s[j - 1 := s[j]][j := s[j - 1]];
    StrcmpSwap(s[j - 1], s[j]);
    forall k | 0 < k <= i && k != j - 1 && k != j
      ensures LinesCmp(t[k - 1], t[k]) <= 0
    {
      if k == j + 1 {
        assert t[k - 1] == s[j - 1] && t[k] == s[j + 1];
      } else {
        assert t[k - 1] == s[k - 1] && t[k] == s[k];
      }
    }
    if 1 < j {
      assert t[j - 2] == s[j - 2] && t[j] == s[j - 1];
    }
  }

  /** Sifting stops when the line reaches slot 0 or a line that is not
      smaller: then all of `s[0..i]` is in order. */
  lemma SiftDone(s: seq<Line>, i: nat, j: nat)
    requires j <= i < |s| && Sifting(s, i, j)
    requires j == 0 || LinesCmp(s[j - 1], s[j]) <= 0
    ensures forall k :: 0 < k <= i ==> LinesCmp(s[k - 1], s[k]) <= 0
  {
  }

  /** Exchanges the sifting line at `j` with the greater line before it. */
  method SiftLeft(a: array<Line>, i: nat, j: nat)
    requires 0 < j <= i < a.Length && Sifting(a[..], i, j)
    requires LinesCmp(a[j - 1], a[j]) > 0
    modifies a
    ensures Sifting(a[..], i, j - 1)
    ensures a[i + 1..] == old(a[i + 1..])
    ensures multiset(a[..]) == multiset(old(a[..]))
  {
    ghost var b := a[..];
    SiftStep(b, i, j);
    Swap(a, j - 1, j);
    assert a[..] == b[j - 1 := b[j]][j := b[j - 1]];
    assert a[i + 1..] == b[i + 1..];
  }

  /** One step of the sort: with `a[0..i)` in order, moves `a[i]` left past
      every smaller line, so that `a[0..i]` is in order. */
  method InsertNext(a: array<Line>, i: nat)
    requires i < a.Length
    requires forall k :: 0 < k < i ==> LinesCmp(a[k - 1], a[k]) <= 0
    modifies a
    ensures forall k :: 0 < k <= i ==> LinesCmp(a[k - 1], a[k]) <= 0
    ensures forall k :: i < k < a.Length ==> a[k] == old(a[k])
    ensures multiset(a[..]) == multiset(old(a[..]))
  {
    var j := i;
    while j > 0 && LinesCmp(a[j - 1], a[j]) > 0
      invariant 0 <= j <= i
      invariant Sifting(a[..], i, j)
      invariant a[i + 1..] == old(a[i + 1..])
      invariant multiset(a[..]) == multiset(old(a[..]))
    {
      SiftLeft(a, i, j);
      j := j - 1;
    }
    SiftDone(a[..], i, j);
    assert forall k :: i < k < a.Length ==> a[k] == a[i + 1..][k - i - 1];
  }

  /** Two permutations of each other that agree from `n` on are
      permutations of each other below `n`. */
  lemma PrefixMultiset(s: seq<Line>, t: seq<Line>, n: nat)
    requires n <= |s| == |t|
    requires multiset(s) == multiset(t) && s[n..] == t[n..]
    ensures multiset(s[..n]) == multiset(t[..n])
  {
    assert s == s[..n] + s[n..] && t == t[..n] + t[n..];
    assert multiset(s) == multiset(s[..n]) + multiset(s[n..]);
    assert multiset(t) == multiset(t[..n]) + multiset(t[n..]);
    assert multiset(s[..n]) == multiset(s) - multiset(s[n..]);
    assert multiset(t[..n]) == multiset(t) - multiset(t[n..]);
  }

  /** The sort `qsort(lines.items, lines.size, sizeof(VectorItem), linesCmp)`
      performs: afterwards `a[0..n)` is a permutation of what it held and is
      non-increasing; the slots from `n` on are untouched. The algorithm is
      an insertion sort by adjacent exchanges. */
  method SortLines(a: array<Line>, n: nat)
    requires n <= a.Length
    modifies a
    ensures SortedDesc(a[..n])
    ensures multiset(a[..n]) == multiset(old(a[..n]))
    ensures a[n..] == old(a[n..])
    ensures AllNoNul(old(a[..n])) ==> a[..n] == SortDesc(old(a[..n]))
  {
    var i := 0;
    while i < n
      invariant i <= n
      invariant forall k :: 0 < k < i ==> LinesCmp(a[k - 1], a[k]) <= 0
      invariant forall k :: n <= k < a.Length ==> a[k] == old(a[k])
      invariant multiset(a[..]) == multiset(old(a[..]))
    {
      InsertNext(a, i);
      i := i + 1;
    }
    ghost var sorted, was := a[..], old(a[..]);
    assert sorted[n..] == was[n..];
    PrefixMultiset(sorted, was, n);
    assert sorted[..n] == a[..n] && was[..n] == old(a[..n]);
    AdjacentIsSorted(sorted[..n]);
    if AllNoNul(was[..n]) {
      SortedIsSortDesc(sorted[..n], was[..n]);
    }
  }
}
