/**
 * The character filter and the two-pass line cleaner of `readAndParseInputFile`.
 *
 * A byte of the input is modelled as the `char` whose code is the byte's
 * unsigned value (0..255). A C string is a `char` buffer whose contents end at
 * the first NUL.
 */
module Filter {

  /** `issortable`: every character except the six punctuation marks is kept
      (the newline that `fgets` leaves in the buffer included). */
  predicate IsSortable(c: char): (r: bool)
    ensures r <==> c !in Punctuation
  {
    c != '.' && c != ',' && c != ';' && c != ':' && c != '!' && c != '?'
  }

  /** The characters `issortable` rejects. */
  const Punctuation: set<char> := {'.', ',', ';', ':', '!', '?'}

  /** The order-preserving filter: the sortable characters of `s`, in order. */
  function Filtered(s: seq<char>): seq<char> {
    if s == [] then []
    else (if IsSortable(s[0]) then [s[0]] else []) + Filtered(s[1..])
  }

  /** Every character of `s` is sortable. */
  predicate AllSortable(s: seq<char>) {
    forall i :: 0 <= i < |s| ==> IsSortable(s[i])
  }

  /** `s` has no NUL byte, so `strlen` sees all of it. */
  predicate NoNul(s: seq<char>) {
    forall i :: 0 <= i < |s| ==> s[i] != '\0'
  }

  lemma PunctuationIsRejected(c: char)
    ensures !IsSortable(c) <==> c in Punctuation
    ensures IsSortable('\n') && IsSortable('\0')
  {
  }

  /** Filtering distributes over concatenation. */
  lemma {:induction false} FilteredAppend(a: seq<char>, b: seq<char>)
    ensures Filtered(a + b) == Filtered(a) + Filtered(b)
  {
    if a == [] {
      assert a + b == b;
    } else {
      var h := if IsSortable(a[0]) then [a[0]] else [];
      assert (a + b)[0] == a[0];
      assert (a + b)[1..] == a[1..] + b;
      assert Filtered(a + b) == h + Filtered(a[1..] + b);
      FilteredAppend(a[1..], b);
      assert h + (Filtered(a[1..]) + Filtered(b)) == (h + Filtered(a[1..])) + Filtered(b);
    }
  }

  /** One more character at the end adds it to the filter iff it is sortable. */
  lemma FilteredSnoc(s: seq<char>, c: char)
    ensures Filtered(s + [c]) == Filtered(s) + (if IsSortable(c) then [c] else [])
  {
    FilteredAppend(s, [c]);
    assert [c][1..] == [];
  }

  /** The filter keeps only sortable characters and never lengthens its input. */
  lemma {:induction false} FilteredIsSortable(s: seq<char>)
    ensures AllSortable(Filtered(s))
    ensures |Filtered(s)| <= |s|
  {
    if s != [] {
      FilteredIsSortable(s[1..]);
    }
  }

  /** A string of sortable characters passes the filter unchanged. */
  lemma {:induction false} FilteredOfSortable(s: seq<char>)
    requires AllSortable(s)
    ensures Filtered(s) == s
  {
    if s != [] {
      assert IsSortable(s[0]);
      FilteredOfSortable(s[1..]);
      assert [s[0]] + s[1..] == s;
    }
  }

  /** Cleaning is idempotent: cleaning a cleaned line returns it unchanged. */
  lemma FilteredIdempotent(s: seq<char>)
    ensures Filtered(Filtered(s)) == Filtered(s)
  {
    FilteredIsSortable(s);
    FilteredOfSortable(Filtered(s));
  }

  /** Each sortable character occurs in the filtered line exactly as often
      as in the input, and no other character occurs in it. */
  lemma {:induction false} FilteredCounts(s: seq<char>, c: char)
    ensures multiset(Filtered(s))[c] == if IsSortable(c) then multiset(s)[c] else 0
  {
    if s != [] {
      FilteredCounts(s[1..], c);
      assert s == [s[0]] + s[1..];
      assert multiset(s) == multiset{s[0]} + multiset(s[1..]);
    }
  }

  /** A filtered NUL-free string has no NUL either. */
  lemma {:induction false} FilteredNoNul(s: seq<char>)
    requires NoNul(s)
    ensures NoNul(Filtered(s))
  {
    if s != [] {
      FilteredNoNul(s[1..]);
    }
  }

  /** `strlen`: the index of the first NUL of the buffer. */
  method Strlen(buf: array<char>) returns (n: nat)
    requires '\0' in buf[..]
    ensures n < buf.Length && buf[n] == '\0'
    ensures forall i :: 0 <= i < n ==> buf[i] != '\0'
  {
    n := 0;
    while buf[n] != '\0'
      invariant n < buf.Length
      invariant '\0' in buf[n..]
      invariant forall i :: 0 <= i < n ==> buf[i] != '\0'
      decreases buf.Length - n
    {
      assert buf[n..] == [buf[n]] + buf[n + 1..];
      n := n + 1;
    }
  }

  /** First pass (the counting loop): the number of sortable characters of
      `buf[0..bufSize)`, which is the length of the cleaned line. */
  method CountSortable(buf: array<char>, bufSize: nat) returns (lineSize: nat)
    requires bufSize <= buf.Length
    ensures lineSize == |Filtered(buf[..bufSize])|
  {
    lineSize := 0;
    var i: nat := 0;
    while i < bufSize
      invariant i <= bufSize
      invariant lineSize == |Filtered(buf[..i])|
    {
      var c := buf[i];
      assert buf[..i + 1] == buf[..i] + [c];
      FilteredSnoc(buf[..i], c);
      if IsSortable(c) {
        lineSize := lineSize + 1;
      }
      i := i + 1;
    }
  }

  /** Second pass: allocate `lineSize + 1` bytes, write the terminator, then
      copy right to left with `lineSize` as a decrementing write index
      (`line[--lineSize] = buf[i]`). The index ends at 0, and the line holds
      exactly the filtered bytes, in their original order, then a NUL. */
  method CopySortable(buf: array<char>, bufSize: nat, count: nat) returns (line: array<char>)
    requires bufSize <= buf.Length
    requires count == |Filtered(buf[..bufSize])|
    ensures line.Length == count + 1
    ensures line[..count] == Filtered(buf[..bufSize])
    ensures line[count] == '\0'
  {
    var lineSize := count;
    line := new char[lineSize + 1];
    line[lineSize] := '\0';
    var i: int := bufSize - 1;
    while i >= 0
      invariant -1 <= i < bufSize
      invariant line.Length == count + 1 && line[count] == '\0'
      invariant lineSize == |Filtered(buf[..i + 1])| <= count
      invariant line[lineSize..count] == Filtered(buf[i + 1..bufSize])
    {
      var c := buf[i];
      assert buf[..i + 1] == buf[..i] + [c];
      FilteredSnoc(buf[..i], c);
      assert buf[i..bufSize][1..] == buf[i + 1..bufSize];
      FilteredAppend(buf[..i + 1], buf[i + 1..bufSize]);
      assert buf[..i + 1] + buf[i + 1..bufSize] == buf[..bufSize];
      assert Filtered(buf[i..bufSize]) == (if IsSortable(c) then [c] else []) + Filtered(buf[i + 1..bufSize]);
      if IsSortable(c) {
        ghost var tail := line[lineSize..count];
        lineSize := lineSize - 1;
        line[lineSize] := c;
        assert line[lineSize + 1..count] == tail;
        assert line[lineSize..count] == [c] + tail;
      }
      i := i - 1;
    }
    assert lineSize == 0 by {
      assert buf[..i + 1] == [];
    }
    assert buf[0..bufSize] == buf[..bufSize];
  }

  /** The body of the loading loop after `strlen`: both passes together. */
  method ParseChunk(buf: array<char>, bufSize: nat) returns (line: array<char>)
    requires bufSize <= buf.Length
    ensures line.Length == |Filtered(buf[..bufSize])| + 1
    ensures line[..line.Length - 1] == Filtered(buf[..bufSize])
    ensures line[line.Length - 1] == '\0'
  {
    var lineSize := CountSortable(buf, bufSize);
    line := CopySortable(buf, bufSize, lineSize);
  }
}
