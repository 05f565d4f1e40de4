/**
 * The application: `readAndParseInputFile` and the pipeline of `main`
 * (load, sort with `linesCmp`, print, erase).
 *
 * The input file is modelled by what the `fgets` loop sees of it: whether
 * `fopen` succeeds, the chunks successive `fgets(buf, MAX_LINE_LEN, f)` calls
 * deliver before one returns NULL, whether that NULL came from a read error
 * (`ferror`), and whether `fclose` fails.
 */
module Sorter {
  import opened Filter
  import opened GrowableVector
  import opened Order
  import opened Emit

  const MaxLineLen: nat := 1000
  const InitialCapacity: nat := 16

  /** What one successful `fgets(buf, MAX_LINE_LEN, f)` stores before its
      terminator on a file that contains no NUL byte: 1 to 999 bytes, and a
      newline only as the last of them. A file with a NUL byte is outside
      the model: `strlen` would end the chunk at it and drop the rest. */
  predicate IsFgetsChunk(c: Line) {
    && 0 < |c| < MaxLineLen
    && NoNul(c)
    && (forall i :: 0 <= i < |c| - 1 ==> c[i] != '\n')
    && (forall i :: 0 <= i < |c| ==> c[i] as int < 256)
  }

  datatype InputFile = InputFile(opens: bool, chunks: seq<Line>, readError: bool, closeError: bool)

  /** `fgets` stops early, before filling 999 bytes without a newline, only
      at the end of the file: so every chunk but the last is a whole line
      ending in its newline or a full 999-byte piece of a longer one. */
  predicate WellFormed(file: InputFile) {
    && (forall i :: 0 <= i < |file.chunks| ==> IsFgetsChunk(file.chunks[i]))
    && (forall i :: 0 <= i < |file.chunks| - 1 ==>
          file.chunks[i][|file.chunks[i]| - 1] == '\n' || |file.chunks[i]| == MaxLineLen - 1)
  }

  datatype Error = CannotOpen | CannotRead | CannotClose | CannotPrint

  /** Success, or the failure reported on standard error (exit code 1). */
  datatype Status = Ok | Fail(error: Error)

  /** The collection the loader is meant to build: one cleaned line per
      chunk, in file order. */
  function Cleaned(chunks: seq<Line>): seq<Line> {
    seq(|chunks|, i requires 0 <= i < |chunks| => Filtered(chunks[i]))
  }

  /** `fgets` storing a chunk and its terminator at the start of `buf`. */
  method Fgets(buf: array<char>, chunk: Line)
    requires |chunk| < buf.Length
    modifies buf
    ensures buf[..|chunk|] == chunk && buf[|chunk|] == '\0'
  {
    forall i | 0 <= i < |chunk| {
      buf[i] := chunk[i];
    }
    buf[|chunk|] := '\0';
  }

  /** `readAndParseInputFile`: a vector of capacity 16 receives the cleaned
      form of every chunk, in order; a read error erases the vector, while a
      failing `fclose` is reported with the vector left populated. */
  method ReadAndParseInputFile(file: InputFile, lines: Vector) returns (status: Status)
    requires WellFormed(file)
    modifies lines
    ensures !file.opens ==> status == Fail(CannotOpen) && unchanged(lines)
    ensures file.opens && file.readError ==> status == Fail(CannotRead) && lines.items == null && lines.size == |file.chunks|
    ensures file.opens && !file.readError ==>
      && status == (if file.closeError then Fail(CannotClose) else Ok)
      && lines.Valid() && fresh(lines.items)
      && lines.Contents() == Cleaned(file.chunks)
  {
    if !file.opens {
      return Fail(CannotOpen);
    }
    var initErr := lines.Init(InitialCapacity, true);
    assert !initErr;

    var buf := new char[MaxLineLen];
    var i := 0;
    while i < |file.chunks|
      invariant i <= |file.chunks|
      invariant lines.Valid() && fresh(lines.items)
      invariant |lines.Contents()| == i
      invariant forall k :: 0 <= k < i ==> lines.Contents()[k] == Filtered(file.chunks[k])
    {
      var chunk := file.chunks[i];
      assert IsFgetsChunk(chunk);
      Fgets(buf, chunk);
      assert '\0' in buf[..] by {
        assert buf[..][|chunk|] == '\0';
      }
      var bufSize := Strlen(buf);
      assert bufSize == |chunk|;
      var line := ParseChunk(buf, bufSize);
      var pushErr := lines.Push(line[..line.Length - 1], true);
      assert !pushErr;
      i := i + 1;
    }

    if file.readError {
      lines.Erase();
      return Fail(CannotRead);
    }
    assert lines.Contents() == Cleaned(file.chunks);
    if file.closeError {
      return Fail(CannotClose);
    }
    status := Ok;
  }

  lemma CleanedNoNul(chunks: seq<Line>)
    requires forall i :: 0 <= i < |chunks| ==> IsFgetsChunk(chunks[i])
    ensures AllNoNul(Cleaned(chunks))
  {
    forall i | 0 <= i < |chunks| ensures NoNul(Cleaned(chunks)[i]) {
      FilteredNoNul(chunks[i]);
    }
  }

  /** `main` after argument parsing: load, sort in place with `linesCmp`,
      print the first lines, erase. On success the output is the first
      `min(100, n)` lines of the cleaned chunks in non-increasing order; a
      failure while loading prints nothing. */
  method Run(file: InputFile, printOk: nat -> bool) returns (out: seq<Line>, status: Status)
    requires WellFormed(file)
    ensures !file.opens ==> out == [] && status == Fail(CannotOpen)
    ensures file.opens && file.readError ==> out == [] && status == Fail(CannotRead)
    ensures file.opens && !file.readError && file.closeError ==> out == [] && status == Fail(CannotClose)
    ensures file.opens && !file.readError && !file.closeError ==>
      && (status == Ok || status == Fail(CannotPrint))
      && PrintedPrefix(FirstLines(SortDesc(Cleaned(file.chunks))), printOk, out, status != Ok)
  {
    var lines := new Vector();
    status := ReadAndParseInputFile(file, lines);
    if status != Ok {
      return [], status;
    }
    ghost var loaded := lines.Contents();
    SortLines(lines.items, lines.size);
    CleanedNoNul(file.chunks);
    assert lines.Contents() == SortDesc(loaded);
    var err;
    out, err := PrintFirstLines(lines, printOk);
    if err {
      return out, Fail(CannotPrint);
    }
    lines.Erase();
  }

  /** The lines printed are the greatest ones: every line left unprinted is
      at most every printed line, and the printed lines are taken from the
      input. */
  lemma PrintedAreGreatest(chunks: seq<Line>)
    ensures var sorted := SortDesc(Cleaned(chunks));
      && |FirstLines(sorted)| == Min(MaxLinesToPrint, |chunks|)
      && multiset(FirstLines(sorted)) <= multiset(Cleaned(chunks))
      && forall i, j :: 0 <= i < |FirstLines(sorted)| <= j < |sorted| ==> Strcmp(sorted[j], sorted[i]) <= 0
  {
    var sorted := SortDesc(Cleaned(chunks));
    SortDescCorrect(Cleaned(chunks));
    assert |sorted| == |multiset(sorted)| == |Cleaned(chunks)|;
    var k := |FirstLines(sorted)|;
    assert sorted == FirstLines(sorted) + sorted[k..];
    assert multiset(sorted) == multiset(FirstLines(sorted)) + multiset(sorted[k..]);
  }

  /** A word followed by one punctuation mark and the newline is cleaned to
      the word and the newline. */
  lemma CleanedWordLine(w: Line, p: char)
    requires AllSortable(w) && !IsSortable(p)
    ensures Filtered(w + [p, '\n']) == w + "\n"
  {
    FilteredAppend(w, [p, '\n']);
    FilteredOfSortable(w);
    assert [p, '\n'][1..] == "\n";
    assert Filtered("\n") == "\n" by {
      assert "\n"[1..] == [];
    }
  }

  /** A file holding `banana!`, `apple.` and `cherry`, each ending in a
      newline: the punctuation goes and the newlines stay, ... */
  lemma FruitCleaning()
    ensures Filtered("banana!\n") == "banana\n"
    ensures Filtered("apple.\n") == "apple\n"
    ensures Filtered("cherry\n") == "cherry\n"
  {
    assert AllSortable("banana") && AllSortable("apple") && AllSortable("cherry\n");
    CleanedWordLine("banana", '!');
    assert "banana!\n" == "banana" + ['!', '\n'];
    CleanedWordLine("apple", '.');
    assert "apple.\n" == "apple" + ['.', '\n'];
    FilteredOfSortable("cherry\n");
  }

  /** ... the lines are sorted in descending order ... */
  lemma FruitSorting()
    ensures SortDesc(["banana\n", "apple\n", "cherry\n"]) == ["cherry\n", "banana\n", "apple\n"]
  {
  }

  /** ... and standard output keeps their line breaks. */
  lemma FruitOutput()
    ensures Stdout(FirstLines(["cherry\n", "banana\n", "apple\n"])) == "cherry\nbanana\napple\n"
  {
  }

  /** A line of punctuation only is cleaned to its newline, or to the empty
      string when it is the unterminated last line; either way it keeps its
      slot and sorts after every other line. */
  lemma PunctuationOnlyScenario(other: Line)
    ensures Filtered("...,;:!?\n") == "\n"
    ensures Filtered("...,;:!?") == ""
    ensures LinesCmp(other, "") <= 0
  {
  }
}
