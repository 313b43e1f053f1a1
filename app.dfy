/** fermi.py, FermiApp.format_results: the text shown for a model and its results, each
    input line followed by a "=> " line for an assignment's value or an error. */
module App {
  import opened Wrappers
  import opened Text
  import opened Formatter
  import opened Engine

  /** A result that adds a line to the display. */
  predicate Annotated(r: LineResult) {
    r.Assignment? || r.Failed?
  }

  /** The lines shown after an input line: "=> " and the formatted value of an assignment,
      "=> ERROR: " and the message of an error, none for a comment or an empty line. */
  function Annotation(r: LineResult): (a: seq<string>)
    ensures |a| == (if Annotated(r) then 1 else 0)
  {
    match r
    case Assignment(_, v, _) => ["=> " + FormatNumber(v)]
    case Failed(e) => ["=> ERROR: " + Message(e)]
    case _ => []
  }

  /** How many pairs zip(inputs, results) makes: the length of the shorter list. */
  function Paired(inputs: seq<string>, results: seq<LineResult>): nat {
    if |inputs| < |results| then |inputs| else |results|
  }

  /** The annotation of every result. */
  function Notes(results: seq<LineResult>): (notes: seq<seq<string>>)
    ensures |notes| == |results|
  {
    seq(|results|, k requires 0 <= k < |results| => Annotation(results[k]))
  }

  /** The output lines of the first n pairs: each input line followed by its notes. */
  function Interleave(inputs: seq<string>, notes: seq<seq<string>>, n: nat): seq<string>
    requires n <= |inputs| && n <= |notes|
  {
    if n == 0 then []
    else Interleave(inputs, notes, n - 1) + [inputs[n - 1]] + notes[n - 1]
  }

  /** The output lines of format_results, before they are joined. */
  function DisplayLines(inputs: seq<string>, results: seq<LineResult>): seq<string> {
    Interleave(inputs, Notes(results), Paired(inputs, results))
  }

  /** How many lines the first n notes hold. */
  function NoteLines(notes: seq<seq<string>>, n: nat): nat
    requires n <= |notes|
  {
    if n == 0 then 0 else NoteLines(notes, n - 1) + |notes[n - 1]|
  }

  /** How many of the first n results add a line. */
  function AnnotatedCount(results: seq<LineResult>, n: nat): nat
    requires n <= |results|
  {
    if n == 0 then 0 else AnnotatedCount(results, n - 1) + (if Annotated(results[n - 1]) then 1 else 0)
  }

  /** The notes of the first n results hold one line per result among them that adds one. */
  lemma {:induction false} NoteLinesCount(results: seq<LineResult>, n: nat)
    requires n <= |results|
    ensures NoteLines(Notes(results), n) == AnnotatedCount(results, n)
  {
    if n > 0 {
      NoteLinesCount(results, n - 1);
      assert Notes(results)[n - 1] == Annotation(results[n - 1]);
    }
  }

  /** format_results: walks the pairs, appending each input line and its annotation, and joins
      the lines with newlines. */
  method FormatResults(inputText: string, results: seq<LineResult>) returns (out: string)
    ensures out == JoinWith(DisplayLines(SplitOn(inputText, '\n'), results), '\n')
  {
    var inputs := SplitOn(inputText, '\n');
    var n := Paired(inputs, results);
    var lines: seq<string> := [];
    for i := 0 to n
      invariant lines == Interleave(inputs, Notes(results), i)
    {
      assert Notes(results)[i] == Annotation(results[i]);
      lines := lines + [inputs[i]];
      var r := results[i];
      if r.Assignment? {
        lines := lines + ["=> " + FormatNumber(r.value)];
      } else if r.Failed? {
        lines := lines + ["=> ERROR: " + Message(r.error)];
      } else {
        assert lines + Annotation(r) == lines;
      }
    }
    out := JoinWith(lines, '\n');
  }

  // ---------------------------------------------------------------------------
  // Properties
  // ---------------------------------------------------------------------------

  /** The display has one line per pair, plus one per assignment or error among them. */
  lemma {:induction false} InterleaveLength(inputs: seq<string>, notes: seq<seq<string>>, n: nat)
    requires n <= |inputs| && n <= |notes|
    ensures |Interleave(inputs, notes, n)| == n + NoteLines(notes, n)
  {
    if n > 0 {
      InterleaveLength(inputs, notes, n - 1);
    }
  }

  lemma DisplayLength(inputs: seq<string>, results: seq<LineResult>)
    ensures |DisplayLines(inputs, results)| ==
      Paired(inputs, results) + AnnotatedCount(results, Paired(inputs, results))
  {
    InterleaveLength(inputs, Notes(results), Paired(inputs, results));
    NoteLinesCount(results, Paired(inputs, results));
  }

  /** Where the line of input k stands in the display: after the earlier input lines and the
      annotations among them. */
  function Position(results: seq<LineResult>, k: nat): nat
    requires k <= |results|
  {
    k + AnnotatedCount(results, k)
  }

  /** The display of more pairs extends the display of fewer. */
  lemma {:induction false} InterleaveGrows(inputs: seq<string>, notes: seq<seq<string>>, k: nat, n: nat)
    requires k <= n <= |inputs| && n <= |notes|
    ensures Interleave(inputs, notes, k) <= Interleave(inputs, notes, n)
    decreases n - k
  {
    if k < n {
      InterleaveGrows(inputs, notes, k, n - 1);
      var before := Interleave(inputs, notes, n - 1);
      assert Interleave(inputs, notes, n)[..|Interleave(inputs, notes, k)|] ==
        before[..|Interleave(inputs, notes, k)|];
    }
  }

  /** Each paired input line is copied in order, right after the display of the pairs before
      it, and its annotation, if any, comes right after it. */
  lemma DisplayOrder(inputs: seq<string>, results: seq<LineResult>, k: nat)
    requires k < |inputs| && k < |results|
    ensures Interleave(inputs, Notes(results), k) + [inputs[k]] + Annotation(results[k])
      <= DisplayLines(inputs, results)
  {
    InterleaveGrows(inputs, Notes(results), k + 1, Paired(inputs, results));
  }

  /** The same at the level of single lines: input line k stands at Position(results, k), its
      annotation at the next index. */
  lemma DisplayPositions(inputs: seq<string>, results: seq<LineResult>, k: nat)
    requires k < |inputs| && k < |results|
    ensures var out := DisplayLines(inputs, results);
      Position(results, k) < |out| && out[Position(results, k)] == inputs[k] &&
      (Annotated(results[k]) ==>
        Position(results, k) + 1 < |out| && out[Position(results, k) + 1] == Annotation(results[k])[0])
  {
    var front := Interleave(inputs, Notes(results), k) + [inputs[k]] + Annotation(results[k]);
    DisplayOrder(inputs, results, k);
    InterleaveLength(inputs, Notes(results), k);
    NoteLinesCount(results, k);
    assert front[Position(results, k)] == inputs[k];
  }

  /** A result whose annotation holds no newline. */
  predicate SingleLine(r: LineResult) {
    r.Failed? ==> '\n' !in Message(r.error)
  }

  lemma {:induction false} InterleaveSingleLines(inputs: seq<string>, notes: seq<seq<string>>, n: nat)
    requires n <= |inputs| && n <= |notes|
    requires forall k :: 0 <= k < |inputs| ==> '\n' !in inputs[k]
    requires forall k, j :: 0 <= k < |notes| && 0 <= j < |notes[k]| ==> '\n' !in notes[k][j]
    ensures forall k :: 0 <= k < |Interleave(inputs, notes, n)| ==> '\n' !in Interleave(inputs, notes, n)[k]
  {
    if n > 0 {
      InterleaveSingleLines(inputs, notes, n - 1);
    }
  }

  /** A formatted value holds no newline. */
  lemma ValueLine(v: real)
    ensures '\n' !in "=> " + FormatNumber(v)
  {
    FormatNumberShape(v);
    assert !IsDisplayChar('\n');
  }

  lemma NoNewlineConcat(a: string, b: string)
    requires forall j :: 0 <= j < |a| ==> a[j] != '\n'
    requires '\n' !in b
    ensures '\n' !in a + b
  {
    assert forall j :: 0 <= j < |a + b| ==> (a + b)[j] != '\n' by {
      forall j | 0 <= j < |a + b| ensures (a + b)[j] != '\n' {
        if j >= |a| {
          assert (a + b)[j] == b[j - |a|];
        }
      }
    }
  }

  lemma NoteSingleLine(r: LineResult)
    requires SingleLine(r)
    ensures forall j :: 0 <= j < |Annotation(r)| ==> '\n' !in Annotation(r)[j]
  {
    match r
    case Assignment(_, v, _) =>
      ValueLine(v);
      assert Annotation(r) == ["=> " + FormatNumber(v)];
    case Failed(e) =>
      NoNewlineConcat("=> ERROR: ", Message(e));
      assert Annotation(r) == ["=> ERROR: " + Message(e)];
    case _ =>
      assert Annotation(r) == [];
  }

  /** When no message holds a newline, splitting the text format_results returns at its
      newlines gives back its lines. */
  lemma OutputLines(inputText: string, results: seq<LineResult>)
    requires forall k :: 0 <= k < |results| ==> SingleLine(results[k])
    ensures var lines := DisplayLines(SplitOn(inputText, '\n'), results);
      lines != [] ==> SplitOn(JoinWith(lines, '\n'), '\n') == lines
  {
    var inputs := SplitOn(inputText, '\n');
    forall k | 0 <= k < |results|
      ensures forall j :: 0 <= j < |Notes(results)[k]| ==> '\n' !in Notes(results)[k][j]
    {
      NoteSingleLine(results[k]);
    }
    InterleaveSingleLines(inputs, Notes(results), Paired(inputs, results));
    var lines := DisplayLines(inputs, results);
    if lines != [] {
      SplitJoin(lines, '\n');
    }
  }
}
