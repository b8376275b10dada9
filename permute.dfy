/**
  src/permute.py: permute_by_value reads "<word> <weight>" lines with an
  integer weight and lists every ordered pair of different words, sorted by
  combined weight and then by the first word's weight, both descending.
*/
module Permute {
  import opened Wrappers
  import opened Numeric
  import opened PairOrder
  import Text

  /** ValueError(f"Line {lineno}: invalid weight {parts[-1]!r}") */
  datatype PermuteError = InvalidWeight(lineNo: nat, token: string)

  /** The last token of a line, the one that must be the weight. */
  function LastToken(parts: seq<string>): string
    requires parts != []
  {
    parts[|parts| - 1]
  }

  /**
    The entry of the line numbered lineNo: None for a blank line (line.strip()
    is empty exactly when split() finds no token), otherwise the tokens but
    the last joined by single spaces, weighted by int() of the last token.
  */
  function LineEntry(line: string, lineNo: nat): Result<Option<Entry>, PermuteError>
  {
    var parts := Text.Split(line);
    if parts == [] then Ok(None)
    else
      match ParseInt(LastToken(parts))
      case None => Err(InvalidWeight(lineNo, LastToken(parts)))
      case Some(v) => Ok(Some(Entry(Text.Join(parts[..|parts| - 1]), v as real)))
  }

  /** The entries of the lines, numbered from 1, or the error of the first line whose weight is not an integer. */
  function EntriesOf(lines: seq<string>): Result<seq<Entry>, PermuteError>
  {
    if lines == [] then Ok([])
    else
      match EntriesOf(lines[..|lines| - 1])
      case Err(e) => Err(e)
      case Ok(es) =>
        match LineEntry(lines[|lines| - 1], |lines|)
        case Err(e) => Err(e)
        case Ok(None) => Ok(es)
        case Ok(Some(e)) => Ok(es + [e])
  }

  /** What permute_by_value(lines) prints, or the ValueError it raises. */
  function PermuteSpec(lines: seq<string>): Result<seq<string>, PermuteError>
  {
    match EntriesOf(lines)
    case Err(e) => Err(e)
    case Ok(es) => Ok(Lines(SortDesc(Pairs(es))))
  }

  /** permute_by_value as the source writes it, returning the printed lines. */
  method PermuteByValue(lines: seq<string>) returns (r: Result<seq<string>, PermuteError>)
    ensures r == PermuteSpec(lines)
  {
    var entries: seq<Entry> := [];
    var i := 0;
    while i < |lines|
      invariant i <= |lines|
      invariant EntriesOf(lines[..i]) == Ok(entries)
    {
      var lineno := i + 1;
      assert lines[..i + 1][..i] == lines[..i];
      var parts := Text.Split(lines[i]);
      if parts != [] {
        var wt := ParseInt(parts[|parts| - 1]);
        if wt.None? {
          r := Err(InvalidWeight(lineno, parts[|parts| - 1]));
          ErrorStops(lines, i + 1);
          return;
        }
        var word := Text.Join(parts[..|parts| - 1]);
        entries := entries + [Entry(word, wt.value as real)];
      }
      i := i + 1;
    }
    assert lines[..i] == lines;
    var pairs := BuildPairs(entries);
    var buf := new Pair[|pairs|](k requires 0 <= k < |pairs| => pairs[k]);
    assert buf[..] == pairs;
    SortPairs(buf);
    var sorted := buf[..];
    var out := PrintPairs(sorted);
    r := Ok(out);
  }

  /** Once a line fails, later lines do not matter: the first failure is the one raised. */
  lemma {:induction false} ErrorStops(lines: seq<string>, k: nat)
    requires k <= |lines| && EntriesOf(lines[..k]).Err?
    ensures EntriesOf(lines) == EntriesOf(lines[..k])
    decreases |lines| - k
  {
    if k < |lines| {
      assert lines[..k + 1][..k] == lines[..k];
      ErrorStops(lines, k + 1);
    } else {
      assert lines[..k] == lines;
    }
  }

  // ---------------------------------------------------------------------
  // Properties
  // ---------------------------------------------------------------------

  /** A line that is empty after strip() gives no entry. */
  lemma BlankLine(line: string, lineNo: nat)
    requires forall k :: 0 <= k < |line| ==> Text.IsSpace(line[k])
    ensures LineEntry(line, lineNo) == Ok(None)
  {
    Text.SplitBlank(line);
  }

  /**
    Reading the line "w1 ... wm <weight>" gives the word "w1 ... wm" with
    that weight; with no word before the weight the word is empty.
  */
  lemma LineRoundTrip(ws: seq<string>, v: int, lineNo: nat)
    requires forall i :: 0 <= i < |ws| ==> Text.IsToken(ws[i])
    ensures LineEntry(Text.Join(ws + [IntStr(v)]), lineNo) == Ok(Some(Entry(Text.Join(ws), v as real)))
  {
    var tok := IntStr(v);
    IntStrToken(v);
    var parts := ws + [tok];
    Text.SplitJoin(parts);
    Text.DropLast(ws, tok);
    ParseIntStr(v);
  }

  /** str(v) holds no whitespace. */
  lemma IntStrToken(v: int)
    ensures Text.IsToken(IntStr(v))
  {
    var tok := IntStr(v);
    forall k | 0 <= k < |tok|
      ensures !Text.IsSpace(tok[k])
    {
      assert tok[k] == '-' || IsDigit(tok[k]);
      Text.VisibleAscii(tok[k]);
    }
  }

  /** The line is rejected: it has a token and its last token is not an integer. */
  predicate BadLine(line: string)
  {
    var parts := Text.Split(line);
    parts != [] && ParseInt(LastToken(parts)).None?
  }

  /** Line i (from 0) is the first bad line. */
  predicate FirstBad(lines: seq<string>, i: nat)
  {
    i < |lines| && BadLine(lines[i]) && forall j :: 0 <= j < i ==> !BadLine(lines[j])
  }

  lemma LineEntryFails(line: string, lineNo: nat)
    ensures LineEntry(line, lineNo).Err? <==> BadLine(line)
    ensures BadLine(line) ==> LineEntry(line, lineNo) == Err(InvalidWeight(lineNo, LastToken(Text.Split(line))))
  {
  }

  lemma EntriesStep(lines: seq<string>)
    requires lines != []
    ensures var init, n := lines[..|lines| - 1], |lines|;
      && (EntriesOf(init).Err? ==> EntriesOf(lines) == EntriesOf(init))
      && (EntriesOf(init).Ok? ==> (EntriesOf(lines).Err? <==> BadLine(lines[n - 1])))
      && (EntriesOf(init).Ok? && BadLine(lines[n - 1]) ==>
           EntriesOf(lines) == Err(InvalidWeight(n, LastToken(Text.Split(lines[n - 1])))))
  {
    LineEntryFails(lines[|lines| - 1], |lines|);
  }

  lemma {:induction false} EntriesFailSome(lines: seq<string>)
    requires EntriesOf(lines).Err?
    ensures exists i :: 0 <= i < |lines| && BadLine(lines[i])
  {
    var init, n := lines[..|lines| - 1], |lines| - 1;
    EntriesStep(lines);
    if EntriesOf(init).Err? {
      EntriesFailSome(init);
      var i :| 0 <= i < |init| && BadLine(init[i]);
      assert lines[i] == init[i];
    }
  }

  lemma {:induction false} EntriesFailEach(lines: seq<string>, i: nat)
    requires i < |lines| && BadLine(lines[i])
    ensures EntriesOf(lines).Err?
  {
    var init, n := lines[..|lines| - 1], |lines| - 1;
    EntriesStep(lines);
    if i < n {
      assert lines[i] == init[i];
      EntriesFailEach(init, i);
    }
  }

  lemma EntriesFailIff(lines: seq<string>)
    ensures EntriesOf(lines).Err? <==> exists i :: 0 <= i < |lines| && BadLine(lines[i])
  {
    if EntriesOf(lines).Err? {
      EntriesFailSome(lines);
    }
    if exists i :: 0 <= i < |lines| && BadLine(lines[i]) {
      var i :| 0 <= i < |lines| && BadLine(lines[i]);
      EntriesFailEach(lines, i);
    }
  }

  lemma {:induction false} EntriesFailFirst(lines: seq<string>)
    requires EntriesOf(lines).Err?
    ensures exists i: nat :: (FirstBad(lines, i) &&
      EntriesOf(lines).error == InvalidWeight(i + 1, LastToken(Text.Split(lines[i]))))
  {
    var init, n := lines[..|lines| - 1], |lines| - 1;
    EntriesStep(lines);
    if EntriesOf(init).Err? {
      EntriesFailFirst(init);
      var i: nat :| FirstBad(init, i) && EntriesOf(init).error == InvalidWeight(i + 1, LastToken(Text.Split(init[i])));
      assert forall j :: 0 <= j <= i ==> lines[j] == init[j];
      assert FirstBad(lines, i);
    } else {
      forall j | 0 <= j < n
        ensures !BadLine(lines[j])
      {
        assert lines[j] == init[j];
        if BadLine(init[j]) {
          EntriesFailEach(init, j);
        }
      }
      assert FirstBad(lines, n);
    }
  }

  /**
    permute_by_value raises exactly when some line has a token and its last
    token is not an integer, and then for the first such line, numbered from
    1 counting blank lines too.
  */
  lemma PermuteFails(lines: seq<string>)
    ensures PermuteSpec(lines).Err? <==> exists i :: 0 <= i < |lines| && BadLine(lines[i])
    ensures PermuteSpec(lines).Err? ==>
      exists i: nat :: FirstBad(lines, i) &&
        PermuteSpec(lines).error == InvalidWeight(i + 1, LastToken(Text.Split(lines[i])))
  {
    EntriesFailIff(lines);
    if PermuteSpec(lines).Err? {
      EntriesFailFirst(lines);
    }
  }

  /**
    On success the output is the printed form of the generated pairs, sorted
    non-increasing by (total, first), with each key's pairs in generation
    order; it holds "w1 w2" for exactly the pairs of entries whose words
    differ, and n entries with different words give n(n-1) lines.
  */
  lemma PermuteOutput(lines: seq<string>, o: string)
    requires EntriesOf(lines).Ok?
    ensures var es := EntriesOf(lines).value;
      var r := SortDesc(Pairs(es));
      && PermuteSpec(lines) == Ok(Lines(r))
      && Sorted(r) && (forall k :: Filter(r, k) == Filter(Pairs(es), k))
      && (o in Lines(r) <==>
           exists i, j :: 0 <= i < |es| && 0 <= j < |es| && es[i].word != es[j].word && o == Show(es[i].word, es[j].word))
      && (DistinctWords(es) ==> |Lines(r)| == |es| * (|es| - 1))
  {
    var es := EntriesOf(lines).value;
    SortDescSpec(Pairs(es), []);
    SortedMembers(es, o);
    if DistinctWords(es) {
      PairsCount(es);
      SortDescMultiset(Pairs(es));
      assert |SortDesc(Pairs(es))| == |multiset(SortDesc(Pairs(es)))|;
    }
  }

  // ---------------------------------------------------------------------
  // Example
  // ---------------------------------------------------------------------

  /** "a 1" and "b 2": the pair with b first has the same total and the larger first weight. */
  lemma ExampleTwoWords()
    ensures PermuteSpec(["a 1", "b 2"]) == Ok(["b a", "a b"])
  {
    var ab, ba := Pair(3.0, 1.0, "a", "b"), Pair(3.0, 2.0, "b", "a");
    ExampleEntries();
    ExamplePairs();
    ExampleSort();
    ExampleLines();
    assert PermuteSpec(["a 1", "b 2"]) == Ok(Lines(SortDesc([ab, ba])));
  }

  lemma ExampleSort()
    ensures SortDesc([Pair(3.0, 1.0, "a", "b"), Pair(3.0, 2.0, "b", "a")]) == [Pair(3.0, 2.0, "b", "a"), Pair(3.0, 1.0, "a", "b")]
  {
    var ab, ba := Pair(3.0, 1.0, "a", "b"), Pair(3.0, 2.0, "b", "a");
    assert [ab, ba][..1] == [ab];
    assert [ab][..0] == [];
    assert SortDesc([ab]) == [ab];
    assert !Ge(ab, ba);
  }

  lemma ExampleLines()
    ensures Lines([Pair(3.0, 2.0, "b", "a"), Pair(3.0, 1.0, "a", "b")]) == ["b a", "a b"]
  {
    var ab, ba := Pair(3.0, 1.0, "a", "b"), Pair(3.0, 2.0, "b", "a");
    assert Show("b", "a") == "b a" && Show("a", "b") == "a b";
  }

  lemma ExampleEntries()
    ensures EntriesOf(["a 1", "b 2"]) == Ok([Entry("a", 1.0), Entry("b", 2.0)])
  {
    ExampleFirstEntry();
    ExampleLineB();
    EntriesSnoc(["a 1"], "b 2", [Entry("a", 1.0)], Entry("b", 2.0));
    assert ["a 1"] + ["b 2"] == ["a 1", "b 2"];
    assert [Entry("a", 1.0)] + [Entry("b", 2.0)] == [Entry("a", 1.0), Entry("b", 2.0)];
  }

  lemma ExampleFirstEntry()
    ensures EntriesOf(["a 1"]) == Ok([Entry("a", 1.0)])
  {
    ExampleLineA();
    var noLines: seq<string>, noEntries: seq<Entry> := [], [];
    EntriesSnoc(noLines, "a 1", noEntries, Entry("a", 1.0));
    assert noLines + ["a 1"] == ["a 1"];
    assert noEntries + [Entry("a", 1.0)] == [Entry("a", 1.0)];
  }

  lemma ExampleLineA()
    ensures LineEntry("a 1", 1) == Ok(Some(Entry("a", 1.0)))
  {
    assert DigitChar(1) == '1';
    assert "a" + " " + ['1'] == "a 1";
    ExampleLine("a", 1, 1);
  }

  lemma ExampleLineB()
    ensures LineEntry("b 2", 2) == Ok(Some(Entry("b", 2.0)))
  {
    assert DigitChar(2) == '2';
    assert "b" + " " + ['2'] == "b 2";
    ExampleLine("b", 2, 2);
  }

  lemma EntriesSnoc(lines: seq<string>, line: string, es: seq<Entry>, e: Entry)
    requires EntriesOf(lines) == Ok(es) && LineEntry(line, |lines| + 1) == Ok(Some(e))
    ensures EntriesOf(lines + [line]) == Ok(es + [e])
  {
    assert (lines + [line])[..|lines|] == lines;
  }

  lemma ExampleLine(w: string, d: nat, lineNo: nat)
    requires Text.IsToken(w) && d < 10
    ensures LineEntry(w + " " + [DigitChar(d)], lineNo) == Ok(Some(Entry(w, d as real)))
  {
    LineRoundTrip([w], d, lineNo);
    assert IntStr(d) == [DigitChar(d)];
    assert Text.Join([w] + [IntStr(d)]) == w + " " + [DigitChar(d)];
    assert Text.Join([w]) == w;
  }

  lemma ExamplePairs()
    ensures Pairs([Entry("a", 1.0), Entry("b", 2.0)]) == [Pair(3.0, 1.0, "a", "b"), Pair(3.0, 2.0, "b", "a")]
  {
    var es := [Entry("a", 1.0), Entry("b", 2.0)];
    assert es[..1] == [es[0]];
    assert [es[0]][..0] == [];
    assert Row(es[0], [es[0]]) == [];
    assert Row(es[0], es) == [Pair(3.0, 1.0, "a", "b")];
    assert Row(es[1], [es[0]]) == [Pair(3.0, 2.0, "b", "a")];
    assert Row(es[1], es) == [Pair(3.0, 2.0, "b", "a")];
    assert PairsFrom([es[0]], es) == [Pair(3.0, 1.0, "a", "b")];
    assert PairsFrom(es, es) == PairsFrom([es[0]], es) + Row(es[1], es);
  }
}
