/**
  src/nicky-wordtools/permute.py: permute_by_value with optional weights.
  Every ordered pair of different words is listed; when every line carries a
  weight that float() accepts, the pairs are sorted as in permute.py, and
  otherwise they keep the order the words appeared in.

  float() is a parameter, toFloat: the text of a weight to its value, or None
  where float() raises ValueError.
*/
module WeightedPermute {
  import opened Wrappers
  import opened PairOrder
  import Numeric
  import Text

  /** A word and its weight: None when the line had no weight or float() rejected it. */
  datatype WEntry = WEntry(word: string, weight: Option<real>)

  /**
    The entry of one line: none for a blank line, the word alone without a
    weight for a one-token line, otherwise the tokens but the last joined by
    single spaces, with float() of the last token.
  */
  function LineEntry(line: string, toFloat: string -> Option<real>): Option<WEntry>
  {
    var parts := Text.Split(line);
    if parts == [] then None
    else if |parts| < 2 then Some(WEntry(parts[0], None))
    else Some(WEntry(Text.Join(parts[..|parts| - 1]), toFloat(parts[|parts| - 1])))
  }

  /** The entries of the lines, in order. */
  function EntriesOf(lines: seq<string>, toFloat: string -> Option<real>): seq<WEntry>
  {
    if lines == [] then []
    else
      var es := EntriesOf(lines[..|lines| - 1], toFloat);
      match LineEntry(lines[|lines| - 1], toFloat)
      case None => es
      case Some(e) => es + [e]
  }

  /** Whether some entry has no weight: the condition for unweighted mode. */
  predicate Unweighted(es: seq<WEntry>)
  {
    exists i :: 0 <= i < |es| && es[i].weight.None?
  }

  /** [word for word, _ in entries] */
  function WordsOf(es: seq<WEntry>): (ws: seq<string>)
    ensures |ws| == |es|
    ensures forall k :: 0 <= k < |es| ==> ws[k] == es[k].word
  {
    seq(|es|, k requires 0 <= k < |es| => es[k].word)
  }

  /** The entries of weighted mode, every one with its weight. */
  function Weighed(es: seq<WEntry>): (r: seq<Entry>)
    requires forall k :: 0 <= k < |es| ==> es[k].weight.Some?
    ensures |r| == |es|
    ensures forall k :: 0 <= k < |es| ==> r[k] == Entry(es[k].word, es[k].weight.value)
  {
    if es == [] then []
    else Weighed(es[..|es| - 1]) + [Entry(es[|es| - 1].word, es[|es| - 1].weight.value)]
  }

  /** What permute_by_value(lines) prints. */
  function PermuteSpec(lines: seq<string>, toFloat: string -> Option<real>): seq<string>
  {
    PermuteEntries(EntriesOf(lines, toFloat))
  }

  /** The lines printed for these entries: nothing, the unweighted listing or the sorted weighted one. */
  function PermuteEntries(es: seq<WEntry>): seq<string>
  {
    if es == [] then []
    else if Unweighted(es) then WordPairs(WordsOf(es))
    else Lines(SortDesc(Pairs(Weighed(es))))
  }

  /** permute_by_value as the source writes it, returning the printed lines. */
  method PermuteByValue(lines: seq<string>, toFloat: string -> Option<real>) returns (out: seq<string>)
    ensures out == PermuteSpec(lines, toFloat)
  {
    var entries: seq<WEntry> := [];
    var unweightedMode := false;
    var i := 0;
    while i < |lines|
      invariant i <= |lines|
      invariant entries == EntriesOf(lines[..i], toFloat)
      invariant unweightedMode == Unweighted(entries)
    {
      assert lines[..i + 1][..i] == lines[..i];
      var parts := Text.Split(lines[i]);
      if parts != [] {
        var e;
        if |parts| < 2 {
          e := WEntry(parts[0], None);
          unweightedMode := true;
        } else {
          var word := Text.Join(parts[..|parts| - 1]);
          var wt := toFloat(parts[|parts| - 1]);
          if wt.Some? {
            e := WEntry(word, wt);
          } else {
            e := WEntry(word, None);
            unweightedMode := true;
          }
        }
        UnweightedSnoc(entries, e);
        entries := entries + [e];
      }
      i := i + 1;
    }
    assert lines[..i] == lines;
    if entries == [] {
      return [];
    }
    if unweightedMode {
      var words := WordsOf(entries);
      out := PrintWordPairs(words);
      return;
    }
    var pairs := BuildPairs(Weighed(entries));
    var buf := new Pair[|pairs|](k requires 0 <= k < |pairs| => pairs[k]);
    assert buf[..] == pairs;
    SortPairs(buf);
    var sorted := buf[..];
    out := PrintPairs(sorted);
  }

  lemma UnweightedSnoc(es: seq<WEntry>, e: WEntry)
    ensures Unweighted(es + [e]) <==> Unweighted(es) || e.weight.None?
  {
    if Unweighted(es) {
      var i :| 0 <= i < |es| && es[i].weight.None?;
      assert (es + [e])[i] == es[i];
    }
    if e.weight.None? {
      assert (es + [e])[|es|] == e;
    }
  }

  // ---------------------------------------------------------------------
  // Properties
  // ---------------------------------------------------------------------

  /** A word alone on its line is an entry without a weight, which switches on unweighted mode. */
  lemma WordWithoutWeight(w: string, toFloat: string -> Option<real>)
    requires Text.IsToken(w)
    ensures LineEntry(w, toFloat) == Some(WEntry(w, None))
  {
    Text.SplitJoin([w]);
  }

  /**
    Reading "w1 ... wm tok" gives the word "w1 ... wm" with float(tok), or
    with no weight where float() rejects tok.
  */
  lemma LineRoundTrip(ws: seq<string>, tok: string, toFloat: string -> Option<real>)
    requires ws != [] && Text.IsToken(tok)
    requires forall i :: 0 <= i < |ws| ==> Text.IsToken(ws[i])
    ensures LineEntry(Text.Join(ws + [tok]), toFloat) == Some(WEntry(Text.Join(ws), toFloat(tok)))
  {
    var parts := ws + [tok];
    Text.SplitJoin(parts);
    Text.DropLast(ws, tok);
  }

  lemma {:induction false} BlankEntries(lines: seq<string>, toFloat: string -> Option<real>)
    requires forall i :: 0 <= i < |lines| ==> Text.Split(lines[i]) == []
    ensures EntriesOf(lines, toFloat) == []
  {
    if lines != [] {
      var init := lines[..|lines| - 1];
      assert forall i :: 0 <= i < |init| ==> init[i] == lines[i];
      BlankEntries(init, toFloat);
    }
  }

  /** Input of blank lines only (or none) prints nothing. */
  lemma EmptyInput(lines: seq<string>, toFloat: string -> Option<real>)
    requires forall i, k :: 0 <= i < |lines| && 0 <= k < |lines[i]| ==> Text.IsSpace(lines[i][k])
    ensures PermuteSpec(lines, toFloat) == []
  {
    forall i | 0 <= i < |lines|
      ensures Text.Split(lines[i]) == []
    {
      Text.SplitBlank(lines[i]);
    }
    BlankEntries(lines, toFloat);
  }

  /** In weighted mode the entries keep their words, so the unweighted listing is that of these entries. */
  lemma WeighedWords(es: seq<WEntry>)
    requires !Unweighted(es)
    ensures Words(Weighed(es)) == WordsOf(es)
  {
  }

  /**
    In either mode the output holds "w1 w2" for exactly the pairs of entries
    whose words differ: no line pairs a word with itself.
  */
  lemma PermuteMembers(lines: seq<string>, toFloat: string -> Option<real>, o: string)
    ensures var es := EntriesOf(lines, toFloat);
      o in PermuteSpec(lines, toFloat) <==>
        exists i, j :: 0 <= i < |es| && 0 <= j < |es| && es[i].word != es[j].word && o == Show(es[i].word, es[j].word)
  {
    var es := EntriesOf(lines, toFloat);
    if es != [] {
      if !Unweighted(es) {
        SortedSameLines(es, o);
      }
      WordPairsMembers(WordsOf(es), o);
    }
  }

  /** The sorted weighted listing holds the same lines as the unweighted one. */
  lemma SortedSameLines(es: seq<WEntry>, o: string)
    requires !Unweighted(es)
    ensures o in Lines(SortDesc(Pairs(Weighed(es)))) <==> o in WordPairs(WordsOf(es))
  {
    var ps := Pairs(Weighed(es));
    SortedLines(ps);
    assert o in Lines(SortDesc(ps)) <==> o in multiset(Lines(ps));
    LinesOfPairs(Weighed(es));
    WeighedWords(es);
  }

  /**
    In weighted mode the output is the unweighted listing of the same words,
    reordered: sorted non-increasing by (total, first), each key's pairs in
    generation order.
  */
  lemma WeightedMode(lines: seq<string>, toFloat: string -> Option<real>)
    requires var es := EntriesOf(lines, toFloat); es != [] && !Unweighted(es)
    ensures var es := EntriesOf(lines, toFloat);
      var r := SortDesc(Pairs(Weighed(es)));
      && PermuteSpec(lines, toFloat) == Lines(r)
      && Sorted(r) && (forall k :: Filter(r, k) == Filter(Pairs(Weighed(es)), k))
      && multiset(PermuteSpec(lines, toFloat)) == multiset(WordPairs(WordsOf(es)))
  {
    var es := EntriesOf(lines, toFloat);
    SortDescSpec(Pairs(Weighed(es)), []);
    SortedLines(Pairs(Weighed(es)));
    LinesOfPairs(Weighed(es));
    WeighedWords(es);
  }

  /** In unweighted mode the output is the listing of the words in input order. */
  lemma UnweightedMode(lines: seq<string>, toFloat: string -> Option<real>)
    requires Unweighted(EntriesOf(lines, toFloat))
    ensures PermuteSpec(lines, toFloat) == WordPairs(WordsOf(EntriesOf(lines, toFloat)))
  {
  }

  /** No word occurs in two entries. */
  predicate DistinctEntries(es: seq<WEntry>)
  {
    forall i, j :: 0 <= i < j < |es| ==> es[i].word != es[j].word
  }

  /** n different words give n(n-1) lines in either mode. */
  lemma PermuteCount(lines: seq<string>, toFloat: string -> Option<real>)
    requires DistinctEntries(EntriesOf(lines, toFloat))
    ensures var n := |EntriesOf(lines, toFloat)|; |PermuteSpec(lines, toFloat)| == n * (n - 1)
  {
    EntriesCount(EntriesOf(lines, toFloat));
  }

  lemma EntriesCount(es: seq<WEntry>)
    requires DistinctEntries(es)
    ensures |PermuteEntries(es)| == |es| * (|es| - 1)
  {
    if es != [] {
      if Unweighted(es) {
        UnweightedCount(es);
      } else {
        SortedCount(es);
      }
    }
  }

  lemma UnweightedCount(es: seq<WEntry>)
    requires DistinctEntries(es)
    ensures |WordPairs(WordsOf(es))| == |es| * (|es| - 1)
  {
    WordsDistinct(es);
    WordPairsCount(WordsOf(es));
  }

  /** No word occurs twice. */
  predicate Distinct(ws: seq<string>)
  {
    forall i, j :: 0 <= i < j < |ws| ==> ws[i] != ws[j]
  }

  lemma WordPairsCount(ws: seq<string>)
    requires Distinct(ws)
    ensures |WordPairs(ws)| == |ws| * (|ws| - 1)
  {
    var zs := seq(|ws|, i requires 0 <= i < |ws| => Entry(ws[i], 0.0));
    assert Words(zs) == ws;
    assert DistinctWords(zs);
    PairsCount(zs);
    LinesOfPairs(zs);
  }

  lemma SortedCount(es: seq<WEntry>)
    requires !Unweighted(es) && DistinctEntries(es)
    ensures |Lines(SortDesc(Pairs(Weighed(es))))| == |es| * (|es| - 1)
  {
    var ws := Weighed(es);
    WeighedDistinct(es);
    PairsCount(ws);
    SortDescLength(Pairs(ws));
  }

  lemma WordsDistinct(es: seq<WEntry>)
    requires DistinctEntries(es)
    ensures Distinct(WordsOf(es))
  {
  }

  lemma WeighedDistinct(es: seq<WEntry>)
    requires !Unweighted(es) && DistinctEntries(es)
    ensures DistinctWords(Weighed(es))
  {
  }

  // ---------------------------------------------------------------------
  // Example
  // ---------------------------------------------------------------------

  /** "a" has no weight, so "a" and "b 2" are listed in input order rather than by weight. */
  lemma ExampleUnweighted()
    ensures PermuteSpec(["a", "b 2"], Numeric.ParseDecimal) == ["a b", "b a"]
  {
    var es := [WEntry("a", None), WEntry("b", Numeric.ParseDecimal("2"))];
    ExampleEntriesOf();
    assert es[0].weight.None?;
    assert WordsOf(es) == ["a", "b"];
    ExampleWordPairs();
  }

  lemma ExampleEntriesOf()
    ensures EntriesOf(["a", "b 2"], Numeric.ParseDecimal) == [WEntry("a", None), WEntry("b", Numeric.ParseDecimal("2"))]
  {
    var ls := ["a", "b 2"];
    ExampleLines();
    assert ls[..1] == ["a"];
    assert ["a"][..0] == [];
    assert EntriesOf(["a"], Numeric.ParseDecimal) == [WEntry("a", None)];
  }

  lemma ExampleLines()
    ensures LineEntry("a", Numeric.ParseDecimal) == Some(WEntry("a", None))
    ensures LineEntry("b 2", Numeric.ParseDecimal) == Some(WEntry("b", Numeric.ParseDecimal("2")))
  {
    Text.VisibleAscii('a');
    Text.VisibleAscii('b');
    Text.VisibleAscii('2');
    WordWithoutWeight("a", Numeric.ParseDecimal);
    LineRoundTrip(["b"], "2", Numeric.ParseDecimal);
    assert Text.Join(["b"] + ["2"]) == "b 2";
    assert Text.Join(["b"]) == "b";
  }

  lemma ExampleWordPairs()
    ensures WordPairs(["a", "b"]) == ["a b", "b a"]
  {
    var ws := ["a", "b"];
    assert ws[..1] == ["a"];
    assert ["a"][..0] == [];
    assert Show("a", "b") == "a b" && Show("b", "a") == "b a";
    assert WordRow("a", ["a"]) == [];
    assert WordRow("a", ws) == ["a b"];
    assert WordRow("b", ["a"]) == ["b a"];
    assert WordRow("b", ws) == ["b a"];
    assert WordRowsFrom(["a"], ws) == ["a b"];
  }
}
