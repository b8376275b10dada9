/**
  What the two permute_by_value versions share: the ordered pairs of entries
  with different words, in the row-major order the nested loops build them,
  and pairs.sort(key=lambda x: (x[0], x[1]), reverse=True), a stable sort
  that puts the pairs in non-increasing order of (total, first) and keeps
  pairs with equal keys in the order they were generated.
*/
module PairOrder {
  import Text

  /** A word and its weight. int weights (permute.py) are carried as reals, which keeps their sums and order exact. */
  datatype Entry = Entry(word: string, weight: real)

  /** The tuple (wt1 + wt2, wt1, word1, word2) of a pair. */
  datatype Pair = Pair(total: real, first: real, word1: string, word2: string)

  function PairOf(e1: Entry, e2: Entry): Pair
  {
    Pair(e1.weight + e2.weight, e1.weight, e1.word, e2.word)
  }

  // ---------------------------------------------------------------------
  // Generating the pairs
  // ---------------------------------------------------------------------

  /** The pairs the inner loop adds for word1 = e: one per entry of all whose word differs, in order. */
  function Row(e: Entry, all: seq<Entry>): seq<Pair>
  {
    if all == [] then []
    else
      var last := all[|all| - 1];
      Row(e, all[..|all| - 1]) + (if e.word == last.word then [] else [PairOf(e, last)])
  }

  /** The rows of the outer loop over outer, one after the other. */
  function PairsFrom(outer: seq<Entry>, all: seq<Entry>): seq<Pair>
  {
    if outer == [] then [] else PairsFrom(outer[..|outer| - 1], all) + Row(outer[|outer| - 1], all)
  }

  /** Every pair in generation order. */
  function Pairs(es: seq<Entry>): seq<Pair>
  {
    PairsFrom(es, es)
  }

  /** The nested loops that build pairs. */
  method BuildPairs(es: seq<Entry>) returns (pairs: seq<Pair>)
    ensures pairs == Pairs(es)
  {
    pairs := [];
    var i := 0;
    while i < |es|
      invariant i <= |es|
      invariant pairs == PairsFrom(es[..i], es)
    {
      ghost var before := pairs;
      var j := 0;
      while j < |es|
        invariant j <= |es|
        invariant pairs == before + Row(es[i], es[..j])
      {
        assert es[..j + 1][..j] == es[..j];
        if es[i].word != es[j].word {
          pairs := pairs + [PairOf(es[i], es[j])];
        }
        j := j + 1;
      }
      assert es[..j] == es;
      assert es[..i + 1][..i] == es[..i];
      i := i + 1;
    }
    assert es[..i] == es;
  }

  lemma RowMembers(e: Entry, all: seq<Entry>, p: Pair)
    ensures p in Row(e, all) <==> exists j :: 0 <= j < |all| && all[j].word != e.word && p == PairOf(e, all[j])
  {
    if p in Row(e, all) {
      RowSound(e, all, p);
    }
    if exists j :: 0 <= j < |all| && all[j].word != e.word && p == PairOf(e, all[j]) {
      var j :| 0 <= j < |all| && all[j].word != e.word && p == PairOf(e, all[j]);
      RowComplete(e, all, j);
    }
  }

  lemma {:induction false} RowSound(e: Entry, all: seq<Entry>, p: Pair)
    requires p in Row(e, all)
    ensures exists j :: 0 <= j < |all| && all[j].word != e.word && p == PairOf(e, all[j])
  {
    var init := all[..|all| - 1];
    if p in Row(e, init) {
      RowSound(e, init, p);
      var j :| 0 <= j < |init| && init[j].word != e.word && p == PairOf(e, init[j]);
      assert all[j] == init[j];
    } else {
      assert all[|all| - 1].word != e.word && p == PairOf(e, all[|all| - 1]);
    }
  }

  lemma {:induction false} RowComplete(e: Entry, all: seq<Entry>, j: nat)
    requires j < |all| && all[j].word != e.word
    ensures PairOf(e, all[j]) in Row(e, all)
  {
    var init := all[..|all| - 1];
    if j < |init| {
      RowComplete(e, init, j);
      assert init[j] == all[j];
    }
  }

  lemma PairsFromMembers(outer: seq<Entry>, all: seq<Entry>, p: Pair)
    ensures p in PairsFrom(outer, all) <==>
      exists i, j :: 0 <= i < |outer| && 0 <= j < |all| && outer[i].word != all[j].word && p == PairOf(outer[i], all[j])
  {
    if p in PairsFrom(outer, all) {
      PairsFromSound(outer, all, p);
    }
    if exists i, j :: 0 <= i < |outer| && 0 <= j < |all| && outer[i].word != all[j].word && p == PairOf(outer[i], all[j]) {
      var i, j :| 0 <= i < |outer| && 0 <= j < |all| && outer[i].word != all[j].word && p == PairOf(outer[i], all[j]);
      PairsFromComplete(outer, all, i, j);
    }
  }

  lemma {:induction false} PairsFromSound(outer: seq<Entry>, all: seq<Entry>, p: Pair)
    requires p in PairsFrom(outer, all)
    ensures exists i, j :: 0 <= i < |outer| && 0 <= j < |all| && outer[i].word != all[j].word && p == PairOf(outer[i], all[j])
  {
    var init, last := outer[..|outer| - 1], outer[|outer| - 1];
    if p in PairsFrom(init, all) {
      PairsFromSound(init, all, p);
      var i, j :| 0 <= i < |init| && 0 <= j < |all| && init[i].word != all[j].word && p == PairOf(init[i], all[j]);
      assert outer[i] == init[i];
    } else {
      RowSound(last, all, p);
      var j :| 0 <= j < |all| && all[j].word != last.word && p == PairOf(last, all[j]);
      assert outer[|outer| - 1] == last;
    }
  }

  lemma {:induction false} PairsFromComplete(outer: seq<Entry>, all: seq<Entry>, i: nat, j: nat)
    requires i < |outer| && j < |all| && outer[i].word != all[j].word
    ensures PairOf(outer[i], all[j]) in PairsFrom(outer, all)
  {
    var init, last := outer[..|outer| - 1], outer[|outer| - 1];
    if i < |init| {
      PairsFromComplete(init, all, i, j);
      assert init[i] == outer[i];
    } else {
      RowComplete(last, all, j);
    }
  }

  /**
    The pairs are exactly the (word1, word2) of two entries whose words
    differ, with total wt1 + wt2 and first wt1. Equality is by word: two
    entries with the same word never pair, even at different positions.
  */
  lemma PairsMembers(es: seq<Entry>, p: Pair)
    ensures p in Pairs(es) <==>
      exists i, j :: 0 <= i < |es| && 0 <= j < |es| && es[i].word != es[j].word && p == PairOf(es[i], es[j])
    ensures p in Pairs(es) ==> p.word1 != p.word2
  {
    PairsFromMembers(es, es, p);
  }

  /** How many entries of es have word w. */
  function Occurrences(es: seq<Entry>, w: string): (n: nat)
    ensures n <= |es|
  {
    if es == [] then 0 else Occurrences(es[..|es| - 1], w) + (if es[|es| - 1].word == w then 1 else 0)
  }

  /** The row for e has one pair per entry whose word differs from e's. */
  lemma {:induction false} RowCount(e: Entry, all: seq<Entry>)
    ensures |Row(e, all)| == |all| - Occurrences(all, e.word)
  {
    if all != [] {
      RowCount(e, all[..|all| - 1]);
    }
  }

  predicate DistinctWords(es: seq<Entry>)
  {
    forall i, j :: 0 <= i < j < |es| ==> es[i].word != es[j].word
  }

  lemma {:induction false} OccurrencesAbsent(es: seq<Entry>, w: string)
    requires forall i :: 0 <= i < |es| ==> es[i].word != w
    ensures Occurrences(es, w) == 0
  {
    if es != [] {
      OccurrencesAbsent(es[..|es| - 1], w);
    }
  }

  lemma {:induction false} OccurrencesDistinct(es: seq<Entry>, k: nat)
    requires DistinctWords(es) && k < |es|
    ensures Occurrences(es, es[k].word) == 1
  {
    var init := es[..|es| - 1];
    if k == |es| - 1 {
      OccurrencesAbsent(init, es[k].word);
    } else {
      assert init[k] == es[k];
      OccurrencesDistinct(init, k);
    }
  }

  lemma {:induction false} PairsFromCount(es: seq<Entry>, i: nat)
    requires DistinctWords(es) && i <= |es|
    ensures |PairsFrom(es[..i], es)| == i * (|es| - 1)
  {
    if i > 0 {
      var before := PairsFrom(es[..i - 1], es);
      var row := Row(es[i - 1], es);
      assert es[..i][..i - 1] == es[..i - 1];
      assert PairsFrom(es[..i], es) == before + row;
      PairsFromCount(es, i - 1);
      RowCount(es[i - 1], es);
      OccurrencesDistinct(es, i - 1);
      MulStep(|before|, |row|, i, |es| - 1);
    }
  }

  lemma MulStep(before: nat, added: nat, i: nat, m: int)
    requires i > 0 && before == (i - 1) * m && added == m
    ensures before + added == i * m
  {
  }

  /** n entries with pairwise different words give n(n-1) pairs. */
  lemma PairsCount(es: seq<Entry>)
    requires DistinctWords(es)
    ensures |Pairs(es)| == |es| * (|es| - 1)
  {
    PairsFromCount(es, |es|);
    assert es[..|es|] == es;
  }

  // ---------------------------------------------------------------------
  // The output lines
  // ---------------------------------------------------------------------

  /** f"{w1} {w2}" */
  function Show(w1: string, w2: string): string
  {
    w1 + " " + w2
  }

  /** The printed lines for the pairs, in order. */
  function Lines(ps: seq<Pair>): (r: seq<string>)
    ensures |r| == |ps|
    ensures forall k :: 0 <= k < |ps| ==> r[k] == Show(ps[k].word1, ps[k].word2)
  {
    if ps == [] then [] else [Show(ps[0].word1, ps[0].word2)] + Lines(ps[1..])
  }

  lemma LinesConcat(a: seq<Pair>, b: seq<Pair>)
    ensures Lines(a + b) == Lines(a) + Lines(b)
  {
  }

  /** The loop `for _, _, w1, w2 in pairs: print(f"{w1} {w2}")`. */
  method PrintPairs(ps: seq<Pair>) returns (out: seq<string>)
    ensures out == Lines(ps)
  {
    out := [];
    var i := 0;
    while i < |ps|
      invariant i <= |ps|
      invariant out == Lines(ps[..i])
    {
      LinesConcat(ps[..i], [ps[i]]);
      assert ps[..i + 1] == ps[..i] + [ps[i]];
      out := out + [Show(ps[i].word1, ps[i].word2)];
      i := i + 1;
    }
    assert ps[..i] == ps;
  }

  /** The unweighted pairs of words as they are printed: w1 != w2, row-major. */
  function WordRow(w: string, words: seq<string>): seq<string>
  {
    if words == [] then []
    else
      var last := words[|words| - 1];
      WordRow(w, words[..|words| - 1]) + (if w == last then [] else [Show(w, last)])
  }

  function WordRowsFrom(outer: seq<string>, words: seq<string>): seq<string>
  {
    if outer == [] then [] else WordRowsFrom(outer[..|outer| - 1], words) + WordRow(outer[|outer| - 1], words)
  }

  function WordPairs(words: seq<string>): seq<string>
  {
    WordRowsFrom(words, words)
  }

  /** The word of every entry, in order. */
  function Words(es: seq<Entry>): (ws: seq<string>)
    ensures |ws| == |es|
    ensures forall k :: 0 <= k < |es| ==> ws[k] == es[k].word
  {
    if es == [] then [] else Words(es[..|es| - 1]) + [es[|es| - 1].word]
  }

  lemma {:induction false} WordRowOfRow(e: Entry, all: seq<Entry>)
    ensures Lines(Row(e, all)) == WordRow(e.word, Words(all))
  {
    if all != [] {
      var init := all[..|all| - 1];
      WordRowOfRow(e, init);
      assert Words(all)[..|all| - 1] == Words(init);
      LinesConcat(Row(e, init), if e.word == all[|all| - 1].word then [] else [PairOf(e, all[|all| - 1])]);
    }
  }

  lemma {:induction false} WordRowsOfPairs(outer: seq<Entry>, all: seq<Entry>)
    ensures Lines(PairsFrom(outer, all)) == WordRowsFrom(Words(outer), Words(all))
  {
    if outer != [] {
      var init := outer[..|outer| - 1];
      WordRowsOfPairs(init, all);
      WordRowOfRow(outer[|outer| - 1], all);
      assert Words(outer)[..|outer| - 1] == Words(init);
      LinesConcat(PairsFrom(init, all), Row(outer[|outer| - 1], all));
    }
  }

  /** Printing the generated pairs gives the unweighted listing of the entries' words. */
  lemma LinesOfPairs(es: seq<Entry>)
    ensures Lines(Pairs(es)) == WordPairs(Words(es))
  {
    WordRowsOfPairs(es, es);
  }

  lemma WordRowMembers(w: string, words: seq<string>, o: string)
    ensures o in WordRow(w, words) <==> exists j :: 0 <= j < |words| && words[j] != w && o == Show(w, words[j])
  {
    if o in WordRow(w, words) {
      WordRowSound(w, words, o);
    }
    if exists j :: 0 <= j < |words| && words[j] != w && o == Show(w, words[j]) {
      var j :| 0 <= j < |words| && words[j] != w && o == Show(w, words[j]);
      WordRowComplete(w, words, j);
    }
  }

  lemma {:induction false} WordRowSound(w: string, words: seq<string>, o: string)
    requires o in WordRow(w, words)
    ensures exists j :: 0 <= j < |words| && words[j] != w && o == Show(w, words[j])
  {
    var init := words[..|words| - 1];
    if o in WordRow(w, init) {
      WordRowSound(w, init, o);
      var j :| 0 <= j < |init| && init[j] != w && o == Show(w, init[j]);
      assert words[j] == init[j];
    } else {
      assert words[|words| - 1] != w && o == Show(w, words[|words| - 1]);
    }
  }

  lemma {:induction false} WordRowComplete(w: string, words: seq<string>, j: nat)
    requires j < |words| && words[j] != w
    ensures Show(w, words[j]) in WordRow(w, words)
  {
    var init := words[..|words| - 1];
    if j < |init| {
      WordRowComplete(w, init, j);
      assert init[j] == words[j];
    }
  }

  lemma WordRowsMembers(outer: seq<string>, words: seq<string>, o: string)
    ensures o in WordRowsFrom(outer, words) <==>
      exists i, j :: 0 <= i < |outer| && 0 <= j < |words| && outer[i] != words[j] && o == Show(outer[i], words[j])
  {
    if o in WordRowsFrom(outer, words) {
      WordRowsSound(outer, words, o);
    }
    if exists i, j :: 0 <= i < |outer| && 0 <= j < |words| && outer[i] != words[j] && o == Show(outer[i], words[j]) {
      var i, j :| 0 <= i < |outer| && 0 <= j < |words| && outer[i] != words[j] && o == Show(outer[i], words[j]);
      WordRowsComplete(outer, words, i, j);
    }
  }

  lemma {:induction false} WordRowsSound(outer: seq<string>, words: seq<string>, o: string)
    requires o in WordRowsFrom(outer, words)
    ensures exists i, j :: 0 <= i < |outer| && 0 <= j < |words| && outer[i] != words[j] && o == Show(outer[i], words[j])
  {
    var init, last := outer[..|outer| - 1], outer[|outer| - 1];
    if o in WordRowsFrom(init, words) {
      WordRowsSound(init, words, o);
      var i, j :| 0 <= i < |init| && 0 <= j < |words| && init[i] != words[j] && o == Show(init[i], words[j]);
      assert outer[i] == init[i];
    } else {
      WordRowSound(last, words, o);
      var j :| 0 <= j < |words| && words[j] != last && o == Show(last, words[j]);
      assert outer[|outer| - 1] == last;
    }
  }

  lemma {:induction false} WordRowsComplete(outer: seq<string>, words: seq<string>, i: nat, j: nat)
    requires i < |outer| && j < |words| && outer[i] != words[j]
    ensures Show(outer[i], words[j]) in WordRowsFrom(outer, words)
  {
    var init, last := outer[..|outer| - 1], outer[|outer| - 1];
    if i < |init| {
      WordRowsComplete(init, words, i, j);
      assert init[i] == outer[i];
    } else {
      WordRowComplete(last, words, j);
    }
  }

  /** The unweighted listing has "w1 w2" for exactly the pairs of different words of the input. */
  lemma WordPairsMembers(words: seq<string>, o: string)
    ensures o in WordPairs(words) <==>
      exists i, j :: 0 <= i < |words| && 0 <= j < |words| && words[i] != words[j] && o == Show(words[i], words[j])
  {
    WordRowsMembers(words, words, o);
  }

  /** The nested loops of the unweighted mode, printing as they go. */
  method PrintWordPairs(words: seq<string>) returns (out: seq<string>)
    ensures out == WordPairs(words)
  {
    out := [];
    var i := 0;
    while i < |words|
      invariant i <= |words|
      invariant out == WordRowsFrom(words[..i], words)
    {
      var row := PrintWordRow(words[i], words);
      out := out + row;
      assert words[..i + 1][..i] == words[..i];
      i := i + 1;
    }
    assert words[..i] == words;
  }

  /** The inner loop of print_pairs for the unweighted case: word w against every other word. */
  method PrintWordRow(w: string, words: seq<string>) returns (out: seq<string>)
    ensures out == WordRow(w, words)
  {
    out := [];
    var j := 0;
    while j < |words|
      invariant j <= |words|
      invariant out == WordRow(w, words[..j])
    {
      assert words[..j + 1][..j] == words[..j];
      if w != words[j] {
        out := out + [Show(w, words[j])];
      }
      j := j + 1;
    }
    assert words[..j] == words;
  }

  // ---------------------------------------------------------------------
  // pairs.sort(key=lambda x: (x[0], x[1]), reverse=True)
  // ---------------------------------------------------------------------

  /** The sort key (total, first). */
  function Key(p: Pair): (real, real)
  {
    (p.total, p.first)
  }

  /** p's key is at least q's in the lexicographic order of (total, first). */
  predicate Ge(p: Pair, q: Pair)
  {
    p.total > q.total || (p.total == q.total && p.first >= q.first)
  }

  /** Non-increasing by key. */
  predicate Sorted(ps: seq<Pair>)
  {
    forall i, j :: 0 <= i < j < |ps| ==> Ge(ps[i], ps[j])
  }

  /** The pairs of ps with key k, in their order in ps. */
  function Filter(ps: seq<Pair>, k: (real, real)): seq<Pair>
  {
    if ps == [] then [] else (if Key(ps[0]) == k then [ps[0]] else []) + Filter(ps[1..], k)
  }

  /** Sorted r with x put after every pair whose key is at least x's. */
  function Insert(r: seq<Pair>, x: Pair): seq<Pair>
  {
    if r == [] then [x]
    else if Ge(r[0], x) then [r[0]] + Insert(r[1..], x)
    else [x] + r
  }

  /** The stable descending sort of ps: each pair inserted, in order, behind its equals. */
  function SortDesc(ps: seq<Pair>): seq<Pair>
  {
    if ps == [] then [] else Insert(SortDesc(ps[..|ps| - 1]), ps[|ps| - 1])
  }

  lemma {:induction false} InsertMultiset(r: seq<Pair>, x: Pair)
    ensures multiset(Insert(r, x)) == multiset(r) + multiset{x}
  {
    if r != [] && Ge(r[0], x) {
      InsertMultiset(r[1..], x);
      assert r == [r[0]] + r[1..];
    }
  }

  lemma {:induction false} InsertSorted(r: seq<Pair>, x: Pair)
    requires Sorted(r)
    ensures Sorted(Insert(r, x))
  {
    if r != [] && Ge(r[0], x) {
      var t := Insert(r[1..], x);
      InsertSorted(r[1..], x);
      InsertMultiset(r[1..], x);
      forall k | 0 <= k < |t|
        ensures Ge(r[0], t[k])
      {
        assert t[k] in multiset(r[1..]) + multiset{x};
        if t[k] in r[1..] {
          var m :| 0 <= m < |r[1..]| && r[1..][m] == t[k];
          assert r[m + 1] == t[k];
        }
      }
    }
  }

  lemma {:induction false} SortDescMultiset(ps: seq<Pair>)
    ensures multiset(SortDesc(ps)) == multiset(ps)
  {
    if ps != [] {
      var init := ps[..|ps| - 1];
      SortDescMultiset(init);
      InsertMultiset(SortDesc(init), ps[|ps| - 1]);
      assert ps == init + [ps[|ps| - 1]];
    }
  }

  lemma SortDescLength(ps: seq<Pair>)
    ensures |SortDesc(ps)| == |ps|
  {
    SortDescMultiset(ps);
    assert |multiset(SortDesc(ps))| == |multiset(ps)|;
  }

  lemma {:induction false} SortDescSorted(ps: seq<Pair>)
    ensures Sorted(SortDesc(ps))
  {
    if ps != [] {
      SortDescSorted(ps[..|ps| - 1]);
      InsertSorted(SortDesc(ps[..|ps| - 1]), ps[|ps| - 1]);
    }
  }

  lemma {:induction false} FilterConcat(a: seq<Pair>, b: seq<Pair>, k: (real, real))
    ensures Filter(a + b, k) == Filter(a, k) + Filter(b, k)
  {
    if a != [] {
      assert (a + b)[1..] == a[1..] + b;
      FilterConcat(a[1..], b, k);
    } else {
      assert a + b == b;
    }
  }

  /** No pair of a sorted sequence below a pair of smaller key than x has x's key. */
  lemma {:induction false} FilterBelow(r: seq<Pair>, x: Pair)
    requires Sorted(r) && r != [] && !Ge(r[0], x)
    ensures Filter(r, Key(x)) == []
  {
    if |r| > 1 {
      assert Ge(r[0], r[1]);
      assert Sorted(r[1..]);
      FilterBelow(r[1..], x);
    }
  }

  /** Inserting x adds it at the end of the pairs that share its key. */
  lemma {:induction false} InsertFilter(r: seq<Pair>, x: Pair, k: (real, real))
    requires Sorted(r)
    ensures Filter(Insert(r, x), k) == Filter(r, k) + (if Key(x) == k then [x] else [])
  {
    if r == [] {
    } else if Ge(r[0], x) {
      assert Sorted(r[1..]);
      InsertFilter(r[1..], x, k);
      assert ([r[0]] + Insert(r[1..], x))[1..] == Insert(r[1..], x);
    } else {
      if Key(x) == k {
        FilterBelow(r, x);
      }
      assert ([x] + r)[1..] == r;
    }
  }

  /** Stability: for every key, the pairs with that key keep their generation order. */
  lemma {:induction false} SortDescStable(ps: seq<Pair>, k: (real, real))
    ensures Filter(SortDesc(ps), k) == Filter(ps, k)
  {
    if ps != [] {
      var init, last := ps[..|ps| - 1], ps[|ps| - 1];
      SortDescStable(init, k);
      SortDescSorted(init);
      InsertFilter(SortDesc(init), last, k);
      assert ps == init + [last];
      FilterConcat(init, [last], k);
    }
  }

  lemma {:induction false} FilterMembers(ps: seq<Pair>, k: (real, real), z: Pair)
    requires z in Filter(ps, k)
    ensures z in ps && Key(z) == k
  {
    if ps != [] && !(Key(ps[0]) == k && z == ps[0]) {
      assert z in Filter(ps[1..], k);
      FilterMembers(ps[1..], k, z);
    }
  }

  lemma FilterHead(ps: seq<Pair>)
    requires ps != []
    ensures Filter(ps, Key(ps[0])) != []
  {
  }

  /**
    A sorted sequence is determined by its pairs of each key: two sorted
    sequences that agree key by key are equal.
  */
  lemma {:induction false} SortedUnique(r1: seq<Pair>, r2: seq<Pair>)
    requires Sorted(r1) && Sorted(r2)
    requires forall k :: Filter(r1, k) == Filter(r2, k)
    ensures r1 == r2
    decreases |r1| + |r2|
  {
    if r1 == [] && r2 != [] {
      FilterHead(r2);
      assert false;
    } else if r1 != [] && r2 == [] {
      FilterHead(r1);
      assert false;
    } else if r1 != [] {
      var x, y := r1[0], r2[0];
      assert Filter(r1, Key(x))[0] == x;
      assert Filter(r2, Key(y))[0] == y;
      FilterMembers(r2, Key(x), Filter(r2, Key(x))[0]);
      FilterMembers(r1, Key(y), Filter(r1, Key(y))[0]);
      assert Ge(y, x) && Ge(x, y) by {
        var m :| 0 <= m < |r2| && r2[m] == Filter(r2, Key(x))[0];
        var l :| 0 <= l < |r1| && r1[l] == Filter(r1, Key(y))[0];
        assert Key(r2[m]) == Key(x) && Key(r1[l]) == Key(y);
      }
      assert x == y;
      forall k
        ensures Filter(r1[1..], k) == Filter(r2[1..], k)
      {
        var h := if Key(x) == k then [x] else [];
        assert Filter(r1, k) == h + Filter(r1[1..], k);
        assert Filter(r2, k) == h + Filter(r2[1..], k);
        assert Filter(r1[1..], k) == Filter(r1, k)[|h|..];
      }
      SortedUnique(r1[1..], r2[1..]);
      assert r1 == [x] + r1[1..];
      assert r2 == [y] + r2[1..];
    }
  }

  /**
    The sort's output is sorted, holds the same pairs, keeps each key's
    pairs in generation order, and is the only sequence with these three
    properties.
  */
  lemma SortDescSpec(ps: seq<Pair>, r: seq<Pair>)
    ensures Sorted(SortDesc(ps)) && multiset(SortDesc(ps)) == multiset(ps)
    ensures forall k :: Filter(SortDesc(ps), k) == Filter(ps, k)
    ensures Sorted(r) && (forall k :: Filter(r, k) == Filter(ps, k)) ==> r == SortDesc(ps)
  {
    SortDescSorted(ps);
    SortDescMultiset(ps);
    forall k
      ensures Filter(SortDesc(ps), k) == Filter(ps, k)
    {
      SortDescStable(ps, k);
    }
    if Sorted(r) && (forall k :: Filter(r, k) == Filter(ps, k)) {
      SortedUnique(r, SortDesc(ps));
    }
  }

  /** In sorted r, putting x behind the run of pairs whose key is at least x's is Insert. */
  lemma {:induction false} InsertAt(r: seq<Pair>, x: Pair, p: nat)
    requires p <= |r|
    requires forall k :: 0 <= k < p ==> Ge(r[k], x)
    requires p < |r| ==> !Ge(r[p], x)
    ensures Insert(r, x) == r[..p] + [x] + r[p..]
  {
    if p > 0 {
      InsertAt(r[1..], x, p - 1);
      assert r[..p] == [r[0]] + r[1..][..p - 1];
      assert r[p..] == r[1..][p - 1..];
    }
  }

  /** pairs.sort(key=..., reverse=True): an in-place stable insertion sort. */
  method SortPairs(a: array<Pair>)
    modifies a
    ensures a[..] == SortDesc(old(a[..]))
  {
    ghost var orig := a[..];
    var i := 0;
    while i < a.Length
      invariant 0 <= i <= a.Length
      invariant a[..i] == SortDesc(orig[..i])
      invariant a[i..] == orig[i..]
    {
      SortDescSorted(orig[..i]);
      assert a[i] == orig[i];
      InsertLast(a, i);
      assert orig[..i + 1][..i] == orig[..i];
      assert a[i + 1..] == orig[i + 1..];
      i := i + 1;
    }
    assert a[..] == a[..a.Length];
    assert orig[..a.Length] == orig;
  }

  /** One pass of the insertion sort: a[i] moved into the sorted prefix a[..i]. */
  method InsertLast(a: array<Pair>, i: nat)
    requires i < a.Length && Sorted(a[..i])
    modifies a
    ensures a[..i + 1] == Insert(old(a[..i]), old(a[i]))
    ensures a[i + 1..] == old(a[i + 1..])
  {
    ghost var sorted := a[..i];
    ghost var rest := a[i + 1..];
    var x := a[i];
    var j := i;
    while j > 0 && !Ge(a[j - 1], x)
      invariant 0 <= j <= i
      invariant forall k :: 0 <= k < j ==> a[k] == sorted[k]
      invariant forall k :: j < k <= i ==> a[k] == sorted[k - 1]
      invariant forall k :: j <= k < i ==> !Ge(sorted[k], x)
      invariant a[i + 1..] == rest
    {
      a[j] := a[j - 1];
      j := j - 1;
    }
    assert j > 0 ==> Ge(sorted[j - 1], x);
    a[j] := x;
    Placed(a[..i + 1], sorted, x, j);
  }

  /** The array prefix left by the shifting loop, with x written into the gap, is Insert(sorted, x). */
  lemma Placed(s: seq<Pair>, sorted: seq<Pair>, x: Pair, j: nat)
    requires Sorted(sorted) && |s| == |sorted| + 1 && j <= |sorted| && s[j] == x
    requires forall k :: 0 <= k < j ==> s[k] == sorted[k]
    requires forall k :: j < k < |s| ==> s[k] == sorted[k - 1]
    requires forall k :: j <= k < |sorted| ==> !Ge(sorted[k], x)
    requires j > 0 ==> Ge(sorted[j - 1], x)
    ensures s == Insert(sorted, x)
  {
    forall k | 0 <= k < j
      ensures Ge(sorted[k], x)
    {
      assert Ge(sorted[k], sorted[j - 1]);
    }
    InsertAt(sorted, x, j);
    Shifted(s, sorted, x, j);
  }

  /** A sequence that agrees with r below p, holds x at p and r shifted up by one above p is r with x inserted at p. */
  lemma Shifted(s: seq<Pair>, r: seq<Pair>, x: Pair, p: nat)
    requires |s| == |r| + 1 && p <= |r| && s[p] == x
    requires forall k :: 0 <= k < p ==> s[k] == r[k]
    requires forall k :: p < k < |s| ==> s[k] == r[k - 1]
    ensures s == r[..p] + [x] + r[p..]
  {
    var t := r[..p] + [x] + r[p..];
    forall k | 0 <= k < |s|
      ensures s[k] == t[k]
    {
      if k < p {
        assert t[k] == r[k];
      } else if k > p {
        assert t[k] == r[p..][k - p - 1];
      }
    }
  }

  lemma {:induction false} LinesMultiset(a: seq<Pair>, b: seq<Pair>)
    requires multiset(a) == multiset(b)
    ensures multiset(Lines(a)) == multiset(Lines(b))
    decreases |a|
  {
    if a != [] {
      var x := a[0];
      assert x in multiset(b);
      var m :| 0 <= m < |b| && b[m] == x;
      var rest := b[..m] + b[m + 1..];
      RemoveAt(b, m);
      HeadMultiset(a);
      assert multiset(a[1..]) == multiset(rest);
      LinesMultiset(a[1..], rest);
      LinesRemoveAt(b, m);
      assert Lines(a) == [Show(x.word1, x.word2)] + Lines(a[1..]);
    }
  }

  lemma RemoveAt(b: seq<Pair>, m: nat)
    requires m < |b|
    ensures multiset(b[..m] + b[m + 1..]) == multiset(b) - multiset{b[m]}
  {
    assert b == b[..m] + [b[m]] + b[m + 1..];
  }

  lemma HeadMultiset(a: seq<Pair>)
    requires a != []
    ensures multiset(a[1..]) == multiset(a) - multiset{a[0]}
  {
    assert a == [a[0]] + a[1..];
  }

  lemma LinesRemoveAt(b: seq<Pair>, m: nat)
    requires m < |b|
    ensures multiset(Lines(b)) == multiset(Lines(b[..m] + b[m + 1..])) + multiset{Show(b[m].word1, b[m].word2)}
  {
    var p, x, q := b[..m], b[m], b[m + 1..];
    Text.SplitAt(b, m);
    LinesConcat(p, [x] + q);
    LinesConcat(p, q);
    assert ([x] + q)[1..] == q;
    assert Lines([x] + q) == [Show(x.word1, x.word2)] + Lines(q);
  }

  /** Sorting only reorders the printed lines. */
  lemma SortedLines(ps: seq<Pair>)
    ensures multiset(Lines(SortDesc(ps))) == multiset(Lines(ps))
  {
    SortDescMultiset(ps);
    LinesMultiset(SortDesc(ps), ps);
  }

  /**
    The sorted listing prints "w1 w2" for exactly the words of two entries
    that differ, so it never pairs a word with itself.
  */
  lemma SortedMembers(es: seq<Entry>, o: string)
    ensures o in Lines(SortDesc(Pairs(es))) <==>
      exists i, j :: 0 <= i < |es| && 0 <= j < |es| && es[i].word != es[j].word && o == Show(es[i].word, es[j].word)
  {
    var ps := Pairs(es);
    SortedLines(ps);
    SameMembers(Lines(SortDesc(ps)), Lines(ps), o);
    LinesOfPairs(es);
    WordPairsMembers(Words(es), o);
    WordsPairsOf(es, Words(es), o);
  }

  lemma SameMembers(a: seq<string>, b: seq<string>, o: string)
    requires multiset(a) == multiset(b)
    ensures o in a <==> o in b
  {
    assert o in a <==> o in multiset(a);
  }

  /** A pair of distinct words of the entries is a pair of distinct entries' words. */
  lemma WordsPairsOf(es: seq<Entry>, ws: seq<string>, o: string)
    requires |ws| == |es| && forall k :: 0 <= k < |es| ==> ws[k] == es[k].word
    ensures (exists i, j :: 0 <= i < |ws| && 0 <= j < |ws| && ws[i] != ws[j] && o == Show(ws[i], ws[j])) <==>
      (exists i, j :: 0 <= i < |es| && 0 <= j < |es| && es[i].word != es[j].word && o == Show(es[i].word, es[j].word))
  {
    if exists i, j :: 0 <= i < |ws| && 0 <= j < |ws| && ws[i] != ws[j] && o == Show(ws[i], ws[j]) {
      WordPairOf(es, ws, o);
    }
    if exists i, j :: 0 <= i < |es| && 0 <= j < |es| && es[i].word != es[j].word && o == Show(es[i].word, es[j].word) {
      EntryPairOf(es, ws, o);
    }
  }

  lemma WordPairOf(es: seq<Entry>, ws: seq<string>, o: string)
    requires |ws| == |es| && forall k :: 0 <= k < |es| ==> ws[k] == es[k].word
    requires exists i, j :: 0 <= i < |ws| && 0 <= j < |ws| && ws[i] != ws[j] && o == Show(ws[i], ws[j])
    ensures exists i, j :: 0 <= i < |es| && 0 <= j < |es| && es[i].word != es[j].word && o == Show(es[i].word, es[j].word)
  {
    var i, j :| 0 <= i < |ws| && 0 <= j < |ws| && ws[i] != ws[j] && o == Show(ws[i], ws[j]);
    assert es[i].word != es[j].word && o == Show(es[i].word, es[j].word);
  }

  lemma EntryPairOf(es: seq<Entry>, ws: seq<string>, o: string)
    requires |ws| == |es| && forall k :: 0 <= k < |es| ==> ws[k] == es[k].word
    requires exists i, j :: 0 <= i < |es| && 0 <= j < |es| && es[i].word != es[j].word && o == Show(es[i].word, es[j].word)
    ensures exists i, j :: 0 <= i < |ws| && 0 <= j < |ws| && ws[i] != ws[j] && o == Show(ws[i], ws[j])
  {
    var i, j :| 0 <= i < |es| && 0 <= j < |es| && es[i].word != es[j].word && o == Show(es[i].word, es[j].word);
    assert ws[i] != ws[j] && o == Show(ws[i], ws[j]);
  }
}
