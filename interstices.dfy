/**
  generate_separators and fill_interstices: every separator a mask expands
  to, and for each two-word line and each mask every word1 + separator + word2.
*/
module Interstices {
  import opened Wrappers
  import opened Mask
  import opened Expansion
  import Numeric
  import Text

  /** The output strings of a worklist, in order: [out for out, _ in exps]. */
  function Outs(rs: seq<Branch>): (r: seq<string>)
    ensures |r| == |rs|
    ensures forall k :: 0 <= k < |rs| ==> r[k] == rs[k].out
  {
    if rs == [] then [] else Outs(rs[..|rs| - 1]) + [rs[|rs| - 1].out]
  }

  /** generate_separators(mask), or the ValueError that parse_mask raises. */
  function Separators(mask: string): Result<seq<string>, ParseError>
  {
    match Parse(mask)
    case Err(e) => Err(e)
    case Ok(es) => Ok(Outs(Expand(es, Initial)))
  }

  method GenerateSeparators(mask: string) returns (r: Result<seq<string>, ParseError>)
    ensures r == Separators(mask)
  {
    var ast := ParseMask(mask);
    if ast.Err? {
      return Err(ast.error);
    }
    var exps := ExpandElements(ast.value, Initial);
    r := Ok(Outs(exps));
  }

  /** A mask is rejected exactly when some '{' is never closed, and the error names the mask. */
  lemma SeparatorsFail(mask: string)
    ensures Separators(mask).Err? <==> Unclosed(mask, 0) > 0
    ensures Separators(mask).Err? ==> Separators(mask).error == UnmatchedBrace(mask)
  {
    ParseFails(mask);
  }

  /**
    Every separator of a well-formed mask has one character per literal, digit
    slot and reference in it. There are either none or exactly 10^(digit
    slots) of them, since a reference prunes every branch or none; with no
    references there are always 10^(digit slots).
  */
  lemma SeparatorsShape(mask: string)
    requires Parse(mask).Ok?
    ensures var es := Parse(mask).value;
      var seps := Separators(mask).value;
      && (forall k :: 0 <= k < |seps| ==> |seps[k]| == LeavesSeq(es))
      && |seps| == FanSeq(es, 0, 0)
      && (|seps| == 0 || |seps| == Numeric.Pow10(DigitsSeq(es)))
      && (CaretsSeq(es) == 0 ==> |seps| == Numeric.Pow10(DigitsSeq(es)))
  {
    var es := Parse(mask).value;
    var rs := Expand(es, Initial);
    ExpandDescends(es, Initial);
    ExpandFromCount(es, [Branch([], Initial)]);
    ExpandExact(es, Initial);
    forall k | 0 <= k < |rs|
      ensures |rs[k].out| == LeavesSeq(es)
    {
      assert rs[k] in rs;
    }
  }

  /** A mask with more references than digit slots has no separators at all. */
  lemma SeparatorsPruned(mask: string)
    requires Parse(mask).Ok?
    requires CaretsSeq(Parse(mask).value) > DigitsSeq(Parse(mask).value)
    ensures Separators(mask) == Ok([])
  {
    TooManyReferences(Parse(mask).value, Initial);
  }

  // ---------------------------------------------------------------------
  // fill_interstices
  // ---------------------------------------------------------------------

  /**
    The separators of each mask in order, or the error of the first mask
    that fails: the cache is filled before the first line is read, so that
    error is raised before anything is produced.
  */
  function SeparatorsOf(masks: seq<string>): (r: Result<seq<seq<string>>, ParseError>)
    ensures r.Ok? <==> forall k :: 0 <= k < |masks| ==> Separators(masks[k]).Ok?
    ensures r.Ok? ==> |r.value| == |masks| && forall k :: 0 <= k < |masks| ==> r.value[k] == Separators(masks[k]).value
    ensures r.Err? ==> exists k :: (0 <= k < |masks| && Separators(masks[k]) == Err(r.error) &&
      forall j :: 0 <= j < k ==> Separators(masks[j]).Ok?)
  {
    if masks == [] then Ok([])
    else
      var p := masks[..|masks| - 1];
      assert forall k :: 0 <= k < |p| ==> p[k] == masks[k];
      match SeparatorsOf(p)
      case Err(e) => Err(e)
      case Ok(ss) =>
        match Separators(masks[|masks| - 1])
        case Err(e) => Err(e)
        case Ok(s) => Ok(ss + [s])
  }

  /** w1 + sep + w2 for each separator in order. */
  function Wrap(w1: string, w2: string, seps: seq<string>): (r: seq<string>)
    ensures |r| == |seps|
    ensures forall k :: 0 <= k < |seps| ==> r[k] == w1 + seps[k] + w2
  {
    if seps == [] then [] else Wrap(w1, w2, seps[..|seps| - 1]) + [w1 + seps[|seps| - 1] + w2]
  }

  /** What one two-word line produces: mask by mask, separator by separator. */
  function LineOutputs(w1: string, w2: string, cache: seq<seq<string>>): seq<string>
  {
    if cache == [] then []
    else LineOutputs(w1, w2, cache[..|cache| - 1]) + Wrap(w1, w2, cache[|cache| - 1])
  }

  /** What one input line produces: nothing unless it splits into exactly two words. */
  function LineOf(line: string, cache: seq<seq<string>>): seq<string>
  {
    var parts := Text.Split(line);
    if |parts| == 2 then LineOutputs(parts[0], parts[1], cache) else []
  }

  /** The outputs for the lines in order. */
  function Fill(lines: seq<string>, cache: seq<seq<string>>): seq<string>
  {
    if lines == [] then [] else Fill(lines[..|lines| - 1], cache) + LineOf(lines[|lines| - 1], cache)
  }

  /** Everything fill_interstices(lines, masks) yields, or the error it raises. */
  function FillSpec(lines: seq<string>, masks: seq<string>): Result<seq<string>, ParseError>
  {
    match SeparatorsOf(masks)
    case Err(e) => Err(e)
    case Ok(cache) => Ok(Fill(lines, cache))
  }

  /** The first loop of fill_interstices: cache[mask] = generate_separators(mask) for each mask in turn. */
  method BuildCache(masks: seq<string>) returns (r: Result<map<string, seq<string>>, ParseError>)
    ensures r.Err? <==> SeparatorsOf(masks).Err?
    ensures r.Err? ==> r.error == SeparatorsOf(masks).error
    ensures r.Ok? ==> forall k :: 0 <= k < |masks| ==> masks[k] in r.value && r.value[masks[k]] == SeparatorsOf(masks).value[k]
  {
    var cache: map<string, seq<string>> := map[];
    var i := 0;
    while i < |masks|
      invariant i <= |masks|
      invariant forall k :: 0 <= k < i ==> Separators(masks[k]).Ok?
      invariant forall m :: m in cache ==> Separators(m).Ok? && cache[m] == Separators(m).value
      invariant forall k :: 0 <= k < i ==> masks[k] in cache
    {
      var seps := GenerateSeparators(masks[i]);
      if seps.Err? {
        return Err(seps.error);
      }
      cache := cache[masks[i] := seps.value];
      i := i + 1;
    }
    r := Ok(cache);
  }

  /** fill_interstices as the source writes it, with every yielded string collected in order. */
  method FillInterstices(lines: seq<string>, masks: seq<string>) returns (r: Result<seq<string>, ParseError>)
    ensures r == FillSpec(lines, masks)
  {
    var built := BuildCache(masks);
    if built.Err? {
      return Err(built.error);
    }
    ghost var table := SeparatorsOf(masks).value;
    var out := FillLines(lines, masks, built.value, table);
    r := Ok(out);
  }

  /** The line loop of fill_interstices, reading the filled cache. */
  method FillLines(lines: seq<string>, masks: seq<string>, cache: map<string, seq<string>>, ghost table: seq<seq<string>>)
    returns (out: seq<string>)
    requires |table| == |masks|
    requires forall k :: 0 <= k < |masks| ==> masks[k] in cache && cache[masks[k]] == table[k]
    ensures out == Fill(lines, table)
  {
    out := [];
    var i := 0;
    while i < |lines|
      invariant i <= |lines|
      invariant out == Fill(lines[..i], table)
    {
      var combos := FillLine(lines[i], masks, cache, table);
      out := out + combos;
      FillSnoc(lines, i, table);
      i := i + 1;
    }
    assert lines[..i] == lines;
  }

  /** One pass of the line loop: a line that splits into two words is filled, any other is skipped. */
  method FillLine(line: string, masks: seq<string>, cache: map<string, seq<string>>, ghost table: seq<seq<string>>)
    returns (out: seq<string>)
    requires |table| == |masks|
    requires forall k :: 0 <= k < |masks| ==> masks[k] in cache && cache[masks[k]] == table[k]
    ensures out == LineOf(line, table)
  {
    out := [];
    var parts := Text.Split(line);
    if |parts| == 2 {
      out := LineCombos(parts[0], parts[1], masks, cache, table);
    }
  }

  /** The inner loops of fill_interstices for one two-word line: every mask, every cached separator. */
  method LineCombos(w1: string, w2: string, masks: seq<string>, cache: map<string, seq<string>>, ghost table: seq<seq<string>>)
    returns (out: seq<string>)
    requires |table| == |masks|
    requires forall k :: 0 <= k < |masks| ==> masks[k] in cache && cache[masks[k]] == table[k]
    ensures out == LineOutputs(w1, w2, table)
  {
    out := [];
    var j := 0;
    while j < |masks|
      invariant j <= |masks|
      invariant out == LineOutputs(w1, w2, table[..j])
    {
      var seps := cache[masks[j]];
      ghost var before := out;
      var s := 0;
      while s < |seps|
        invariant s <= |seps|
        invariant out == before + Wrap(w1, w2, seps[..s])
      {
        WrapSnoc(w1, w2, seps, s);
        out := out + [w1 + seps[s] + w2];
        s := s + 1;
      }
      assert seps[..s] == seps;
      LineOutputsSnoc(w1, w2, table, j);
      j := j + 1;
    }
    assert table[..j] == table;
  }

  lemma WrapSnoc(w1: string, w2: string, seps: seq<string>, s: nat)
    requires s < |seps|
    ensures Wrap(w1, w2, seps[..s + 1]) == Wrap(w1, w2, seps[..s]) + [w1 + seps[s] + w2]
  {
    assert seps[..s + 1][..s] == seps[..s];
  }

  lemma LineOutputsSnoc(w1: string, w2: string, cache: seq<seq<string>>, j: nat)
    requires j < |cache|
    ensures LineOutputs(w1, w2, cache[..j + 1]) == LineOutputs(w1, w2, cache[..j]) + Wrap(w1, w2, cache[j])
  {
    assert cache[..j + 1][..j] == cache[..j];
  }

  lemma FillSnoc(lines: seq<string>, i: nat, cache: seq<seq<string>>)
    requires i < |lines|
    ensures Fill(lines[..i + 1], cache) == Fill(lines[..i], cache) + LineOf(lines[i], cache)
  {
    assert lines[..i + 1][..i] == lines[..i];
  }

  // ---------------------------------------------------------------------
  // Properties of fill_interstices
  // ---------------------------------------------------------------------

  lemma FillLast(lines: seq<string>, cache: seq<seq<string>>)
    requires lines != []
    ensures Fill(lines, cache) == Fill(lines[..|lines| - 1], cache) + LineOf(lines[|lines| - 1], cache)
  {
  }

  lemma {:induction false} FillConcat(a: seq<string>, b: seq<string>, cache: seq<seq<string>>)
    ensures Fill(a + b, cache) == Fill(a, cache) + Fill(b, cache)
    decreases |b|
  {
    if b == [] {
      assert a + b == a;
    } else {
      var init := b[..|b| - 1];
      Text.ConcatInit(a, b);
      FillLast(a + b, cache);
      FillLast(b, cache);
      FillConcat(a, init, cache);
      Text.Assoc(Fill(a, cache), Fill(init, cache), LineOf(b[|b| - 1], cache));
    }
  }

  /** The output is the concatenation of what each line produces on its own. */
  lemma {:induction false} FillLineByLine(lines: seq<string>, cache: seq<seq<string>>)
    ensures |lines| > 0 ==> Fill(lines, cache) == LineOf(lines[0], cache) + Fill(lines[1..], cache)
  {
    if |lines| > 0 {
      var first := [lines[0]];
      FillLast(first, cache);
      assert first[..0] == [];
      assert Fill(first, cache) == LineOf(lines[0], cache);
      FillConcat(first, lines[1..], cache);
      assert lines == first + lines[1..];
    }
  }

  /** A line that is not exactly two words (blank, one word, three or more) adds nothing. */
  lemma SkippedLine(lines: seq<string>, line: string, cache: seq<seq<string>>)
    requires |Text.Split(line)| != 2
    ensures Fill(lines + [line], cache) == Fill(lines, cache)
  {
    assert (lines + [line])[..|lines|] == lines;
  }

  /** The line "w1 w2", with any surrounding or repeated whitespace of the same words, produces w1 + sep + w2 for every separator. */
  lemma TwoWordLine(w1: string, w2: string, cache: seq<seq<string>>)
    requires Text.IsToken(w1) && Text.IsToken(w2)
    ensures LineOf(w1 + " " + w2, cache) == LineOutputs(w1, w2, cache)
  {
    Text.SplitJoin([w1, w2]);
    assert Text.Join([w1, w2]) == w1 + " " + Text.Join([w2]);
  }

  /** The total number of separators over all masks. */
  function Total(cache: seq<seq<string>>): nat
  {
    if cache == [] then 0 else Total(cache[..|cache| - 1]) + |cache[|cache| - 1]|
  }

  /** The number of lines that split into exactly two words. */
  function TwoWordLines(lines: seq<string>): nat
  {
    if lines == [] then 0
    else TwoWordLines(lines[..|lines| - 1]) + (if |Text.Split(lines[|lines| - 1])| == 2 then 1 else 0)
  }

  lemma {:induction false} LineOutputsCount(w1: string, w2: string, cache: seq<seq<string>>)
    ensures |LineOutputs(w1, w2, cache)| == Total(cache)
  {
    if cache != [] {
      LineOutputsCount(w1, w2, cache[..|cache| - 1]);
    }
  }

  lemma LineOfCount(line: string, cache: seq<seq<string>>)
    ensures |LineOf(line, cache)| == if |Text.Split(line)| == 2 then Total(cache) else 0
  {
    var parts := Text.Split(line);
    if |parts| == 2 {
      LineOutputsCount(parts[0], parts[1], cache);
    }
  }

  /** The count after one more line: n·t outputs so far, plus t more exactly when the line has two words. */
  lemma CountStep(before: nat, added: nat, after: nat, n: nat, n': nat, t: nat, two: bool)
    requires before == n * t && after == before + added
    requires added == (if two then t else 0) && n' == n + (if two then 1 else 0)
    ensures after == n' * t
  {
    if two {
      assert (n + 1) * t == n * t + t;
    }
  }

  /** Each two-word line yields one string per separator of every mask; other lines yield none. */
  lemma {:induction false} FillCount(lines: seq<string>, cache: seq<seq<string>>)
    ensures |Fill(lines, cache)| == TwoWordLines(lines) * Total(cache)
  {
    if lines != [] {
      var p, l := lines[..|lines| - 1], lines[|lines| - 1];
      FillCount(p, cache);
      LineOfCount(l, cache);
      FillLast(lines, cache);
      CountStep(|Fill(p, cache)|, |LineOf(l, cache)|, |Fill(lines, cache)|,
        TwoWordLines(p), TwoWordLines(lines), Total(cache), |Text.Split(l)| == 2);
    }
  }

  /** The strings one two-word line yields are exactly its words around one separator of one mask. */
  lemma {:induction false} LineOutputsMembers(w1: string, w2: string, cache: seq<seq<string>>, o: string)
    ensures o in LineOutputs(w1, w2, cache) <==>
      exists j, k :: 0 <= j < |cache| && 0 <= k < |cache[j]| && o == w1 + cache[j][k] + w2
  {
    if cache != [] {
      var p, last := cache[..|cache| - 1], cache[|cache| - 1];
      LineOutputsMembers(w1, w2, p, o);
      WrapMembers(w1, w2, last, o);
      Text.InConcat(LineOutputs(w1, w2, p), Wrap(w1, w2, last), o);
      MasksSplit(w1, w2, cache, o);
    }
  }

  lemma WrapMembers(w1: string, w2: string, seps: seq<string>, o: string)
    ensures o in Wrap(w1, w2, seps) <==> exists k :: 0 <= k < |seps| && o == w1 + seps[k] + w2
  {
    var wr := Wrap(w1, w2, seps);
    if o in wr {
      var k :| 0 <= k < |wr| && wr[k] == o;
    }
    if exists k :: 0 <= k < |seps| && o == w1 + seps[k] + w2 {
      var k :| 0 <= k < |seps| && o == w1 + seps[k] + w2;
      assert wr[k] == o;
    }
  }

  /** A separator of some mask is one of the earlier masks' or one of the last mask's. */
  lemma MasksSplit(w1: string, w2: string, cache: seq<seq<string>>, o: string)
    requires cache != []
    ensures var p, last := cache[..|cache| - 1], cache[|cache| - 1];
      (exists j, k :: 0 <= j < |cache| && 0 <= k < |cache[j]| && o == w1 + cache[j][k] + w2) <==>
      (exists j, k :: 0 <= j < |p| && 0 <= k < |p[j]| && o == w1 + p[j][k] + w2) ||
      (exists k :: 0 <= k < |last| && o == w1 + last[k] + w2)
  {
    var p, last := cache[..|cache| - 1], cache[|cache| - 1];
    if exists j, k :: 0 <= j < |cache| && 0 <= k < |cache[j]| && o == w1 + cache[j][k] + w2 {
      var j, k :| 0 <= j < |cache| && 0 <= k < |cache[j]| && o == w1 + cache[j][k] + w2;
      if j < |p| {
        assert p[j] == cache[j];
      }
    }
    if exists j, k :: 0 <= j < |p| && 0 <= k < |p[j]| && o == w1 + p[j][k] + w2 {
      var j, k :| 0 <= j < |p| && 0 <= k < |p[j]| && o == w1 + p[j][k] + w2;
      assert cache[j] == p[j];
    }
  }

  // ---------------------------------------------------------------------
  // Worked examples
  // ---------------------------------------------------------------------

  lemma ExampleDigitSlot()
    ensures Separators("?d") == Ok(["0", "1", "2", "3", "4", "5", "6", "7", "8", "9"])
  {
    ParseDigitSlot();
    ExpandSingle(Digit, Initial);
    DigitOuts();
  }

  lemma ParseDigitSlot()
    ensures Parse("?d") == Ok([Digit])
  {
    var m := "?d";
    assert MarkerAt(m, 0, 'd');
    assert ParseFrom(m, 2) == Ok([]);
    assert [Digit] + [] == [Digit];
  }

  lemma DigitOuts()
    ensures Outs(DigitFan(Branch([], Initial), 10)) == ["0", "1", "2", "3", "4", "5", "6", "7", "8", "9"]
  {
    var outs := Outs(DigitFan(Branch([], Initial), 10));
    var want := ["0", "1", "2", "3", "4", "5", "6", "7", "8", "9"];
    forall k | 0 <= k < 10
      ensures outs[k] == want[k]
    {
      assert outs[k] == [] + [Numeral(k)];
    }
    assert outs == want;
  }

  lemma ParseReversedGroup()
    ensures Parse("{AB}-") == Ok([Group([Lit('A'), Lit('B')], true)])
  {
    var m := "{AB}-";
    assert Scan(m, 1, 1) == (4, 0);
    assert m[1..3] == "AB";
    var body := "AB";
    assert ParseFrom(body, 2) == Ok([]);
    assert !MarkerAt(body, 1, 'd') && !MarkerAt(body, 1, '^') && body[1] != '{';
    assert [Lit('B')] + [] == [Lit('B')];
    assert ParseFrom(body, 1) == Ok([Lit('B')]);
    assert !MarkerAt(body, 0, 'd') && !MarkerAt(body, 0, '^') && body[0] != '{';
    assert [Lit('A')] + [Lit('B')] == [Lit('A'), Lit('B')];
    assert ParseFrom(body, 0) == Ok([Lit('A'), Lit('B')]);
    assert ParseFrom(m, 5) == Ok([]);
    var g := Group([Lit('A'), Lit('B')], true);
    assert [g] + [] == [g];
  }

  lemma ExpandLiterals()
    ensures Expand([Lit('A'), Lit('B')], Initial) == [Branch("AB", Initial)]
  {
    ExpandFromCompose([Lit('A')], [Lit('B')], [Branch([], Initial)]);
    assert [Lit('A')] + [Lit('B')] == [Lit('A'), Lit('B')];
    ExpandSingle(Lit('A'), Initial);
    assert [] + ['A'] == "A";
    var wa := [Branch("A", Initial)];
    assert ExpandFrom([Lit('A')], [Branch([], Initial)]) == wa;
    assert [Lit('B')][..0] == [];
    assert ExpandFrom([Lit('B')], wa) == Step(Lit('B'), wa);
    assert wa[..0] == [];
    assert Step(Lit('B'), wa) == [Branch("A" + ['B'], Initial)];
    assert "A" + ['B'] == "AB";
  }

  lemma ExampleReversedGroup()
    ensures Separators("{AB}-") == Ok(["BA"])
  {
    ParseReversedGroup();
    ExpandLiterals();
    var g := Group([Lit('A'), Lit('B')], true);
    GroupReversed([Lit('A'), Lit('B')], Initial);
    assert Text.Reverse("AB") == "BA";
    var rs := Expand([g], Initial);
    assert |rs| == 1 && rs[0] == Branch("BA", Initial);
    assert rs == [Branch("BA", Initial)];
    assert Outs(rs) == ["BA"];
  }

  lemma ExampleUnmatched()
    ensures Separators("x{?d") == Err(UnmatchedBrace("x{?d"))
  {
    SeparatorsFail("x{?d");
  }

  /** The example of the module documentation: "?d?d{?^?^}-" yields "56^%", among others. */
  lemma ExampleDocumented()
    ensures Separators("?d?d{?^?^}-").Ok? && "56^%" in Separators("?d?d{?^?^}-").value
  {
    var g := Group([Caret, Caret], true);
    ParseDocumented();
    ExpandDocumented();
    var rs := Expand([Digit, Digit, g], Initial);
    var k :| 0 <= k < |rs| && rs[k] == Branch("56^%", State(['5', '6'], 2));
    assert Outs(rs)[k] == "56^%";
  }

  lemma ParseDocumented()
    ensures Parse("?d?d{?^?^}-") == Ok([Digit, Digit, Group([Caret, Caret], true)])
  {
    var m := "?d?d{?^?^}-";
    assert Scan(m, 5, 1) == (10, 0);
    var body := m[5..9];
    assert body == "?^?^";
    assert ParseFrom(body, 4) == Ok([]);
    assert MarkerAt(body, 2, '^') && !MarkerAt(body, 2, 'd');
    assert [Caret] + [] == [Caret];
    assert ParseFrom(body, 2) == Ok([Caret]);
    assert MarkerAt(body, 0, '^') && !MarkerAt(body, 0, 'd');
    assert [Caret] + [Caret] == [Caret, Caret];
    assert ParseFrom(body, 0) == Ok([Caret, Caret]);
    var g := Group([Caret, Caret], true);
    assert ParseFrom(m, 11) == Ok([]);
    assert m[4] == '{' && !MarkerAt(m, 4, 'd') && !MarkerAt(m, 4, '^') && m[10] == '-';
    assert [g] + [] == [g];
    assert ParseFrom(m, 4) == Ok([g]);
    assert MarkerAt(m, 2, 'd') && MarkerAt(m, 0, 'd');
    assert [Digit] + [g] == [Digit, g];
    assert [Digit] + [Digit, g] == [Digit, Digit, g];
  }

  lemma ExpandDocumented()
    ensures Branch("56^%", State(['5', '6'], 2)) in Expand([Digit, Digit, Group([Caret, Caret], true)], Initial)
  {
    var g := Group([Caret, Caret], true);
    var b0 := Branch([], Initial);
    ExpandFromCompose([Digit, Digit], [g], [b0]);
    assert [Digit, Digit] + [g] == [Digit, Digit, g];
    var w2 := ExpandFrom([Digit, Digit], [b0]);
    TwoDigits();
    StepMember(g, w2, 56);
    assert [g][..0] == [];
    assert ExpandFrom([g], w2) == Step(g, w2);
    GroupOnDigits();
  }

  /** Branch 56 after two digit slots holds digits 5 and 6. */
  lemma TwoDigits()
    ensures var w2 := ExpandFrom([Digit, Digit], [Branch([], Initial)]);
      |w2| == 100 && w2[56] == Branch(['5', '6'], State(['5', '6'], 0))
  {
    var b0 := Branch([], Initial);
    assert [Digit, Digit][..1] == [Digit];
    assert [Digit][..0] == [];
    var w1 := ExpandFrom([Digit], [b0]);
    assert w1 == Step(Digit, [b0]);
    DigitStep([b0]);
    assert Numeral(5) == '5' && Numeral(6) == '6';
    assert w1[5] == Branch(['5'], State(['5'], 0));
    DigitStep(w1);
    assert ExpandFrom([Digit, Digit], [b0]) == Step(Digit, w1);
  }

  /** Two digit slots on one empty branch: branch k holds the two digits of k, most significant first. */
  lemma {:induction false} PairsAt(ws: seq<Branch>, k: nat)
    requires |ws| == 1 && ws[0] == Branch([], Initial) && k < 100
    ensures var w2 := Step(Digit, Step(Digit, ws));
      var hi, lo := Numeral(k / 10), Numeral(k % 10);
      |w2| == 100 && w2[k] == Branch([hi, lo], State([hi, lo], 0))
  {
    var w1 := Step(Digit, ws);
    DigitStep(ws);
    var j := k / 10;
    assert j / 10 == 0 && j % 10 == j;
    assert w1[j] == Branch([Numeral(j)], State([Numeral(j)], 0));
    DigitStep(w1);
  }

  /** Every branch after two digit slots has two digits and no reference taken yet. */
  lemma {:induction false} PairsShape(ws: seq<Branch>)
    requires |ws| == 1 && ws[0] == Branch([], Initial)
    ensures forall w :: w in Step(Digit, Step(Digit, ws)) ==> w.st.nextRef < |w.st.digits|
  {
    assert Shaped(ws, 0, 0);
    assert [Digit, Digit][..1] == [Digit];
    assert [Digit][..0] == [];
    ExpandFromFan([Digit, Digit], ws, 0, 0);
    assert ExpandFrom([Digit, Digit], ws) == Step(Digit, Step(Digit, ws));
  }

  /** A reference on a worklist whose branch k holds the digits hi, lo: that branch appends the shift of hi. */
  lemma ReferenceAt(w2: seq<Branch>, k: nat, hi: DigitChar, lo: DigitChar)
    requires forall w :: w in w2 ==> w.st.nextRef < |w.st.digits|
    requires k < |w2| && w2[k] == Branch([hi, lo], State([hi, lo], 0))
    ensures |Step(Caret, w2)| == |w2|
    ensures Step(Caret, w2)[k] == Branch([hi, lo, Shift(hi)], State([hi, lo], 1))
  {
    CaretStep(w2);
    assert [hi, lo] + [Shift(hi)] == [hi, lo, Shift(hi)];
  }

  /** Two digit slots and a reference: branch k outputs the digits of k and the shift symbol of its first digit. */
  lemma TrailingAt(k: nat)
    requires k < 100
    ensures var rs := Expand([Digit, Digit, Caret], Initial);
      var hi, lo := Numeral(k / 10), Numeral(k % 10);
      |rs| == 100 && rs[k] == Branch([hi, lo, Shift(hi)], State([hi, lo], 1))
  {
    var ws := [Branch([], Initial)];
    assert [Digit, Digit, Caret][..2] == [Digit, Digit];
    assert [Digit, Digit][..1] == [Digit];
    assert [Digit][..0] == [];
    assert Expand([Digit, Digit, Caret], Initial) == Step(Caret, Step(Digit, Step(Digit, ws)));
    PairsAt(ws, k);
    PairsShape(ws);
    ReferenceAt(Step(Digit, Step(Digit, ws)), k, Numeral(k / 10), Numeral(k % 10));
  }

  /**
    A reference after two digit slots prunes nothing: "?d?d?^" has 100
    separators, from "00)" to "99(".
  */
  lemma ExampleTrailingReference()
    ensures Separators("?d?d?^").Ok?
    ensures var seps := Separators("?d?d?^").value;
      |seps| == 100 && seps[0] == "00)" && seps[99] == "99("
  {
    ParseTrailingReference();
    var rs := Expand([Digit, Digit, Caret], Initial);
    TrailingAt(0);
    TrailingAt(99);
    assert Numeral(0) == '0' && Numeral(9) == '9';
    assert Shift('0') == ')' && Shift('9') == '(';
    assert Outs(rs)[0] == rs[0].out && Outs(rs)[99] == rs[99].out;
  }

  lemma ParseTrailingReference()
    ensures Parse("?d?d?^") == Ok([Digit, Digit, Caret])
  {
    var m := "?d?d?^";
    assert ParseFrom(m, 6) == Ok([]);
    assert MarkerAt(m, 4, '^') && !MarkerAt(m, 4, 'd');
    assert [Caret] + [] == [Caret];
    assert ParseFrom(m, 4) == Ok([Caret]);
    assert MarkerAt(m, 2, 'd');
    assert [Digit] + [Caret] == [Digit, Caret];
    assert ParseFrom(m, 2) == Ok([Digit, Caret]);
    assert MarkerAt(m, 0, 'd');
    assert [Digit] + [Digit, Caret] == [Digit, Digit, Caret];
  }

  lemma StepMember(e: Elem, ws: seq<Branch>, k: nat)
    requires k < |ws|
    ensures forall r :: r in Children(e, ws[k]) ==> r in Step(e, ws)
  {
    var pre, x, post := ws[..k], ws[k], ws[k + 1..];
    Text.SplitAt(ws, k);
    StepConcat(e, pre, [x] + post);
    StepConcat(e, [x], post);
    StepOne(e, x);
  }

  lemma StepOne(e: Elem, x: Branch)
    ensures Step(e, [x]) == Children(e, x)
  {
    assert [x][..0] == [];
  }

  lemma GroupOnDigits()
    ensures Children(Group([Caret, Caret], true), Branch(['5', '6'], State(['5', '6'], 0))) == [Branch("56^%", State(['5', '6'], 2))]
  {
    var st := State(['5', '6'], 0);
    TwoCarets();
    var rs := [Branch(['%', '^'], State(['5', '6'], 2))];
    assert Text.Reverse(['%', '^']) == ['^', '%'];
    assert ['5', '6'] + ['^', '%'] == "56^%";
    assert Attach(['5', '6'], rs, true)[0] == Branch("56^%", State(['5', '6'], 2));
  }

  lemma TwoCarets()
    ensures ExpandFrom([Caret, Caret], [Branch([], State(['5', '6'], 0))]) == [Branch(['%', '^'], State(['5', '6'], 2))]
  {
    var w0 := [Branch([], State(['5', '6'], 0))];
    var w1 := [Branch(['%'], State(['5', '6'], 1))];
    var w2 := [Branch(['%', '^'], State(['5', '6'], 2))];
    FirstCaret();
    SecondCaret();
    assert [Caret, Caret][..1] == [Caret];
    assert ExpandFrom([Caret, Caret], w0) == Step(Caret, w1);
  }

  lemma SecondCaret()
    ensures Step(Caret, [Branch(['%'], State(['5', '6'], 1))]) == [Branch(['%', '^'], State(['5', '6'], 2))]
  {
    var w1 := [Branch(['%'], State(['5', '6'], 1))];
    var w2 := [Branch(['%', '^'], State(['5', '6'], 2))];
    ShiftTable();
    assert ['%'] + [Shift('6')] == ['%', '^'];
    OneCaret(w1[0], w2[0]);
  }

  lemma FirstCaret()
    ensures ExpandFrom([Caret], [Branch([], State(['5', '6'], 0))]) == [Branch(['%'], State(['5', '6'], 1))]
  {
    var w0 := [Branch([], State(['5', '6'], 0))];
    var w1 := [Branch(['%'], State(['5', '6'], 1))];
    assert [Caret][..0] == [];
    ShiftTable();
    assert [] + [Shift('5')] == ['%'];
    OneCaret(w0[0], w1[0]);
    assert ExpandFrom([Caret], w0) == Step(Caret, ExpandFrom([], w0));
  }

  lemma OneCaret(b: Branch, c: Branch)
    requires b.st.nextRef < |b.st.digits|
    requires c == Branch(b.out + [Shift(b.st.digits[b.st.nextRef])], State(b.st.digits, b.st.nextRef + 1))
    ensures Step(Caret, [b]) == [c]
  {
    assert [b][..0] == [];
  }
}
