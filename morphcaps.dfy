/**
  morph_caps.py: the capitalisation spec w<start>[-<end>]<^|$><pos>{<min>-<max>}
  and Spec.apply_to_line, which uppercases every allowed contiguous span of
  each selected word of a line.
*/
module MorphCaps {
  import opened Wrappers
  import opened Numeric
  import Text

  /** '^' counts positions from the front of a word, '$' from its back. */
  datatype Direction = Front | Back

  /**
    A parsed spec. parse_spec builds its fields from ASCII digit strings, so
    none of them is negative.
  */
  datatype Spec = Spec(start: nat, end: nat, direction: Direction, pos: nat, minSpan: nat, maxSpan: nat)

  /** The ValueErrors of parse_spec and apply_to_line, with what their messages name. */
  datatype MorphError =
    | InvalidSpec(spec: string)
    | InvalidSpanRange(minSpan: nat, maxSpan: nat, spec: string)
    | WordRangeOutOfBounds(start: nat, end: nat, line: string)
    | PositionOutOfBounds(pos: nat, word: string, line: string)

  // ---------------------------------------------------------------------
  // SPEC_RE
  // ---------------------------------------------------------------------

  /** The named groups of a SPEC_RE match, as the text they captured. */
  datatype Groups = Groups(start: string, end: Option<string>, dir: char, pos: string, minSpan: string, maxSpan: string)

  predicate Number(s: string)
  {
    |s| > 0 && AllDigits(s)
  }

  /** What SPEC_RE's groups can capture: \d+ in every number group and one of ^ and $ in dir. */
  predicate Captures(g: Groups)
  {
    && Number(g.start) && (g.end.Some? ==> Number(g.end.value))
    && (g.dir == '^' || g.dir == '$')
    && Number(g.pos) && Number(g.minSpan) && Number(g.maxSpan)
  }

  /** The text SPEC_RE matches from the max group on, from the min group on, and so on leftwards. */
  function MaxText(g: Groups): string
  {
    g.maxSpan + "}"
  }

  function MinText(g: Groups): string
  {
    g.minSpan + ("-" + MaxText(g))
  }

  function PosText(g: Groups): string
  {
    g.pos + ("{" + MinText(g))
  }

  function Tail(g: Groups): string
  {
    [g.dir] + PosText(g)
  }

  function Rest(g: Groups): string
  {
    if g.end.Some? then "-" + (g.end.value + Tail(g)) else Tail(g)
  }

  /** The one string that SPEC_RE matches with these captures. */
  function Spell(g: Groups): string
  {
    "w" + (g.start + Rest(g))
  }

  /** \d+ at the front of s, taken greedily: the digits and what follows them. */
  function Num(s: string): (r: Option<(string, string)>)
    ensures r.Some? ==> Number(r.value.0) && r.value.0 + r.value.1 == s
    ensures r.Some? && r.value.1 != [] ==> !IsDigit(r.value.1[0])
  {
    var k := DigitRunEnd(s, 0);
    if k == 0 then None
    else
      assert s[..k] + s[k..] == s;
      assert |s[k..]| > 0 ==> s[k..][0] == s[k];
      Some((s[..k], s[k..]))
  }

  lemma NumOf(d: string, t: string)
    requires Number(d) && (t == [] || !IsDigit(t[0]))
    ensures Num(d + t) == Some((d, t))
  {
    var s := d + t;
    assert s[0..|d|] == d;
    DigitRunOf(s, 0, |d|);
    assert s[..|d|] == d && s[|d|..] == t;
  }

  /** The character c at the front of s, and what follows it. */
  function Char(c: char, s: string): (r: Option<string>)
    ensures r.Some? ==> s == [c] + r.value
  {
    if s != [] && s[0] == c then Some(s[1..]) else None
  }

  lemma CharOf(c: char, t: string)
    ensures Char(c, [c] + t) == Some(t)
  {
    assert ([c] + t)[1..] == t;
  }

  /** The match of SPEC_RE against the whole of s, or None when there is none. */
  function Lex(s: string): Option<Groups>
  {
    match Char('w', s)
    case None => None
    case Some(t) => LexStart(t)
  }

  function LexStart(t: string): Option<Groups>
  {
    match Num(t)
    case None => None
    case Some((a, t2)) => LexRange(a, t2)
  }

  function LexRange(a: string, t: string): Option<Groups>
  {
    match Char('-', t)
    case None => LexDir(a, None, t)
    case Some(t2) => LexEnd(a, t2)
  }

  function LexEnd(a: string, t: string): Option<Groups>
  {
    match Num(t)
    case None => None
    case Some((b, t2)) => LexDir(a, Some(b), t2)
  }

  function LexDir(a: string, b: Option<string>, t: string): Option<Groups>
  {
    if t != [] && (t[0] == '^' || t[0] == '$') then LexPos(a, b, t[0], t[1..]) else None
  }

  function LexPos(a: string, b: Option<string>, dir: char, t: string): Option<Groups>
  {
    match Num(t)
    case None => None
    case Some((p, t2)) =>
      match Char('{', t2)
      case None => None
      case Some(t3) => LexMin(a, b, dir, p, t3)
  }

  function LexMin(a: string, b: Option<string>, dir: char, p: string, t: string): Option<Groups>
  {
    match Num(t)
    case None => None
    case Some((lo, t2)) =>
      match Char('-', t2)
      case None => None
      case Some(t3) => LexMax(a, b, dir, p, lo, t3)
  }

  function LexMax(a: string, b: Option<string>, dir: char, p: string, lo: string, t: string): Option<Groups>
  {
    match Num(t)
    case None => None
    case Some((hi, t2)) => if t2 == "}" then Some(Groups(a, b, dir, p, lo, hi)) else None
  }

  // Each stage accepts the spelling of its part of the captures ...

  lemma MaxSpell(g: Groups)
    requires Captures(g)
    ensures LexMax(g.start, g.end, g.dir, g.pos, g.minSpan, MaxText(g)) == Some(g)
  {
    NumOf(g.maxSpan, "}");
  }

  lemma MinSpell(g: Groups)
    requires Captures(g)
    ensures LexMin(g.start, g.end, g.dir, g.pos, MinText(g)) == Some(g)
  {
    NumOf(g.minSpan, "-" + MaxText(g));
    CharOf('-', MaxText(g));
    MaxSpell(g);
  }

  lemma PosSpell(g: Groups)
    requires Captures(g)
    ensures LexPos(g.start, g.end, g.dir, PosText(g)) == Some(g)
  {
    NumOf(g.pos, "{" + MinText(g));
    CharOf('{', MinText(g));
    MinSpell(g);
  }

  lemma DirSpell(g: Groups)
    requires Captures(g)
    ensures LexDir(g.start, g.end, Tail(g)) == Some(g)
  {
    CharOf(g.dir, PosText(g));
    PosSpell(g);
  }

  lemma RangeSpell(g: Groups)
    requires Captures(g)
    ensures LexRange(g.start, Rest(g)) == Some(g)
  {
    DirSpell(g);
    if g.end.Some? {
      CharOf('-', g.end.value + Tail(g));
      NumOf(g.end.value, Tail(g));
    } else {
      assert Char('-', Tail(g)).None?;
    }
  }

  lemma StartSpell(g: Groups)
    requires Captures(g)
    ensures LexStart(g.start + Rest(g)) == Some(g)
  {
    NumOf(g.start, Rest(g));
    RangeSpell(g);
  }

  /** SPEC_RE matches the spelling of any captures, and gives those captures back. */
  lemma LexSpell(g: Groups)
    requires Captures(g)
    ensures Lex(Spell(g)) == Some(g)
  {
    CharOf('w', g.start + Rest(g));
    StartSpell(g);
  }

  // ... and accepts nothing else.

  lemma MaxSound(a: string, b: Option<string>, dir: char, p: string, lo: string, t: string)
    requires LexMax(a, b, dir, p, lo, t).Some?
    ensures var g := LexMax(a, b, dir, p, lo, t).value;
      g == Groups(a, b, dir, p, lo, g.maxSpan) && Number(g.maxSpan) && t == MaxText(g)
  {
  }

  lemma MinSound(a: string, b: Option<string>, dir: char, p: string, t: string)
    requires LexMin(a, b, dir, p, t).Some?
    ensures var g := LexMin(a, b, dir, p, t).value;
      g == Groups(a, b, dir, p, g.minSpan, g.maxSpan) && Number(g.minSpan) && Number(g.maxSpan) && t == MinText(g)
  {
    var (lo, t2) := Num(t).value;
    var t3 := Char('-', t2).value;
    MaxSound(a, b, dir, p, lo, t3);
  }

  lemma PosSound(a: string, b: Option<string>, dir: char, t: string)
    requires LexPos(a, b, dir, t).Some?
    ensures var g := LexPos(a, b, dir, t).value;
      g == Groups(a, b, dir, g.pos, g.minSpan, g.maxSpan) &&
      Number(g.pos) && Number(g.minSpan) && Number(g.maxSpan) && t == PosText(g)
  {
    var (p, t2) := Num(t).value;
    var t3 := Char('{', t2).value;
    MinSound(a, b, dir, p, t3);
  }

  lemma DirSound(a: string, b: Option<string>, t: string)
    requires LexDir(a, b, t).Some?
    ensures var g := LexDir(a, b, t).value;
      g.start == a && g.end == b && (g.dir == '^' || g.dir == '$') &&
      Number(g.pos) && Number(g.minSpan) && Number(g.maxSpan) && t == Tail(g)
  {
    DirFields(a, b, t);
    DirNumbers(a, b, t);
    DirTail(a, b, t);
  }

  lemma DirFields(a: string, b: Option<string>, t: string)
    requires LexDir(a, b, t).Some?
    ensures var g := LexDir(a, b, t).value; g.start == a && g.end == b && (g.dir == '^' || g.dir == '$')
  {
    PosSound(a, b, t[0], t[1..]);
  }

  lemma DirNumbers(a: string, b: Option<string>, t: string)
    requires LexDir(a, b, t).Some?
    ensures var g := LexDir(a, b, t).value; Number(g.pos) && Number(g.minSpan) && Number(g.maxSpan)
  {
    PosSound(a, b, t[0], t[1..]);
  }

  lemma DirTail(a: string, b: Option<string>, t: string)
    requires LexDir(a, b, t).Some?
    ensures t == Tail(LexDir(a, b, t).value)
  {
    PosSound(a, b, t[0], t[1..]);
    HeadTail(t);
    TailOf(LexDir(a, b, t).value, t[0], t[1..]);
  }

  lemma HeadTail(t: string)
    requires t != []
    ensures t == [t[0]] + t[1..]
  {
  }

  lemma TailOf(g: Groups, c: char, u: string)
    requires g.dir == c && u == PosText(g)
    ensures [c] + u == Tail(g)
  {
  }

  lemma EndSound(a: string, t: string)
    requires LexEnd(a, t).Some?
    ensures var g := LexEnd(a, t).value;
      g.start == a && g.end.Some? && Number(g.end.value) && (g.dir == '^' || g.dir == '$') &&
      Number(g.pos) && Number(g.minSpan) && Number(g.maxSpan) && t == g.end.value + Tail(g)
  {
    var (b, t2) := Num(t).value;
    DirSound(a, Some(b), t2);
  }

  lemma RangeSound(a: string, t: string)
    requires LexRange(a, t).Some?
    ensures var g := LexRange(a, t).value;
      g.start == a && (g.end.Some? ==> Number(g.end.value)) && (g.dir == '^' || g.dir == '$') &&
      Number(g.pos) && Number(g.minSpan) && Number(g.maxSpan) && t == Rest(g)
  {
    match Char('-', t)
    case None =>
      DirSound(a, None, t);
    case Some(t2) =>
      EndSound(a, t2);
  }

  lemma StartSound(t: string)
    requires LexStart(t).Some?
    ensures Captures(LexStart(t).value) && t == LexStart(t).value.start + Rest(LexStart(t).value)
  {
    var (a, t2) := Num(t).value;
    RangeSound(a, t2);
  }

  /** Whatever SPEC_RE matches is the spelling of its captures: the recogniser accepts exactly the grammar. */
  lemma LexSound(s: string)
    requires Lex(s).Some?
    ensures Captures(Lex(s).value) && Spell(Lex(s).value) == s
  {
    StartSound(Char('w', s).value);
  }

  // ---------------------------------------------------------------------
  // parse_spec
  // ---------------------------------------------------------------------

  function DirectionOf(c: char): Direction
  {
    if c == '^' then Front else Back
  }

  /** parse_spec(s) */
  function ParseSpec(s: string): (r: Result<Spec, MorphError>)
    ensures r.Err? && Lex(s).None? ==> r.error == InvalidSpec(s)
    ensures r.Ok? ==> 1 <= r.value.minSpan <= r.value.maxSpan
  {
    match Lex(s)
    case None => Err(InvalidSpec(s))
    case Some(g) =>
      LexSound(s);
      var start := NatValue(g.start);
      var end := if g.end.Some? then NatValue(g.end.value) else start;
      var lo := NatValue(g.minSpan);
      var hi := NatValue(g.maxSpan);
      if lo < 1 || hi < lo then Err(InvalidSpanRange(lo, hi, s))
      else Ok(Spec(start, end, DirectionOf(g.dir), NatValue(g.pos), lo, hi))
  }

  /** The canonical spelling of a spec; the word range is written as one number when withEnd is false. */
  function Format(sp: Spec, withEnd: bool): string
  {
    Spell(Groups(NatStr(sp.start), if withEnd then Some(NatStr(sp.end)) else None,
      if sp.direction == Front then '^' else '$', NatStr(sp.pos), NatStr(sp.minSpan), NatStr(sp.maxSpan)))
  }

  /**
    Printing a spec and parsing it back gives the spec, with end defaulting to
    start when the range is one number, unless its span range is invalid.
  */
  lemma FormatParse(sp: Spec, withEnd: bool)
    ensures var want := if withEnd then sp else sp.(end := sp.start);
      ParseSpec(Format(sp, withEnd)) ==
        if 1 <= sp.minSpan <= sp.maxSpan then Ok(want)
        else Err(InvalidSpanRange(sp.minSpan, sp.maxSpan, Format(sp, withEnd)))
  {
    var g := Groups(NatStr(sp.start), if withEnd then Some(NatStr(sp.end)) else None,
      if sp.direction == Front then '^' else '$', NatStr(sp.pos), NatStr(sp.minSpan), NatStr(sp.maxSpan));
    LexSpell(g);
    NatStrValue(sp.start);
    NatStrValue(sp.end);
    NatStrValue(sp.pos);
    NatStrValue(sp.minSpan);
    NatStrValue(sp.maxSpan);
  }

  /** parse_spec fails with "Invalid spec" exactly on strings outside the grammar. */
  lemma ParseSpecInvalid(s: string)
    ensures ParseSpec(s) == Err(InvalidSpec(s)) <==> forall g :: Captures(g) ==> Spell(g) != s
  {
    if Lex(s).Some? {
      LexSound(s);
      LexedNotInvalid(s);
      var g := Lex(s).value;
      assert Captures(g) && Spell(g) == s;
    } else {
      UnlexedSpells(s);
    }
  }

  lemma LexedNotInvalid(s: string)
    requires Lex(s).Some?
    ensures ParseSpec(s) != Err(InvalidSpec(s))
  {
  }

  lemma UnlexedSpells(s: string)
    requires Lex(s).None?
    ensures forall g :: Captures(g) ==> Spell(g) != s
  {
    forall g | Captures(g)
      ensures Spell(g) != s
    {
      if Spell(g) == s {
        LexSpell(g);
      }
    }
  }

  // ---------------------------------------------------------------------
  // apply_to_line
  // ---------------------------------------------------------------------

  /** rep[:a] + rep[a:b].upper() + rep[b:] */
  function UpperSpan(w: string, a: nat, b: nat): (r: string)
    requires a <= b <= |w|
    ensures |r| == |w|
  {
    w[..a] + Text.Upper(w[a..b]) + w[b..]
  }

  /** Exactly the characters in [a, b) are uppercased; the rest are kept. */
  lemma UpperSpanAt(w: string, a: nat, b: nat)
    requires a <= b <= |w|
    ensures forall k :: 0 <= k < |w| ==> UpperSpan(w, a, b)[k] == if a <= k < b then Text.UpperChar(w[k]) else w[k]
  {
    forall k | 0 <= k < |w|
      ensures UpperSpan(w, a, b)[k] == if a <= k < b then Text.UpperChar(w[k]) else w[k]
    {
      UpperSpanIndex(w, a, b, k);
    }
  }

  lemma UpperSpanIndex(w: string, a: nat, b: nat, k: nat)
    requires a <= b <= |w| && k < |w|
    ensures UpperSpan(w, a, b)[k] == if a <= k < b then Text.UpperChar(w[k]) else w[k]
  {
    var x, y, z := w[..a], Text.Upper(w[a..b]), w[b..];
    assert UpperSpan(w, a, b) == (x + y) + z;
    if k < a {
      assert ((x + y) + z)[k] == x[k];
    } else if k < b {
      assert ((x + y) + z)[k] == y[k - a];
      assert w[a..b][k - a] == w[k];
    } else {
      assert ((x + y) + z)[k] == z[k - b];
    }
  }

  /** The word after uppercasing the span of length n starting a characters in, counted from its front or its back. */
  function Mutate(dir: Direction, w: string, a: nat, n: nat): string
    requires a + n <= |w|
  {
    match dir
    case Front => UpperSpan(w, a, a + n)
    case Back => Text.Reverse(UpperSpan(Text.Reverse(w), a, a + n))
  }

  /** Counted from the back, the span is the one that ends a characters before the end of the word. */
  lemma MutateBack(w: string, a: nat, n: nat)
    requires a + n <= |w|
    ensures Mutate(Back, w, a, n) == UpperSpan(w, |w| - a - n, |w| - a)
  {
    var m := Mutate(Back, w, a, n);
    var u := UpperSpan(w, |w| - a - n, |w| - a);
    forall k | 0 <= k < |w|
      ensures m[k] == u[k]
    {
      MutateBackAt(w, a, n, k);
    }
  }

  lemma MutateBackAt(w: string, a: nat, n: nat, k: nat)
    requires a + n <= |w| && k < |w|
    ensures Mutate(Back, w, a, n)[k] == UpperSpan(w, |w| - a - n, |w| - a)[k]
  {
    var rw := Text.Reverse(w);
    var j := |w| - 1 - k;
    assert Mutate(Back, w, a, n)[k] == UpperSpan(rw, a, a + n)[j];
    Text.ReverseAt(w, k);
    MirrorSpanAt(rw, w, a, n, k, j);
  }

  /** A character mirrored from w into v is uppercased in v's span exactly when it is in the mirrored span of w. */
  lemma MirrorSpanAt(v: string, w: string, a: nat, n: nat, k: nat, j: nat)
    requires |v| == |w| && a + n <= |w| && k < |w| && j == |w| - 1 - k && v[j] == w[k]
    ensures UpperSpan(v, a, a + n)[j] == UpperSpan(w, |w| - a - n, |w| - a)[k]
  {
    var x := UpperSpan(v, a, a + n)[j];
    var y := UpperSpan(w, |w| - a - n, |w| - a)[k];
    UpperSpanIndex(v, a, a + n, j);
    UpperSpanIndex(w, |w| - a - n, |w| - a, k);
    if |w| - a - n <= k < |w| - a {
      assert a <= j < a + n;
      assert x == Text.UpperChar(v[j]) && y == Text.UpperChar(w[k]);
    } else {
      assert !(a <= j < a + n);
      assert x == v[j] && y == w[k];
    }
  }

  /** Uppercasing a span keeps a word a word, and only ever changes letters a-z. */
  lemma MutateToken(dir: Direction, w: string, a: nat, n: nat)
    requires a + n <= |w| && Text.IsToken(w)
    ensures Text.IsToken(Mutate(dir, w, a, n))
    ensures |Mutate(dir, w, a, n)| == |w|
  {
    var lo, hi := if dir == Back then |w| - a - n else a, if dir == Back then |w| - a else a + n;
    if dir == Back {
      MutateBack(w, a, n);
    }
    var m := Mutate(dir, w, a, n);
    assert m == UpperSpan(w, lo, hi);
    forall k | 0 <= k < |m|
      ensures !Text.IsSpace(m[k])
    {
      UpperSpanIndex(w, lo, hi, k);
      Text.UpperKeepsTokens(w[k]);
    }
  }

  /** One result line: the words joined by single spaces, with word wi replaced by its mutation. */
  function Variant(words: seq<string>, wi: nat, dir: Direction, a: nat, n: nat): string
    requires wi < |words| && a + n <= |words[wi]|
  {
    Text.Join(words[wi := Mutate(dir, words[wi], a, n)])
  }

  /** The results for span length n and offsets 0 .. k-1, skipping spans that run past the word. */
  function Offsets(sp: Spec, words: seq<string>, wi: nat, n: nat, k: nat): seq<string>
    requires wi < |words| && sp.pos >= 1
  {
    if k == 0 then []
    else
      var a := sp.pos - 1 + (k - 1);
      Offsets(sp, words, wi, n, k - 1) + (if a + n > |words[wi]| then [] else [Variant(words, wi, sp.direction, a, n)])
  }

  /** The results for word wi and span lengths min_span .. hi-1, each with offsets 0 .. max_span - length. */
  function Lengths(sp: Spec, words: seq<string>, wi: nat, hi: nat): seq<string>
    requires wi < |words| && sp.pos >= 1 && (hi <= sp.maxSpan + 1 || hi <= sp.minSpan)
    decreases hi
  {
    if hi <= sp.minSpan then []
    else
      var n := hi - 1;
      Lengths(sp, words, wi, hi - 1) + Offsets(sp, words, wi, n, sp.maxSpan - n + 1)
  }

  /** Whether the position is inside word w. */
  predicate PosFits(sp: Spec, w: string)
  {
    1 <= sp.pos <= |w|
  }

  /** The results for the words lo .. k-1, or the error for the first of them that is too short for pos. */
  function Collect(sp: Spec, line: string, words: seq<string>, lo: nat, k: nat): Result<seq<string>, MorphError>
    requires lo <= k <= |words|
    decreases k
  {
    if k == lo then Ok([])
    else
      match Collect(sp, line, words, lo, k - 1)
      case Err(e) => Err(e)
      case Ok(rs) =>
        var w := words[k - 1];
        if !PosFits(sp, w) then Err(PositionOutOfBounds(sp.pos, w, line))
        else Ok(rs + Lengths(sp, words, k - 1, sp.maxSpan + 1))
  }

  /** spec.apply_to_line(line), or the ValueError it raises. */
  function ApplySpec(sp: Spec, line: string): Result<seq<string>, MorphError>
  {
    var words := Text.Split(line);
    if sp.start < 1 || sp.end > |words| then Err(WordRangeOutOfBounds(sp.start, sp.end, line))
    else
      if sp.end < sp.start then Ok([])
      else Collect(sp, line, words, sp.start - 1, sp.end)
  }

  /** Spec.apply_to_line as the source writes it. */
  method ApplyToLine(sp: Spec, line: string) returns (r: Result<seq<string>, MorphError>)
    ensures r == ApplySpec(sp, line)
  {
    var words := Text.Split(line);
    var nWords := |words|;
    if sp.start < 1 || sp.end > nWords {
      return Err(WordRangeOutOfBounds(sp.start, sp.end, line));
    }
    r := SelectedVariants(sp, line, words, sp.start - 1, sp.end);
  }

  /** The loop over the selected words lo .. hi-1 of apply_to_line, which stops at the first word too short for pos. */
  method SelectedVariants(sp: Spec, line: string, words: seq<string>, lo: nat, hi: nat)
    returns (r: Result<seq<string>, MorphError>)
    requires hi <= |words|
    ensures r == if hi <= lo then Ok([]) else Collect(sp, line, words, lo, hi)
  {
    var results: seq<string> := [];
    var wi := lo;
    while wi < hi
      invariant lo <= wi && (wi <= hi || wi == lo)
      invariant lo <= hi ==> Collect(sp, line, words, lo, wi) == Ok(results)
      invariant hi < lo ==> results == []
    {
      var word := words[wi];
      if sp.pos < 1 || sp.pos > |word| {
        CollectStopsAt(sp, line, words, lo, wi + 1, hi);
        return Err(PositionOutOfBounds(sp.pos, word, line));
      }
      var variants := WordVariants(sp, words, wi);
      results := results + variants;
      wi := wi + 1;
    }
    r := Ok(results);
  }

  /** The loops over span length and offset of apply_to_line, for word wi. */
  method WordVariants(sp: Spec, words: seq<string>, wi: nat) returns (results: seq<string>)
    requires wi < |words| && PosFits(sp, words[wi])
    ensures results == Lengths(sp, words, wi, sp.maxSpan + 1)
  {
    var word := words[wi];
    var rep := if sp.direction == Front then word else Text.Reverse(word);
    var revFlag := sp.direction != Front;
    results := [];
    var spanLen := sp.minSpan;
    while spanLen < sp.maxSpan + 1
      invariant sp.minSpan <= spanLen && (spanLen <= sp.maxSpan + 1 || spanLen == sp.minSpan)
      invariant results == Lengths(sp, words, wi, spanLen)
    {
      var spans := SpanVariants(sp, words, wi, rep, revFlag, spanLen);
      results := results + spans;
      spanLen := spanLen + 1;
    }
    assert Lengths(sp, words, wi, spanLen) == Lengths(sp, words, wi, sp.maxSpan + 1);
  }

  /** The loop over offsets of apply_to_line, for word wi (rep is its working representation) and one span length. */
  method SpanVariants(sp: Spec, words: seq<string>, wi: nat, rep: string, revFlag: bool, spanLen: nat)
    returns (results: seq<string>)
    requires wi < |words| && PosFits(sp, words[wi]) && spanLen <= sp.maxSpan
    requires rep == if sp.direction == Front then words[wi] else Text.Reverse(words[wi])
    requires revFlag == (sp.direction != Front)
    ensures results == Offsets(sp, words, wi, spanLen, sp.maxSpan - spanLen + 1)
  {
    var word := words[wi];
    assert |rep| == |word|;
    results := [];
    var maxOffset := sp.maxSpan - spanLen;
    var base := sp.pos - 1;
    var offset := 0;
    while offset < maxOffset + 1
      invariant offset <= maxOffset + 1
      invariant results == Offsets(sp, words, wi, spanLen, offset)
    {
      var start := base + offset;
      var end := start + spanLen;
      if end <= |rep| {
        var line := SpanLine(sp, words, wi, rep, revFlag, start, spanLen);
        OffsetsTake(sp, words, wi, spanLen, offset);
        results := results + [line];
      } else {
        OffsetsSkip(sp, words, wi, spanLen, offset);
      }
      offset := offset + 1;
    }
  }

  /** Mutate, in the steps apply_to_line takes: the working representation, the uppercased span, and back. */
  lemma MutateInSteps(dir: Direction, w: string, rep: string, revFlag: bool, a: nat, n: nat)
    requires rep == if dir == Front then w else Text.Reverse(w)
    requires revFlag == (dir != Front)
    requires a + n <= |rep| && |rep| == |w|
    ensures Mutate(dir, w, a, n) == if revFlag then Text.Reverse(UpperSpan(rep, a, a + n)) else UpperSpan(rep, a, a + n)
  {
  }

  /** The body of the offset loop for a span that fits: uppercase it in rep, turn rep back into the word, and join the words again. */
  method SpanLine(sp: Spec, words: seq<string>, wi: nat, rep: string, revFlag: bool, start: nat, spanLen: nat)
    returns (line: string)
    requires wi < |words|
    requires rep == if sp.direction == Front then words[wi] else Text.Reverse(words[wi])
    requires revFlag == (sp.direction != Front)
    requires start + spanLen <= |rep|
    ensures start + spanLen <= |words[wi]| && line == Variant(words, wi, sp.direction, start, spanLen)
  {
    var mutated := UpperSpan(rep, start, start + spanLen);
    var finalWord := if revFlag then Text.Reverse(mutated) else mutated;
    MutateInSteps(sp.direction, words[wi], rep, revFlag, start, spanLen);
    line := Text.Join(words[wi := finalWord]);
  }

  /** One step of the offset loop that keeps its span. */
  lemma OffsetsTake(sp: Spec, words: seq<string>, wi: nat, n: nat, k: nat)
    requires wi < |words| && sp.pos >= 1 && sp.pos - 1 + k + n <= |words[wi]|
    ensures Offsets(sp, words, wi, n, k + 1) == Offsets(sp, words, wi, n, k) + [Variant(words, wi, sp.direction, sp.pos - 1 + k, n)]
  {
  }

  lemma OffsetsSkip(sp: Spec, words: seq<string>, wi: nat, n: nat, k: nat)
    requires wi < |words| && sp.pos >= 1 && sp.pos - 1 + k + n > |words[wi]|
    ensures Offsets(sp, words, wi, n, k + 1) == Offsets(sp, words, wi, n, k)
  {
  }

  /** Once a word is too short for pos, the error stands: no partial results are returned. */
  lemma {:induction false} CollectStopsAt(sp: Spec, line: string, words: seq<string>, lo: nat, k: nat, k': nat)
    requires lo <= k <= k' <= |words|
    requires Collect(sp, line, words, lo, k).Err?
    ensures Collect(sp, line, words, lo, k') == Collect(sp, line, words, lo, k)
    decreases k' - k
  {
    if k < k' {
      CollectStopsAt(sp, line, words, lo, k, k' - 1);
    }
  }

  // ---------------------------------------------------------------------
  // Properties of apply_to_line
  // ---------------------------------------------------------------------

  /** The first word among lo .. k-1 that is too short for pos. */
  predicate FirstMisfit(sp: Spec, words: seq<string>, lo: nat, k: nat, wi: nat)
    requires k <= |words|
  {
    lo <= wi < k && !PosFits(sp, words[wi]) && forall j :: lo <= j < wi ==> PosFits(sp, words[j])
  }

  lemma {:induction false} CollectFails(sp: Spec, line: string, words: seq<string>, lo: nat, k: nat)
    requires lo <= k <= |words|
    ensures Collect(sp, line, words, lo, k).Err? <==> exists wi :: lo <= wi < k && !PosFits(sp, words[wi])
    ensures Collect(sp, line, words, lo, k).Err? ==> exists wi: nat :: (FirstMisfit(sp, words, lo, k, wi) &&
      Collect(sp, line, words, lo, k).error == PositionOutOfBounds(sp.pos, words[wi], line))
    decreases k
  {
    if k > lo {
      CollectFails(sp, line, words, lo, k - 1);
      var c := Collect(sp, line, words, lo, k - 1);
      if c.Err? {
        var wi: nat :| FirstMisfit(sp, words, lo, k - 1, wi) && c.error == PositionOutOfBounds(sp.pos, words[wi], line);
        assert FirstMisfit(sp, words, lo, k, wi);
      } else if !PosFits(sp, words[k - 1]) {
        assert FirstMisfit(sp, words, lo, k, k - 1);
      } else {
        forall wi | lo <= wi < k
          ensures PosFits(sp, words[wi])
        {
          if wi < k - 1 {
            assert !(lo <= wi < k - 1 && !PosFits(sp, words[wi]));
          }
        }
      }
    }
  }

  /**
    apply_to_line fails exactly when the word range leaves the line or some
    selected word is too short for pos, and then with the error for the range,
    or for the first such word.
  */
  lemma ApplyFails(sp: Spec, line: string)
    ensures var words := Text.Split(line);
      ApplySpec(sp, line).Err? <==>
        sp.start < 1 || sp.end > |words| ||
        exists wi :: sp.start - 1 <= wi < sp.end && wi < |words| && !PosFits(sp, words[wi])
    ensures var words := Text.Split(line);
      sp.start < 1 || sp.end > |words| ==>
        ApplySpec(sp, line) == Err(WordRangeOutOfBounds(sp.start, sp.end, line))
    ensures var words := Text.Split(line);
      1 <= sp.start && sp.end <= |words| && ApplySpec(sp, line).Err? ==>
        exists wi: nat :: FirstMisfit(sp, words, sp.start - 1, sp.end, wi) &&
          ApplySpec(sp, line).error == PositionOutOfBounds(sp.pos, words[wi], line)
  {
    var words := Text.Split(line);
    if 1 <= sp.start && sp.start <= sp.end <= |words| {
      CollectFails(sp, line, words, sp.start - 1, sp.end);
    }
  }

  /** A range whose end comes before its start selects no word: no results and no error. */
  lemma EmptyRange(sp: Spec, line: string)
    requires 1 <= sp.start && sp.end <= |Text.Split(line)| && sp.end < sp.start
    ensures ApplySpec(sp, line) == Ok([])
  {
  }

  /** The span choices apply_to_line makes for word wi: length n, starting a characters in from the chosen end. */
  predicate Chosen(sp: Spec, words: seq<string>, wi: nat, n: nat, a: nat)
  {
    && wi < |words| && sp.pos >= 1
    && sp.minSpan <= n <= sp.maxSpan
    && sp.pos - 1 <= a <= sp.pos - 1 + (sp.maxSpan - n)
    && a + n <= |words[wi]|
  }

  lemma OffsetsMembers(sp: Spec, words: seq<string>, wi: nat, n: nat, k: nat, o: string)
    requires wi < |words| && sp.pos >= 1
    ensures o in Offsets(sp, words, wi, n, k) <==>
      exists a :: sp.pos - 1 <= a < sp.pos - 1 + k && a + n <= |words[wi]| && o == Variant(words, wi, sp.direction, a, n)
  {
    if o in Offsets(sp, words, wi, n, k) {
      OffsetsSound(sp, words, wi, n, k, o);
    } else if exists a :: sp.pos - 1 <= a < sp.pos - 1 + k && a + n <= |words[wi]| && o == Variant(words, wi, sp.direction, a, n) {
      var a :| sp.pos - 1 <= a < sp.pos - 1 + k && a + n <= |words[wi]| && o == Variant(words, wi, sp.direction, a, n);
      OffsetsComplete(sp, words, wi, n, k, a);
    }
  }

  lemma {:induction false} OffsetsSound(sp: Spec, words: seq<string>, wi: nat, n: nat, k: nat, o: string)
    requires wi < |words| && sp.pos >= 1
    requires o in Offsets(sp, words, wi, n, k)
    ensures exists a :: sp.pos - 1 <= a < sp.pos - 1 + k && a + n <= |words[wi]| && o == Variant(words, wi, sp.direction, a, n)
  {
    var a := sp.pos - 1 + (k - 1);
    var rest := Offsets(sp, words, wi, n, k - 1);
    var tail: seq<string> := if a + n > |words[wi]| then [] else [Variant(words, wi, sp.direction, a, n)];
    assert o in rest || o in tail by {
      assert Offsets(sp, words, wi, n, k) == rest + tail;
      Text.InConcat(rest, tail, o);
    }
    if o in rest {
      OffsetsSound(sp, words, wi, n, k - 1, o);
      var b :| sp.pos - 1 <= b < sp.pos - 1 + (k - 1) && b + n <= |words[wi]| && o == Variant(words, wi, sp.direction, b, n);
      assert b < sp.pos - 1 + k;
    } else {
      assert a + n <= |words[wi]| && o == Variant(words, wi, sp.direction, a, n);
    }
  }

  lemma {:induction false} OffsetsComplete(sp: Spec, words: seq<string>, wi: nat, n: nat, k: nat, a: nat)
    requires wi < |words| && sp.pos >= 1
    requires sp.pos - 1 <= a < sp.pos - 1 + k && a + n <= |words[wi]|
    ensures Variant(words, wi, sp.direction, a, n) in Offsets(sp, words, wi, n, k)
  {
    var last := sp.pos - 1 + (k - 1);
    var rest := Offsets(sp, words, wi, n, k - 1);
    var o := Variant(words, wi, sp.direction, a, n);
    assert Offsets(sp, words, wi, n, k) == rest + (if last + n > |words[wi]| then [] else [Variant(words, wi, sp.direction, last, n)]);
    if a < last {
      OffsetsComplete(sp, words, wi, n, k - 1, a);
      assert o in rest;
    } else {
      assert a == last;
    }
  }

  lemma {:induction false} LengthsSound(sp: Spec, words: seq<string>, wi: nat, hi: nat, o: string)
    requires wi < |words| && sp.pos >= 1 && (hi <= sp.maxSpan + 1 || hi <= sp.minSpan)
    requires o in Lengths(sp, words, wi, hi)
    ensures exists n: nat, a: nat :: n < hi && Chosen(sp, words, wi, n, a) && o == Variant(words, wi, sp.direction, a, n)
    decreases hi
  {
    var m := hi - 1;
    if o in Lengths(sp, words, wi, m) {
      LengthsSound(sp, words, wi, m, o);
      var n: nat, a: nat :| n < m && Chosen(sp, words, wi, n, a) && o == Variant(words, wi, sp.direction, a, n);
      assert n < hi;
    } else {
      OffsetsSound(sp, words, wi, m, sp.maxSpan - m + 1, o);
      var a: nat :| sp.pos - 1 <= a < sp.pos - 1 + (sp.maxSpan - m + 1) && a + m <= |words[wi]| && o == Variant(words, wi, sp.direction, a, m);
      assert Chosen(sp, words, wi, m, a);
    }
  }

  lemma {:induction false} LengthsComplete(sp: Spec, words: seq<string>, wi: nat, hi: nat, n: nat, a: nat)
    requires wi < |words| && sp.pos >= 1 && (hi <= sp.maxSpan + 1 || hi <= sp.minSpan)
    requires n < hi && Chosen(sp, words, wi, n, a)
    ensures Variant(words, wi, sp.direction, a, n) in Lengths(sp, words, wi, hi)
    decreases hi
  {
    var m := hi - 1;
    var o := Variant(words, wi, sp.direction, a, n);
    var offs := Offsets(sp, words, wi, m, sp.maxSpan - m + 1);
    var left := Lengths(sp, words, wi, m);
    LengthsUnfold(sp, words, wi, hi);
    if n < m {
      LengthsComplete(sp, words, wi, m, n, a);
      assert o in left;
    } else {
      OffsetsComplete(sp, words, wi, m, sp.maxSpan - m + 1, a);
      assert o in offs;
    }
    Text.InConcat(left, offs, o);
    assert o in Lengths(sp, words, wi, hi);
  }

  lemma LengthsUnfold(sp: Spec, words: seq<string>, wi: nat, hi: nat)
    requires wi < |words| && sp.pos >= 1 && sp.minSpan < hi <= sp.maxSpan + 1
    ensures Lengths(sp, words, wi, hi) == Lengths(sp, words, wi, hi - 1) + Offsets(sp, words, wi, hi - 1, sp.maxSpan - (hi - 1) + 1)
  {
  }

  lemma {:induction false} CollectSound(sp: Spec, line: string, words: seq<string>, lo: nat, k: nat, o: string)
    requires lo <= k <= |words| && Collect(sp, line, words, lo, k).Ok?
    requires o in Collect(sp, line, words, lo, k).value
    ensures exists wi: nat, n: nat, a: nat :: lo <= wi < k && Chosen(sp, words, wi, n, a) && o == Variant(words, wi, sp.direction, a, n)
    decreases k
  {
    var w := k - 1;
    var rs := Collect(sp, line, words, lo, w).value;
    var ls := Lengths(sp, words, w, sp.maxSpan + 1);
    assert Collect(sp, line, words, lo, k).value == rs + ls;
    if o in rs {
      CollectSound(sp, line, words, lo, w, o);
      var wi: nat, n: nat, a: nat :| lo <= wi < w && Chosen(sp, words, wi, n, a) && o == Variant(words, wi, sp.direction, a, n);
      assert wi < k;
    } else {
      LengthsSound(sp, words, w, sp.maxSpan + 1, o);
      var n: nat, a: nat :| n < sp.maxSpan + 1 && Chosen(sp, words, w, n, a) && o == Variant(words, w, sp.direction, a, n);
      assert lo <= w < k;
    }
  }

  lemma CollectComplete(sp: Spec, line: string, words: seq<string>, lo: nat, k: nat, wi: nat, n: nat, a: nat)
    requires lo <= k <= |words| && Collect(sp, line, words, lo, k).Ok?
    requires lo <= wi < k && Chosen(sp, words, wi, n, a)
    ensures Variant(words, wi, sp.direction, a, n) in Collect(sp, line, words, lo, k).value
  {
    LengthsComplete(sp, words, wi, sp.maxSpan + 1, n, a);
    CollectIncludes(sp, line, words, lo, k, wi, Variant(words, wi, sp.direction, a, n));
  }

  /** The word loop keeps every result of every selected word. */
  lemma {:induction false} CollectIncludes(sp: Spec, line: string, words: seq<string>, lo: nat, k: nat, wi: nat, o: string)
    requires lo <= k <= |words| && Collect(sp, line, words, lo, k).Ok?
    requires lo <= wi < k && sp.pos >= 1 && o in Lengths(sp, words, wi, sp.maxSpan + 1)
    ensures o in Collect(sp, line, words, lo, k).value
    decreases k
  {
    var w := k - 1;
    var rs := Collect(sp, line, words, lo, w).value;
    var ls := Lengths(sp, words, w, sp.maxSpan + 1);
    assert Collect(sp, line, words, lo, k).value == rs + ls;
    if wi < w {
      CollectIncludes(sp, line, words, lo, w, wi, o);
      assert o in rs;
    } else {
      assert o in ls;
    }
  }

  /** Line o is the result of one span choice for one of the selected words. */
  ghost predicate Produced(sp: Spec, words: seq<string>, o: string)
  {
    exists wi: nat, n: nat, a: nat :: sp.start - 1 <= wi < sp.end && Chosen(sp, words, wi, n, a) && o == Variant(words, wi, sp.direction, a, n)
  }

  /**
    When apply_to_line succeeds, its results are exactly one per choice of a
    selected word, a span length between min_span and max_span, and an offset
    from pos that keeps the span inside the word: the line's words with that
    one uppercased in that span, joined by single spaces.
  */
  lemma {:induction false} ApplyMembers(sp: Spec, line: string, o: string)
    requires ApplySpec(sp, line).Ok?
    ensures o in ApplySpec(sp, line).value <==> Produced(sp, Text.Split(line), o)
  {
    var words := Text.Split(line);
    assert 1 <= sp.start && sp.end <= |words|;
    if sp.start <= sp.end {
      assert ApplySpec(sp, line) == Collect(sp, line, words, sp.start - 1, sp.end);
      RangeMembers(sp, line, words, o);
    } else {
      assert !Produced(sp, words, o);
    }
  }

  lemma RangeMembers(sp: Spec, line: string, words: seq<string>, o: string)
    requires 1 <= sp.start <= sp.end <= |words| && Collect(sp, line, words, sp.start - 1, sp.end).Ok?
    ensures o in Collect(sp, line, words, sp.start - 1, sp.end).value <==> Produced(sp, words, o)
  {
    var rs := Collect(sp, line, words, sp.start - 1, sp.end);
    if o in rs.value {
      CollectSound(sp, line, words, sp.start - 1, sp.end, o);
    }
    if Produced(sp, words, o) {
      ProducedCollected(sp, line, words, o);
    }
  }

  lemma {:induction false} ProducedCollected(sp: Spec, line: string, words: seq<string>, o: string)
    requires 1 <= sp.start <= sp.end <= |words| && Collect(sp, line, words, sp.start - 1, sp.end).Ok?
    requires Produced(sp, words, o)
    ensures o in Collect(sp, line, words, sp.start - 1, sp.end).value
  {
    var wi: nat, n: nat, a: nat :| sp.start - 1 <= wi < sp.end && Chosen(sp, words, wi, n, a) && o == Variant(words, wi, sp.direction, a, n);
    var rs := Collect(sp, line, words, sp.start - 1, sp.end).value;
    CollectComplete(sp, line, words, sp.start - 1, sp.end, wi, n, a);
    var i :| 0 <= i < |rs| && rs[i] == Variant(words, wi, sp.direction, a, n);
    assert rs[i] == o;
  }

  // ---------------------------------------------------------------------
  // Order and multiplicity of apply_to_line's results
  // ---------------------------------------------------------------------

  /** One span choice: word wi, span length n, starting a characters in from the chosen end. */
  datatype Choice = Choice(wi: nat, n: nat, a: nat)

  /** By word, then span length, then offset: the nesting of apply_to_line's three loops. */
  predicate Before(x: Choice, y: Choice)
  {
    x.wi < y.wi || (x.wi == y.wi && (x.n < y.n || (x.n == y.n && x.a < y.a)))
  }

  /** Strictly increasing in that order; in particular no choice occurs twice. */
  predicate Increasing(cs: seq<Choice>)
  {
    forall i, j :: 0 <= i < j < |cs| ==> Before(cs[i], cs[j])
  }

  /** A choice apply_to_line makes for one of the words lo .. k-1. */
  predicate Selected(sp: Spec, words: seq<string>, lo: nat, k: nat, c: Choice)
  {
    lo <= c.wi < k && Chosen(sp, words, c.wi, c.n, c.a)
  }

  /** cs lists exactly the choices made for the words lo .. k-1. */
  ghost predicate ListsSelected(sp: Spec, words: seq<string>, lo: nat, k: nat, cs: seq<Choice>)
  {
    forall c :: c in cs <==> Selected(sp, words, lo, k, c)
  }

  /** The span of every choice lies inside its word. */
  predicate AllFit(words: seq<string>, cs: seq<Choice>)
  {
    forall i :: 0 <= i < |cs| ==> cs[i].wi < |words| && cs[i].a + cs[i].n <= |words[cs[i].wi]|
  }

  /** The result line of each choice, in the order given. */
  function Variants(words: seq<string>, dir: Direction, cs: seq<Choice>): (r: seq<string>)
    requires AllFit(words, cs)
    ensures |r| == |cs|
  {
    seq(|cs|, i requires 0 <= i < |cs| => Variant(words, cs[i].wi, dir, cs[i].a, cs[i].n))
  }

  lemma VariantsConcat(words: seq<string>, dir: Direction, xs: seq<Choice>, ys: seq<Choice>)
    requires AllFit(words, xs) && AllFit(words, ys)
    ensures AllFit(words, xs + ys)
    ensures Variants(words, dir, xs + ys) == Variants(words, dir, xs) + Variants(words, dir, ys)
  {
    FitsConcat(words, xs, ys);
    var zs := xs + ys;
    var l, r := Variants(words, dir, zs), Variants(words, dir, xs) + Variants(words, dir, ys);
    forall i | 0 <= i < |zs|
      ensures l[i] == r[i]
    {
      if i < |xs| {
        assert zs[i] == xs[i];
      } else {
        assert zs[i] == ys[i - |xs|];
      }
    }
  }

  lemma FitsConcat(words: seq<string>, xs: seq<Choice>, ys: seq<Choice>)
    requires AllFit(words, xs) && AllFit(words, ys)
    ensures AllFit(words, xs + ys)
  {
    var zs := xs + ys;
    forall i | 0 <= i < |zs|
      ensures zs[i].wi < |words| && zs[i].a + zs[i].n <= |words[zs[i].wi]|
    {
      if i < |xs| {
        assert zs[i] == xs[i];
      } else {
        assert zs[i] == ys[i - |xs|];
      }
    }
  }

  /**
    The offset loop's choices for word wi and length n over offsets 0 .. k-1;
    each has its span inside the word.
  */
  function OffsetChoices(sp: Spec, words: seq<string>, wi: nat, n: nat, k: nat): (r: seq<Choice>)
    requires wi < |words| && sp.pos >= 1
    ensures forall i :: 0 <= i < |r| ==>
      r[i].wi == wi && r[i].n == n && sp.pos - 1 <= r[i].a < sp.pos - 1 + k && r[i].a + n <= |words[wi]|
  {
    if k == 0 then []
    else
      var a := sp.pos - 1 + (k - 1);
      OffsetChoices(sp, words, wi, n, k - 1) + (if a + n > |words[wi]| then [] else [Choice(wi, n, a)])
  }

  /** The span-length loop's choices for word wi and lengths min_span .. hi-1; each is one apply_to_line makes. */
  function LengthChoices(sp: Spec, words: seq<string>, wi: nat, hi: nat): (r: seq<Choice>)
    requires wi < |words| && sp.pos >= 1 && (hi <= sp.maxSpan + 1 || hi <= sp.minSpan)
    ensures forall i :: 0 <= i < |r| ==> r[i].wi == wi && r[i].n < hi && Chosen(sp, words, wi, r[i].n, r[i].a)
    decreases hi
  {
    if hi <= sp.minSpan then []
    else
      var n := hi - 1;
      LengthChoices(sp, words, wi, hi - 1) + OffsetChoices(sp, words, wi, n, sp.maxSpan - n + 1)
  }

  /** The word loop's choices for the words lo .. k-1; each is selected. */
  function WordChoices(sp: Spec, words: seq<string>, lo: nat, k: nat): (r: seq<Choice>)
    requires lo <= k <= |words| && sp.pos >= 1
    ensures forall i :: 0 <= i < |r| ==> Selected(sp, words, lo, k, r[i])
    decreases k
  {
    if k == lo then []
    else WordChoices(sp, words, lo, k - 1) + LengthChoices(sp, words, k - 1, sp.maxSpan + 1)
  }

  lemma IncreasingConcat(xs: seq<Choice>, ys: seq<Choice>)
    requires Increasing(xs) && Increasing(ys)
    requires forall i, j :: 0 <= i < |xs| && 0 <= j < |ys| ==> Before(xs[i], ys[j])
    ensures Increasing(xs + ys)
  {
    var zs := xs + ys;
    forall i, j | 0 <= i < j < |zs|
      ensures Before(zs[i], zs[j])
    {
      if j < |xs| {
        assert zs[i] == xs[i] && zs[j] == xs[j];
      } else if i >= |xs| {
        assert zs[i] == ys[i - |xs|] && zs[j] == ys[j - |xs|];
      } else {
        assert zs[i] == xs[i] && zs[j] == ys[j - |xs|];
      }
    }
  }

  lemma {:induction false} OffsetChoicesIncreasing(sp: Spec, words: seq<string>, wi: nat, n: nat, k: nat)
    requires wi < |words| && sp.pos >= 1
    ensures Increasing(OffsetChoices(sp, words, wi, n, k))
  {
    if k > 0 {
      var a := sp.pos - 1 + (k - 1);
      var p := OffsetChoices(sp, words, wi, n, k - 1);
      var q: seq<Choice> := if a + n > |words[wi]| then [] else [Choice(wi, n, a)];
      OffsetChoicesIncreasing(sp, words, wi, n, k - 1);
      IncreasingConcat(p, q);
    }
  }

  lemma {:induction false} LengthChoicesIncreasing(sp: Spec, words: seq<string>, wi: nat, hi: nat)
    requires wi < |words| && sp.pos >= 1 && (hi <= sp.maxSpan + 1 || hi <= sp.minSpan)
    ensures Increasing(LengthChoices(sp, words, wi, hi))
    decreases hi
  {
    if hi > sp.minSpan {
      var n := hi - 1;
      var p := LengthChoices(sp, words, wi, hi - 1);
      var q := OffsetChoices(sp, words, wi, n, sp.maxSpan - n + 1);
      LengthChoicesIncreasing(sp, words, wi, hi - 1);
      OffsetChoicesIncreasing(sp, words, wi, n, sp.maxSpan - n + 1);
      IncreasingConcat(p, q);
    }
  }

  lemma {:induction false} WordChoicesIncreasing(sp: Spec, words: seq<string>, lo: nat, k: nat)
    requires lo <= k <= |words| && sp.pos >= 1
    ensures Increasing(WordChoices(sp, words, lo, k))
    decreases k
  {
    if k > lo {
      var p := WordChoices(sp, words, lo, k - 1);
      var q := LengthChoices(sp, words, k - 1, sp.maxSpan + 1);
      WordChoicesIncreasing(sp, words, lo, k - 1);
      LengthChoicesIncreasing(sp, words, k - 1, sp.maxSpan + 1);
      IncreasingConcat(p, q);
    }
  }

  lemma {:induction false} OffsetChoicesComplete(sp: Spec, words: seq<string>, wi: nat, n: nat, k: nat, c: Choice)
    requires wi < |words| && sp.pos >= 1
    requires c.wi == wi && c.n == n && sp.pos - 1 <= c.a < sp.pos - 1 + k && c.a + n <= |words[wi]|
    ensures c in OffsetChoices(sp, words, wi, n, k)
  {
    var a := sp.pos - 1 + (k - 1);
    var p := OffsetChoices(sp, words, wi, n, k - 1);
    var q: seq<Choice> := if a + n > |words[wi]| then [] else [Choice(wi, n, a)];
    assert OffsetChoices(sp, words, wi, n, k) == p + q;
    if c.a < a {
      OffsetChoicesComplete(sp, words, wi, n, k - 1, c);
    } else {
      assert c == Choice(wi, n, a) && q == [c];
    }
    Text.InConcat(p, q, c);
  }

  lemma {:induction false} LengthChoicesComplete(sp: Spec, words: seq<string>, wi: nat, hi: nat, c: Choice)
    requires wi < |words| && sp.pos >= 1 && (hi <= sp.maxSpan + 1 || hi <= sp.minSpan)
    requires c.wi == wi && c.n < hi && Chosen(sp, words, wi, c.n, c.a)
    ensures c in LengthChoices(sp, words, wi, hi)
    decreases hi
  {
    var n := hi - 1;
    var p := LengthChoices(sp, words, wi, hi - 1);
    var q := OffsetChoices(sp, words, wi, n, sp.maxSpan - n + 1);
    assert LengthChoices(sp, words, wi, hi) == p + q;
    if c.n < n {
      LengthChoicesComplete(sp, words, wi, hi - 1, c);
    } else {
      OffsetChoicesComplete(sp, words, wi, n, sp.maxSpan - n + 1, c);
    }
    Text.InConcat(p, q, c);
  }

  lemma {:induction false} WordChoicesComplete(sp: Spec, words: seq<string>, lo: nat, k: nat, c: Choice)
    requires lo <= k <= |words| && sp.pos >= 1 && Selected(sp, words, lo, k, c)
    ensures c in WordChoices(sp, words, lo, k)
    decreases k
  {
    if c.wi < k - 1 {
      WordChoicesComplete(sp, words, lo, k - 1, c);
      WordChoicesKeep(sp, words, lo, k, c);
    } else {
      LengthChoicesComplete(sp, words, k - 1, sp.maxSpan + 1, c);
      WordChoicesLast(sp, words, lo, k, c);
    }
  }

  /** A choice for the earlier words stays listed when the word loop goes one word further. */
  lemma WordChoicesKeep(sp: Spec, words: seq<string>, lo: nat, k: nat, c: Choice)
    requires lo < k <= |words| && sp.pos >= 1
    requires c in WordChoices(sp, words, lo, k - 1)
    ensures c in WordChoices(sp, words, lo, k)
  {
    WordChoicesStep(sp, words, lo, k);
    Text.InConcat(WordChoices(sp, words, lo, k - 1), LengthChoices(sp, words, k - 1, sp.maxSpan + 1), c);
  }

  /** A choice for the last word is listed once the word loop reaches it. */
  lemma WordChoicesLast(sp: Spec, words: seq<string>, lo: nat, k: nat, c: Choice)
    requires lo < k <= |words| && sp.pos >= 1
    requires c in LengthChoices(sp, words, k - 1, sp.maxSpan + 1)
    ensures c in WordChoices(sp, words, lo, k)
  {
    WordChoicesStep(sp, words, lo, k);
    Text.InConcat(WordChoices(sp, words, lo, k - 1), LengthChoices(sp, words, k - 1, sp.maxSpan + 1), c);
  }

  lemma WordChoicesStep(sp: Spec, words: seq<string>, lo: nat, k: nat)
    requires lo < k <= |words| && sp.pos >= 1
    ensures WordChoices(sp, words, lo, k) == WordChoices(sp, words, lo, k - 1) + LengthChoices(sp, words, k - 1, sp.maxSpan + 1)
  {
  }

  /** The word loop's choices are exactly the selected ones. */
  lemma WordChoicesExact(sp: Spec, words: seq<string>, lo: nat, k: nat, c: Choice)
    requires lo <= k <= |words| && sp.pos >= 1
    ensures c in WordChoices(sp, words, lo, k) <==> Selected(sp, words, lo, k, c)
  {
    if Selected(sp, words, lo, k, c) {
      WordChoicesComplete(sp, words, lo, k, c);
    }
  }

  lemma {:induction false} OffsetsEnumerate(sp: Spec, words: seq<string>, wi: nat, n: nat, k: nat)
    requires wi < |words| && sp.pos >= 1
    ensures AllFit(words, OffsetChoices(sp, words, wi, n, k))
    ensures Offsets(sp, words, wi, n, k) == Variants(words, sp.direction, OffsetChoices(sp, words, wi, n, k))
  {
    if k > 0 {
      var a := sp.pos - 1 + (k - 1);
      var p := OffsetChoices(sp, words, wi, n, k - 1);
      OffsetsStep(sp, words, wi, n, k);
      OffsetChoicesStep(sp, words, wi, n, k);
      OffsetsEnumerate(sp, words, wi, n, k - 1);
      if a + n > |words[wi]| {
        EnumerateSnoc(words, sp.direction, Offsets(sp, words, wi, n, k), Offsets(sp, words, wi, n, k - 1), [],
          OffsetChoices(sp, words, wi, n, k), p, []);
      } else {
        OneVariant(words, sp.direction, Choice(wi, n, a));
        EnumerateSnoc(words, sp.direction, Offsets(sp, words, wi, n, k), Offsets(sp, words, wi, n, k - 1),
          [Variant(words, wi, sp.direction, a, n)], OffsetChoices(sp, words, wi, n, k), p, [Choice(wi, n, a)]);
      }
    }
  }

  lemma OffsetsStep(sp: Spec, words: seq<string>, wi: nat, n: nat, k: nat)
    requires wi < |words| && sp.pos >= 1 && k > 0
    ensures var a := sp.pos - 1 + (k - 1);
      Offsets(sp, words, wi, n, k) == Offsets(sp, words, wi, n, k - 1) + (if a + n > |words[wi]| then [] else [Variant(words, wi, sp.direction, a, n)])
  {
  }

  lemma OffsetChoicesStep(sp: Spec, words: seq<string>, wi: nat, n: nat, k: nat)
    requires wi < |words| && sp.pos >= 1 && k > 0
    ensures var a := sp.pos - 1 + (k - 1);
      OffsetChoices(sp, words, wi, n, k) == OffsetChoices(sp, words, wi, n, k - 1) + (if a + n > |words[wi]| then [] else [Choice(wi, n, a)])
  {
  }

  lemma LengthChoicesStep(sp: Spec, words: seq<string>, wi: nat, hi: nat)
    requires wi < |words| && sp.pos >= 1 && sp.minSpan < hi <= sp.maxSpan + 1
    ensures LengthChoices(sp, words, wi, hi) == LengthChoices(sp, words, wi, hi - 1) + OffsetChoices(sp, words, wi, hi - 1, sp.maxSpan - (hi - 1) + 1)
  {
  }

  lemma OneVariant(words: seq<string>, dir: Direction, c: Choice)
    requires c.wi < |words| && c.a + c.n <= |words[c.wi]|
    ensures AllFit(words, [c]) && Variants(words, dir, [c]) == [Variant(words, c.wi, dir, c.a, c.n)]
  {
  }

  lemma {:induction false} LengthsEnumerate(sp: Spec, words: seq<string>, wi: nat, hi: nat)
    requires wi < |words| && sp.pos >= 1 && (hi <= sp.maxSpan + 1 || hi <= sp.minSpan)
    ensures AllFit(words, LengthChoices(sp, words, wi, hi))
    ensures Lengths(sp, words, wi, hi) == Variants(words, sp.direction, LengthChoices(sp, words, wi, hi))
    decreases hi
  {
    if hi > sp.minSpan {
      var n := hi - 1;
      var p := LengthChoices(sp, words, wi, hi - 1);
      var q := OffsetChoices(sp, words, wi, n, sp.maxSpan - n + 1);
      LengthChoicesStep(sp, words, wi, hi);
      LengthsEnumerate(sp, words, wi, hi - 1);
      OffsetsEnumerate(sp, words, wi, n, sp.maxSpan - n + 1);
      LengthsUnfold(sp, words, wi, hi);
      EnumerateSnoc(words, sp.direction, Lengths(sp, words, wi, hi), Lengths(sp, words, wi, hi - 1),
        Offsets(sp, words, wi, n, sp.maxSpan - n + 1), LengthChoices(sp, words, wi, hi), p, q);
    }
  }

  /** When the word loop succeeds, its results are the lines of its choices, one each, in order. */
  lemma {:induction false} CollectEnumerate(sp: Spec, line: string, words: seq<string>, lo: nat, k: nat)
    requires lo <= k <= |words| && sp.pos >= 1 && Collect(sp, line, words, lo, k).Ok?
    ensures AllFit(words, WordChoices(sp, words, lo, k))
    ensures Collect(sp, line, words, lo, k).value == Variants(words, sp.direction, WordChoices(sp, words, lo, k))
    decreases k
  {
    if k > lo {
      var p := WordChoices(sp, words, lo, k - 1);
      var q := LengthChoices(sp, words, k - 1, sp.maxSpan + 1);
      WordChoicesStep(sp, words, lo, k);
      CollectSnoc(sp, line, words, lo, k);
      var rs := Collect(sp, line, words, lo, k - 1).value;
      var ls := Lengths(sp, words, k - 1, sp.maxSpan + 1);
      CollectEnumerate(sp, line, words, lo, k - 1);
      LengthsEnumerate(sp, words, k - 1, sp.maxSpan + 1);
      EnumerateSnoc(words, sp.direction, Collect(sp, line, words, lo, k).value, rs, ls, WordChoices(sp, words, lo, k), p, q);
    }
  }

  /** Results that are the lines of p followed by the lines of q are the lines of p + q. */
  lemma EnumerateSnoc(words: seq<string>, dir: Direction, all: seq<string>, rs: seq<string>, ls: seq<string>,
                      cs: seq<Choice>, p: seq<Choice>, q: seq<Choice>)
    requires all == rs + ls && cs == p + q
    requires AllFit(words, p) && AllFit(words, q)
    requires rs == Variants(words, dir, p) && ls == Variants(words, dir, q)
    ensures AllFit(words, cs) && all == Variants(words, dir, cs)
  {
    VariantsConcat(words, dir, p, q);
  }

  /** A successful word loop extends the previous words' results by the last word's. */
  lemma CollectSnoc(sp: Spec, line: string, words: seq<string>, lo: nat, k: nat)
    requires lo < k <= |words| && Collect(sp, line, words, lo, k).Ok?
    ensures Collect(sp, line, words, lo, k - 1).Ok? && PosFits(sp, words[k - 1])
    ensures Collect(sp, line, words, lo, k).value ==
      Collect(sp, line, words, lo, k - 1).value + Lengths(sp, words, k - 1, sp.maxSpan + 1)
  {
  }

  /** The last entry of a strictly increasing sequence comes after every other member. */
  lemma LastIsGreatest(cs: seq<Choice>, c: Choice)
    requires Increasing(cs) && cs != [] && c in cs && c != cs[|cs| - 1]
    ensures Before(c, cs[|cs| - 1])
  {
  }

  /** Dropping the last entry of a strictly increasing sequence drops exactly that member. */
  lemma DropGreatest(cs: seq<Choice>, c: Choice)
    requires Increasing(cs) && cs != []
    ensures Increasing(cs[..|cs| - 1])
    ensures c in cs[..|cs| - 1] <==> c in cs && c != cs[|cs| - 1]
  {
    var p := cs[..|cs| - 1];
    if c in p {
      var i :| 0 <= i < |p| && p[i] == c;
      assert Before(cs[i], cs[|cs| - 1]);
    }
    if c in cs && c != cs[|cs| - 1] {
      var i :| 0 <= i < |cs| && cs[i] == c;
      assert i < |p| && p[i] == c;
    }
  }

  lemma EmptyMembers(xs: seq<Choice>, ys: seq<Choice>)
    requires forall c :: c in xs <==> c in ys
    ensures xs == [] <==> ys == []
  {
    if xs != [] {
      assert xs[0] in ys;
    }
    if ys != [] {
      assert ys[0] in xs;
    }
  }

  /** Two strictly increasing sequences with the same members are the same sequence. */
  lemma {:induction false} IncreasingUnique(xs: seq<Choice>, ys: seq<Choice>)
    requires Increasing(xs) && Increasing(ys)
    requires forall c :: c in xs <==> c in ys
    ensures xs == ys
    decreases |xs|
  {
    EmptyMembers(xs, ys);
    if xs != [] {
      var x, y := xs[|xs| - 1], ys[|ys| - 1];
      if x != y {
        LastIsGreatest(xs, y);
        LastIsGreatest(ys, x);
        assert false;
      }
      var px, py := xs[..|xs| - 1], ys[..|ys| - 1];
      forall c
        ensures c in px <==> c in py
      {
        DropGreatest(xs, c);
        DropGreatest(ys, c);
      }
      IncreasingUnique(px, py);
      assert xs == px + [x];
      assert ys == py + [y];
    }
  }

  /** A successful call has pos inside every selected word. */
  lemma SelectedFit(sp: Spec, line: string)
    requires ApplySpec(sp, line).Ok? && sp.start <= sp.end
    ensures sp.end <= |Text.Split(line)| && PosFits(sp, Text.Split(line)[sp.start - 1])
  {
    CollectFails(sp, line, Text.Split(line), sp.start - 1, sp.end);
  }

  /**
    When apply_to_line succeeds, its results are one line per choice of a
    selected word, a span length and an offset that keeps the span inside the
    word, in word-then-length-then-offset order, with equal lines kept: for any
    strictly increasing listing cs of those choices, entry i is the line of
    choice i and there are |cs| results.
  */
  lemma ApplyEnumerates(sp: Spec, line: string, cs: seq<Choice>)
    requires ApplySpec(sp, line).Ok?
    requires Increasing(cs)
    requires ListsSelected(sp, Text.Split(line), sp.start - 1, sp.end, cs)
    ensures AllFit(Text.Split(line), cs)
    ensures ApplySpec(sp, line).value == Variants(Text.Split(line), sp.direction, cs)
    ensures |ApplySpec(sp, line).value| == |cs|
  {
    var words := Text.Split(line);
    if sp.start <= sp.end {
      SelectedFit(sp, line);
      ApplyLoopChoices(sp, line, words, cs);
    } else {
      forall c
        ensures c in cs <==> c in []
      {
      }
      IncreasingUnique(cs, []);
    }
  }

  lemma ApplyLoopChoices(sp: Spec, line: string, words: seq<string>, cs: seq<Choice>)
    requires words == Text.Split(line) && 1 <= sp.start <= sp.end <= |words| && sp.pos >= 1
    requires ApplySpec(sp, line).Ok?
    requires Increasing(cs)
    requires ListsSelected(sp, words, sp.start - 1, sp.end, cs)
    ensures AllFit(words, cs)
    ensures ApplySpec(sp, line).value == Variants(words, sp.direction, cs)
  {
    var ws := WordChoices(sp, words, sp.start - 1, sp.end);
    LoopListing(sp, words, cs);
    assert ApplySpec(sp, line) == Collect(sp, line, words, sp.start - 1, sp.end);
    CollectEnumerate(sp, line, words, sp.start - 1, sp.end);
  }

  /** The word loop's own choices are the only strictly increasing listing of the selected choices. */
  lemma LoopListing(sp: Spec, words: seq<string>, cs: seq<Choice>)
    requires 1 <= sp.start <= sp.end <= |words| && sp.pos >= 1
    requires Increasing(cs) && ListsSelected(sp, words, sp.start - 1, sp.end, cs)
    ensures cs == WordChoices(sp, words, sp.start - 1, sp.end)
  {
    var ws := WordChoices(sp, words, sp.start - 1, sp.end);
    WordChoicesIncreasing(sp, words, sp.start - 1, sp.end);
    forall c
      ensures c in ws <==> c in cs
    {
      WordChoicesExact(sp, words, sp.start - 1, sp.end, c);
    }
    IncreasingUnique(ws, cs);
  }

  /** Such a listing exists for every successful call over a non-empty range: the loops' own choices. */
  lemma ApplyChoices(sp: Spec, line: string)
    requires ApplySpec(sp, line).Ok? && sp.start <= sp.end
    ensures var words := Text.Split(line);
      sp.pos >= 1 && sp.end <= |words| &&
      var cs := WordChoices(sp, words, sp.start - 1, sp.end);
      Increasing(cs) && ListsSelected(sp, words, sp.start - 1, sp.end, cs)
  {
    var words := Text.Split(line);
    SelectedFit(sp, line);
    WordChoicesIncreasing(sp, words, sp.start - 1, sp.end);
    var cs := WordChoices(sp, words, sp.start - 1, sp.end);
    forall c
      ensures c in cs <==> Selected(sp, words, sp.start - 1, sp.end, c)
    {
      WordChoicesExact(sp, words, sp.start - 1, sp.end, c);
    }
  }

  /**
    Splitting a result line again gives the line's words with exactly the
    selected one changed, and that one only in case.
  */
  lemma VariantSplit(line: string, wi: nat, dir: Direction, a: nat, n: nat)
    requires wi < |Text.Split(line)| && a + n <= |Text.Split(line)[wi]|
    ensures var words := Text.Split(line);
      Text.Split(Variant(words, wi, dir, a, n)) == words[wi := Mutate(dir, words[wi], a, n)]
  {
    var words := Text.Split(line);
    var m := Mutate(dir, words[wi], a, n);
    MutateToken(dir, words[wi], a, n);
    var ws := words[wi := m];
    assert forall k :: 0 <= k < |ws| ==> Text.IsToken(ws[k]);
    Text.SplitJoin(ws);
  }

  /** w1$3{1-1} on "capital": the third letter from the back is uppercased. */
  lemma ExampleBackSpan()
    ensures ApplySpec(Spec(1, 1, Back, 3, 1, 1), "capital") == Ok(["capiTal"])
  {
    var sp := Spec(1, 1, Back, 3, 1, 1);
    OneWord("capital");
    BackSpanOfCapital();
    assert Offsets(sp, ["capital"], 0, 1, 1) == ["capiTal"];
    assert Lengths(sp, ["capital"], 0, 2) == ["capiTal"];
  }

  lemma OneWord(w: string)
    requires Text.IsToken(w)
    ensures Text.Split(w) == [w]
  {
    Text.SplitJoin([w]);
  }

  lemma BackSpanOfCapital()
    ensures Variant(["capital"], 0, Back, 2, 1) == "capiTal"
  {
    MutateBack("capital", 2, 1);
    CapitalSpan();
    assert ["capital"][0 := "capiTal"] == ["capiTal"];
  }

  lemma CapitalSpan()
    ensures UpperSpan("capital", 4, 5) == "capiTal"
  {
    var w := "capital";
    assert w[..4] == "capi" && w[4..5] == "t" && w[5..] == "al";
    assert Text.Upper("t") == "T";
  }

  /** apply_to_line on a line already split into words, for a range inside it. */
  lemma {:induction false} ApplyOnWords(sp: Spec, line: string, words: seq<string>)
    requires Text.Split(line) == words && 1 <= sp.start <= sp.end <= |words|
    ensures ApplySpec(sp, line) == Collect(sp, line, words, sp.start - 1, sp.end)
  {
  }

  /** The word loop over the first word alone, when pos fits it. */
  lemma CollectFirst(sp: Spec, line: string, words: seq<string>)
    requires words != [] && PosFits(sp, words[0])
    ensures Collect(sp, line, words, 0, 1) == Ok(Lengths(sp, words, 0, sp.maxSpan + 1))
  {
    var ls := Lengths(sp, words, 0, sp.maxSpan + 1);
    assert [] + ls == ls;
  }

  /** One more word in the word loop, when pos fits it. */
  lemma CollectNext(sp: Spec, line: string, words: seq<string>, k: nat)
    requires 0 < k <= |words| && Collect(sp, line, words, 0, k - 1).Ok? && PosFits(sp, words[k - 1])
    ensures Collect(sp, line, words, 0, k) == Ok(Collect(sp, line, words, 0, k - 1).value + Lengths(sp, words, k - 1, sp.maxSpan + 1))
  {
  }

  /** A line of two words separated by one space splits into those words. */
  lemma TwoWords(x: string, y: string)
    requires Text.IsToken(x) && Text.IsToken(y)
    ensures Text.Split(x + " " + y) == [x, y]
  {
    Text.SplitJoin([x, y]);
    assert [x, y][1..] == [y];
  }

  /** Replacing the first or the second of two words and joining them again. */
  lemma JoinTwo(x: string, y: string)
    ensures Text.Join([x, y]) == x + " " + y
  {
    assert [x, y][1..] == [y];
  }

  lemma VariantFirst(x: string, y: string, dir: Direction, a: nat, n: nat, m: string)
    requires a + n <= |x| && Mutate(dir, x, a, n) == m
    ensures Variant([x, y], 0, dir, a, n) == m + " " + y
  {
    assert [x, y][0 := m] == [m, y];
    JoinTwo(m, y);
  }

  lemma VariantSecond(x: string, y: string, dir: Direction, a: nat, n: nat, m: string)
    requires a + n <= |y| && Mutate(dir, y, a, n) == m
    ensures Variant([x, y], 1, dir, a, n) == x + " " + m
  {
    assert [x, y][1 := m] == [x, m];
    JoinTwo(x, m);
  }

  /** w1^2{1-2} on any two-word line whose first word has at least three characters. */
  lemma {:induction false} FrontSpansOf(x: string, y: string)
    requires Text.IsToken(x) && Text.IsToken(y) && |x| >= 3
    ensures ApplySpec(Spec(1, 1, Front, 2, 1, 2), x + " " + y) ==
      Ok([Variant([x, y], 0, Front, 1, 1), Variant([x, y], 0, Front, 2, 1), Variant([x, y], 0, Front, 1, 2)])
  {
    var sp := Spec(1, 1, Front, 2, 1, 2);
    var words := [x, y];
    var v1, v2, v3 := Variant(words, 0, Front, 1, 1), Variant(words, 0, Front, 2, 1), Variant(words, 0, Front, 1, 2);
    TwoWords(x, y);
    OffsetsTake(sp, words, 0, 1, 0);
    OffsetsTake(sp, words, 0, 1, 1);
    OffsetsTake(sp, words, 0, 2, 0);
    assert Offsets(sp, words, 0, 1, 0) == [] && Offsets(sp, words, 0, 2, 0) == [];
    assert Offsets(sp, words, 0, 1, 2) == [v1, v2];
    assert Offsets(sp, words, 0, 2, 1) == [v3];
    LengthsUnfold(sp, words, 0, 2);
    LengthsUnfold(sp, words, 0, 3);
    assert Lengths(sp, words, 0, 1) == [];
    assert Lengths(sp, words, 0, 3) == [v1, v2, v3];
    CollectFirst(sp, x + " " + y, words);
    ApplyOnWords(sp, x + " " + y, words);
  }

  /**
    w1^2{1-2} on "capital word": spans of length 1 at the 2nd and 3rd letter,
    then the span of length 2 at the 2nd letter, all in the first word.
  */
  lemma ExampleFrontSpans()
    ensures ApplySpec(Spec(1, 1, Front, 2, 1, 2), "capital word") == Ok(["cApital word", "caPital word", "cAPital word"])
  {
    FrontSpansOf("capital", "word");
    CapitalSpans();
    VariantFirst("capital", "word", Front, 1, 1, "cApital");
    VariantFirst("capital", "word", Front, 2, 1, "caPital");
    VariantFirst("capital", "word", Front, 1, 2, "cAPital");
    CapitalWordLines();
  }

  lemma CapitalWordLines()
    ensures "capital" + " " + "word" == "capital word"
    ensures "cApital" + " " + "word" == "cApital word"
    ensures "caPital" + " " + "word" == "caPital word"
    ensures "cAPital" + " " + "word" == "cAPital word"
  {
  }

  lemma CapitalSpans()
    ensures UpperSpan("capital", 1, 2) == "cApital"
    ensures UpperSpan("capital", 2, 3) == "caPital"
    ensures UpperSpan("capital", 1, 3) == "cAPital"
  {
    var w := "capital";
    assert w[..1] == "c" && w[1..2] == "a" && w[2..] == "pital";
    assert w[..2] == "ca" && w[2..3] == "p" && w[3..] == "ital";
    assert w[1..3] == "ap";
    assert Text.Upper("a") == "A" && Text.Upper("p") == "P" && Text.Upper("ap") == "AP";
  }

  /** w1-2^1{1-1} on any two-word line: the first letter of each word in turn. */
  lemma {:induction false} FirstLettersOf(x: string, y: string)
    requires Text.IsToken(x) && Text.IsToken(y)
    ensures ApplySpec(Spec(1, 2, Front, 1, 1, 1), x + " " + y) ==
      Ok([Variant([x, y], 0, Front, 0, 1), Variant([x, y], 1, Front, 0, 1)])
  {
    var sp := Spec(1, 2, Front, 1, 1, 1);
    var words := [x, y];
    var v1, v2 := Variant(words, 0, Front, 0, 1), Variant(words, 1, Front, 0, 1);
    TwoWords(x, y);
    OffsetsTake(sp, words, 0, 1, 0);
    OffsetsTake(sp, words, 1, 1, 0);
    assert Offsets(sp, words, 0, 1, 0) == [] && Offsets(sp, words, 1, 1, 0) == [];
    LengthsUnfold(sp, words, 0, 2);
    LengthsUnfold(sp, words, 1, 2);
    assert Lengths(sp, words, 0, 1) == [] && Lengths(sp, words, 1, 1) == [];
    assert Lengths(sp, words, 0, 2) == [v1];
    assert Lengths(sp, words, 1, 2) == [v2];
    CollectFirst(sp, x + " " + y, words);
    assert Collect(sp, x + " " + y, words, 0, 1) == Ok([v1]);
    CollectNext(sp, x + " " + y, words, 2);
    assert [v1] + [v2] == [v1, v2];
    ApplyOnWords(sp, x + " " + y, words);
  }

  /** w1-2^1{1-1} on "foo bar": the first letter of each word in turn, word by word. */
  lemma ExampleWordRange()
    ensures ApplySpec(Spec(1, 2, Front, 1, 1, 1), "foo bar") == Ok(["Foo bar", "foo Bar"])
  {
    FirstLettersOf("foo", "bar");
    FirstLetters();
    VariantFirst("foo", "bar", Front, 0, 1, "Foo");
    VariantSecond("foo", "bar", Front, 0, 1, "Bar");
    FooBarLines();
  }

  lemma FooBarLines()
    ensures "foo" + " " + "bar" == "foo bar"
    ensures "Foo" + " " + "bar" == "Foo bar"
    ensures "foo" + " " + "Bar" == "foo Bar"
  {
  }

  lemma FirstLetters()
    ensures UpperSpan("foo", 0, 1) == "Foo" && UpperSpan("bar", 0, 1) == "Bar"
  {
    assert "foo"[..0] == [] && "foo"[0..1] == "f" && "foo"[1..] == "oo";
    assert "bar"[..0] == [] && "bar"[0..1] == "b" && "bar"[1..] == "ar";
    assert Text.Upper("f") == "F" && Text.Upper("b") == "B";
  }

  /**
    w1^1{1-2} on "a1": one result per span choice even when two choices give
    the same line, and the unchanged line when the span holds no letter.
  */
  lemma ExampleDuplicates()
    ensures ApplySpec(Spec(1, 1, Front, 1, 1, 2), "a1") == Ok(["A1", "a1", "A1"])
  {
    var sp := Spec(1, 1, Front, 1, 1, 2);
    var words := ["a1"];
    OneWord("a1");
    ShortSpans();
    assert Variant(words, 0, Front, 0, 1) == "A1";
    assert Variant(words, 0, Front, 1, 1) == "a1";
    assert Variant(words, 0, Front, 0, 2) == "A1";
    OffsetsTake(sp, words, 0, 1, 0);
    OffsetsTake(sp, words, 0, 1, 1);
    OffsetsTake(sp, words, 0, 2, 0);
    LengthsUnfold(sp, words, 0, 2);
    LengthsUnfold(sp, words, 0, 3);
    assert Offsets(sp, words, 0, 1, 0) == [] && Offsets(sp, words, 0, 2, 0) == [];
    assert Offsets(sp, words, 0, 1, 2) == ["A1", "a1"];
    assert Offsets(sp, words, 0, 2, 1) == ["A1"];
    assert Lengths(sp, words, 0, 1) == [];
    assert Lengths(sp, words, 0, 2) == ["A1", "a1"];
    assert Lengths(sp, words, 0, 3) == ["A1", "a1", "A1"];
    CollectFirst(sp, "a1", words);
    ApplyOnWords(sp, "a1", words);
  }

  lemma ShortSpans()
    ensures UpperSpan("a1", 0, 1) == "A1" && UpperSpan("a1", 1, 2) == "a1" && UpperSpan("a1", 0, 2) == "A1"
  {
    var w := "a1";
    assert w[..0] == [] && w[0..1] == "a" && w[1..] == "1";
    assert w[..1] == "a" && w[1..2] == "1" && w[2..] == [];
    assert w[0..2] == "a1";
    assert Text.Upper("a") == "A" && Text.Upper("1") == "1" && Text.Upper("a1") == "A1";
  }
}
