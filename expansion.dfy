/**
  The expansion engine of fill_interstices.py: State, the shift-row symbol
  table and expand_elements.

  A branch is one (output so far, State) pair of the worklist. ExpandFrom is
  the reference definition: it processes the elements left to right, and each
  element replaces every branch of the worklist, in order, by that branch's
  children. ExpandElements is the source's loop over the elements with its
  inner loops over the worklist, proved equal to it.
*/
module Expansion {
  import opened Mask
  import Numeric
  import Text

  /** A digit character '0'..'9', the only kind a digit slot records. */
  type DigitChar = c: char | '0' <= c <= '9' witness '0'

  /**
    The digits consumed so far on a branch and the index of the next one to
    reference. The source clones a State before each change and never changes
    a State after it is stored, so a value type models it exactly.
  */
  datatype State = State(digits: seq<DigitChar>, nextRef: nat)

  /** State(): no digits, nothing referenced. */
  const Initial := State([], 0)

  /** The invariant of every state reachable from Initial. */
  predicate Valid(st: State)
  {
    st.nextRef <= |st.digits|
  }

  datatype Branch = Branch(out: string, st: State)

  /** _SHIFT_MAP: the symbol on the same key as a digit, indexed by the digit's value. */
  const ShiftRow: string := ")!@#$%^&*("

  function Shift(d: DigitChar): (s: char)
    ensures s in ShiftRow
  {
    ShiftRow[d as int - '0' as int]
  }

  lemma ShiftTable()
    ensures Shift('1') == '!' && Shift('2') == '@' && Shift('3') == '#' && Shift('4') == '$'
    ensures Shift('5') == '%' && Shift('6') == '^' && Shift('7') == '&' && Shift('8') == '*'
    ensures Shift('9') == '(' && Shift('0') == ')'
  {
  }

  function Numeral(d: nat): DigitChar
    requires d < 10
  {
    Numeric.DigitChar(d)
  }

  /** The first k children of a digit slot on branch b: digits '0' .. k-1, ascending. */
  function DigitFan(b: Branch, k: nat): (r: seq<Branch>)
    requires k <= 10
    ensures |r| == k
    ensures forall d :: 0 <= d < k ==>
      r[d] == Branch(b.out + [Numeral(d)], State(b.st.digits + [Numeral(d)], b.st.nextRef))
  {
    if k == 0 then []
    else DigitFan(b, k - 1) + [Branch(b.out + [Numeral(k - 1)], State(b.st.digits + [Numeral(k - 1)], b.st.nextRef))]
  }

  /** The results of a group put after the prefix, each reversed first when rev is set. */
  function Attach(prefix: string, rs: seq<Branch>, rev: bool): (r: seq<Branch>)
    ensures |r| == |rs|
    ensures forall k :: 0 <= k < |rs| ==>
      r[k] == Branch(prefix + (if rev then Text.Reverse(rs[k].out) else rs[k].out), rs[k].st)
  {
    if rs == [] then []
    else
      var last := rs[|rs| - 1];
      Attach(prefix, rs[..|rs| - 1], rev) + [Branch(prefix + (if rev then Text.Reverse(last.out) else last.out), last.st)]
  }

  /** The worklist after processing the elements es, starting from worklist ws. */
  function ExpandFrom(es: seq<Elem>, ws: seq<Branch>): seq<Branch>
    decreases SizeSeq(es), 2, 0
  {
    if es == [] then ws else Step(es[|es| - 1], ExpandFrom(es[..|es| - 1], ws))
  }

  /** Every branch of ws replaced, in order, by its children under e. */
  function Step(e: Elem, ws: seq<Branch>): seq<Branch>
    decreases Size(e), 1, |ws|
  {
    if ws == [] then [] else Step(e, ws[..|ws| - 1]) + Children(e, ws[|ws| - 1])
  }

  /** The children of one branch under one element. */
  function Children(e: Elem, b: Branch): seq<Branch>
    decreases Size(e), 0, 0
  {
    match e
    case Lit(c) => [Branch(b.out + [c], b.st)]
    case Digit => DigitFan(b, 10)
    case Caret =>
      if b.st.nextRef >= |b.st.digits| then []
      else [Branch(b.out + [Shift(b.st.digits[b.st.nextRef])], State(b.st.digits, b.st.nextRef + 1))]
    case Group(body, rev) => Attach(b.out, ExpandFrom(body, [Branch([], b.st)]), rev)
  }

  /** expand_elements(elems, state): the worklist that starts as [("", state)]. */
  function Expand(es: seq<Elem>, st: State): seq<Branch>
  {
    ExpandFrom(es, [Branch([], st)])
  }

  /** expand_elements as the source writes it. */
  method ExpandElements(elems: seq<Elem>, state: State) returns (results: seq<Branch>)
    ensures results == Expand(elems, state)
    decreases SizeSeq(elems), 1
  {
    results := [Branch([], state)];
    var idx := 0;
    while idx < |elems|
      invariant idx <= |elems|
      invariant results == ExpandFrom(elems[..idx], [Branch([], state)])
    {
      var el := elems[idx];
      var newResults: seq<Branch> := [];
      var k := 0;
      SizeSeqBound(elems, idx);
      while k < |results|
        invariant k <= |results|
        invariant newResults == Step(el, results[..k])
      {
        var children := BranchChildren(el, results[k]);
        newResults := newResults + children;
        assert results[..k + 1][..k] == results[..k];
        k := k + 1;
      }
      assert results[..k] == results;
      assert elems[..idx + 1][..idx] == elems[..idx];
      results := newResults;
      idx := idx + 1;
    }
    assert elems[..idx] == elems;
  }

  /** The body of the loop over results: what one element adds for one branch (out, st). */
  method BranchChildren(el: Elem, b: Branch) returns (cs: seq<Branch>)
    ensures cs == Children(el, b)
    decreases Size(el), 0
  {
    cs := [];
    match el {
    case Digit =>
      var d := 0;
      while d < 10
        invariant d <= 10
        invariant cs == DigitFan(b, d)
      {
        cs := cs + [Branch(b.out + [Numeral(d)], State(b.st.digits + [Numeral(d)], b.st.nextRef))];
        d := d + 1;
      }
    case Caret =>
      if b.st.nextRef < |b.st.digits| {
        var sym := Shift(b.st.digits[b.st.nextRef]);
        cs := [Branch(b.out + [sym], State(b.st.digits, b.st.nextRef + 1))];
      }
    case Group(sub, rev) =>
      var grp := ExpandElements(sub, b.st);
      cs := AttachAll(b.out, grp, rev);
    case Lit(c) =>
      cs := [Branch(b.out + [c], b.st)];
    }
  }

  /** The loop over a group's own results: each is appended to out, reversed first when the group is. */
  method AttachAll(out: string, grp: seq<Branch>, rev: bool) returns (cs: seq<Branch>)
    ensures cs == Attach(out, grp, rev)
  {
    cs := [];
    var g := 0;
    while g < |grp|
      invariant g <= |grp|
      invariant cs == Attach(out, grp[..g], rev)
    {
      var grpOut := grp[g].out;
      if rev {
        grpOut := Text.Reverse(grpOut);
      }
      assert grp[..g + 1][..g] == grp[..g];
      cs := cs + [Branch(out + grpOut, grp[g].st)];
      g := g + 1;
    }
    assert grp[..g] == grp;
  }

  // ---------------------------------------------------------------------
  // Order: the worklist is processed branch by branch, element by element.
  // ---------------------------------------------------------------------

  lemma {:induction false} StepConcat(e: Elem, a: seq<Branch>, b: seq<Branch>)
    ensures Step(e, a + b) == Step(e, a) + Step(e, b)
    decreases |b|
  {
    if b == [] {
      assert a + b == a;
    } else {
      var p := b[..|b| - 1];
      assert (a + b)[..|a + b| - 1] == a + p;
      assert (a + b)[|a + b| - 1] == b[|b| - 1];
      StepConcat(e, a, p);
    }
  }

  /**
    Branches never interact: expanding a worklist is expanding each part of it
    on its own, and the results of earlier branches come first.
  */
  lemma {:induction false} ExpandFromConcat(es: seq<Elem>, a: seq<Branch>, b: seq<Branch>)
    ensures ExpandFrom(es, a + b) == ExpandFrom(es, a) + ExpandFrom(es, b)
    decreases |es|
  {
    if es != [] {
      var p := es[..|es| - 1];
      ExpandFromConcat(p, a, b);
      StepConcat(es[|es| - 1], ExpandFrom(p, a), ExpandFrom(p, b));
    }
  }

  /** Expanding a mask in two parts is expanding the first part, then the second from its results. */
  lemma {:induction false} ExpandFromCompose(es1: seq<Elem>, es2: seq<Elem>, ws: seq<Branch>)
    ensures ExpandFrom(es1 + es2, ws) == ExpandFrom(es2, ExpandFrom(es1, ws))
    decreases |es2|
  {
    if es2 == [] {
      assert es1 + es2 == es1;
    } else {
      var p := es2[..|es2| - 1];
      assert (es1 + es2)[..|es1 + es2| - 1] == es1 + p;
      assert (es1 + es2)[|es1 + es2| - 1] == es2[|es2| - 1];
      ExpandFromCompose(es1, p, ws);
    }
  }

  lemma {:induction false} ExpandFromNothing(es: seq<Elem>)
    ensures ExpandFrom(es, []) == []
    decreases |es|
  {
    if es != [] {
      ExpandFromNothing(es[..|es| - 1]);
    }
  }

  lemma ExpandSingle(e: Elem, st: State)
    ensures Expand([e], st) == Children(e, Branch([], st))
  {
    var b := Branch([], st);
    assert [e][..0] == [];
    assert [b][..0] == [];
    assert ExpandFrom([e], [b]) == Step(e, ExpandFrom([], [b]));
    assert Step(e, [b]) == Step(e, []) + Children(e, b);
  }

  // ---------------------------------------------------------------------
  // Digit slots and back-references
  // ---------------------------------------------------------------------

  /**
    A digit slot fans every branch out ten ways: branch i of the worklist
    becomes children 10*i .. 10*i+9, for digits '0' .. '9' in ascending order,
    each with the digit appended to both its output and its digits, and with
    the reference index unchanged.
  */
  lemma {:induction false} DigitStep(ws: seq<Branch>)
    ensures |Step(Digit, ws)| == 10 * |ws|
    ensures forall k :: 0 <= k < 10 * |ws| ==>
      Step(Digit, ws)[k] == Branch(ws[k / 10].out + [Numeral(k % 10)], State(ws[k / 10].st.digits + [Numeral(k % 10)], ws[k / 10].st.nextRef))
    decreases |ws|
  {
    if ws != [] {
      var p := ws[..|ws| - 1];
      var last := ws[|ws| - 1];
      DigitStep(p);
      assert Step(Digit, ws) == Step(Digit, p) + DigitFan(last, 10);
      forall k | 0 <= k < 10 * |ws|
        ensures Step(Digit, ws)[k] == Branch(ws[k / 10].out + [Numeral(k % 10)], State(ws[k / 10].st.digits + [Numeral(k % 10)], ws[k / 10].st.nextRef))
      {
        if k < 10 * |p| {
          assert ws[k / 10] == p[k / 10];
        } else {
          assert k / 10 == |p| && k % 10 == k - 10 * |p|;
        }
      }
    }
  }

  /**
    A back-reference keeps a branch only when an unreferenced digit exists;
    the kept child appends that digit's shift symbol and moves the reference
    index on by exactly one.
  */
  lemma CaretChildren(b: Branch)
    ensures |Children(Caret, b)| <= 1
    ensures Children(Caret, b) == [] <==> b.st.nextRef >= |b.st.digits|
    ensures Children(Caret, b) != [] ==>
      Children(Caret, b)[0].out == b.out + [Shift(b.st.digits[b.st.nextRef])] &&
      Children(Caret, b)[0].st == State(b.st.digits, b.st.nextRef + 1)
  {
  }

  /** An unresolvable back-reference at the front removes the branch and everything after it: "?^?d" gives nothing. */
  lemma PrunedReference(es: seq<Elem>, st: State)
    requires st.nextRef >= |st.digits|
    ensures Expand([Caret] + es, st) == []
  {
    ExpandFromCompose([Caret], es, [Branch([], st)]);
    ExpandSingle(Caret, st);
    ExpandFromNothing(es);
  }

  // ---------------------------------------------------------------------
  // Counting
  // ---------------------------------------------------------------------

  lemma ChainBound(s: nat, m: nat, w: nat, a: nat, b: nat)
    requires s <= m * b && m <= w * a
    ensures s <= w * (a * b)
    ensures s == m * b && m == w * a ==> s == w * (a * b)
  {
    assert m * b <= (w * a) * b;
    assert (w * a) * b == w * (a * b);
  }

  /**
    Every digit slot multiplies the worklist by ten and back-references can
    only prune: with k digit slots there are at most |ws| * 10^k results, and
    exactly that many when the mask has no back-reference.
  */
  lemma {:induction false} ExpandFromCount(es: seq<Elem>, ws: seq<Branch>)
    ensures |ExpandFrom(es, ws)| <= |ws| * Numeric.Pow10(DigitsSeq(es))
    ensures CaretsSeq(es) == 0 ==> |ExpandFrom(es, ws)| == |ws| * Numeric.Pow10(DigitsSeq(es))
    decreases SizeSeq(es), 2, 0
  {
    if es != [] {
      var p, e := es[..|es| - 1], es[|es| - 1];
      var mid := ExpandFrom(p, ws);
      ExpandFromCount(p, ws);
      StepCount(e, mid);
      Numeric.Pow10Add(DigitsSeq(p), Digits(e));
      ChainBound(|Step(e, mid)|, |mid|, |ws|, Numeric.Pow10(DigitsSeq(p)), Numeric.Pow10(Digits(e)));
    }
  }

  lemma {:induction false} StepCount(e: Elem, ws: seq<Branch>)
    ensures |Step(e, ws)| <= |ws| * Numeric.Pow10(Digits(e))
    ensures Carets(e) == 0 ==> |Step(e, ws)| == |ws| * Numeric.Pow10(Digits(e))
    decreases Size(e), 1, |ws|
  {
    if ws != [] {
      var p := ws[..|ws| - 1];
      StepCount(e, p);
      ChildrenCount(e, ws[|ws| - 1]);
      assert |Step(e, ws)| == |Step(e, p)| + |Children(e, ws[|ws| - 1])|;
      MulBound(|Step(e, p)|, |Children(e, ws[|ws| - 1])|, |p|, Numeric.Pow10(Digits(e)));
    }
  }

  /** Adding at most a (exactly a) to at most n * a (exactly n * a) gives at most (exactly) (n + 1) * a. */
  lemma MulBound(x: nat, y: nat, n: nat, a: nat)
    requires x <= n * a && y <= a
    ensures x + y <= (n + 1) * a
    ensures x == n * a && y == a ==> x + y == (n + 1) * a
  {
    assert (n + 1) * a == n * a + a;
  }

  lemma {:induction false} ChildrenCount(e: Elem, b: Branch)
    ensures |Children(e, b)| <= Numeric.Pow10(Digits(e))
    ensures Carets(e) == 0 ==> |Children(e, b)| == Numeric.Pow10(Digits(e))
    decreases Size(e), 0, 0
  {
    match e
    case Lit(_) =>
    case Digit =>
    case Caret =>
    case Group(body, _) =>
      ExpandFromCount(body, [Branch([], b.st)]);
  }

  // ---------------------------------------------------------------------
  // Exact counts: a back-reference prunes all branches of a worklist or none
  // ---------------------------------------------------------------------

  /**
    The number of children a branch gets under e when it has d digits and
    reference index r. It depends on nothing else about the branch, so every
    branch of a worklist whose states have the same shape gets the same number.
  */
  function Fan(e: Elem, d: nat, r: nat): nat
    decreases Size(e), 0
  {
    match e
    case Lit(_) => 1
    case Digit => 10
    case Caret => if r >= d then 0 else 1
    case Group(body, _) => FanSeq(body, d, r)
  }

  /** The number of results elements es give one branch with d digits and reference index r. */
  function FanSeq(es: seq<Elem>, d: nat, r: nat): nat
    decreases SizeSeq(es), 1
  {
    if es == [] then 1
    else
      var p := es[..|es| - 1];
      FanSeq(p, d, r) * Fan(es[|es| - 1], d + DigitsSeq(p), r + CaretsSeq(p))
  }

  /** Every branch of ws has d digits and reference index r. */
  predicate Shaped(ws: seq<Branch>, d: nat, r: nat)
  {
    forall w :: w in ws ==> |w.st.digits| == d && w.st.nextRef == r
  }

  /** A back-reference either removes every branch or keeps them all, so a count is 0 or the full 10^k. */
  lemma {:induction false} FanValue(e: Elem, d: nat, r: nat)
    ensures Fan(e, d, r) == 0 || Fan(e, d, r) == Numeric.Pow10(Digits(e))
    decreases Size(e), 0
  {
    match e
    case Lit(_) =>
    case Digit =>
    case Caret =>
    case Group(body, _) =>
      FanSeqValue(body, d, r);
  }

  lemma {:induction false} FanSeqValue(es: seq<Elem>, d: nat, r: nat)
    ensures FanSeq(es, d, r) == 0 || FanSeq(es, d, r) == Numeric.Pow10(DigitsSeq(es))
    decreases SizeSeq(es), 1
  {
    if es != [] {
      var p, e := es[..|es| - 1], es[|es| - 1];
      FanSeqValue(p, d, r);
      FanValue(e, d + DigitsSeq(p), r + CaretsSeq(p));
      Numeric.Pow10Add(DigitsSeq(p), Digits(e));
    }
  }

  /**
    Over a worklist whose branches all have d digits and reference index r,
    the elements es give exactly FanSeq(es, d, r) results per branch, and the
    resulting branches again share one shape.
  */
  lemma {:induction false} ExpandFromFan(es: seq<Elem>, ws: seq<Branch>, d: nat, r: nat)
    requires Shaped(ws, d, r)
    ensures |ExpandFrom(es, ws)| == |ws| * FanSeq(es, d, r)
    ensures Shaped(ExpandFrom(es, ws), d + DigitsSeq(es), r + CaretsSeq(es))
    decreases SizeSeq(es), 2, 0
  {
    if es != [] {
      var p, e := es[..|es| - 1], es[|es| - 1];
      var mid := ExpandFrom(p, ws);
      ExpandFromFan(p, ws, d, r);
      StepFan(e, mid, d + DigitsSeq(p), r + CaretsSeq(p));
      ChainBound(|Step(e, mid)|, |mid|, |ws|, FanSeq(p, d, r), Fan(e, d + DigitsSeq(p), r + CaretsSeq(p)));
    }
  }

  lemma {:induction false} StepFan(e: Elem, ws: seq<Branch>, d: nat, r: nat)
    requires Shaped(ws, d, r)
    ensures |Step(e, ws)| == |ws| * Fan(e, d, r)
    ensures Shaped(Step(e, ws), d + Digits(e), r + Carets(e))
    decreases Size(e), 1, |ws|
  {
    if ws != [] {
      var p, w := ws[..|ws| - 1], ws[|ws| - 1];
      assert w in ws;
      ShapedPrefix(ws, d, r);
      StepFan(e, p, d, r);
      ChildrenFan(e, w);
      assert Step(e, ws) == Step(e, p) + Children(e, w);
      MulBound(|Step(e, p)|, |Children(e, w)|, |p|, Fan(e, d, r));
      ShapedConcat(Step(e, p), Children(e, w), d + Digits(e), r + Carets(e));
    }
  }

  lemma {:induction false} ChildrenFan(e: Elem, b: Branch)
    ensures |Children(e, b)| == Fan(e, |b.st.digits|, b.st.nextRef)
    ensures Shaped(Children(e, b), |b.st.digits| + Digits(e), b.st.nextRef + Carets(e))
    decreases Size(e), 0, 0
  {
    match e
    case Lit(_) =>
    case Digit =>
      var cs := DigitFan(b, 10);
      forall c | c in cs
        ensures |c.st.digits| == |b.st.digits| + 1 && c.st.nextRef == b.st.nextRef
      {
        var k :| 0 <= k < 10 && cs[k] == c;
      }
    case Caret =>
    case Group(body, rev) =>
      var start := [Branch([], b.st)];
      var rs := ExpandFrom(body, start);
      ExpandFromFan(body, start, |b.st.digits|, b.st.nextRef);
      var cs := Attach(b.out, rs, rev);
      forall c | c in cs
        ensures |c.st.digits| == |b.st.digits| + DigitsSeq(body) && c.st.nextRef == b.st.nextRef + CaretsSeq(body)
      {
        var k :| 0 <= k < |cs| && cs[k] == c;
        assert rs[k] in rs;
      }
  }

  lemma ShapedPrefix(ws: seq<Branch>, d: nat, r: nat)
    requires ws != [] && Shaped(ws, d, r)
    ensures Shaped(ws[..|ws| - 1], d, r)
  {
    forall w | w in ws[..|ws| - 1]
      ensures w in ws
    {
      var k :| 0 <= k < |ws| - 1 && ws[..|ws| - 1][k] == w;
      assert ws[k] == w;
    }
  }

  lemma ShapedConcat(a: seq<Branch>, b: seq<Branch>, d: nat, r: nat)
    requires Shaped(a, d, r) && Shaped(b, d, r)
    ensures Shaped(a + b, d, r)
  {
    forall w | w in a + b
      ensures w in a || w in b
    {
      Text.InConcat(a, b, w);
    }
  }

  /**
    The exact number of results of expand_elements(es, st): FanSeq(es) of
    st's shape, which is either 0 or 10^(digit slots), with or without
    back-references.
  */
  lemma ExpandExact(es: seq<Elem>, st: State)
    ensures |Expand(es, st)| == FanSeq(es, |st.digits|, st.nextRef)
    ensures |Expand(es, st)| == 0 || |Expand(es, st)| == Numeric.Pow10(DigitsSeq(es))
  {
    var start := [Branch([], st)];
    assert Shaped(start, |st.digits|, st.nextRef);
    ExpandFromFan(es, start, |st.digits|, st.nextRef);
    FanSeqValue(es, |st.digits|, st.nextRef);
  }

  /**
    A back-reference keeps every branch of a worklist that has an unreferenced
    digit: branch k becomes child k, with that digit's shift symbol appended.
  */
  lemma {:induction false} CaretStep(ws: seq<Branch>)
    requires forall w :: w in ws ==> w.st.nextRef < |w.st.digits|
    ensures |Step(Caret, ws)| == |ws|
    ensures forall k :: 0 <= k < |ws| ==>
      Step(Caret, ws)[k] == Branch(ws[k].out + [Shift(ws[k].st.digits[ws[k].st.nextRef])], State(ws[k].st.digits, ws[k].st.nextRef + 1))
    decreases |ws|
  {
    if ws != [] {
      var p, w := ws[..|ws| - 1], ws[|ws| - 1];
      assert w in ws;
      forall v | v in p
        ensures v.st.nextRef < |v.st.digits|
      {
        var k :| 0 <= k < |p| && p[k] == v;
        assert ws[k] == v;
      }
      CaretStep(p);
      assert Step(Caret, ws) == Step(Caret, p) + Children(Caret, w);
    }
  }

  // ---------------------------------------------------------------------
  // The state invariant and output lengths
  // ---------------------------------------------------------------------

  /**
    r descends from base along a path that emitted n characters, consumed dg
    digits and resolved cr back-references: r's output extends base's, its
    digits extend base's, its reference index grew by cr, and it is Valid.
  */
  predicate Descends(base: Branch, r: Branch, n: nat, dg: nat, cr: nat)
  {
    && Valid(r.st)
    && base.out <= r.out && |r.out| == |base.out| + n
    && base.st.digits <= r.st.digits && |r.st.digits| == |base.st.digits| + dg
    && r.st.nextRef == base.st.nextRef + cr
  }

  lemma DescendsTrans(a: Branch, b: Branch, c: Branch, n1: nat, d1: nat, c1: nat, n2: nat, d2: nat, c2: nat)
    requires Descends(a, b, n1, d1, c1) && Descends(b, c, n2, d2, c2)
    ensures Descends(a, c, n1 + n2, d1 + d2, c1 + c2)
  {
    assert a.out == c.out[..|a.out|];
    assert a.st.digits == c.st.digits[..|a.st.digits|];
  }

  /**
    Along every branch the digits only grow, the reference index only grows,
    it never passes the number of digits, and each slot, reference and
    literal emits exactly one character.
  */
  lemma {:induction false} ExpandFromDescends(es: seq<Elem>, ws: seq<Branch>, base: Branch, n: nat, dg: nat, cr: nat)
    requires forall w :: w in ws ==> Descends(base, w, n, dg, cr)
    ensures forall r :: r in ExpandFrom(es, ws) ==>
      Descends(base, r, n + LeavesSeq(es), dg + DigitsSeq(es), cr + CaretsSeq(es))
    decreases SizeSeq(es), 2, 0
  {
    if es != [] {
      var p, e := es[..|es| - 1], es[|es| - 1];
      ExpandFromDescends(p, ws, base, n, dg, cr);
      StepDescends(e, ExpandFrom(p, ws), base, n + LeavesSeq(p), dg + DigitsSeq(p), cr + CaretsSeq(p));
    }
  }

  lemma {:induction false} StepDescends(e: Elem, ws: seq<Branch>, base: Branch, n: nat, dg: nat, cr: nat)
    requires forall w :: w in ws ==> Descends(base, w, n, dg, cr)
    ensures forall r :: r in Step(e, ws) ==> Descends(base, r, n + Leaves(e), dg + Digits(e), cr + Carets(e))
    decreases Size(e), 1, |ws|
  {
    if ws != [] {
      var p, w := ws[..|ws| - 1], ws[|ws| - 1];
      assert forall v :: v in p ==> v in ws;
      StepDescends(e, p, base, n, dg, cr);
      assert w in ws;
      ChildrenDescends(e, w);
      forall r | r in Children(e, w)
        ensures Descends(base, r, n + Leaves(e), dg + Digits(e), cr + Carets(e))
      {
        DescendsTrans(base, w, r, n, dg, cr, Leaves(e), Digits(e), Carets(e));
      }
    }
  }

  lemma {:induction false} ChildrenDescends(e: Elem, b: Branch)
    requires Valid(b.st)
    ensures forall r :: r in Children(e, b) ==> Descends(b, r, Leaves(e), Digits(e), Carets(e))
    decreases Size(e), 0, 0
  {
    match e
    case Lit(_) =>
    case Digit =>
    case Caret =>
    case Group(body, rev) =>
      var start := Branch([], b.st);
      var rs := ExpandFrom(body, [start]);
      ExpandFromDescends(body, [start], start, 0, 0, 0);
      forall r | r in Children(e, b)
        ensures Descends(b, r, Leaves(e), Digits(e), Carets(e))
      {
        var k :| 0 <= k < |rs| && Attach(b.out, rs, rev)[k] == r;
        assert rs[k] in rs;
      }
  }

  /** Every result of expand_elements from a valid state satisfies the state invariant and the length law. */
  lemma ExpandDescends(es: seq<Elem>, st: State)
    requires Valid(st)
    ensures forall r :: r in Expand(es, st) ==>
      Descends(Branch([], st), r, LeavesSeq(es), DigitsSeq(es), CaretsSeq(es))
  {
    ExpandFromDescends(es, [Branch([], st)], Branch([], st), 0, 0, 0);
  }

  /** The first result of a non-empty expansion obeys the reference bound. */
  lemma FirstResultBound(es: seq<Elem>, st: State)
    requires Valid(st)
    requires Expand(es, st) != []
    ensures st.nextRef + CaretsSeq(es) <= |st.digits| + DigitsSeq(es)
  {
    ExpandDescends(es, st);
    var rs := Expand(es, st);
    assert rs[0] in rs;
  }

  /** More back-references than digits available: every branch is pruned ("?d{?^?^}-" gives nothing). */
  lemma TooManyReferences(es: seq<Elem>, st: State)
    requires Valid(st)
    requires st.nextRef + CaretsSeq(es) > |st.digits| + DigitsSeq(es)
    ensures Expand(es, st) == []
  {
    if Expand(es, st) != [] {
      FirstResultBound(es, st);
      assert false;
    }
  }

  // ---------------------------------------------------------------------
  // Groups and reversal
  // ---------------------------------------------------------------------

  /** A group without '-' is transparent: "{?d?^}" expands exactly like "?d?^". */
  lemma GroupTransparent(body: seq<Elem>, st: State)
    ensures Expand([Group(body, false)], st) == Expand(body, st)
  {
    ExpandSingle(Group(body, false), st);
    var rs := Expand(body, st);
    assert forall k :: 0 <= k < |rs| ==> [] + rs[k].out == rs[k].out;
  }

  /** A reversed group gives the same results with each output reversed: "{?d?^}-" is "?d?^" reversed string by string. */
  lemma GroupReversed(body: seq<Elem>, st: State)
    ensures |Expand([Group(body, true)], st)| == |Expand(body, st)|
    ensures forall k :: 0 <= k < |Expand(body, st)| ==>
      Expand([Group(body, true)], st)[k] == Branch(Text.Reverse(Expand(body, st)[k].out), Expand(body, st)[k].st)
  {
    ExpandSingle(Group(body, true), st);
    var rs := Expand(body, st);
    assert forall k :: 0 <= k < |rs| ==> [] + Text.Reverse(rs[k].out) == Text.Reverse(rs[k].out);
  }

  /** The states of a worklist, in order. */
  function States(rs: seq<Branch>): (r: seq<State>)
    ensures |r| == |rs|
  {
    if rs == [] then [] else States(rs[..|rs| - 1]) + [rs[|rs| - 1].st]
  }

  lemma {:induction false} StatesConcat(a: seq<Branch>, b: seq<Branch>)
    ensures States(a + b) == States(a) + States(b)
    decreases |b|
  {
    if b == [] {
      assert a + b == a;
    } else {
      assert (a + b)[..|a + b| - 1] == a + b[..|b| - 1];
      StatesConcat(a, b[..|b| - 1]);
    }
  }

  lemma {:induction false} AttachStates(prefix: string, rs: seq<Branch>, rev: bool)
    ensures States(Attach(prefix, rs, rev)) == States(rs)
    decreases |rs|
  {
    if rs != [] {
      var a := Attach(prefix, rs, rev);
      assert a[..|a| - 1] == Attach(prefix, rs[..|rs| - 1], rev);
      AttachStates(prefix, rs[..|rs| - 1], rev);
    }
  }

  /** Reversal changes text only: on any worklist a group yields the same states, in the same order, with or without '-'. */
  lemma {:induction false} ReverseKeepsStates(body: seq<Elem>, ws: seq<Branch>)
    ensures States(Step(Group(body, true), ws)) == States(Step(Group(body, false), ws))
    decreases |ws|
  {
    if ws != [] {
      var p, w := ws[..|ws| - 1], ws[|ws| - 1];
      var rs := ExpandFrom(body, [Branch([], w.st)]);
      ReverseKeepsStates(body, p);
      StatesConcat(Step(Group(body, true), p), Attach(w.out, rs, true));
      StatesConcat(Step(Group(body, false), p), Attach(w.out, rs, false));
      AttachStates(w.out, rs, true);
      AttachStates(w.out, rs, false);
    }
  }
}
