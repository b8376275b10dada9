/**
  The mask language of fill_interstices.py and the parser parse_mask.

    ?d      a digit slot
    ?^      a back-reference to the earliest digit not yet referenced
    {...}   a group, reversed when a '-' follows its closing brace
    other   that one character, literally

  The parser is modelled twice: Parse is the recursive reference definition,
  and ParseMask is the source's index-and-depth loop, proved equal to it.
*/
module Mask {
  import opened Wrappers

  datatype Elem = Lit(c: char) | Digit | Caret | Group(body: seq<Elem>, reverse: bool)

  /** The ValueError parse_mask raises, carrying the mask it was parsing. */
  datatype ParseError = UnmatchedBrace(mask: string)

  /** Node count of a tree; it bounds the recursion of the parser's clients. */
  function Size(e: Elem): (n: nat)
    ensures n >= 1
  {
    match e
    case Group(body, _) => 1 + SizeSeq(body)
    case _ => 1
  }

  function SizeSeq(es: seq<Elem>): nat
  {
    if es == [] then 0 else SizeSeq(es[..|es| - 1]) + Size(es[|es| - 1])
  }

  /** The number of characters every expansion of a tree emits: one per slot, reference or literal. */
  function Leaves(e: Elem): nat
  {
    match e
    case Group(body, _) => LeavesSeq(body)
    case _ => 1
  }

  function LeavesSeq(es: seq<Elem>): nat
  {
    if es == [] then 0 else LeavesSeq(es[..|es| - 1]) + Leaves(es[|es| - 1])
  }

  /** The number of digit slots. */
  function Digits(e: Elem): nat
  {
    match e
    case Digit => 1
    case Group(body, _) => DigitsSeq(body)
    case _ => 0
  }

  function DigitsSeq(es: seq<Elem>): nat
  {
    if es == [] then 0 else DigitsSeq(es[..|es| - 1]) + Digits(es[|es| - 1])
  }

  /** The number of back-references. */
  function Carets(e: Elem): nat
  {
    match e
    case Caret => 1
    case Group(body, _) => CaretsSeq(body)
    case _ => 0
  }

  function CaretsSeq(es: seq<Elem>): nat
  {
    if es == [] then 0 else CaretsSeq(es[..|es| - 1]) + Carets(es[|es| - 1])
  }

  lemma {:induction false} SizeSeqBound(es: seq<Elem>, k: nat)
    requires k < |es|
    ensures Size(es[k]) < SizeSeq(es) + 1
    ensures SizeSeq(es[..k]) + Size(es[k]) <= SizeSeq(es)
  {
    if k < |es| - 1 {
      assert es[..|es| - 1][..k] == es[..k];
      SizeSeqBound(es[..|es| - 1], k);
    } else {
      assert es[..|es| - 1] == es[..k];
    }
  }

  /** True when a two-character marker "?" + c starts at index i. */
  predicate MarkerAt(m: string, i: nat, c: char)
  {
    i + 1 < |m| && m[i] == '?' && m[i + 1] == c
  }

  /**
    The depth-counting scan that follows a '{': from index j with the given
    depth, move right while characters remain and the depth is positive.
    Returns where it stopped and the depth there.
  */
  function Scan(m: string, j: nat, depth: nat): (r: (nat, nat))
    requires j <= |m|
    ensures j <= r.0 <= |m|
    ensures r.1 == 0 || r.0 == |m|
    ensures depth > 0 && r.1 == 0 ==> j < r.0 && m[r.0 - 1] == '}'
    decreases |m| - j
  {
    if j < |m| && depth > 0 then
      Scan(m, j + 1, if m[j] == '{' then depth + 1 else if m[j] == '}' then depth - 1 else depth)
    else (j, depth)
  }

  /** Put e in front of a successful parse. */
  function Cons(e: Elem, r: Result<seq<Elem>, ParseError>): Result<seq<Elem>, ParseError>
  {
    match r
    case Ok(es) => Ok([e] + es)
    case Err(err) => Err(err)
  }

  /** The elements parsed from index i of mask m to its end. */
  function ParseFrom(m: string, i: nat): Result<seq<Elem>, ParseError>
    requires i <= |m|
    decreases |m|, |m| - i
  {
    if i == |m| then Ok([])
    else if MarkerAt(m, i, 'd') then Cons(Digit, ParseFrom(m, i + 2))
    else if MarkerAt(m, i, '^') then Cons(Caret, ParseFrom(m, i + 2))
    else if m[i] == '{' then
      var (j, depth) := Scan(m, i + 1, 1);
      if depth != 0 then Err(UnmatchedBrace(m))
      else
        var reverse := j < |m| && m[j] == '-';
        var next := if reverse then j + 1 else j;
        match ParseFrom(m[i + 1..j - 1], 0)
        case Err(err) => Err(err)
        case Ok(body) => Cons(Group(body, reverse), ParseFrom(m, next))
    else Cons(Lit(m[i]), ParseFrom(m, i + 1))
  }

  /** parse_mask(mask) */
  function Parse(m: string): Result<seq<Elem>, ParseError>
  {
    ParseFrom(m, 0)
  }

  /** Prepend es to a successful parse. */
  function Prepend(es: seq<Elem>, r: Result<seq<Elem>, ParseError>): Result<seq<Elem>, ParseError>
  {
    match r
    case Ok(rest) => Ok(es + rest)
    case Err(err) => Err(err)
  }

  lemma PrependCons(es: seq<Elem>, e: Elem, r: Result<seq<Elem>, ParseError>)
    ensures Prepend(es, Cons(e, r)) == Prepend(es + [e], r)
  {
    if r.Ok? {
      assert es + ([e] + r.value) == (es + [e]) + r.value;
    }
  }

  /** parse_mask as the source writes it: a loop over i with an inner depth scan. */
  method ParseMask(mask: string) returns (r: Result<seq<Elem>, ParseError>)
    ensures r == Parse(mask)
    decreases |mask|
  {
    var elements: seq<Elem> := [];
    var i := 0;
    var n := |mask|;
    assert Prepend([], ParseFrom(mask, 0)) == ParseFrom(mask, 0) by {
      if ParseFrom(mask, 0).Ok? {
        assert [] + ParseFrom(mask, 0).value == ParseFrom(mask, 0).value;
      }
    }
    while i < n
      invariant i <= n
      invariant Parse(mask) == Prepend(elements, ParseFrom(mask, i))
      decreases n - i
    {
      if MarkerAt(mask, i, 'd') {
        PrependCons(elements, Digit, ParseFrom(mask, i + 2));
        elements := elements + [Digit];
        i := i + 2;
      } else if MarkerAt(mask, i, '^') {
        PrependCons(elements, Caret, ParseFrom(mask, i + 2));
        elements := elements + [Caret];
        i := i + 2;
      } else if mask[i] == '{' {
        GroupStep(mask, i);
        var j, depth := DepthScan(mask, i);
        if depth != 0 {
          return Err(UnmatchedBrace(mask));
        }
        var content := mask[i + 1..j - 1];
        var reverse := false;
        if j < n && mask[j] == '-' {
          reverse := true;
          j := j + 1;
        }
        var sub := ParseMask(content);
        if sub.Err? {
          return Err(sub.error);
        }
        PrependCons(elements, Group(sub.value, reverse), ParseFrom(mask, j));
        elements := elements + [Group(sub.value, reverse)];
        i := j;
      } else {
        PrependCons(elements, Lit(mask[i]), ParseFrom(mask, i + 1));
        elements := elements + [Lit(mask[i])];
        i := i + 1;
      }
    }
    r := Prepend(elements, Ok([]));
    assert elements + [] == elements;
  }

  /** The inner loop of parse_mask: scan from i + 1 while the depth is positive. */
  method DepthScan(mask: string, i: nat) returns (j: nat, depth: nat)
    requires i < |mask|
    ensures (j, depth) == Scan(mask, i + 1, 1)
  {
    depth := 1;
    j := i + 1;
    while j < |mask| && depth > 0
      invariant i + 1 <= j <= |mask|
      invariant Scan(mask, j, depth) == Scan(mask, i + 1, 1)
      decreases |mask| - j
    {
      if mask[j] == '{' {
        depth := depth + 1;
      } else if mask[j] == '}' {
        depth := depth - 1;
      }
      j := j + 1;
    }
  }

  /** The mask text that spells a tree. */
  function Unparse(es: seq<Elem>): string
  {
    if es == [] then [] else UnparseElem(es[0]) + Unparse(es[1..])
  }

  function UnparseElem(e: Elem): string
  {
    match e
    case Lit(c) => [c]
    case Digit => "?d"
    case Caret => "?^"
    case Group(body, reverse) => "{" + Unparse(body) + "}" + (if reverse then "-" else "")
  }

  /**
    Parsing loses nothing: a successful parse spells the mask back exactly,
    so every '-' right after a group became its reverse flag, a group's body
    is exactly the text between its braces, and every other character that
    is not part of a marker is kept as a literal.
  */
  lemma {:induction false} ParseFromUnparse(m: string, i: nat)
    requires i <= |m| && ParseFrom(m, i).Ok?
    ensures Unparse(ParseFrom(m, i).value) == m[i..]
    decreases |m|, |m| - i, 1
  {
    if i == |m| {
    } else if MarkerAt(m, i, 'd') || MarkerAt(m, i, '^') {
      MarkerUnparse(m, i);
    } else if m[i] == '{' {
      GroupUnparse(m, i);
    } else {
      LiteralUnparse(m, i);
    }
  }

  lemma {:induction false} MarkerUnparse(m: string, i: nat)
    requires i < |m| && ParseFrom(m, i).Ok?
    requires MarkerAt(m, i, 'd') || MarkerAt(m, i, '^')
    ensures Unparse(ParseFrom(m, i).value) == m[i..]
    decreases |m|, |m| - i, 0
  {
    var e := if MarkerAt(m, i, 'd') then Digit else Caret;
    assert ParseFrom(m, i) == Cons(e, ParseFrom(m, i + 2));
    ParseFromUnparse(m, i + 2);
    var rest := ParseFrom(m, i + 2).value;
    assert ([e] + rest)[1..] == rest;
    assert m[i..] == [m[i], m[i + 1]] + m[i + 2..];
  }

  lemma {:induction false} LiteralUnparse(m: string, i: nat)
    requires i < |m| && ParseFrom(m, i).Ok?
    requires !MarkerAt(m, i, 'd') && !MarkerAt(m, i, '^') && m[i] != '{'
    ensures Unparse(ParseFrom(m, i).value) == m[i..]
    decreases |m|, |m| - i, 0
  {
    assert ParseFrom(m, i) == Cons(Lit(m[i]), ParseFrom(m, i + 1));
    ParseFromUnparse(m, i + 1);
    var rest := ParseFrom(m, i + 1).value;
    assert ([Lit(m[i])] + rest)[1..] == rest;
    assert m[i..] == [m[i]] + m[i + 1..];
  }

  /** The group case of ParseFrom, unfolded once. */
  lemma GroupStep(m: string, i: nat)
    requires i < |m| && !MarkerAt(m, i, 'd') && !MarkerAt(m, i, '^') && m[i] == '{'
    ensures var (j, depth) := Scan(m, i + 1, 1);
      var reverse := j < |m| && m[j] == '-';
      var next := if reverse then j + 1 else j;
      ParseFrom(m, i) ==
        if depth != 0 then Err(UnmatchedBrace(m))
        else match ParseFrom(m[i + 1..j - 1], 0)
          case Err(err) => Err(err)
          case Ok(body) => Cons(Group(body, reverse), ParseFrom(m, next))
  {
  }

  lemma {:induction false} GroupUnparse(m: string, i: nat)
    requires i < |m| && ParseFrom(m, i).Ok?
    requires !MarkerAt(m, i, 'd') && !MarkerAt(m, i, '^') && m[i] == '{'
    ensures Unparse(ParseFrom(m, i).value) == m[i..]
    decreases |m|, |m| - i, 0
  {
    var j := Scan(m, i + 1, 1).0;
    var reverse := j < |m| && m[j] == '-';
    var next := if reverse then j + 1 else j;
    GroupParts(m, i);
    var content := m[i + 1..j - 1];
    var body := ParseFrom(content, 0).value;
    var rest := ParseFrom(m, next).value;
    ParseFromUnparse(content, 0);
    assert content[0..] == content;
    ParseFromUnparse(m, next);
    GroupText(m, i, j, next, body, rest, reverse);
  }

  /** The text of a group followed by the rest, when both halves spell their parts of m. */
  lemma GroupText(m: string, i: nat, j: nat, next: nat, body: seq<Elem>, rest: seq<Elem>, reverse: bool)
    requires i + 1 < j <= |m| && m[i] == '{' && m[j - 1] == '}'
    requires next == if reverse then j + 1 else j
    requires reverse ==> j < |m| && m[j] == '-'
    requires Unparse(body) == m[i + 1..j - 1] && Unparse(rest) == m[next..]
    ensures Unparse([Group(body, reverse)] + rest) == m[i..]
  {
    UnparseCons(Group(body, reverse), rest);
    assert m[j..next] == if reverse then "-" else "";
    SliceGroup(m, i, j, next);
  }

  /** A successful parse at a '{': a group of the parsed body, then the parse after it. */
  lemma GroupParts(m: string, i: nat)
    requires i < |m| && ParseFrom(m, i).Ok?
    requires !MarkerAt(m, i, 'd') && !MarkerAt(m, i, '^') && m[i] == '{'
    ensures var j := Scan(m, i + 1, 1).0;
      var reverse := j < |m| && m[j] == '-';
      var next := if reverse then j + 1 else j;
      && Scan(m, i + 1, 1).1 == 0 && i + 1 < j
      && ParseFrom(m[i + 1..j - 1], 0).Ok? && ParseFrom(m, next).Ok?
      && ParseFrom(m, i).value == [Group(ParseFrom(m[i + 1..j - 1], 0).value, reverse)] + ParseFrom(m, next).value
  {
    GroupStep(m, i);
  }

  lemma UnparseCons(e: Elem, rest: seq<Elem>)
    ensures Unparse([e] + rest) == UnparseElem(e) + Unparse(rest)
  {
    assert ([e] + rest)[1..] == rest;
  }

  lemma SliceGroup(m: string, i: nat, j: nat, next: nat)
    requires i + 1 < j <= next <= |m| && m[i] == '{' && m[j - 1] == '}'
    ensures m[i..] == "{" + m[i + 1..j - 1] + "}" + m[j..next] + m[next..]
  {
    assert m[i..] == [m[i]] + m[i + 1..];
    assert m[i + 1..] == m[i + 1..j - 1] + m[j - 1..];
    assert m[j - 1..] == [m[j - 1]] + m[j..];
    assert m[j..] == m[j..next] + m[next..];
  }

  lemma ParseUnparse(m: string)
    requires Parse(m).Ok?
    ensures Unparse(Parse(m).value) == m
  {
    ParseFromUnparse(m, 0);
  }

  /** One step of brace counting; a '}' with nothing open is a literal and changes nothing. */
  function NextDepth(d: nat, c: char): nat
  {
    if c == '{' then d + 1 else if c == '}' && d > 0 then d - 1 else d
  }

  /** The number of '{' left open after reading s from open count d. */
  function Unclosed(s: string, d: nat): nat
    decreases |s|
  {
    if s == [] then d else Unclosed(s[1..], NextDepth(d, s[0]))
  }

  lemma {:induction false} ScanUnclosed(m: string, j: nat, depth: nat)
    requires j <= |m| && depth > 0
    ensures Scan(m, j, depth).1 != 0 ==> Unclosed(m[j..], depth) == Scan(m, j, depth).1
    ensures Scan(m, j, depth).1 == 0 ==>
      Unclosed(m[j..Scan(m, j, depth).0 - 1], depth - 1) == 0 &&
      Unclosed(m[j..], depth) == Unclosed(m[Scan(m, j, depth).0..], 0)
    decreases |m| - j
  {
    if j < |m| {
      var c := m[j];
      var nd := if c == '{' then depth + 1 else if c == '}' then depth - 1 else depth;
      assert m[j..][0] == c && m[j..][1..] == m[j + 1..];
      assert NextDepth(depth, c) == nd;
      if nd == 0 {
        assert m[j..j] == [];
      } else {
        ScanUnclosed(m, j + 1, nd);
        var k := Scan(m, j + 1, nd).0;
        if Scan(m, j + 1, nd).1 == 0 {
          assert NextDepth(depth - 1, c) == nd - 1;
          assert m[j..k - 1][0] == c && m[j..k - 1][1..] == m[j + 1..k - 1];
        }
      }
    }
  }

  /**
    parse_mask raises exactly when some '{' is never closed, counting braces
    left to right and treating a '}' with nothing open as a literal; the error
    then names the whole mask.
  */
  lemma {:induction false} ParseFromFails(m: string, i: nat)
    requires i <= |m|
    ensures ParseFrom(m, i).Err? <==> Unclosed(m[i..], 0) > 0
    ensures ParseFrom(m, i).Err? ==> ParseFrom(m, i).error == UnmatchedBrace(m)
    decreases |m|, |m| - i, 3
  {
    if i < |m| {
      assert m[i..][0] == m[i] && m[i..][1..] == m[i + 1..];
      if MarkerAt(m, i, 'd') || MarkerAt(m, i, '^') {
        var e := if MarkerAt(m, i, 'd') then Digit else Caret;
        assert ParseFrom(m, i) == Cons(e, ParseFrom(m, i + 2));
        assert m[i + 1..][0] == m[i + 1] && m[i + 1..][1..] == m[i + 2..];
        ParseFromFails(m, i + 2);
      } else if m[i] == '{' {
        GroupFails(m, i);
      } else {
        assert ParseFrom(m, i) == Cons(Lit(m[i]), ParseFrom(m, i + 1));
        ParseFromFails(m, i + 1);
      }
    }
  }

  lemma {:induction false} GroupFails(m: string, i: nat)
    requires i < |m| && !MarkerAt(m, i, 'd') && !MarkerAt(m, i, '^') && m[i] == '{'
    ensures ParseFrom(m, i).Err? <==> Unclosed(m[i..], 0) > 0
    ensures ParseFrom(m, i).Err? ==> ParseFrom(m, i).error == UnmatchedBrace(m)
    decreases |m|, |m| - i, 2
  {
    ScanUnclosed(m, i + 1, 1);
    assert Unclosed(m[i..], 0) == Unclosed(m[i + 1..], 1) by {
      assert m[i..][0] == m[i] && m[i..][1..] == m[i + 1..];
    }
    if Scan(m, i + 1, 1).1 != 0 {
      GroupStep(m, i);
    } else {
      GroupClosed(m, i);
    }
  }

  /** A group whose braces close: the parse continues after it, and only the rest can fail. */
  lemma {:induction false} GroupClosed(m: string, i: nat)
    requires i < |m| && !MarkerAt(m, i, 'd') && !MarkerAt(m, i, '^') && m[i] == '{'
    requires Scan(m, i + 1, 1).1 == 0
    ensures var j := Scan(m, i + 1, 1).0;
      var next := if j < |m| && m[j] == '-' then j + 1 else j;
      && (ParseFrom(m, i).Err? <==> Unclosed(m[j..], 0) > 0)
      && (ParseFrom(m, i).Err? ==> ParseFrom(m, i).error == UnmatchedBrace(m))
    decreases |m|, |m| - i, 1
  {
    var j := Scan(m, i + 1, 1).0;
    var content := m[i + 1..j - 1];
    BodyParses(m, i);
    var reverse := j < |m| && m[j] == '-';
    var next := if reverse then j + 1 else j;
    assert Unclosed(m[j..], 0) == Unclosed(m[next..], 0) by {
      if reverse {
        assert m[j..][0] == '-' && m[j..][1..] == m[j + 1..];
      }
    }
    GroupStep(m, i);
    assert ParseFrom(m, i) == Cons(Group(ParseFrom(content, 0).value, reverse), ParseFrom(m, next));
    ParseFromFails(m, next);
  }

  /** The text between matching braces is balanced, so the body always parses. */
  lemma {:induction false} BodyParses(m: string, i: nat)
    requires i < |m| && Scan(m, i + 1, 1).1 == 0
    ensures var j := Scan(m, i + 1, 1).0;
      i + 1 < j && ParseFrom(m[i + 1..j - 1], 0).Ok?
    decreases |m|, |m| - i, 0
  {
    var j := Scan(m, i + 1, 1).0;
    var content := m[i + 1..j - 1];
    ScanUnclosed(m, i + 1, 1);
    assert Unclosed(content, 0) == 0;
    ParseFromFails(content, 0);
    assert content[0..] == content;
  }

  lemma ParseFails(m: string)
    ensures Parse(m).Err? <==> Unclosed(m, 0) > 0
    ensures Parse(m).Err? ==> Parse(m).error == UnmatchedBrace(m)
  {
    ParseFromFails(m, 0);
    assert m[0..] == m;
  }
}
