/**
  Python's string helpers that the stages rely on: str.split() with no
  argument, " ".join, slicing with step -1, and str.upper on ASCII text.
*/
module Text {

  /** The Unicode spaces and line and paragraph separators that split() also separates on. */
  const UnicodeSpaces: set<char> :=
    {'\U{85}', '\U{a0}', '\U{1680}', '\U{2000}', '\U{2001}', '\U{2002}', '\U{2003}', '\U{2004}', '\U{2005}',
     '\U{2006}', '\U{2007}', '\U{2008}', '\U{2009}', '\U{200a}', '\U{2028}', '\U{2029}', '\U{202f}', '\U{205f}', '\U{3000}'}

  /**
    The characters str.split() separates on, those for which str.isspace()
    holds: \t through \r, the separators \x1c through \x1f, the space, and
    the Unicode spaces.
  */
  predicate IsSpace(c: char)
  {
    ('\t' <= c <= '\r') || ('\U{1c}' <= c <= ' ') || c in UnicodeSpaces
  }

  /** No printable ASCII character is whitespace. */
  lemma VisibleAscii(c: char)
    requires '!' <= c <= '~'
    ensures !IsSpace(c)
  {
  }

  /** A word as str.split() produces it: non-empty and free of whitespace. */
  predicate IsToken(w: string)
  {
    |w| > 0 && forall k :: 0 <= k < |w| ==> !IsSpace(w[k])
  }

  /** Length of the run of non-whitespace characters at the front of s. */
  function TokenLength(s: string): (n: nat)
    ensures n <= |s|
    ensures forall k :: 0 <= k < n ==> !IsSpace(s[k])
    ensures n < |s| ==> IsSpace(s[n])
  {
    if s == [] || IsSpace(s[0]) then 0 else 1 + TokenLength(s[1..])
  }

  /** str.split(): the maximal runs of non-whitespace characters of s, in order. */
  function Split(s: string): (ws: seq<string>)
    ensures forall i :: 0 <= i < |ws| ==> IsToken(ws[i])
    decreases |s|
  {
    if s == [] then []
    else if IsSpace(s[0]) then Split(s[1..])
    else
      var n := TokenLength(s);
      [s[..n]] + Split(s[n..])
  }

  /** " ".join(ws) */
  function Join(ws: seq<string>): string
  {
    if ws == [] then [] else if |ws| == 1 then ws[0] else ws[0] + " " + Join(ws[1..])
  }

  lemma {:induction false} TokenLengthOfPrefix(w: string, t: string)
    requires forall k :: 0 <= k < |w| ==> !IsSpace(w[k])
    requires t == [] || IsSpace(t[0])
    ensures TokenLength(w + t) == |w|
  {
    if w != [] {
      assert (w + t)[1..] == w[1..] + t;
      TokenLengthOfPrefix(w[1..], t);
    } else {
      assert w + t == t;
    }
  }

  /** Splitting a line that was joined from tokens gives the tokens back. */
  lemma {:induction false} SplitJoin(ws: seq<string>)
    requires forall i :: 0 <= i < |ws| ==> IsToken(ws[i])
    ensures Split(Join(ws)) == ws
  {
    if |ws| == 1 {
      TokenLengthOfPrefix(ws[0], []);
      assert ws[0] + [] == ws[0];
      assert ws[0][..|ws[0]|] == ws[0];
      assert ws[0][|ws[0]|..] == [];
    } else if |ws| > 1 {
      var w, rest := ws[0], Join(ws[1..]);
      var s := w + " " + rest;
      assert s == w + (" " + rest);
      TokenLengthOfPrefix(w, " " + rest);
      assert s[..|w|] == w;
      assert s[|w|..] == " " + rest;
      assert (" " + rest)[1..] == rest;
      SplitJoin(ws[1..]);
    }
  }

  /** A line splits into no words exactly when it is blank (line.strip() is empty). */
  lemma {:induction false} SplitBlank(s: string)
    ensures Split(s) == [] <==> forall k :: 0 <= k < |s| ==> IsSpace(s[k])
  {
    if s != [] && IsSpace(s[0]) {
      SplitBlank(s[1..]);
      assert forall k :: 1 <= k < |s| ==> s[k] == s[1..][k - 1];
    }
  }

  /** s[::-1] */
  function Reverse(s: string): (r: string)
    ensures |r| == |s|
    ensures forall k :: 0 <= k < |s| ==> r[k] == s[|s| - 1 - k]
  {
    if s == [] then [] else Reverse(s[1..]) + [s[0]]
  }

  /** s is what comes before index k, then s[k], then what comes after. */
  lemma SplitAt<T>(s: seq<T>, k: nat)
    requires k < |s|
    ensures s == s[..k] + ([s[k]] + s[k + 1..])
  {
    assert s[k..] == [s[k]] + s[k + 1..];
    assert s == s[..k] + s[k..];
  }

  /** Appending x and dropping the last element again gives s back. */
  lemma DropLast<T>(s: seq<T>, x: T)
    ensures (s + [x])[..|s|] == s && (s + [x])[|s|] == x
  {
  }

  /** The last element of a + b, and what comes before it, when b is not empty. */
  lemma ConcatInit<T>(a: seq<T>, b: seq<T>)
    requires b != []
    ensures (a + b)[..|a + b| - 1] == a + b[..|b| - 1] && (a + b)[|a + b| - 1] == b[|b| - 1]
  {
    assert (a + b)[..|a + b| - 1] == a + b[..|b| - 1];
  }

  lemma Assoc<T>(x: seq<T>, y: seq<T>, z: seq<T>)
    ensures (x + y) + z == x + (y + z)
  {
  }

  lemma InConcat<T>(a: seq<T>, b: seq<T>, x: T)
    ensures x in a + b <==> x in a || x in b
  {
  }

  lemma ReverseAt(s: string, k: nat)
    requires k < |s|
    ensures Reverse(s)[|s| - 1 - k] == s[k]
  {
  }

  lemma ReverseReverse(s: string)
    ensures Reverse(Reverse(s)) == s
  {
  }

  /** str.upper on one ASCII character. */
  function UpperChar(c: char): char
  {
    if 'a' <= c <= 'z' then (c as int - 32) as char else c
  }

  /** str.upper on ASCII text. */
  function Upper(s: string): (r: string)
    ensures |r| == |s|
    ensures forall k :: 0 <= k < |s| ==> r[k] == UpperChar(s[k])
  {
    if s == [] then [] else [UpperChar(s[0])] + Upper(s[1..])
  }

  lemma UpperKeepsTokens(c: char)
    ensures IsSpace(UpperChar(c)) <==> IsSpace(c)
  {
  }
}
