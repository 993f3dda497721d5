/** The two string splits the routine-name parser relies on: Rust's
    `str::split_whitespace` (maximal runs of non-whitespace characters) and
    `str::split` on a single character (every piece, empty ones included).
 */
module Text {

  /** Unicode `White_Space`, the property Rust's `char::is_whitespace` tests. */
  predicate IsWhitespace(c: char)
  {
    || ('\t' <= c <= '\r')
    || c == ' '
    || c == '\U{0085}'
    || c == '\U{00A0}'
    || c == '\U{1680}'
    || ('\U{2000}' <= c <= '\U{200A}')
    || c == '\U{2028}'
    || c == '\U{2029}'
    || c == '\U{202F}'
    || c == '\U{205F}'
    || c == '\U{3000}'
  }

  predicate NoWhitespace(s: string)
  {
    forall i :: 0 <= i < |s| ==> !IsWhitespace(s[i])
  }

  /** The characters of `s` that are not whitespace, in their original order. */
  function DropWhitespace(s: string): (r: string)
    ensures |r| <= |s|
    ensures NoWhitespace(r)
  {
    if s == [] then []
    else if IsWhitespace(s[0]) then DropWhitespace(s[1..])
    else [s[0]] + DropWhitespace(s[1..])
  }

  lemma {:induction false} DropWhitespaceAppend(a: string, b: string)
    ensures DropWhitespace(a + b) == DropWhitespace(a) + DropWhitespace(b)
  {
    if a == [] {
      assert a + b == b;
    } else {
      assert (a + b)[0] == a[0];
      assert (a + b)[1..] == a[1..] + b;
      DropWhitespaceAppend(a[1..], b);
    }
  }

  lemma {:induction false} DropWhitespaceOfWord(w: string)
    requires NoWhitespace(w)
    ensures DropWhitespace(w) == w
  {
    if w != [] {
      DropWhitespaceOfWord(w[1..]);
    }
  }

  function Concat(ss: seq<string>): string
  {
    if ss == [] then [] else ss[0] + Concat(ss[1..])
  }

  /** The length of the run of non-whitespace characters that `s` starts with. */
  function RunLength(s: string): (n: nat)
    ensures n <= |s|
    ensures NoWhitespace(s[..n])
    ensures n < |s| ==> IsWhitespace(s[n])
  {
    if s == [] || IsWhitespace(s[0]) then 0
    else
      var n := 1 + RunLength(s[1..]);
      assert forall i :: 1 <= i < n ==> s[..n][i] == s[1..][..n - 1][i - 1];
      n
  }

  /** `str::split_whitespace`: the maximal runs of non-whitespace characters of
      `s`, in order. Leading, trailing and repeated whitespace produce no
      empty words, and no character other than whitespace is lost. */
  function Words(s: string): (r: seq<string>)
    ensures |r| <= |s|
    ensures forall i :: 0 <= i < |r| ==> IsWord(r[i]) && |r[i]| <= |s|
    ensures Concat(r) == DropWhitespace(s)
    decreases |s|
  {
    if s == [] then []
    else if IsWhitespace(s[0]) then Words(s[1..])
    else
      var n := RunLength(s);
      var rest := Words(s[n..]);
      assert s == s[..n] + s[n..];
      DropWhitespaceAppend(s[..n], s[n..]);
      DropWhitespaceOfWord(s[..n]);
      assert ([s[..n]] + rest)[1..] == rest;
      [s[..n]] + rest
  }

  /** The words joined back together with a single space between neighbours. */
  function Unwords(ws: seq<string>): string
  {
    if ws == [] then []
    else if |ws| == 1 then ws[0]
    else ws[0] + " " + Unwords(ws[1..])
  }

  predicate IsWord(w: string)
  {
    w != [] && NoWhitespace(w)
  }

  lemma {:induction false} RunLengthOfWord(w: string, t: string)
    requires NoWhitespace(w)
    requires t == [] || IsWhitespace(t[0])
    ensures RunLength(w + t) == |w|
  {
    if w != [] {
      assert (w + t)[1..] == w[1..] + t;
      RunLengthOfWord(w[1..], t);
    }
  }

  lemma {:induction false} WordsSkipsWhitespace(t: string)
    requires t != [] && IsWhitespace(t[0])
    ensures Words(t) == Words(t[1..])
  {
  }

  /** Splitting single-space-joined words gives the words back. */
  lemma {:induction false} WordsOfUnwords(ws: seq<string>)
    requires forall i :: 0 <= i < |ws| ==> IsWord(ws[i])
    ensures Words(Unwords(ws)) == ws
  {
    if |ws| == 1 {
      RunLengthOfWord(ws[0], []);
      assert ws[0] + [] == ws[0];
      assert ws[0][|ws[0]|..] == [];
    } else if |ws| > 1 {
      var w, t := ws[0], " " + Unwords(ws[1..]);
      var s := Unwords(ws);
      assert s == w + t;
      RunLengthOfWord(w, t);
      assert s[..|w|] == w;
      assert s[|w|..] == t;
      WordsSkipsWhitespace(t);
      assert t[1..] == Unwords(ws[1..]);
      WordsOfUnwords(ws[1..]);
    }
  }

  lemma WordsOfTwo(s: string, v: string, u: string)
    requires IsWord(v) && IsWord(u)
    requires s == v + " " + u
    ensures Words(s) == [v, u]
  {
    WordsOfUnwords([v, u]);
  }

  lemma ThreeWords(s: string, v: string, u: string, x: string)
    requires IsWord(v) && IsWord(u) && IsWord(x)
    requires s == v + " " + u + " " + x
    ensures Words(s) == [v, u, x]
  {
    WordsOfUnwords([v, u, x]);
    assert [v, u, x][1..] == [u, x];
    assert Unwords([u, x]) == u + " " + x;
    assert Unwords([v, u, x]) == v + " " + (u + " " + x);
    assert s == Unwords([v, u, x]);
  }

  /** A single word splits into itself. */
  lemma WordsOfWord(w: string)
    requires IsWord(w)
    ensures Words(w) == [w]
  {
    WordsOfUnwords([w]);
  }

  /** A run of non-whitespace stops at the same place when whitespace, or
      nothing, is appended. */
  lemma {:induction false} RunLengthAppend(a: string, t: string)
    requires t == [] || IsWhitespace(t[0])
    ensures RunLength(a + t) == RunLength(a)
  {
    if a == [] {
      assert a + t == t;
    } else {
      assert (a + t)[0] == a[0];
      assert (a + t)[1..] == a[1..] + t;
      RunLengthAppend(a[1..], t);
    }
  }

  /** Every whitespace character is a word boundary: the words on either side
      of it are the words of the whole, in order. Together with `WordsOfWord`
      this fixes the words of every string. */
  lemma {:induction false} WordsSplitAtWhitespace(a: string, c: char, b: string)
    requires IsWhitespace(c)
    ensures Words(a + [c] + b) == Words(a) + Words(b)
    decreases |a|, 1
  {
    if a == [] {
      assert a + [c] + b == [c] + b;
      assert ([c] + b)[1..] == b;
    } else if IsWhitespace(a[0]) {
      WordsSplitAfterWhitespace(a, c, b);
    } else {
      WordsSplitAfterRun(a, c, b);
    }
  }

  lemma {:induction false} WordsSplitAfterWhitespace(a: string, c: char, b: string)
    requires IsWhitespace(c)
    requires a != [] && IsWhitespace(a[0])
    ensures Words(a + [c] + b) == Words(a) + Words(b)
    decreases |a|, 0
  {
    var s := a + [c] + b;
    assert s[0] == a[0];
    assert s[1..] == a[1..] + [c] + b;
    WordsSplitAtWhitespace(a[1..], c, b);
  }

  /** A string that starts with a run of non-whitespace splits into that run
      followed by the words of what comes after it. */
  lemma WordsOfRunStart(s: string)
    requires s != [] && !IsWhitespace(s[0])
    ensures Words(s) == [s[..RunLength(s)]] + Words(s[RunLength(s)..])
  {
  }

  /** Appending whitespace and more text after `a` leaves the run `a` starts
      with, and the text after it gains the same suffix. */
  lemma RunOfAppend(a: string, c: char, b: string)
    requires IsWhitespace(c)
    ensures RunLength(a + [c] + b) == RunLength(a)
    ensures (a + [c] + b)[..RunLength(a)] == a[..RunLength(a)]
    ensures (a + [c] + b)[RunLength(a)..] == a[RunLength(a)..] + [c] + b
  {
    assert a + [c] + b == a + ([c] + b);
    RunLengthAppend(a, [c] + b);
  }

  lemma {:induction false} WordsSplitAfterRun(a: string, c: char, b: string)
    requires IsWhitespace(c)
    requires a != [] && !IsWhitespace(a[0])
    ensures Words(a + [c] + b) == Words(a) + Words(b)
    decreases |a|, 0
  {
    var s := a + [c] + b;
    var n := RunLength(a);
    var run, tail := a[..n], a[n..];
    assert n > 0;
    assert Words(s) == [run] + Words(tail + [c] + b) by {
      RunOfAppend(a, c, b);
      assert s[0] == a[0];
      WordsOfRunStart(s);
    }
    assert Words(a) == [run] + Words(tail) by {
      WordsOfRunStart(a);
    }
    WordsSplitAtWhitespace(tail, c, b);
    AppendAssoc([run], Words(tail), Words(b));
  }

  lemma AppendAssoc<T>(x: seq<T>, y: seq<T>, z: seq<T>)
    ensures x + (y + z) == (x + y) + z
  {
  }

  /** The number of times `c` occurs in `s`. */
  function Occurrences(s: string, c: char): (k: nat)
    ensures k <= |s|
    ensures k == 0 <==> c !in s
  {
    if s == [] then 0
    else (if s[0] == c then 1 else 0) + Occurrences(s[1..], c)
  }

  lemma {:induction false} OccurrencesAppend(a: string, b: string, c: char)
    ensures Occurrences(a + b, c) == Occurrences(a, c) + Occurrences(b, c)
  {
    if a == [] {
      assert a + b == b;
    } else {
      assert (a + b)[0] == a[0];
      assert (a + b)[1..] == a[1..] + b;
      OccurrencesAppend(a[1..], b, c);
    }
  }

  /** The position of the first `c` in `s`. */
  function IndexOf(s: string, c: char): (i: nat)
    requires c in s
    ensures i < |s| && s[i] == c
    ensures c !in s[..i]
  {
    if s[0] == c then 0
    else
      var i := 1 + IndexOf(s[1..], c);
      assert s[..i] == [s[0]] + s[1..][..i - 1];
      i
  }

  /** The pieces joined back together with `sep` between neighbours. */
  function JoinWith(ps: seq<string>, sep: char): string
  {
    if ps == [] then []
    else if |ps| == 1 then ps[0]
    else ps[0] + [sep] + JoinWith(ps[1..], sep)
  }

  /** `str::split` on the character `sep`: the text before the first `sep`,
      between consecutive ones and after the last, empty pieces included.
      There is always one more piece than there are separators. */
  function Split(s: string, sep: char): (r: seq<string>)
    ensures |r| == Occurrences(s, sep) + 1
    ensures forall i :: 0 <= i < |r| ==> sep !in r[i]
    ensures JoinWith(r, sep) == s
    decreases |s|
  {
    if sep !in s then [s]
    else
      var i := IndexOf(s, sep);
      var rest := Split(s[i + 1..], sep);
      assert s == s[..i] + [sep] + s[i + 1..];
      OccurrencesAppend(s[..i] + [sep], s[i + 1..], sep);
      OccurrencesAppend(s[..i], [sep], sep);
      assert ([s[..i]] + rest)[1..] == rest;
      [s[..i]] + rest
  }

  /** The first `sep` in `p + [sep] + t` is the one just after `p`. */
  lemma IndexAfterPiece(p: string, t: string, sep: char)
    requires sep !in p
    ensures IndexOf(p + [sep] + t, sep) == |p|
  {
    var s := p + [sep] + t;
    var i := IndexOf(s, sep);
    assert forall j :: 0 <= j < |p| ==> s[j] == p[j];
    assert forall j :: |p| < j <= |s| ==> s[..j][|p|] == sep;
  }

  /** Splitting separator-free pieces joined by `sep` gives the pieces back. */
  lemma {:induction false} SplitOfJoinWith(ps: seq<string>, sep: char)
    requires |ps| >= 1
    requires forall i :: 0 <= i < |ps| ==> sep !in ps[i]
    ensures Split(JoinWith(ps, sep), sep) == ps
  {
    if |ps| > 1 {
      var p, t := ps[0], JoinWith(ps[1..], sep);
      var s := JoinWith(ps, sep);
      assert s == p + [sep] + t;
      IndexAfterPiece(p, t, sep);
      assert s[..|p|] == p;
      assert s[|p| + 1..] == t;
      SplitOfJoinWith(ps[1..], sep);
    }
  }
}
