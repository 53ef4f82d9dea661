/** The string operations of Python that the unit parser relies on:
    str.isspace, str.strip(), str.split() and str.split(" "). */
module Text {

  /** str.isspace for one character: the Unicode whitespace set Python uses. */
  predicate IsSpace(c: char)
  {
    || c == ' ' || c == '\t' || c == '\n' || c == '\r'
    || c == '\U{000B}' || c == '\U{000C}'
    || ('\U{001C}' <= c <= '\U{001F}')
    || c == '\U{0085}' || c == '\U{00A0}' || c == '\U{1680}'
    || ('\U{2000}' <= c <= '\U{200A}')
    || c == '\U{2028}' || c == '\U{2029}' || c == '\U{202F}'
    || c == '\U{205F}' || c == '\U{3000}'
  }

  /** A token: a non-empty run of non-whitespace characters. */
  predicate IsToken(t: string)
  {
    |t| > 0 && forall i :: 0 <= i < |t| ==> !IsSpace(t[i])
  }

  /** Whitespace only, possibly nothing at all. */
  predicate Blank(w: string)
  {
    forall i :: 0 <= i < |w| ==> IsSpace(w[i])
  }

  /** Number of whitespace characters at the front of s. */
  function LeadingSpaces(s: string): (n: nat)
    ensures n <= |s|
    ensures forall i :: 0 <= i < n ==> IsSpace(s[i])
    ensures n == |s| || !IsSpace(s[n])
  {
    if s != [] && IsSpace(s[0]) then 1 + LeadingSpaces(s[1..]) else 0
  }

  /** Number of whitespace characters at the end of s. */
  function TrailingSpaces(s: string): (n: nat)
    ensures n <= |s|
    ensures forall i :: |s| - n <= i < |s| ==> IsSpace(s[i])
    ensures n == |s| || !IsSpace(s[|s| - n - 1])
  {
    if s != [] && IsSpace(s[|s| - 1]) then 1 + TrailingSpaces(s[..|s| - 1]) else 0
  }

  /** str.strip() with no argument: s without its leading and trailing whitespace.
      The result is s with a whitespace run cut from each end, the front run
      being all the leading whitespace; since the result neither starts nor
      ends with whitespace, this pins it down, inner whitespace included. */
  function Strip(s: string): (r: string)
    ensures r == [] || (!IsSpace(r[0]) && !IsSpace(r[|r| - 1]))
    ensures LeadingSpaces(s) + |r| <= |s|
    ensures s == s[..LeadingSpaces(s)] + r + s[LeadingSpaces(s) + |r|..]
    ensures Blank(s[..LeadingSpaces(s)]) && Blank(s[LeadingSpaces(s) + |r|..])
  {
    var n := LeadingSpaces(s);
    var t := s[n..];
    var k := TrailingSpaces(t);
    CutEnds(s, n, t, k);
    t[..|t| - k]
  }

  /** Cutting n characters off the front and k off the end of s leaves its
      middle, and a blank end of the rest is a blank end of s. */
  lemma CutEnds(s: string, n: nat, t: string, k: nat)
    requires n <= |s| && t == s[n..] && k <= |t|
    requires forall i :: |t| - k <= i < |t| ==> IsSpace(t[i])
    ensures s == s[..n] + t[..|t| - k] + s[n + (|t| - k)..]
    ensures Blank(s[n + (|t| - k)..])
  {
    var m := n + (|t| - k);
    assert s[m..] == t[|t| - k..];
    assert s[n..m] == t[..|t| - k];
    assert s == s[..n] + s[n..m] + s[m..];
  }

  /** Stripping removes exactly the outer whitespace: a string that neither
      starts nor ends with whitespace is left as it is. */
  lemma StripUnchanged(s: string)
    requires s == [] || (!IsSpace(s[0]) && !IsSpace(s[|s| - 1]))
    ensures Strip(s) == s
  {
    assert LeadingSpaces(s) == 0;
    assert TrailingSpaces(s) == 0;
  }

  /** Length of the token at the front of s. */
  function WordLength(s: string): (n: nat)
    ensures n <= |s|
    ensures forall i :: 0 <= i < n ==> !IsSpace(s[i])
    ensures n == |s| || IsSpace(s[n])
  {
    if s != [] && !IsSpace(s[0]) then 1 + WordLength(s[1..]) else 0
  }

  /** The front token ends exactly at the first whitespace. */
  lemma WordLengthUnique(s: string, n: nat)
    requires n <= |s|
    requires forall i :: 0 <= i < n ==> !IsSpace(s[i])
    requires n == |s| || IsSpace(s[n])
    ensures WordLength(s) == n
  {
  }

  /** str.split() with no argument: the maximal runs of non-whitespace, in order. */
  function Split(s: string): (ts: seq<string>)
    ensures forall i :: 0 <= i < |ts| ==> IsToken(ts[i])
    decreases |s|
  {
    if s == [] then []
    else if IsSpace(s[0]) then Split(s[1..])
    else
      var n := WordLength(s);
      [s[..n]] + Split(s[n..])
  }

  /** Whitespace alone splits into no tokens. */
  lemma {:induction false} SplitBlank(w: string)
    requires forall i :: 0 <= i < |w| ==> IsSpace(w[i])
    ensures Split(w) == []
    decreases |w|
  {
    if w != [] {
      SplitBlank(w[1..]);
    }
  }

  /** Leading whitespace does not change the tokens. */
  lemma {:induction false} SplitDropLeading(s: string, k: nat)
    requires k <= |s|
    requires forall i :: 0 <= i < k ==> IsSpace(s[i])
    ensures Split(s[k..]) == Split(s)
    decreases k
  {
    if k > 0 {
      SplitDropLeading(s[1..], k - 1);
      assert s[1..][k - 1..] == s[k..];
    }
  }

  /** Trailing whitespace does not change the tokens. */
  lemma {:induction false} SplitDropTrailing(x: string, w: string)
    requires forall i :: 0 <= i < |w| ==> IsSpace(w[i])
    ensures Split(x + w) == Split(x)
    decreases |x|
  {
    if x == [] {
      assert x + w == w;
      SplitBlank(w);
    } else if IsSpace(x[0]) {
      assert (x + w)[1..] == x[1..] + w;
      SplitDropTrailing(x[1..], w);
    } else {
      var n := WordLength(x);
      WordLengthUnique(x + w, n);
      assert (x + w)[..n] == x[..n];
      assert (x + w)[n..] == x[n..] + w;
      SplitDropTrailing(x[n..], w);
    }
  }

  /** str.strip().split() and str.split() give the same tokens. */
  lemma SplitIgnoresStrip(s: string)
    ensures Split(Strip(s)) == Split(s)
  {
    var t := s[LeadingSpaces(s)..];
    SplitDropLeading(s, LeadingSpaces(s));
    var k := |t| - TrailingSpaces(t);
    assert t == t[..k] + t[k..];
    SplitDropTrailing(t[..k], t[k..]);
  }

  /** Tokens joined by single spaces: what a well-formed "value unit" text looks like. */
  function JoinSpaced(ts: seq<string>): string
  {
    if ts == [] then ""
    else if |ts| == 1 then ts[0]
    else ts[0] + " " + JoinSpaced(ts[1..])
  }

  /** A token followed by whitespace (or nothing) is read as one word. */
  lemma WordLengthOfToken(t: string, rest: string)
    requires IsToken(t)
    requires rest == [] || IsSpace(rest[0])
    ensures WordLength(t + rest) == |t|
  {
    WordLengthUnique(t + rest, |t|);
  }

  /** str.split() undoes joining tokens with single spaces. */
  lemma {:induction false} SplitJoinSpaced(ts: seq<string>)
    requires forall i :: 0 <= i < |ts| ==> IsToken(ts[i])
    ensures Split(JoinSpaced(ts)) == ts
  {
    if ts == [] {
    } else if |ts| == 1 {
      var t := ts[0];
      WordLengthOfToken(t, []);
      assert t + [] == t;
      assert t[|t|..] == [];
      assert t[..|t|] == t;
    } else {
      var t, rest := ts[0], JoinSpaced(ts[1..]);
      var s := t + " " + rest;
      assert s == t + (" " + rest);
      WordLengthOfToken(t, " " + rest);
      assert s[..|t|] == t;
      assert s[|t|..] == " " + rest;
      assert (" " + rest)[1..] == rest;
      SplitJoinSpaced(ts[1..]);
      assert Split(s) == [t] + Split(rest);
      assert ts == [ts[0]] + ts[1..];
    }
  }

  /** Tokens ts with the whitespace runs ws around and between them: ws[0]
      before the first token, ws[|ts|] after the last. */
  function Interleave(ws: seq<string>, ts: seq<string>): string
    requires |ws| == |ts| + 1
  {
    if ts == [] then ws[0] else ws[0] + ts[0] + Interleave(ws[1..], ts[1..])
  }

  /** A run of whitespace, then anything that starts with whitespace or is
      empty, itself starts with whitespace or is empty. */
  lemma InterleaveStartsBlank(ws: seq<string>, ts: seq<string>)
    requires |ws| == |ts| + 1 && Blank(ws[0])
    requires ts != [] ==> |ws[0]| > 0
    ensures var s := Interleave(ws, ts); s == [] || IsSpace(s[0])
  {
    if ts != [] {
      var s := Interleave(ws, ts);
      assert s[0] == ws[0][0];
    }
  }

  /** str.split() takes apart tokens separated by whitespace runs of any
      length, with any whitespace (or none) before the first and after the
      last: every run counts as one separator. */
  lemma {:induction false} SplitInterleaved(ws: seq<string>, ts: seq<string>)
    requires |ws| == |ts| + 1
    requires forall i :: 0 <= i < |ts| ==> IsToken(ts[i])
    requires forall i :: 0 <= i < |ws| ==> Blank(ws[i])
    requires forall i :: 0 < i < |ts| ==> |ws[i]| > 0
    ensures Split(Interleave(ws, ts)) == ts
    decreases |ts|
  {
    if ts == [] {
      SplitBlank(ws[0]);
    } else {
      var w, t, rest := ws[0], ts[0], Interleave(ws[1..], ts[1..]);
      var s := w + t + rest;
      assert s == w + (t + rest);
      assert s[|w|..] == t + rest;
      assert forall i :: 0 <= i < |w| ==> s[i] == w[i];
      SplitDropLeading(s, |w|);
      InterleaveStartsBlank(ws[1..], ts[1..]);
      WordLengthOfToken(t, rest);
      assert (t + rest)[..|t|] == t;
      assert (t + rest)[|t|..] == rest;
      assert Split(t + rest) == [t] + Split(rest);
      SplitInterleaved(ws[1..], ts[1..]);
      assert ts == [t] + ts[1..];
    }
  }

  /** A text with no whitespace at all is a single token. */
  lemma SplitToken(t: string)
    requires IsToken(t)
    ensures Split(t) == [t]
  {
    SplitJoinSpaced([t]);
  }

  /** Joining fields with a single separator character: the inverse of SplitOn. */
  function JoinOn(fs: seq<string>, sep: char): string
  {
    if fs == [] then ""
    else if |fs| == 1 then fs[0]
    else fs[0] + [sep] + JoinOn(fs[1..], sep)
  }

  /** Index of the first occurrence of c in s, or |s| if there is none. */
  function IndexOf(s: string, c: char): (k: nat)
    ensures k <= |s|
    ensures forall i :: 0 <= i < k ==> s[i] != c
    ensures k < |s| ==> s[k] == c
  {
    if s == [] then 0
    else if s[0] == c then 0
    else 1 + IndexOf(s[1..], c)
  }

  /** str.split(sep) for a one-character separator: every field between two
      separators, empty ones included; never an empty list. */
  function SplitOn(s: string, sep: char): (fs: seq<string>)
    ensures |fs| >= 1
    ensures forall i :: 0 <= i < |fs| ==> sep !in fs[i]
    ensures JoinOn(fs, sep) == s
    decreases |s|
  {
    var k := IndexOf(s, sep);
    if k == |s| then [s]
    else
      var rest := SplitOn(s[k + 1..], sep);
      assert s == s[..k] + [sep] + s[k + 1..];
      [s[..k]] + rest
  }

  /** Two tokens joined by a space split back into those two tokens, with or
      without stripping first. */
  lemma SplitPair(a: string, b: string)
    requires IsToken(a) && IsToken(b)
    ensures Split(Strip(a + " " + b)) == [a, b]
  {
    SplitIgnoresStrip(a + " " + b);
    SplitSpacedPair(a, b);
  }

  lemma SplitSpacedPair(a: string, b: string)
    requires IsToken(a) && IsToken(b)
    ensures Split(a + " " + b) == [a, b]
  {
    assert JoinSpaced([a, b]) == a + " " + JoinSpaced([b]);
    SplitJoinSpaced([a, b]);
  }

  /** Two tokens with nothing between them form one token. */
  lemma TokenConcat(a: string, b: string)
    requires IsToken(a) && IsToken(b)
    ensures IsToken(a + b)
  {
    assert forall i :: 0 <= i < |a + b| ==> (a + b)[i] == if i < |a| then a[i] else b[i - |a|];
  }
}
