/** Python's whitespace-driven string operations as the chat script uses them:
    `str.strip()` on the model's answer and on the typed text, and `str.split()`
    on the answer before it is typed out. Both builtins use the same notion of
    whitespace, `str.isspace`. */
module Text {

  /** A character Python's `str.isspace` accepts: the ASCII separators and
      controls 9-13 and 28-31, the space, NEL, NO-BREAK SPACE and the Unicode
      space separators, line and paragraph separators. */
  predicate IsSpace(c: char) {
    var n := c as int;
    n == 0x20 || 0x09 <= n <= 0x0D || 0x1C <= n <= 0x1F || n == 0x85 || n == 0xA0
    || n == 0x1680 || 0x2000 <= n <= 0x200A || n == 0x2028 || n == 0x2029
    || n == 0x202F || n == 0x205F || n == 0x3000
  }

  predicate AllSpace(s: string) {
    forall i :: 0 <= i < |s| ==> IsSpace(s[i])
  }

  /** Neither the first nor the last character is whitespace. */
  predicate Trimmed(s: string) {
    s == [] || (!IsSpace(s[0]) && !IsSpace(s[|s| - 1]))
  }

  /** A token `str.split()` can produce: non-empty, free of whitespace. */
  predicate IsWord(w: string) {
    |w| > 0 && forall i :: 0 <= i < |w| ==> !IsSpace(w[i])
  }

  predicate AllWords(ws: seq<string>) {
    forall k :: 0 <= k < |ws| ==> IsWord(ws[k])
  }

  predicate IsPrefix(p: string, s: string) {
    |p| <= |s| && s[..|p|] == p
  }

  predicate IsInfix(p: string, s: string) {
    exists k :: 0 <= k <= |s| && IsPrefix(p, s[k..])
  }

  /** Every character of `s` from index `lo` up to `hi` is whitespace. */
  predicate SpaceBetween(s: string, lo: nat, hi: nat)
    requires lo <= hi <= |s|
  {
    forall i :: lo <= i < hi ==> IsSpace(s[i])
  }

  /** How many whitespace characters `s.lstrip()` drops. */
  function LeadingSpace(s: string): (n: nat)
    ensures n <= |s| && SpaceBetween(s, 0, n)
    ensures n == |s| || !IsSpace(s[n])
    decreases |s|
  {
    if s != [] && IsSpace(s[0]) then 1 + LeadingSpace(s[1..]) else 0
  }

  /** Where the text of `s` ends once `s.rstrip()` has dropped the trailing
      whitespace. */
  function TextEnd(s: string): (n: nat)
    ensures n <= |s| && SpaceBetween(s, n, |s|)
    ensures n == 0 || !IsSpace(s[n - 1])
    decreases |s|
  {
    if s != [] && IsSpace(s[|s| - 1]) then TextEnd(s[..|s| - 1]) else |s|
  }

  /** Where the text of `s` ends once `s.strip()` has dropped the whitespace
      on both sides. */
  function StripEnd(s: string): (e: nat)
    ensures LeadingSpace(s) <= e <= |s|
    ensures SpaceBetween(s, e, |s|)
    ensures e == LeadingSpace(s) || !IsSpace(s[e - 1])
  {
    var k := LeadingSpace(s);
    var n := TextEnd(s[k..]);
    assert forall i :: k + n <= i < |s| ==> s[i] == s[k..][i - k];
    k + n
  }

  /** `s.strip()`: `s` without its leading and trailing whitespace. */
  function Strip(s: string): (r: string)
    ensures Trimmed(r)
  {
    s[LeadingSpace(s)..StripEnd(s)]
  }

  /** Length of the run of non-whitespace characters that starts `s`. */
  function WordLength(s: string): (n: nat)
    ensures n <= |s|
    ensures forall i :: 0 <= i < n ==> !IsSpace(s[i])
    ensures n == |s| || IsSpace(s[n])
    decreases |s|
  {
    if s == [] || IsSpace(s[0]) then 0 else 1 + WordLength(s[1..])
  }

  /** `s.split()` with no separator: the maximal runs of non-whitespace
      characters, in order; leading, trailing and repeated whitespace yield
      no empty tokens. */
  function Split(s: string): (ws: seq<string>)
    ensures AllWords(ws)
    decreases |s|
  {
    if s == [] then []
    else if IsSpace(s[0]) then Split(s[1..])
    else
      var n := WordLength(s);
      [s[..n]] + Split(s[n..])
  }

  /** `" ".join(ws)`, built from the last word back so that each prefix of the
      list joins to a prefix of the whole. */
  function Join(ws: seq<string>): string
    decreases |ws|
  {
    if ws == [] then ""
    else if |ws| == 1 then ws[0]
    else Join(ws[..|ws| - 1]) + " " + ws[|ws| - 1]
  }

  /** Joining one more word adds a space and that word at the end. */
  lemma JoinSnoc(ws: seq<string>, w: string)
    requires ws != []
    ensures Join(ws + [w]) == Join(ws) + " " + w
  {
    assert (ws + [w])[..|ws|] == ws;
  }

  /** The run-length characterisation pins `WordLength` down. */
  lemma WordLengthUnique(s: string, n: nat)
    requires n <= |s|
    requires forall i :: 0 <= i < n ==> !IsSpace(s[i])
    requires n == |s| || IsSpace(s[n])
    ensures WordLength(s) == n
  {
  }

  /** A word ends at the first whitespace character, whatever follows. */
  lemma WordLengthBefore(a: string, rest: string)
    requires rest != [] && IsSpace(rest[0])
    ensures WordLength(a + rest) == WordLength(a)
  {
    var s, n := a + rest, WordLength(a);
    assert forall i :: 0 <= i < n ==> s[i] == a[i];
    assert s[n] == if n < |a| then a[n] else rest[0];
    WordLengthUnique(s, n);
  }

  /** A whitespace character always separates tokens: splitting `a`, then
      `c`, then `b` gives the tokens of `a` followed by those of `b`. */
  lemma {:induction false} SplitAround(a: string, c: char, b: string)
    requires IsSpace(c)
    ensures Split(a + ([c] + b)) == Split(a) + Split(b)
    decreases |a|
  {
    var rest := [c] + b;
    var s := a + rest;
    if a == [] {
      assert s == rest && rest[1..] == b;
    } else if IsSpace(a[0]) {
      assert s[1..] == a[1..] + rest;
      SplitAround(a[1..], c, b);
    } else {
      var n := WordLength(a);
      WordLengthBefore(a, rest);
      assert s[..n] == a[..n];
      assert s[n..] == a[n..] + rest;
      SplitAround(a[n..], c, b);
    }
  }

  /** A single token splits to itself. */
  lemma SplitWord(w: string)
    requires IsWord(w)
    ensures Split(w) == [w]
  {
    WordLengthUnique(w, |w|);
    assert w[..|w|] == w;
    assert w[|w|..] == [];
  }

  /** Round trip: splitting the space-joined tokens gives the tokens back. */
  lemma {:induction false} SplitJoin(ws: seq<string>)
    requires AllWords(ws)
    ensures Split(Join(ws)) == ws
    decreases |ws|
  {
    if ws == [] {
    } else if |ws| == 1 {
      SplitWord(ws[0]);
    } else {
      var init, last := ws[..|ws| - 1], ws[|ws| - 1];
      assert AllWords(init) by {
        forall k | 0 <= k < |init| ensures IsWord(init[k]) { assert init[k] == ws[k]; }
      }
      SplitJoin(init);
      SplitWord(last);
      assert Join(ws) == Join(init) + ([' '] + last);
      SplitAround(Join(init), ' ', last);
      assert init + [last] == ws;
    }
  }

  /** A string splits into no tokens exactly when it is all whitespace. */
  lemma {:induction false} SplitEmptyIffBlank(s: string)
    ensures Split(s) == [] <==> AllSpace(s)
    decreases |s|
  {
    if s == [] {
    } else if IsSpace(s[0]) {
      SplitEmptyIffBlank(s[1..]);
      if AllSpace(s[1..]) {
        forall i | 0 <= i < |s| ensures IsSpace(s[i]) {
          if i > 0 { assert s[i] == s[1..][i - 1]; }
        }
      } else {
        var i :| 0 <= i < |s[1..]| && !IsSpace(s[1..][i]);
        assert !IsSpace(s[i + 1]);
      }
    } else {
      assert !AllSpace(s);
    }
  }

  /** The joined tokens start at the first token and end at the last one, so
      they carry no whitespace at either end. */
  lemma {:induction false} JoinEdges(ws: seq<string>)
    requires AllWords(ws) && ws != []
    ensures |Join(ws)| >= |ws[0]| && Join(ws)[..|ws[0]|] == ws[0]
    ensures var j, w := Join(ws), ws[|ws| - 1]; |j| >= |w| && j[|j| - |w|..] == w
    ensures Trimmed(Join(ws))
    decreases |ws|
  {
    if |ws| > 1 {
      var init := ws[..|ws| - 1];
      assert AllWords(init) by {
        forall k | 0 <= k < |init| ensures IsWord(init[k]) { assert init[k] == ws[k]; }
      }
      JoinEdges(init);
      assert init[0] == ws[0];
      var j := Join(ws);
      assert j == Join(init) + " " + ws[|ws| - 1];
      assert j[..|ws[0]|] == Join(init)[..|ws[0]|];
      assert j[|j| - |ws[|ws| - 1]|..] == ws[|ws| - 1];
    }
    var j, f, w := Join(ws), ws[0], ws[|ws| - 1];
    assert j[0] == f[0];
    assert j[|j| - 1] == w[|w| - 1];
  }

  /** Stripping `t + " "` removes exactly that space when `t` ends in a
      non-whitespace character. */
  lemma StripTrailingSpace(t: string)
    requires t != [] && Trimmed(t)
    ensures Strip(t + " ") == t
  {
    var s := t + " ";
    assert LeadingSpace(s) == 0;
    assert s[0..] == s && s[..|s| - 1] == t;
    assert TextEnd(s) == TextEnd(t) == |t|;
    assert StripEnd(s) == |t|;
  }

  lemma {:induction false} SplitAfterBlank(blank: string, s: string)
    requires AllSpace(blank)
    ensures Split(blank + s) == Split(s)
    decreases |blank|
  {
    if blank != [] {
      assert (blank + s)[1..] == blank[1..] + s;
      SplitAfterBlank(blank[1..], s);
    } else {
      assert blank + s == s;
    }
  }

  lemma SplitBeforeBlank(s: string, blank: string)
    requires AllSpace(blank)
    ensures Split(s + blank) == Split(s)
  {
    if blank == [] {
      assert s + blank == s;
    } else {
      assert blank == [blank[0]] + blank[1..];
      SplitAround(s, blank[0], blank[1..]);
      SplitEmptyIffBlank(blank[1..]);
    }
  }

  /** `s` is its leading whitespace, its stripped form and its trailing
      whitespace, in that order. */
  lemma StripParts(s: string)
    ensures var k, e := LeadingSpace(s), StripEnd(s);
      s == s[..k] + (Strip(s) + s[e..])
  {
    var k, e := LeadingSpace(s), StripEnd(s);
    assert s[k..] == s[k..e] + s[e..];
    assert s == s[..k] + s[k..];
  }

  /** Only whitespace is dropped on either side. */
  lemma StripMargins(s: string)
    ensures AllSpace(s[..LeadingSpace(s)]) && AllSpace(s[StripEnd(s)..])
  {
    var k, e := LeadingSpace(s), StripEnd(s);
    forall i | 0 <= i < k ensures IsSpace(s[..k][i]) { assert s[..k][i] == s[i]; }
    forall i | 0 <= i < |s| - e ensures IsSpace(s[e..][i]) { assert s[e..][i] == s[e + i]; }
  }

  /** Stripping first does not change the tokens. */
  lemma SplitStrip(s: string)
    ensures Split(Strip(s)) == Split(s)
  {
    var k, e := LeadingSpace(s), StripEnd(s);
    StripParts(s);
    StripMargins(s);
    SplitAfterBlank(s[..k], Strip(s) + s[e..]);
    SplitBeforeBlank(Strip(s), s[e..]);
  }
}
