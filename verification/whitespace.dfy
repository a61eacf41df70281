/**
 * Python's whitespace handling as the text pipeline uses it: `str.strip()`,
 * `str.split()` with no separator, and the collapse `' '.join(s.split())`.
 * The scanning functions work on positions in one fixed string.
 */
module Whitespace {

  /** The characters for which Python's `str.isspace()` holds; `split()` and
      `strip()` without arguments break and trim on exactly these. */
  const SPACES: set<char> := {
    ' ', '\t', '\n', '\r', '\U{B}', '\U{C}', '\U{1C}', '\U{1D}', '\U{1E}', '\U{1F}',
    '\U{85}', '\U{A0}', '\U{1680}',
    '\U{2000}', '\U{2001}', '\U{2002}', '\U{2003}', '\U{2004}', '\U{2005}',
    '\U{2006}', '\U{2007}', '\U{2008}', '\U{2009}', '\U{200A}',
    '\U{2028}', '\U{2029}', '\U{202F}', '\U{205F}', '\U{3000}'
  }

  predicate IsSpace(c: char) {
    c in SPACES
  }

  /** True when `s` holds whitespace only (`not s.strip()`). */
  predicate IsBlank(s: string) {
    forall k :: 0 <= k < |s| ==> IsSpace(s[k])
  }

  /** A word as `split()` produces it: non-empty, without whitespace. */
  predicate IsToken(w: string) {
    |w| > 0 && forall k :: 0 <= k < |w| ==> !IsSpace(w[k])
  }

  /** The shape of a collapsed text: every whitespace character is a single
      ' ' strictly inside the text and is followed by a non-space character.
      So there is no leading or trailing space, no two adjacent spaces, and no
      whitespace other than ' '. */
  predicate IsCollapsed(s: string) {
    forall k :: 0 <= k < |s| && IsSpace(s[k]) ==>
      s[k] == ' ' && 0 < k && k + 1 < |s| && !IsSpace(s[k + 1])
  }

  /** The first position at or after `i` that is not whitespace. */
  function SkipFrom(s: string, i: nat): (j: nat)
    requires i <= |s|
    ensures i <= j <= |s|
    ensures j == |s| || !IsSpace(s[j])
    ensures forall m :: i <= m < j ==> IsSpace(s[m])
    decreases |s| - i
  {
    if i < |s| && IsSpace(s[i]) then SkipFrom(s, i + 1) else i
  }

  /** The first position at or after `i` that is whitespace. */
  function WordEnd(s: string, i: nat): (j: nat)
    requires i <= |s|
    ensures i <= j <= |s|
    ensures j == |s| || IsSpace(s[j])
    ensures forall m :: i <= m < j ==> !IsSpace(s[m])
    decreases |s| - i
  {
    if i < |s| && !IsSpace(s[i]) then WordEnd(s, i + 1) else i
  }

  /** The end of `s[lo..hi]` once its trailing whitespace is dropped. */
  function TrimBack(s: string, lo: nat, hi: nat): (j: nat)
    requires lo <= hi <= |s|
    ensures lo <= j <= hi
    ensures j == lo || !IsSpace(s[j - 1])
    ensures forall m :: j <= m < hi ==> IsSpace(s[m])
    decreases hi
  {
    if lo < hi && IsSpace(s[hi - 1]) then TrimBack(s, lo, hi - 1) else hi
  }

  /** `str.strip()`. */
  function Strip(s: string): string {
    var i := SkipFrom(s, 0);
    s[i..TrimBack(s, i, |s|)]
  }

  /** `s[i:].split()`: the maximal runs of non-whitespace from position `i` on. */
  function SplitFrom(s: string, i: nat): (ws: seq<string>)
    requires i <= |s|
    ensures forall n :: 0 <= n < |ws| ==> IsToken(ws[n])
    decreases |s| - i
  {
    var j := SkipFrom(s, i);
    if j == |s| then []
    else
      var k := WordEnd(s, j);
      assert IsToken(s[j..k]) by {
        assert !IsSpace(s[j]);
        forall m | 0 <= m < k - j ensures !IsSpace(s[j..k][m]) {
          assert s[j..k][m] == s[j + m];
        }
      }
      [s[j..k]] + SplitFrom(s, k)
  }

  /** `str.split()` with no separator. */
  function Split(s: string): seq<string> {
    SplitFrom(s, 0)
  }

  /** `' '.join(ws)`. */
  function Join(ws: seq<string>): string {
    if |ws| == 0 then []
    else if |ws| == 1 then ws[0]
    else ws[0] + " " + Join(ws[1..])
  }

  /** `' '.join(s.split())`. */
  function Collapse(s: string): string {
    Join(Split(s))
  }

  /** The characters of `s` that are not whitespace, in order. */
  function RemoveSpaces(s: string): string {
    if s == [] then []
    else (if IsSpace(s[0]) then [] else [s[0]]) + RemoveSpaces(s[1..])
  }

  // ---------------------------------------------------------------------------
  // strip

  /** `s.strip()` is empty exactly when `s` is blank. */
  lemma StripEmptyIffBlank(s: string)
    ensures Strip(s) == [] <==> IsBlank(s)
  {
    var i := SkipFrom(s, 0);
    var j := TrimBack(s, i, |s|);
    if j == i {
      forall k | 0 <= k < |s| ensures IsSpace(s[k]) { }
    } else {
      assert !IsSpace(s[j - 1]);
    }
  }

  lemma {:induction false} RemoveSpacesConcat(a: string, b: string)
    ensures RemoveSpaces(a + b) == RemoveSpaces(a) + RemoveSpaces(b)
    decreases |a|
  {
    if a != [] {
      var head := if IsSpace(a[0]) then [] else [a[0]];
      assert (a + b)[0] == a[0];
      assert (a + b)[1..] == a[1..] + b;
      RemoveSpacesConcat(a[1..], b);
      calc {
        RemoveSpaces(a + b);
        head + RemoveSpaces(a[1..] + b);
        head + (RemoveSpaces(a[1..]) + RemoveSpaces(b));
        (head + RemoveSpaces(a[1..])) + RemoveSpaces(b);
      }
    } else {
      assert a + b == b;
    }
  }

  lemma {:induction false} RemoveSpacesOfBlank(s: string)
    requires IsBlank(s)
    ensures RemoveSpaces(s) == []
    decreases |s|
  {
    if s != [] {
      assert IsSpace(s[0]);
      assert IsBlank(s[1..]) by {
        forall k | 0 <= k < |s| - 1 ensures IsSpace(s[1..][k]) {
          assert s[1..][k] == s[k + 1];
        }
      }
      RemoveSpacesOfBlank(s[1..]);
    }
  }

  lemma {:induction false} RemoveSpacesOfWord(w: string)
    requires forall k :: 0 <= k < |w| ==> !IsSpace(w[k])
    ensures RemoveSpaces(w) == w
    decreases |w|
  {
    if w != [] {
      RemoveSpacesOfWord(w[1..]);
      assert w == [w[0]] + w[1..];
    }
  }

  /** Stripping removes whitespace only. */
  lemma StripKeepsContent(s: string)
    ensures RemoveSpaces(Strip(s)) == RemoveSpaces(s)
  {
    var i := SkipFrom(s, 0);
    var j := TrimBack(s, i, |s|);
    assert s == s[..i] + (s[i..j] + s[j..]);
    RemoveSpacesConcat(s[..i], s[i..j] + s[j..]);
    RemoveSpacesConcat(s[i..j], s[j..]);
    RemoveSpacesOfBlank(s[..i]);
    RemoveSpacesOfBlank(s[j..]);
  }

  // ---------------------------------------------------------------------------
  // split, join and collapse

  /** The split from `i` is empty exactly when `s[i..]` is blank. */
  lemma SplitFromEmptyIffBlank(s: string, i: nat)
    requires i <= |s|
    ensures SplitFrom(s, i) == [] <==> IsBlank(s[i..])
  {
    var j := SkipFrom(s, i);
    if j < |s| {
      assert s[i..][j - i] == s[j];
    }
  }

  /** Joining a word, a space and a collapsed non-empty text gives a collapsed text. */
  lemma CollapsedCons(w: string, b: string)
    requires IsToken(w) && IsCollapsed(b) && b != []
    ensures IsCollapsed(w + " " + b)
  {
    var s := w + " " + b;
    assert !IsSpace(b[0]);
    forall k | 0 <= k < |s| && IsSpace(s[k])
      ensures s[k] == ' ' && 0 < k && k + 1 < |s| && !IsSpace(s[k + 1])
    {
      if k == |w| {
        assert s[k + 1] == b[0];
      } else if k > |w| {
        assert s[k] == b[k - |w| - 1];
        if k + 1 < |s| { assert s[k + 1] == b[k - |w|]; }
      }
    }
  }

  /** Joining words with single spaces gives a collapsed text, non-empty when
      there is a word. */
  lemma {:induction false} JoinCollapsed(ws: seq<string>)
    requires forall n :: 0 <= n < |ws| ==> IsToken(ws[n])
    ensures IsCollapsed(Join(ws))
    ensures ws != [] ==> |Join(ws)| > 0
  {
    if |ws| == 1 {
      assert IsToken(ws[0]);
    } else if |ws| > 1 {
      JoinCollapsed(ws[1..]);
      assert IsToken(ws[0]);
      CollapsedCons(ws[0], Join(ws[1..]));
    }
  }

  /** Splitting from a whitespace character is splitting from the next one. */
  lemma SplitFromSpace(s: string, k: nat)
    requires k < |s| && IsSpace(s[k])
    ensures SplitFrom(s, k) == SplitFrom(s, k + 1)
  {
    assert SkipFrom(s, k) == SkipFrom(s, k + 1);
  }

  /** Splitting from the start of a word gives that word, then the split of
      what follows it. */
  lemma SplitFromWord(s: string, i: nat)
    requires i < |s| && !IsSpace(s[i])
    ensures SplitFrom(s, i) == [s[i..WordEnd(s, i)]] + SplitFrom(s, WordEnd(s, i))
  {
    assert SkipFrom(s, i) == i;
  }

  lemma JoinCons(w: string, rest: seq<string>)
    ensures Join([w] + rest) == if rest == [] then w else w + " " + Join(rest)
  {
    if rest != [] {
      assert ([w] + rest)[1..] == rest;
    }
  }

  /** The text from a word start is the word, a single space and the rest. */
  lemma SliceAtSpace(s: string, i: nat, k: nat)
    requires i <= k < |s| && s[k] == ' '
    ensures s[i..] == s[i..k] + " " + s[k + 1..]
  {
  }

  lemma CollapsedAtSpace(s: string, k: nat)
    requires IsCollapsed(s) && k < |s| && IsSpace(s[k])
    ensures s[k] == ' ' && k + 1 < |s| && !IsSpace(s[k + 1])
  {
  }

  /** One step of `JoinSplitOfCollapsed`: a word followed by a single space,
      given that the split after that space joins back to the rest. */
  lemma JoinSplitAtWord(s: string, i: nat)
    requires IsCollapsed(s) && i < |s| && !IsSpace(s[i]) && WordEnd(s, i) < |s|
    requires Join(SplitFrom(s, WordEnd(s, i) + 1)) == s[WordEnd(s, i) + 1..]
    ensures Join(SplitFrom(s, i)) == s[i..]
  {
    var k := WordEnd(s, i);
    CollapsedAtSpace(s, k);
    SplitFromWord(s, i);
    SplitFromSpace(s, k);
    SplitFromWord(s, k + 1);
    JoinCons(s[i..k], SplitFrom(s, k + 1));
    SliceAtSpace(s, i, k);
  }

  /** In a collapsed text, the split from the start of a word joins back to the
      rest of the text. */
  lemma {:induction false} JoinSplitOfCollapsed(s: string, i: nat)
    requires IsCollapsed(s) && i <= |s|
    requires i == 0 || s[i - 1] == ' '
    ensures Join(SplitFrom(s, i)) == s[i..]
    decreases |s| - i
  {
    if i < |s| {
      assert !IsSpace(s[i]);
      var k := WordEnd(s, i);
      if k < |s| {
        CollapsedAtSpace(s, k);
        JoinSplitOfCollapsed(s, k + 1);
        JoinSplitAtWord(s, i);
      } else {
        SplitFromWord(s, i);
        JoinCons(s[i..k], SplitFrom(s, k));
      }
    }
  }

  /** The collapse always has the collapsed shape. */
  lemma CollapseIsCollapsed(s: string)
    ensures IsCollapsed(Collapse(s))
  {
    JoinCollapsed(Split(s));
  }

  /** The fixpoints of the collapse are exactly the collapsed texts. */
  lemma CollapseFixpoints(s: string)
    ensures Collapse(s) == s <==> IsCollapsed(s)
  {
    CollapseIsCollapsed(s);
    if IsCollapsed(s) {
      JoinSplitOfCollapsed(s, 0);
    }
  }

  /** Collapsing twice is collapsing once. */
  lemma CollapseIdempotent(s: string)
    ensures Collapse(Collapse(s)) == Collapse(s)
  {
    CollapseIsCollapsed(s);
    JoinSplitOfCollapsed(Collapse(s), 0);
  }

  /** Splitting from `i` is splitting from the first non-whitespace position. */
  lemma SplitFromSkip(s: string, i: nat)
    requires i <= |s|
    ensures SplitFrom(s, i) == SplitFrom(s, SkipFrom(s, i))
  {
    var j := SkipFrom(s, i);
    assert SkipFrom(s, j) == j;
  }

  /** Whitespace, then a word, then the rest: the content is the word followed
      by the content of the rest. */
  lemma ContentOfWordRun(s: string, i: nat, j: nat, k: nat)
    requires i <= j <= k <= |s|
    requires forall m :: i <= m < j ==> IsSpace(s[m])
    requires forall m :: j <= m < k ==> !IsSpace(s[m])
    ensures RemoveSpaces(s[i..]) == s[j..k] + RemoveSpaces(s[k..])
  {
    assert s[i..] == s[i..j] + (s[j..k] + s[k..]);
    RemoveSpacesConcat(s[i..j], s[j..k] + s[k..]);
    RemoveSpacesConcat(s[j..k], s[k..]);
    RemoveSpacesOfBlank(s[i..j]);
    RemoveSpacesOfWord(s[j..k]);
  }

  lemma ContentAroundSpace(a: string, b: string)
    ensures RemoveSpaces(a + " " + b) == RemoveSpaces(a) + RemoveSpaces(b)
  {
    RemoveSpacesConcat(a + " ", b);
    RemoveSpacesConcat(a, " ");
    assert RemoveSpaces(" ") == [] by {
      assert IsSpace(' ');
      assert " "[1..] == [];
    }
  }

  lemma BlankContent(s: string, i: nat)
    requires i <= |s| && SplitFrom(s, i) == []
    ensures RemoveSpaces(s[i..]) == []
  {
    SplitFromEmptyIffBlank(s, i);
    RemoveSpacesOfBlank(s[i..]);
  }

  /** The split from `i` keeps every non-whitespace character of `s[i..]`. */
  lemma {:induction false} SplitFromKeepsContent(s: string, i: nat)
    requires i <= |s|
    ensures RemoveSpaces(Join(SplitFrom(s, i))) == RemoveSpaces(s[i..])
    decreases |s| - i
  {
    var j := SkipFrom(s, i);
    SplitFromSkip(s, i);
    if j == |s| {
      BlankContent(s, i);
    } else {
      var k := WordEnd(s, j);
      SplitFromWord(s, j);
      var rest := SplitFrom(s, k);
      SplitFromKeepsContent(s, k);
      ContentOfWordRun(s, i, j, k);
      RemoveSpacesOfWord(s[j..k]);
      JoinCons(s[j..k], rest);
      if rest == [] {
        BlankContent(s, k);
      } else {
        ContentAroundSpace(s[j..k], Join(rest));
      }
    }
  }

  /** The collapse keeps every non-whitespace character, in order. */
  lemma CollapseKeepsContent(s: string)
    ensures RemoveSpaces(Collapse(s)) == RemoveSpaces(s)
  {
    SplitFromKeepsContent(s, 0);
    assert s[0..] == s;
  }

  /** The collapse is empty exactly for blank text. */
  lemma CollapseEmptyIffBlank(s: string)
    ensures Collapse(s) == [] <==> IsBlank(s)
  {
    SplitFromEmptyIffBlank(s, 0);
    assert s[0..] == s;
    if Split(s) != [] {
      JoinCollapsed(Split(s));
    }
  }

  /** Two words around a run of whitespace: stripping keeps the text, and the
      collapse shrinks the run to one space. */
  lemma CollapseTwoWords(w1: string, gap: string, w2: string)
    requires IsToken(w1) && IsToken(w2) && gap != [] && IsBlank(gap)
    ensures Strip(w1 + gap + w2) == w1 + gap + w2
    ensures Collapse(w1 + gap + w2) == w1 + " " + w2
  {
    var s := w1 + gap + w2;
    var a, b := |w1|, |w1| + |gap|;
    assert s[0] == w1[0] && s[|s| - 1] == w2[|w2| - 1];
    assert SkipFrom(s, 0) == 0;
    assert TrimBack(s, 0, |s|) == |s|;
    assert s[0..|s|] == s;
    forall m | 0 <= m < a ensures !IsSpace(s[m]) { assert s[m] == w1[m]; }
    forall m | a <= m < b ensures IsSpace(s[m]) { assert s[m] == gap[m - a]; }
    forall m | b <= m < |s| ensures !IsSpace(s[m]) { assert s[m] == w2[m - b]; }
    assert IsSpace(s[a]) && !IsSpace(s[b]);
    assert WordEnd(s, 0) == a;
    assert SkipFrom(s, a) == b;
    assert WordEnd(s, b) == |s|;
    assert s[0..a] == w1 && s[b..|s|] == w2;
    assert SplitFrom(s, b) == [w2] by {
      SplitFromWord(s, b);
    }
    assert SplitFrom(s, a) == [w2];
    SplitFromWord(s, 0);
    assert Split(s) == [w1, w2];
    assert [w1, w2][1..] == [w2];
    assert Join([w1, w2]) == w1 + " " + Join([w2]);
  }
}
