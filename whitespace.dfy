/** JavaScript's white space, and the two whitespace operations the AI service
    applies to text: `String.prototype.trim` and `replace(/\s+/g, ' ')`.

    A string is a sequence of characters; each character stands for one
    UTF-16 code unit of the JavaScript string. */
module Whitespace {

  /** The characters matched by JavaScript's `\s` and removed by `trim()`:
      the WhiteSpace and LineTerminator productions of ECMA-262
      (sections 12.2 and 12.3). */
  predicate IsWs(c: char) {
    || c == '\t' || c == '\n' || c == '\U{B}' || c == '\U{C}' || c == '\r'
    || c == ' ' || c == '\U{A0}' || c == '\U{1680}'
    || ('\U{2000}' <= c <= '\U{200A}')
    || c == '\U{2028}' || c == '\U{2029}' || c == '\U{202F}' || c == '\U{205F}'
    || c == '\U{3000}' || c == '\U{FEFF}'
  }

  predicate AllWs(s: string) {
    forall i :: 0 <= i < |s| ==> IsWs(s[i])
  }

  predicate NoWs(s: string) {
    forall i :: 0 <= i < |s| ==> !IsWs(s[i])
  }

  /** Every whitespace character is the plain space U+0020. */
  predicate SpacesOnly(s: string) {
    forall i :: 0 <= i < |s| && IsWs(s[i]) ==> s[i] == ' '
  }

  /** No two adjacent characters are both whitespace. */
  predicate NoDoubleWs(s: string) {
    forall i :: 0 < i < |s| && IsWs(s[i]) ==> !IsWs(s[i - 1])
  }

  /** The shape of trimmed, collapsed text: no outer whitespace, and the only
      whitespace is single spaces between non-whitespace characters. */
  predicate Normalized(s: string) {
    && (s != [] ==> !IsWs(s[0]) && !IsWs(s[|s| - 1]))
    && SpacesOnly(s)
    && NoDoubleWs(s)
  }

  /** Cutting a string at `n` and gluing a suffix on the second part. */
  lemma SplitAppend(t: string, n: nat, y: string)
    requires n <= |t|
    ensures t + y == t[..n] + (t[n..] + y)
  {
  }

  /** Cutting a string at `n`. */
  lemma SplitAt(s: string, n: nat)
    requires n <= |s|
    ensures s == s[..n] + s[n..]
  {
  }

  /** Cutting a string around position `n`. */
  lemma SplitAround(s: string, n: nat)
    requires n < |s|
    ensures s == s[..n] + [s[n]] + s[n + 1..]
  {
  }

  // ---------------------------------------------------------------- trimming

  /** The number of leading whitespace characters. */
  function LeadWs(s: string): (n: nat)
    ensures n <= |s|
    ensures forall i :: 0 <= i < n ==> IsWs(s[i])
    ensures n == |s| || !IsWs(s[n])
  {
    if s != [] && IsWs(s[0]) then 1 + LeadWs(s[1..]) else 0
  }

  /** The number of trailing whitespace characters. */
  function TrailWs(s: string): (n: nat)
    ensures n <= |s|
    ensures forall i :: |s| - n <= i < |s| ==> IsWs(s[i])
    ensures n == |s| || !IsWs(s[|s| - n - 1])
  {
    if s != [] && IsWs(s[|s| - 1]) then 1 + TrailWs(s[..|s| - 1]) else 0
  }

  /** `trimStart()`: drop the leading whitespace. */
  function TrimStart(s: string): string {
    s[LeadWs(s)..]
  }

  /** `trimEnd()`: drop the trailing whitespace. */
  function TrimEnd(s: string): string {
    s[..|s| - TrailWs(s)]
  }

  /** `trim()`: drop the whitespace at both ends. */
  function Trim(s: string): string {
    TrimEnd(TrimStart(s))
  }

  /** `s.trim() === ''`. */
  predicate IsBlank(s: string) {
    Trim(s) == []
  }

  /** The leading-whitespace count is determined by its two properties. */
  lemma LeadWsUnique(s: string, k: nat)
    requires k <= |s| && (forall i :: 0 <= i < k ==> IsWs(s[i])) && (k == |s| || !IsWs(s[k]))
    ensures LeadWs(s) == k
  {
  }

  /** The trailing-whitespace count is determined by its two properties. */
  lemma TrailWsUnique(s: string, k: nat)
    requires k <= |s| && (forall i :: |s| - k <= i < |s| ==> IsWs(s[i]))
    requires k == |s| || !IsWs(s[|s| - k - 1])
    ensures TrailWs(s) == k
  {
  }

  /** Trimmed text has no whitespace at either end. */
  lemma TrimEnds(s: string)
    ensures var t := Trim(s); t != [] ==> !IsWs(t[0]) && !IsWs(t[|t| - 1])
  {
    var u := TrimStart(s);
    var t := TrimEnd(u);
    if t != [] {
      assert t[0] == u[0];
    }
  }

  /** A string is blank exactly when every character is whitespace. */
  lemma BlankIffAllWs(s: string)
    ensures IsBlank(s) <==> AllWs(s)
  {
    var k := LeadWs(s);
    var u := s[k..];
    if AllWs(s) {
      LeadWsUnique(s, |s|);
    }
    if IsBlank(s) {
      assert TrailWs(u) == |u|;
      assert k == |s|;
    }
  }

  /** Leading whitespace makes no difference to trimStart. */
  lemma TrimStartSkip(w: string, y: string)
    requires AllWs(w)
    ensures TrimStart(w + y) == TrimStart(y)
  {
    var k := LeadWs(y);
    assert forall i :: 0 <= i < |w| + k ==> IsWs((w + y)[i]) by {
      forall i | 0 <= i < |w| + k ensures IsWs((w + y)[i]) {
        if i >= |w| {
          assert (w + y)[i] == y[i - |w|];
        }
      }
    }
    LeadWsUnique(w + y, |w| + k);
  }

  /** Trailing whitespace makes no difference to trimEnd. */
  lemma TrimEndSkip(a: string, w: string)
    requires AllWs(w)
    ensures TrimEnd(a + w) == TrimEnd(a)
  {
    var k := TrailWs(a);
    assert forall i :: |a + w| - (|w| + k) <= i < |a + w| ==> IsWs((a + w)[i]) by {
      forall i | |a + w| - (|w| + k) <= i < |a + w| ensures IsWs((a + w)[i]) {
        if i < |a| {
          assert (a + w)[i] == a[i];
        }
      }
    }
    TrailWsUnique(a + w, |w| + k);
    assert (a + w)[..|a| - k] == a[..|a| - k];
  }

  // ------------------------------------------------------------- collapsing

  /** `replace(/\s+/g, ' ')`: every maximal run of whitespace becomes one
      space, scanning left to right. */
  function Collapse(s: string): string
    decreases |s|
  {
    if s == [] then []
    else if IsWs(s[0]) then [' '] + Collapse(TrimStart(s))
    else [s[0]] + Collapse(s[1..])
  }

  /** Collapsed text is never longer, is empty only when the input is, keeps
      whitespace at either end exactly where the input has it, and holds only
      single spaces. */
  lemma {:induction false} CollapseShape(s: string)
    ensures |Collapse(s)| <= |s|
    ensures Collapse(s) == [] <==> s == []
    ensures s != [] ==> (IsWs(Collapse(s)[0]) <==> IsWs(s[0]))
    ensures s != [] ==> (IsWs(Collapse(s)[|Collapse(s)| - 1]) <==> IsWs(s[|s| - 1]))
    ensures SpacesOnly(Collapse(s)) && NoDoubleWs(Collapse(s))
    decreases |s|
  {
    if s == [] {
    } else if IsWs(s[0]) {
      var t := TrimStart(s);
      CollapseShape(t);
      var c := Collapse(t);
      assert Collapse(s) == [' '] + c;
      if t != [] {
        assert t[|t| - 1] == s[|s| - 1];
      }
    } else {
      CollapseShape(s[1..]);
      var c := Collapse(s[1..]);
      assert Collapse(s) == [s[0]] + c;
      if s[1..] != [] {
        assert s[1..][|s| - 2] == s[|s| - 1];
      }
    }
  }

  /** A word followed by anything collapses to the word followed by the
      collapsed rest. */
  lemma {:induction false} CollapseWordPrefix(w: string, y: string)
    requires NoWs(w)
    ensures Collapse(w + y) == w + Collapse(y)
    decreases |w|
  {
    if w == [] {
      assert w + y == y;
    } else {
      assert (w + y)[0] == w[0] && (w + y)[1..] == w[1..] + y;
      CollapseWordPrefix(w[1..], y);
      assert w == [w[0]] + w[1..];
    }
  }

  /** Collapsing changes nothing in text whose whitespace is already single
      spaces. */
  lemma {:induction false} CollapseFixpoint(t: string)
    requires SpacesOnly(t) && NoDoubleWs(t)
    ensures Collapse(t) == t
    decreases |t|
  {
    if t != [] {
      if IsWs(t[0]) {
        LeadWsUnique(t, 1);
      }
      CollapseFixpoint(t[1..]);
      assert t == [t[0]] + t[1..];
    }
  }

  // -------------------------------------------- words: the reference meaning

  /** The length of the longest prefix without whitespace. */
  function WordLen(t: string): (n: nat)
    ensures n <= |t|
    ensures forall i :: 0 <= i < n ==> !IsWs(t[i])
    ensures n == |t| || IsWs(t[n])
  {
    if t == [] || IsWs(t[0]) then 0 else 1 + WordLen(t[1..])
  }

  /** The maximal runs of non-whitespace characters, in order. */
  function Words(s: string): (ws: seq<string>)
    ensures forall k :: 0 <= k < |ws| ==> ws[k] != [] && NoWs(ws[k])
    decreases |s|
  {
    var t := TrimStart(s);
    if t == [] then []
    else
      var n := WordLen(t);
      [t[..n]] + Words(t[n..])
  }

  /** The words separated by single spaces. */
  function Join(ws: seq<string>): string
  {
    if |ws| == 0 then []
    else if |ws| == 1 then ws[0]
    else ws[0] + [' '] + Join(ws[1..])
  }

  /** The word length is determined by its two properties. */
  lemma WordLenUnique(t: string, k: nat)
    requires k <= |t| && (forall i :: 0 <= i < k ==> !IsWs(t[i])) && (k == |t| || IsWs(t[k]))
    ensures WordLen(t) == k
  {
  }

  /** A word at the front is the first word. */
  lemma WordsCons(w: string, y: string)
    requires w != [] && NoWs(w) && (y == [] || IsWs(y[0]))
    ensures Words(w + y) == [w] + Words(y)
  {
    var s := w + y;
    LeadWsUnique(s, 0);
    assert TrimStart(s) == s;
    assert forall i :: 0 <= i < |w| ==> !IsWs(s[i]);
    WordLenUnique(s, |w|);
    assert s[..|w|] == w && s[|w|..] == y;
  }

  /** Leading whitespace does not change the words. */
  lemma WordsSkipWs(w: string, y: string)
    requires AllWs(w)
    ensures Words(w + y) == Words(y)
  {
    TrimStartSkip(w, y);
  }

  /** Only whitespace means no words. */
  lemma WordsOfBlank(w: string)
    requires AllWs(w)
    ensures Words(w) == []
  {
    LeadWsUnique(w, |w|);
  }

  /** The words of a string are those after its leading whitespace. */
  lemma WordsDropLead(s: string)
    ensures Words(s) == Words(s[LeadWs(s)..])
  {
    var k := LeadWs(s);
    assert AllWs(s[..k]) && s == s[..k] + s[k..];
    WordsSkipWs(s[..k], s[k..]);
  }

  /** The first word of text that starts with one, when what follows is
      whitespace or nothing. */
  lemma WordsAfterWord(t: string, y: string)
    requires t != [] && !IsWs(t[0]) && (y == [] || IsWs(y[0]))
    ensures Words(t + y) == [t[..WordLen(t)]] + Words(t[WordLen(t)..] + y)
  {
    var n := WordLen(t);
    var rest := t[n..] + y;
    SplitAppend(t, n, y);
    assert rest == [] || IsWs(rest[0]) by {
      if n < |t| {
        assert rest[0] == t[n];
      } else {
        assert rest == y;
      }
    }
    assert NoWs(t[..n]);
    WordsCons(t[..n], rest);
  }

  /** Trailing whitespace does not change the words. */
  lemma {:induction false} WordsAppendWs(a: string, w: string)
    requires AllWs(w)
    ensures Words(a + w) == Words(a)
    decreases |a|
  {
    var k := LeadWs(a);
    var t := a[k..];
    assert Words(a + w) == Words(t + w) by {
      assert AllWs(a[..k]) && a + w == a[..k] + (t + w);
      WordsSkipWs(a[..k], t + w);
    }
    WordsDropLead(a);
    if t == [] {
      assert t + w == w;
      WordsOfBlank(w);
      WordsOfBlank(t);
    } else {
      var n := WordLen(t);
      assert Words(t + w) == [t[..n]] + Words(t[n..] + w) by {
        WordsAfterWord(t, w);
      }
      assert Words(t) == [t[..n]] + Words(t[n..]) by {
        WordsAfterWord(t, []);
        assert t + [] == t && t[n..] + [] == t[n..];
      }
      WordsAppendWs(t[n..], w);
    }
  }

  /** Trimming does not change the words. */
  lemma WordsTrim(s: string)
    ensures Words(Trim(s)) == Words(s)
  {
    var u := TrimStart(s);
    assert Words(u) == Words(s) by { WordsDropLead(s); }
    var m := |u| - TrailWs(u);
    var e := u[..m];
    assert Trim(s) == e;
    assert AllWs(u[m..]);
    assert Words(e + u[m..]) == Words(e) by { WordsAppendWs(e, u[m..]); }
    assert e + u[m..] == u by { SplitAt(u, m); }
  }

  /** A leading whitespace run collapses to one space, which does not
      change the words. */
  lemma WordsCollapseLeadWs(s: string)
    requires s != [] && IsWs(s[0])
    ensures Words(Collapse(s)) == Words(Collapse(TrimStart(s)))
    ensures Words(s) == Words(TrimStart(s))
  {
    var t := TrimStart(s);
    assert Collapse(s) == [' '] + Collapse(t);
    assert AllWs([' ']);
    WordsSkipWs([' '], Collapse(t));
    WordsDropLead(s);
  }

  /** A leading word survives collapsing as the first word. */
  lemma WordsCollapseLeadWord(s: string)
    requires s != [] && !IsWs(s[0])
    ensures var n := WordLen(s);
      && Words(s) == [s[..n]] + Words(s[n..])
      && Words(Collapse(s)) == [s[..n]] + Words(Collapse(s[n..]))
  {
    var n := WordLen(s);
    var w, rest := s[..n], s[n..];
    assert Words(s) == [w] + Words(rest) by {
      WordsAfterWord(s, []);
      assert s + [] == s && rest + [] == rest;
    }
    assert s == w + rest;
    CollapseWordPrefix(w, rest);
    CollapseShape(rest);
    WordsCons(w, Collapse(rest));
  }

  /** Collapsing whitespace does not change the words. */
  lemma {:induction false} WordsCollapse(s: string)
    ensures Words(Collapse(s)) == Words(s)
    decreases |s|
  {
    if s == [] {
    } else if IsWs(s[0]) {
      WordsCollapseLeadWs(s);
      WordsCollapse(TrimStart(s));
    } else {
      WordsCollapseLeadWord(s);
      WordsCollapse(s[WordLen(s)..]);
    }
  }

  /** Joining a word in front of a non-empty list of words. */
  lemma JoinCons(w: string, ws: seq<string>)
    requires ws != []
    ensures Join([w] + ws) == w + [' '] + Join(ws)
  {
    assert ([w] + ws)[1..] == ws;
  }

  /** Slicing keeps whitespace single spaces. */
  lemma SpacingOfSlice(s: string, i: nat, j: nat)
    requires i <= j <= |s| && SpacesOnly(s) && NoDoubleWs(s)
    ensures SpacesOnly(s[i..j]) && NoDoubleWs(s[i..j])
  {
    var u := s[i..j];
    assert forall p :: 0 <= p < |u| ==> u[p] == s[i + p];
  }

  /** A suffix of normalized text that starts at a non-whitespace character
      is normalized. */
  lemma NormalizedSuffix(t: string, i: nat)
    requires Normalized(t) && i < |t| && !IsWs(t[i])
    ensures Normalized(t[i..])
  {
    var u := t[i..];
    assert forall j :: 0 <= j < |u| ==> u[j] == t[i + j];
  }

  /** In normalized text a word that does not reach the end is followed by
      one space and then a non-whitespace character. */
  lemma NormalizedAfterWord(t: string, n: nat)
    requires Normalized(t) && n == WordLen(t) < |t|
    ensures n + 1 < |t| && t[n] == ' ' && !IsWs(t[n + 1])
  {
    assert IsWs(t[n]);
  }

  /** Skipping the single space after a word keeps the remaining words. */
  lemma WordsAfterSpace(t: string, n: nat)
    requires n < |t| && t[n] == ' '
    ensures Words(t[n..]) == Words(t[n + 1..])
  {
    assert t[n..] == [' '] + t[n + 1..];
    assert AllWs([' ']);
    WordsSkipWs([' '], t[n + 1..]);
  }

  /** Normalized text is its own words joined by single spaces. */
  lemma {:induction false} NormalizedIsJoinOfWords(t: string)
    requires Normalized(t)
    ensures Join(Words(t)) == t
    decreases |t|
  {
    if t == [] {
      WordsOfBlank(t);
    } else {
      var n := WordLen(t);
      var w, rest := t[..n], t[n..];
      assert Words(t) == [w] + Words(rest) by {
        WordsAfterWord(t, []);
        assert t + [] == t && rest + [] == rest;
      }
      if rest == [] {
        WordsOfBlank(rest);
        assert t == w;
      } else {
        var u := t[n + 1..];
        NormalizedAfterWord(t, n);
        NormalizedSuffix(t, n + 1);
        WordsAfterSpace(t, n);
        assert t == w + [' '] + u by {
          SplitAround(t, n);
        }
        NormalizedIsJoinOfWords(u);
        assert Words(u) != [] by {
          LeadWsUnique(u, 0);
        }
        JoinCons(w, Words(u));
      }
    }
  }

  /** Joining non-empty words and splitting the result again gives back the
      words. */
  lemma {:induction false} WordsOfJoin(ws: seq<string>)
    requires forall k :: 0 <= k < |ws| ==> ws[k] != [] && NoWs(ws[k])
    ensures Words(Join(ws)) == ws
    decreases |ws|
  {
    if |ws| == 0 {
      assert Join(ws) == [];
      WordsOfBlank([]);
    } else if |ws| == 1 {
      WordsOfWord(ws[0]);
    } else {
      WordsOfJoinStep(ws);
      WordsOfJoin(ws[1..]);
      assert ws == [ws[0]] + ws[1..];
    }
  }

  /** A single word is its own only word. */
  lemma WordsOfWord(w: string)
    requires w != [] && NoWs(w)
    ensures Words(w) == [w]
  {
    WordsCons(w, []);
    assert w + [] == w;
    WordsOfBlank([]);
  }

  /** The first word of a join, then the words of the rest. */
  lemma WordsOfJoinStep(ws: seq<string>)
    requires |ws| >= 2 && ws[0] != [] && NoWs(ws[0])
    ensures Words(Join(ws)) == [ws[0]] + Words(Join(ws[1..]))
  {
    var rest := Join(ws[1..]);
    assert Join(ws) == ws[0] + ([' '] + rest);
    WordsCons(ws[0], [' '] + rest);
    assert AllWs([' ']);
    WordsSkipWs([' '], rest);
  }

  // ------------------------------------------- trim, then collapse (cleaning)

  /** `s.trim().replace(/\s+/g, ' ')`. */
  function Clean(s: string): (r: string)
    ensures Normalized(r)
    ensures Words(r) == Words(s)
    ensures r == Join(Words(s))
    ensures r == [] <==> AllWs(s)
  {
    var t := Trim(s);
    var r := Collapse(t);
    TrimEnds(s);
    CollapseShape(t);
    WordsCollapse(t);
    WordsTrim(s);
    NormalizedIsJoinOfWords(r);
    BlankIffAllWs(s);
    r
  }

  /** Cleaning is the identity exactly on normalized text. */
  lemma CleanFixpoint(t: string)
    ensures Clean(t) == t <==> Normalized(t)
  {
    if Normalized(t) {
      NormalizedIsJoinOfWords(t);
    }
  }

  /** Cleaning twice is cleaning once. */
  lemma CleanIdempotent(s: string)
    ensures Clean(Clean(s)) == Clean(s)
  {
    CleanFixpoint(Clean(s));
  }

  /** Collapsing before trimming gives the same text as trimming before
      collapsing. */
  lemma TrimCollapseIsClean(s: string)
    ensures Trim(Collapse(s)) == Clean(s)
  {
    var c := Collapse(s);
    var t := Trim(c);
    TrimOfCollapsed(s);
    assert Words(t) == Words(s) by {
      WordsTrim(c);
      WordsCollapse(s);
    }
    NormalizedIsJoinOfWords(t);
  }

  /** Trimming collapsed text normalizes it. */
  lemma TrimOfCollapsed(s: string)
    ensures Normalized(Trim(Collapse(s)))
  {
    var c := Collapse(s);
    CollapseShape(s);
    TrimEnds(c);
    var u := TrimStart(c);
    SpacingOfSlice(c, LeadWs(c), |c|);
    SpacingOfSlice(u, 0, |u| - TrailWs(u));
  }

  /** Two normalized texts joined by one space make normalized text. */
  lemma NormalizedSpaceJoin(a: string, b: string)
    requires Normalized(a) && Normalized(b) && a != [] && b != []
    ensures Normalized(a + [' '] + b)
  {
    var t := a + [' '] + b;
    forall i | 0 < i < |t| && IsWs(t[i])
      ensures !IsWs(t[i - 1])
    {
      if i > |a| + 1 {
        assert t[i] == b[i - |a| - 1] && t[i - 1] == b[i - |a| - 2];
      } else if i < |a| {
        assert t[i] == a[i] && t[i - 1] == a[i - 1];
      }
    }
  }

  /** Trimming removes exactly the whitespace padding around text whose ends
      are not whitespace. */
  lemma TrimPadded(w1: string, m: string, w2: string)
    requires AllWs(w1) && AllWs(w2)
    requires m != [] && !IsWs(m[0]) && !IsWs(m[|m| - 1])
    ensures Trim(w1 + m + w2) == m
  {
    assert TrimStart(w1 + m + w2) == m + w2 by { TrimStartPadded(w1, m, w2); }
    assert TrimEnd(m + w2) == m by { TrimEndPadded(m, w2); }
  }

  /** The leading padding is exactly what `trimStart()` removes. */
  lemma TrimStartPadded(w1: string, m: string, w2: string)
    requires AllWs(w1) && m != [] && !IsWs(m[0])
    ensures TrimStart(w1 + m + w2) == m + w2
  {
    assert w1 + m + w2 == w1 + (m + w2);
    TrimStartSkip(w1, m + w2);
    LeadWsUnique(m + w2, 0);
  }

  /** The trailing padding is exactly what `trimEnd()` removes. */
  lemma TrimEndPadded(m: string, w2: string)
    requires AllWs(w2) && m != [] && !IsWs(m[|m| - 1])
    ensures TrimEnd(m + w2) == m
  {
    TrimEndSkip(m, w2);
    TrailWsUnique(m, 0);
  }

  /** A character that is not whitespace lies before an all-whitespace
      suffix. */
  lemma NonWsBeforeWsSuffix(s: string, m: nat, j: nat)
    requires m <= |s| && AllWs(s[m..]) && j < |s| && !IsWs(s[j])
    ensures j < m
  {
  }

  /** A single word is normalized text. */
  lemma WordNormalized(w: string)
    requires w != [] && NoWs(w)
    ensures Normalized(w)
  {
  }
}
