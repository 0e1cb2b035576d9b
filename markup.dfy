/** The two markup passes of the summary: removing `<…>` tags with
    `replace(/<[^>]*>/g, ' ')`, and decoding six HTML entities with
    case-insensitive global replacements, in a fixed order. */
module Markup {

  // ------------------------------------------------------------ tag stripping

  /** Position of the first occurrence of `c` in `s`. */
  function IndexOf(s: string, c: char): (k: nat)
    requires c in s
    ensures k < |s| && s[k] == c
    ensures forall i :: 0 <= i < k ==> s[i] != c
  {
    if s[0] == c then 0 else assert c in s[1..]; 1 + IndexOf(s[1..], c)
  }

  /** `replace(/<[^>]*>/g, ' ')`. Scanning left to right, a `<` that has a
      later `>` starts a match that ends at the first such `>` (the class
      `[^>]` also takes `<`), and the match becomes one space; a `<` with no
      later `>` cannot start a match and is kept. */
  function StripTags(s: string): (r: string)
    ensures |r| <= |s|
    decreases |s|
  {
    if s == [] then []
    else if s[0] == '<' && '>' in s then [' '] + StripTags(s[IndexOf(s, '>') + 1..])
    else [s[0]] + StripTags(s[1..])
  }

  /** No `<` is followed, anywhere later, by a `>`: the pattern has no match. */
  predicate NoTag(s: string) {
    forall i, j :: 0 <= i < j < |s| && s[i] == '<' ==> s[j] != '>'
  }

  /** A tag, `<` up to the first `>`, becomes a single space. */
  lemma StripTagsTag(body: string, y: string)
    requires '>' !in body
    ensures StripTags(['<'] + body + ['>'] + y) == [' '] + StripTags(y)
  {
    var s := ['<'] + body + ['>'] + y;
    assert s[|body| + 1] == '>';
    assert forall i :: 0 <= i < |body| + 1 ==> s[i] != '>' by {
      assert forall i :: 0 < i < |body| + 1 ==> s[i] == body[i - 1];
    }
    assert IndexOf(s, '>') == |body| + 1;
    assert s[|body| + 2..] == y;
  }

  /** A character other than `<` is kept. */
  lemma StripTagsPlain(c: char, y: string)
    requires c != '<'
    ensures StripTags([c] + y) == [c] + StripTags(y)
  {
    assert ([c] + y)[1..] == y;
  }

  /** Text without `>` is kept verbatim, `<` included. */
  lemma {:induction false} StripTagsNoClose(s: string)
    requires '>' !in s
    ensures StripTags(s) == s
    decreases |s|
  {
    if s != [] {
      assert '>' !in s[1..];
      StripTagsNoClose(s[1..]);
    }
  }

  /** A prefix without `<` is kept verbatim. */
  lemma {:induction false} StripTagsPrefix(a: string, y: string)
    requires '<' !in a
    ensures StripTags(a + y) == a + StripTags(y)
    decreases |a|
  {
    if a == [] {
      assert a + y == y;
    } else {
      assert a[0] != '<' && '<' !in a[1..];
      StripTagsPlain(a[0], a[1..] + y);
      assert a + y == [a[0]] + (a[1..] + y);
      StripTagsPrefix(a[1..], y);
      assert [a[0]] + a[1..] == a;
    }
  }

  /** Stripping leaves no tag behind. */
  lemma {:induction false} StripTagsNoTag(s: string)
    ensures NoTag(StripTags(s))
    decreases |s|
  {
    if s == [] {
    } else if s[0] == '<' && '>' in s {
      StripTagsNoTag(s[IndexOf(s, '>') + 1..]);
    } else if s[0] == '<' {
      StripTagsNoClose(s);
    } else {
      StripTagsNoTag(s[1..]);
    }
  }

  /** Stripping changes exactly the text that holds a tag. */
  lemma {:induction false} StripTagsFixpoint(s: string)
    ensures StripTags(s) == s <==> NoTag(s)
    decreases |s|
  {
    StripTagsNoTag(s);
    if s != [] && NoTag(s) {
      assert NoTag(s[1..]);
      assert s[0] == '<' ==> '>' !in s;
      StripTagsFixpoint(s[1..]);
    }
  }

  // -------------------------------------------------------- entity decoding

  /** Case folding of a regular expression with the `i` flag and without the
      `u` flag: only ASCII letters fold, because no non-ASCII character
      folds to an ASCII one. */
  function Lower(c: char): char {
    if 'A' <= c <= 'Z' then (c as int + 32) as char else c
  }

  /** The lower-case pattern `pat` matches, ignoring ASCII case, at position
      `i` of `s`. */
  predicate MatchesAt(s: string, i: nat, pat: string) {
    && i + |pat| <= |s|
    && forall k :: 0 <= k < |pat| ==> Lower(s[i + k]) == pat[k]
  }

  /** The pattern matches somewhere in `s`. */
  predicate Occurs(s: string, pat: string) {
    exists i :: 0 <= i < |s| && MatchesAt(s, i, pat)
  }

  /** `s.replace(/pat/gi, rep)`: scanning left to right, each match is
      replaced and the scan resumes after it. */
  function ReplaceAll(s: string, pat: string, rep: string): (r: string)
    requires pat != []
    decreases |s|
  {
    if s == [] then []
    else if MatchesAt(s, 0, pat) then rep + ReplaceAll(s[|pat|..], pat, rep)
    else [s[0]] + ReplaceAll(s[1..], pat, rep)
  }

  /** Matching in a suffix is matching further along. */
  lemma MatchesAtSuffix(s: string, d: nat, i: nat, pat: string)
    requires d <= |s|
    ensures MatchesAt(s[d..], i, pat) <==> MatchesAt(s, d + i, pat)
  {
  }

  /** Where the pattern does not occur, replacing changes nothing. */
  lemma {:induction false} ReplaceAllNone(s: string, pat: string, rep: string)
    requires pat != [] && !Occurs(s, pat)
    ensures ReplaceAll(s, pat, rep) == s
    decreases |s|
  {
    if s != [] {
      assert !MatchesAt(s, 0, pat);
      assert !Occurs(s[1..], pat) by {
        forall i | 0 <= i < |s| - 1
          ensures !MatchesAt(s[1..], i, pat)
        {
          MatchesAtSuffix(s, 1, i, pat);
        }
      }
      ReplaceAllNone(s[1..], pat, rep);
    }
  }

  /** A replacement no longer than its pattern never lengthens the text, and
      one strictly shorter shortens every text in which the pattern occurs. */
  lemma {:induction false} ReplaceAllLength(s: string, pat: string, rep: string)
    requires pat != [] && |rep| <= |pat|
    ensures |ReplaceAll(s, pat, rep)| <= |s|
    ensures |rep| < |pat| && Occurs(s, pat) ==> |ReplaceAll(s, pat, rep)| < |s|
    decreases |s|
  {
    if s == [] {
    } else if MatchesAt(s, 0, pat) {
      ReplaceAllLength(s[|pat|..], pat, rep);
    } else {
      ReplaceAllLength(s[1..], pat, rep);
      if Occurs(s, pat) {
        var i :| 0 <= i < |s| && MatchesAt(s, i, pat);
        assert i != 0;
        MatchesAtSuffix(s, 1, i - 1, pat);
        assert Occurs(s[1..], pat);
      }
    }
  }

  /** With a strictly shorter replacement, the text is unchanged exactly when
      the pattern does not occur in it. */
  lemma ReplaceAllFixpoint(s: string, pat: string, rep: string)
    requires pat != [] && |rep| < |pat|
    ensures ReplaceAll(s, pat, rep) == s <==> !Occurs(s, pat)
  {
    ReplaceAllLength(s, pat, rep);
    if !Occurs(s, pat) {
      ReplaceAllNone(s, pat, rep);
    }
  }

  /** A match at the front is replaced and the scan resumes after it. */
  lemma ReplaceAllHit(u: string, y: string, pat: string, rep: string)
    requires pat != [] && |u| == |pat| && MatchesAt(u, 0, pat)
    ensures ReplaceAll(u + y, pat, rep) == rep + ReplaceAll(y, pat, rep)
  {
    assert (u + y)[|pat|..] == y;
  }

  /** A character where no match starts is kept. */
  lemma ReplaceAllMiss(c: char, y: string, pat: string, rep: string)
    requires pat != [] && !MatchesAt([c] + y, 0, pat)
    ensures ReplaceAll([c] + y, pat, rep) == [c] + ReplaceAll(y, pat, rep)
  {
    assert ([c] + y)[1..] == y;
  }

  /** Every entity pattern starts with `&`, so text without `&` in front of
      the rest of the input is kept. */
  lemma {:induction false} ReplaceAllPlainPrefix(a: string, y: string, pat: string, rep: string)
    requires pat != [] && pat[0] == '&' && '&' !in a
    ensures ReplaceAll(a + y, pat, rep) == a + ReplaceAll(y, pat, rep)
    decreases |a|
  {
    if a == [] {
      assert a + y == y;
    } else {
      assert Lower(a[0]) != '&';
      assert a + y == [a[0]] + (a[1..] + y);
      ReplaceAllMiss(a[0], a[1..] + y, pat, rep);
      ReplaceAllPlainPrefix(a[1..], y, pat, rep);
      assert [a[0]] + a[1..] == a;
    }
  }

  /** One entity: the lower-case pattern and the character it decodes to. */
  datatype Entity = Entity(pat: string, rep: string)

  /** The entities, in the order in which they are decoded. */
  const Entities: seq<Entity> := [
    Entity("&nbsp;", " "),
    Entity("&amp;", "&"),
    Entity("&lt;", "<"),
    Entity("&gt;", ">"),
    Entity("&quot;", "\""),
    Entity("&#39;", "'")
  ]

  /** A pattern that can match and whose replacement is shorter. */
  predicate Shrinks(e: Entity) {
    e.pat != [] && |e.rep| < |e.pat|
  }

  predicate AllShrink(es: seq<Entity>) {
    forall k :: 0 <= k < |es| ==> Shrinks(es[k])
  }

  /** Applying the replacements of `es` one after another, each over the
      whole text produced by the previous one. */
  function DecodeWith(s: string, es: seq<Entity>): string
    requires AllShrink(es)
    decreases |es|
  {
    if es == [] then s
    else DecodeWith(ReplaceAll(s, es[0].pat, es[0].rep), es[1..])
  }

  /** Decoding never lengthens the text. */
  lemma {:induction false} DecodeWithLength(s: string, es: seq<Entity>)
    requires AllShrink(es)
    ensures |DecodeWith(s, es)| <= |s|
    decreases |es|
  {
    if es != [] {
      ReplaceAllLength(s, es[0].pat, es[0].rep);
      DecodeWithLength(ReplaceAll(s, es[0].pat, es[0].rep), es[1..]);
    }
  }

  /** Decoding leaves the text unchanged exactly when none of the patterns
      occurs in it. */
  lemma {:induction false} DecodeWithFixpoint(s: string, es: seq<Entity>)
    requires AllShrink(es)
    ensures DecodeWith(s, es) == s <==> forall k :: 0 <= k < |es| ==> !Occurs(s, es[k].pat)
    decreases |es|
  {
    if es != [] {
      var a := ReplaceAll(s, es[0].pat, es[0].rep);
      ReplaceAllFixpoint(s, es[0].pat, es[0].rep);
      ReplaceAllLength(s, es[0].pat, es[0].rep);
      DecodeWithLength(a, es[1..]);
      DecodeWithFixpoint(s, es[1..]);
      if !Occurs(s, es[0].pat) {
        assert a == s;
      }
    }
  }

  /** The six replacements of the summary, one after another:
      `&nbsp;`, `&amp;`, `&lt;`, `&gt;`, `&quot;`, `&#39;`, each with the
      flags `gi`. */
  function DecodeEntities(s: string): string {
    var a := ReplaceAll(s, "&nbsp;", " ");
    var b := ReplaceAll(a, "&amp;", "&");
    var c := ReplaceAll(b, "&lt;", "<");
    var d := ReplaceAll(c, "&gt;", ">");
    var e := ReplaceAll(d, "&quot;", "\"");
    ReplaceAll(e, "&#39;", "'")
  }

  /** The summary's decoding changes text exactly when one of the six
      entities occurs in it, in any ASCII case. */
  lemma DecodeEntitiesFixpoint(s: string)
    ensures DecodeEntities(s) == s <==> forall k :: 0 <= k < |Entities| ==> !Occurs(s, Entities[k].pat)
  {
    DecodeEntitiesIsTable(s);
    DecodeWithFixpoint(s, Entities);
  }

  /** The chain of replacements is the table of entities applied in order. */
  lemma DecodeEntitiesIsTable(s: string)
    ensures DecodeEntities(s) == DecodeWith(s, Entities)
  {
  }

  /** Text without `&` has no entity to decode. */
  lemma DecodeEntitiesNoAmp(s: string)
    requires '&' !in s
    ensures DecodeEntities(s) == s
  {
    forall k, i | 0 <= k < |Entities| && 0 <= i < |s|
      ensures !MatchesAt(s, i, Entities[k].pat)
    {
      assert Entities[k].pat[0] == '&';
      assert Lower(s[i + 0]) != '&';
    }
    DecodeEntitiesFixpoint(s);
  }

  /** The last three replacements leave text without `&` alone. */
  lemma PlainUnchanged(s: string)
    requires '&' !in s
    ensures ReplaceAll(ReplaceAll(ReplaceAll(s, "&gt;", ">"), "&quot;", "\""), "&#39;", "'") == s
  {
    assert s + [] == s;
    ReplaceAllPlainPrefix(s, [], "&gt;", ">");
    ReplaceAllPlainPrefix(s, [], "&quot;", "\"");
    ReplaceAllPlainPrefix(s, [], "&#39;", "'");
  }

  /** Text whose only `&` is its first character, where the pattern does
      not match, is kept. */
  lemma ReplaceAllLoneAmp(s: string, pat: string, rep: string)
    requires pat != [] && pat[0] == '&' && s != [] && '&' !in s[1..]
    requires !MatchesAt(s, 0, pat)
    ensures ReplaceAll(s, pat, rep) == s
  {
    assert s == [s[0]] + s[1..];
    ReplaceAllMiss(s[0], s[1..], pat, rep);
    assert s[1..] + [] == s[1..];
    ReplaceAllPlainPrefix(s[1..], [], pat, rep);
  }

  /** `&amp;` followed by text without `&` decodes to `&` followed by that
      text, after the `&nbsp;` pass has kept it. */
  lemma AmpFirst(s: string, t: string)
    requires s == "&amp;" + t && '&' !in t
    ensures ReplaceAll(s, "&nbsp;", " ") == s
    ensures ReplaceAll(s, "&amp;", "&") == "&" + t
  {
    assert Lower(s[0 + 1]) != "&nbsp;"[1];
    ReplaceAllLoneAmp(s, "&nbsp;", " ");
    ReplaceAllHit("&amp;", t, "&amp;", "&");
    assert t + [] == t;
    ReplaceAllPlainPrefix(t, [], "&amp;", "&");
  }

  /** Decoding, seen as the first two passes followed by the last four. */
  lemma DecodeEntitiesVia(s: string, b: string, r: string)
    requires ReplaceAll(ReplaceAll(s, "&nbsp;", " "), "&amp;", "&") == b
    requires ReplaceAll(ReplaceAll(ReplaceAll(ReplaceAll(b, "&lt;", "<"), "&gt;", ">"), "&quot;", "\""), "&#39;", "'") == r
    ensures DecodeEntities(s) == r
  {
  }

  // The `Spell...` lemmas only regroup string literals; they stand apart so
  // that the solver does not unfold `ReplaceAll` on a literal in the same
  // proof as the passes.

  /** Two spellings of the same text. */
  lemma SpellLt(t: string)
    ensures "&amp;lt;" + t == "&amp;" + ("lt;" + t)
    ensures "&" + ("lt;" + t) == "&lt;" + t
  {
  }

  /** `&lt;` followed by text without `&` decodes to `<` and that text in
      the remaining passes. */
  lemma LtFirst(t: string)
    requires '&' !in t
    ensures ReplaceAll("&lt;" + t, "&lt;", "<") == "<" + t
    ensures ReplaceAll(ReplaceAll(ReplaceAll("<" + t, "&gt;", ">"), "&quot;", "\""), "&#39;", "'") == "<" + t
  {
    ReplaceAllHit("&lt;", t, "&lt;", "<");
    assert t + [] == t;
    ReplaceAllPlainPrefix(t, [], "&lt;", "<");
    PlainUnchanged("<" + t);
  }

  /** Two spellings of the same text. */
  lemma SpellNbsp(t: string)
    ensures "&amp;nbsp;" + t == "&amp;" + ("nbsp;" + t)
    ensures "&" + ("nbsp;" + t) == "&nbsp;" + t
    ensures ("&nbsp;" + t)[1..] == "nbsp;" + t
  {
  }

  /** `&amp;lt;` decodes in two steps to `<`: the `&` produced by the second
      replacement starts an entity for the third. */
  lemma DecodeAmpLt(t: string)
    requires '&' !in t
    ensures DecodeEntities("&amp;lt;" + t) == "<" + t
  {
    var s := "&amp;lt;" + t;
    SpellLt(t);
    AmpFirst(s, "lt;" + t);
    LtFirst(t);
    DecodeEntitiesVia(s, "&lt;" + t, "<" + t);
  }

  /** `&amp;nbsp;` decodes only to `&nbsp;`: the `&nbsp;` pass runs before
      the `&amp;` pass. */
  lemma DecodeAmpNbsp(t: string)
    requires '&' !in t
    ensures DecodeEntities("&amp;nbsp;" + t) == "&nbsp;" + t
  {
    var s := "&amp;nbsp;" + t;
    SpellNbsp(t);
    AmpFirst(s, "nbsp;" + t);
    NbspKept("&nbsp;" + t);
    DecodeEntitiesVia(s, "&nbsp;" + t, "&nbsp;" + t);
  }

  /** Once decoded from `&amp;nbsp;`, `&nbsp;` is not an entity for the
      remaining passes. */
  lemma NbspKept(s: string)
    requires |s| >= 2 && s[0] == '&' && s[1] == 'n' && '&' !in s[1..]
    ensures ReplaceAll(s, "&lt;", "<") == s
    ensures ReplaceAll(s, "&gt;", ">") == s
    ensures ReplaceAll(s, "&quot;", "\"") == s
    ensures ReplaceAll(s, "&#39;", "'") == s
  {
    assert Lower(s[0 + 1]) == 'n';
    assert "&lt;"[1] == 'l' && "&gt;"[1] == 'g' && "&quot;"[1] == 'q' && "&#39;"[1] == '#';
    ReplaceAllLoneAmp(s, "&lt;", "<");
    ReplaceAllLoneAmp(s, "&gt;", ">");
    ReplaceAllLoneAmp(s, "&quot;", "\"");
    ReplaceAllLoneAmp(s, "&#39;", "'");
  }
}
