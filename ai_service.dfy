/** The mocked AI service: `improveContent` and `generateSummary`, two
    deterministic text transforms over the whitespace and markup passes. */
module AiService {
  import opened Whitespace
  import opened Markup

  /** The note put in front of improved content. */
  const ImprovedTag: string := "[AI Improved] "

  /** The longest summary. */
  const SummaryLimit: nat := 200

  /** What ends a truncated summary. */
  const Ellipsis: string := "..."

  /** How much of a long text a truncated summary keeps. */
  const KeptLength: nat := 197

  // --------------------------------------------------------- improveContent

  /** `improveContent`: blank content comes back as it is, untrimmed;
      anything else gets the note followed by its words separated by single
      spaces. */
  function ImproveContent(content: string): (r: string)
    ensures IsBlank(content) ==> r == content
    ensures !IsBlank(content) ==> Words(content) != [] && r == ImprovedTag + Join(Words(content))
  {
    if IsBlank(content) then content
    else
      BlankIffAllWs(content);
      ImprovedTag + Clean(content)
  }

  /** The note is normalized text. */
  lemma ImprovedTagShape()
    ensures ImprovedTag == "[AI Improved]" + [' ']
    ensures Normalized("[AI Improved]")
  {
    var n := "[AI Improved]";
    assert forall i :: 0 <= i < |n| ==> n[i] != ' ' ==> !IsWs(n[i]);
    assert forall i :: 0 < i < |n| ==> n[i] == ' ' ==> n[i - 1] != ' ';
  }

  /** The improved part is non-empty, has no outer whitespace and no
      adjacent whitespace, and keeps the words of the input. */
  lemma ImprovedPart(content: string)
    requires !IsBlank(content)
    ensures var r := ImproveContent(content);
      && |r| > |ImprovedTag|
      && r[..|ImprovedTag|] == ImprovedTag
      && var c := r[|ImprovedTag|..];
         c != [] && Normalized(c) && Words(c) == Words(content) && Clean(c) == c
  {
    var c := Clean(content);
    BlankIffAllWs(content);
    CleanIdempotent(content);
    assert ImproveContent(content)[|ImprovedTag|..] == c;
  }

  /** Improved content is itself normalized, so trimming and collapsing it
      again changes nothing, and improving it again only adds a second
      note. */
  lemma ImproveTwice(content: string)
    requires !IsBlank(content)
    ensures Normalized(ImproveContent(content))
    ensures Clean(ImproveContent(content)) == ImproveContent(content)
    ensures ImproveContent(ImproveContent(content)) == ImprovedTag + ImproveContent(content)
  {
    var r := ImproveContent(content);
    var c := Clean(content);
    BlankIffAllWs(content);
    ImprovedTagShape();
    NormalizedSpaceJoin("[AI Improved]", c);
    assert r == "[AI Improved]" + [' '] + c;
    CleanFixpoint(r);
    assert !IsBlank(r) by {
      BlankIffAllWs(r);
      assert !IsWs(r[0]);
    }
  }

  // -------------------------------------------------------- generateSummary

  /** The text after tag stripping and the first trim. */
  function Stripped(content: string): string {
    Trim(StripTags(content))
  }

  /** The text after entity decoding, collapsing and the second trim: it is
      the decoded text cleaned. */
  function PlainText(content: string): (r: string)
    ensures r == Clean(DecodeEntities(Stripped(content)))
    ensures Normalized(r)
  {
    var d := DecodeEntities(Stripped(content));
    TrimCollapseIsClean(d);
    Trim(Collapse(d))
  }

  /** Cutting to the summary limit: short text is kept, long text keeps its
      first 197 characters and gains the ellipsis. */
  function Truncate(t: string): (r: string)
    ensures |r| <= SummaryLimit
    ensures |t| <= SummaryLimit ==> r == t
    ensures |t| > SummaryLimit ==>
      |r| == SummaryLimit && r[..KeptLength] == t[..KeptLength] && r[KeptLength..] == Ellipsis
  {
    if |t| <= SummaryLimit then t else t[..KeptLength] + Ellipsis
  }

  /** `generateSummary`. */
  function GenerateSummary(content: string): (r: string)
    ensures |r| <= SummaryLimit
    ensures IsBlank(content) ==> r == []
  {
    if IsBlank(content) then [] else Truncate(PlainText(content))
  }

  /** The early return for blank content gives what the pipeline would
      give anyway. */
  lemma SummaryGuard(content: string)
    ensures GenerateSummary(content) == Truncate(PlainText(content))
  {
    if IsBlank(content) {
      BlankIffAllWs(content);
      assert NoTag(content) by {
        assert forall i :: 0 <= i < |content| ==> IsWs(content[i]);
      }
      StripTagsFixpoint(content);
      assert Stripped(content) == [];
      DecodeEntitiesNoAmp([]);
      assert AllWs(DecodeEntities(Stripped(content)));
    }
  }

  /** The summary is the plain text when that fits, and otherwise its first
      197 characters followed by `...`, exactly 200 characters long. */
  lemma SummaryLength(content: string)
    ensures var p := PlainText(content);
      && (|p| <= SummaryLimit ==> GenerateSummary(content) == p)
      && (|p| > SummaryLimit ==>
            GenerateSummary(content) == p[..KeptLength] + Ellipsis
            && |GenerateSummary(content)| == SummaryLimit)
  {
    SummaryGuard(content);
  }

  /** Truncating normalized text keeps its spacing: no outer whitespace, only
      single spaces. */
  lemma TruncateShape(p: string)
    requires Normalized(p)
    ensures var r := Truncate(p);
      && (r != [] ==> !IsWs(r[0]) && !IsWs(r[|r| - 1]))
      && SpacesOnly(r)
      && NoDoubleWs(r)
  {
    if |p| > SummaryLimit {
      var r := p[..KeptLength] + Ellipsis;
      SpacingOfSlice(p, 0, KeptLength);
      assert r[|r| - 1] == '.';
      forall i | 0 < i < |r| && IsWs(r[i])
        ensures !IsWs(r[i - 1])
      {
        assert i < KeptLength;
        assert r[i] == p[i] && r[i - 1] == p[i - 1];
      }
    }
  }

  /** A summary never starts or ends with whitespace, holds only single
      spaces, and never two whitespace characters in a row, truncated or
      not. */
  lemma SummaryShape(content: string)
    ensures var r := GenerateSummary(content);
      && (r != [] ==> !IsWs(r[0]) && !IsWs(r[|r| - 1]))
      && SpacesOnly(r)
      && NoDoubleWs(r)
  {
    SummaryGuard(content);
    TruncateShape(PlainText(content));
  }

  // ------------------------------------------------- content with no words

  /** The non-breaking space entity, in any ASCII case. */
  const Nbsp: string := "&nbsp;"

  /** Text made only of whitespace characters, tags and `&nbsp;` entities. */
  predicate Filler(s: string)
    decreases |s|
  {
    if s == [] then true
    else if IsWs(s[0]) then Filler(s[1..])
    else if s[0] == '<' then '>' in s && Filler(s[IndexOf(s, '>') + 1..])
    else MatchesAt(s, 0, Nbsp) && Filler(s[|Nbsp|..])
  }

  /** Text made only of whitespace characters and `&nbsp;` entities. */
  predicate WsNbsp(s: string)
    decreases |s|
  {
    if s == [] then true
    else if IsWs(s[0]) then WsNbsp(s[1..])
    else MatchesAt(s, 0, Nbsp) && WsNbsp(s[|Nbsp|..])
  }

  /** A whitespace character can start no entity. */
  lemma WsNotAmp(c: char)
    requires IsWs(c)
    ensures Lower(c) != '&' && c != '<' && c != '>'
  {
  }

  /** The entity spelled at the front of `s`, followed by the rest. */
  lemma NbspFront(s: string)
    requires MatchesAt(s, 0, Nbsp)
    ensures s == s[..|Nbsp|] + s[|Nbsp|..]
    ensures '<' !in s[..|Nbsp|] && !IsWs(s[0]) && s[|Nbsp| - 1] == ';'
    ensures forall x :: MatchesAt(s[..|Nbsp|] + x, 0, Nbsp) && (s[..|Nbsp|] + x)[|Nbsp|..] == x
  {
    assert forall k :: 0 <= k < |Nbsp| ==> Lower(s[k]) == Nbsp[k];
    assert Lower(s[0]) == '&';
    assert Lower(s[5]) == ';';
    forall x
      ensures MatchesAt(s[..|Nbsp|] + x, 0, Nbsp)
    {
      assert forall k :: 0 <= k < |Nbsp| ==> (s[..|Nbsp|] + x)[k] == s[k];
    }
  }

  /** Stripping the tags of filler leaves whitespace and entities. */
  lemma {:induction false} FillerStrip(s: string)
    requires Filler(s)
    ensures WsNbsp(StripTags(s))
    decreases |s|
  {
    if s == [] {
    } else if IsWs(s[0]) {
      WsNotAmp(s[0]);
      FillerStrip(s[1..]);
      StripTagsPlain(s[0], s[1..]);
      assert s == [s[0]] + s[1..];
      assert ([s[0]] + StripTags(s[1..]))[1..] == StripTags(s[1..]);
    } else if s[0] == '<' {
      FillerStrip(s[IndexOf(s, '>') + 1..]);
      assert ([' '] + StripTags(s[IndexOf(s, '>') + 1..]))[1..] == StripTags(s[IndexOf(s, '>') + 1..]);
    } else {
      NbspFront(s);
      var e, rest := s[..|Nbsp|], s[|Nbsp|..];
      FillerStrip(rest);
      StripTagsPrefix(e, rest);
      assert StripTags(s) == e + StripTags(rest);
      assert (e + StripTags(rest))[0] == s[0];
    }
  }

  /** Dropping leading whitespace keeps whitespace-and-entity text so. */
  lemma {:induction false} WsNbspTrimStart(s: string)
    requires WsNbsp(s)
    ensures WsNbsp(TrimStart(s))
    decreases |s|
  {
    if s != [] && IsWs(s[0]) {
      WsNbspTrimStart(s[1..]);
      assert TrimStart(s) == TrimStart(s[1..]) by {
        TrimStartSkip([s[0]], s[1..]);
        assert [s[0]] + s[1..] == s;
      }
    }
  }

  /** Dropping trailing whitespace keeps whitespace-and-entity text so. */
  lemma {:induction false} WsNbspCut(s: string, m: nat)
    requires WsNbsp(s) && m <= |s| && AllWs(s[m..])
    ensures WsNbsp(s[..m])
    decreases |s|
  {
    if m == 0 {
    } else if IsWs(s[0]) {
      WsNbspCut(s[1..], m - 1);
      assert s[..m][1..] == s[1..][..m - 1];
    } else {
      NbspFront(s);
      NonWsBeforeWsSuffix(s, m, |Nbsp| - 1);
      WsNbspCut(s[|Nbsp|..], m - |Nbsp|);
      assert s[..m] == s[..|Nbsp|] + s[|Nbsp|..][..m - |Nbsp|];
    }
  }

  /** Trimming keeps whitespace-and-entity text so. */
  lemma WsNbspTrim(s: string)
    requires WsNbsp(s)
    ensures WsNbsp(Trim(s))
  {
    WsNbspTrimStart(s);
    var u := TrimStart(s);
    WsNbspCut(u, |u| - TrailWs(u));
  }

  /** The `&nbsp;` pass turns whitespace-and-entity text into whitespace. */
  lemma {:induction false} NbspPass(s: string)
    requires WsNbsp(s)
    ensures AllWs(ReplaceAll(s, Nbsp, " "))
    decreases |s|
  {
    if s == [] {
    } else if IsWs(s[0]) {
      WsNotAmp(s[0]);
      NbspPass(s[1..]);
      assert [s[0]] + s[1..] == s;
      assert Nbsp[0] == '&';
      ReplaceAllMiss(s[0], s[1..], Nbsp, " ");
      assert s == [s[0]] + s[1..];
    } else {
      NbspFront(s);
      NbspPass(s[|Nbsp|..]);
      ReplaceAllHit(s[..|Nbsp|], s[|Nbsp|..], Nbsp, " ");
    }
  }

  /** Decoding turns whitespace-and-entity text into whitespace. */
  lemma WsNbspDecode(s: string)
    requires WsNbsp(s)
    ensures AllWs(DecodeEntities(s))
  {
    var a := ReplaceAll(s, Nbsp, " ");
    NbspPass(s);
    assert '&' !in a;
    DecodeEntitiesNoAmp(a);
    ReplaceAllPlainPrefix(a, [], Nbsp, " ");
    assert a + [] == a;
  }

  /** Content made only of tags, whitespace and `&nbsp;` has an empty
      summary. */
  lemma SummaryOfFiller(content: string)
    requires Filler(content)
    ensures GenerateSummary(content) == []
  {
    FillerStrip(content);
    WsNbspTrim(StripTags(content));
    WsNbspDecode(Stripped(content));
    SummaryGuard(content);
  }

  // -------------------------------------------------------------- worked cases
  //
  // Each worked case is general in its words and reached pass by pass. The
  // `...Spelling` lemmas and `OpeningParagraph` only regroup string literals;
  // they stand apart so that the solver does not unfold `StripTags` or
  // `ReplaceAll` on a literal while it checks the rest of a proof.

  /** A paragraph element around text without tags is stripped to the text
      padded with one space on each side. */
  lemma ParagraphStrip(m: string)
    requires '<' !in m
    ensures StripTags("<p>" + m + "</p>") == " " + m + " "
  {
    var s := "<p>" + m + "</p>";
    assert s == ['<'] + "p" + ['>'] + (m + "</p>") by { OpeningParagraph(m); }
    assert StripTags(s) == [' '] + StripTags(m + "</p>") by { StripTagsTag("p", m + "</p>"); }
    assert StripTags(m + "</p>") == m + StripTags("</p>") by { StripTagsPrefix(m, "</p>"); }
    assert StripTags("</p>") == " " by { ClosingParagraph(); }
  }

  /** `<p>` followed by text, spelled as a tag. */
  lemma OpeningParagraph(m: string)
    ensures "<p>" + m + "</p>" == ['<'] + "p" + ['>'] + (m + "</p>")
  {
  }

  /** A closing `</p>` on its own becomes one space. */
  lemma ClosingParagraph()
    ensures StripTags("</p>") == " "
  {
    assert "</p>" == ['<'] + "/p" + ['>'] + [];
    StripTagsTag("/p", []);
  }

  /** The `&nbsp;` pass keeps `a &amp; b`. */
  lemma PhraseNbspPass(a: string, b: string)
    requires '&' !in a && '&' !in b
    ensures ReplaceAll(a + " &amp; " + b, Nbsp, " ") == a + " &amp; " + b
  {
    var y := "&amp; " + b;
    assert a + " &amp; " + b == (a + " ") + y;
    assert y[1..] == "amp; " + b;
    assert Lower(y[0 + 1]) != Nbsp[1];
    ReplaceAllLoneAmp(y, Nbsp, " ");
    ReplaceAllPlainPrefix(a + " ", y, Nbsp, " ");
  }

  /** The `&amp;` pass turns `a &amp; b` into `a & b`. */
  lemma PhraseAmpPass(a: string, b: string)
    requires '&' !in a && '&' !in b
    ensures ReplaceAll(a + " &amp; " + b, "&amp;", "&") == a + " & " + b
  {
    var y := " " + b;
    assert a + " &amp; " + b == (a + " ") + ("&amp;" + y);
    assert ReplaceAll("&amp;" + y, "&amp;", "&") == "&" + y by { AmpThenPlain(y); }
    assert ReplaceAll((a + " ") + ("&amp;" + y), "&amp;", "&") == (a + " ") + ReplaceAll("&amp;" + y, "&amp;", "&") by {
      ReplaceAllPlainPrefix(a + " ", "&amp;" + y, "&amp;", "&");
    }
    assert (a + " ") + ("&" + y) == a + " & " + b;
  }

  /** `&amp;` followed by text without `&` decodes to `&` and that text. */
  lemma AmpThenPlain(y: string)
    requires '&' !in y
    ensures ReplaceAll("&amp;" + y, "&amp;", "&") == "&" + y
  {
    ReplaceAllHit("&amp;", y, "&amp;", "&");
    ReplaceAllPlainPrefix(y, [], "&amp;", "&");
    assert y + [] == y;
  }

  /** A lone `&` followed by a space starts none of the last four entities. */
  lemma PhraseRestPasses(a: string, b: string)
    requires '&' !in a && '&' !in b
    ensures var n := a + " & " + b;
      ReplaceAll(ReplaceAll(ReplaceAll(ReplaceAll(n, "&lt;", "<"), "&gt;", ">"), "&quot;", "\""), "&#39;", "'") == n
  {
    var y := "& " + b;
    assert a + " & " + b == (a + " ") + y;
    assert y[1..] == " " + b;
    assert Lower(y[0 + 1]) == ' ';
    assert "&lt;"[1] != ' ' && "&gt;"[1] != ' ' && "&quot;"[1] != ' ' && "&#39;"[1] != ' ';
    ReplaceAllLoneAmp(y, "&lt;", "<");
    ReplaceAllLoneAmp(y, "&gt;", ">");
    ReplaceAllLoneAmp(y, "&quot;", "\"");
    ReplaceAllLoneAmp(y, "&#39;", "'");
    ReplaceAllPlainPrefix(a + " ", y, "&lt;", "<");
    ReplaceAllPlainPrefix(a + " ", y, "&gt;", ">");
    ReplaceAllPlainPrefix(a + " ", y, "&quot;", "\"");
    ReplaceAllPlainPrefix(a + " ", y, "&#39;", "'");
  }

  /** Two words joined by a spaced `&` make normalized text. */
  lemma PhraseNormalized(a: string, b: string)
    requires a != [] && b != [] && NoWs(a) && NoWs(b)
    ensures Normalized(a + " & " + b)
  {
    WordNormalized(a);
    WordNormalized(b);
    WordNormalized("&");
    NormalizedSpaceJoin(a, "&");
    NormalizedSpaceJoin(a + [' '] + "&", b);
    assert a + [' '] + "&" + [' '] + b == a + " & " + b;
  }

  /** `<p>a &amp; b</p>` stripped and trimmed is `a &amp; b`. */
  lemma ParagraphStripped(a: string, b: string)
    requires a != [] && b != [] && NoWs(a) && NoWs(b) && '<' !in a && '<' !in b
    ensures Stripped("<p>" + a + " &amp; " + b + "</p>") == a + " &amp; " + b
  {
    var m := a + " &amp; " + b;
    assert "<p>" + a + " &amp; " + b + "</p>" == "<p>" + m + "</p>";
    assert '<' !in m;
    ParagraphStrip(m);
    assert m[0] == a[0] && m[|m| - 1] == b[|b| - 1];
    TrimPadded(" ", m, " ");
  }

  /** `a &amp; b` decodes and cleans to `a & b`. */
  lemma PhrasePlain(a: string, b: string)
    requires a != [] && b != [] && NoWs(a) && NoWs(b) && '&' !in a && '&' !in b
    ensures Clean(DecodeEntities(a + " &amp; " + b)) == a + " & " + b
  {
    var m := a + " &amp; " + b;
    var n := a + " & " + b;
    PhraseNbspPass(a, b);
    PhraseAmpPass(a, b);
    PhraseRestPasses(a, b);
    DecodeEntitiesVia(m, n, n);
    PhraseNormalized(a, b);
    CleanFixpoint(n);
  }

  /** `<p>a &amp; b</p>` summarises to `a & b`: the tags go, the padding they
      leave is trimmed, and the entity is decoded. */
  lemma SummaryOfParagraph(a: string, b: string)
    requires a != [] && b != [] && NoWs(a) && NoWs(b)
    requires '<' !in a && '<' !in b && '&' !in a && '&' !in b
    requires |a| + |b| + 3 <= SummaryLimit
    ensures GenerateSummary("<p>" + a + " &amp; " + b + "</p>") == a + " & " + b
  {
    var x := "<p>" + a + " &amp; " + b + "</p>";
    ParagraphStripped(a, b);
    PhrasePlain(a, b);
    SummaryGuard(x);
  }

  /** The example of the service's documentation. */
  lemma SummaryHelloWelcome()
    ensures GenerateSummary("<p>Hello &amp; welcome</p>") == "Hello & welcome"
  {
    SummaryOfParagraph("Hello", "welcome");
    HelloWelcomeSpelling();
  }

  lemma HelloWelcomeSpelling()
    ensures "<p>" + "Hello" + " &amp; " + "welcome" + "</p>" == "<p>Hello &amp; welcome</p>"
    ensures "Hello" + " & " + "welcome" == "Hello & welcome"
  {
  }

  /** An escaped tag `&lt;w&gt;` is kept by every pass whose entity starts
      with neither `&l` nor `&g`. */
  lemma EscapedTagKept(w: string, pat: string, rep: string)
    requires '&' !in w && |pat| >= 2 && pat[0] == '&' && pat[1] != 'l' && pat[1] != 'g'
    ensures ReplaceAll("&lt;" + w + "&gt;", pat, rep) == "&lt;" + w + "&gt;"
  {
    var x := "&lt;" + w + "&gt;";
    assert x == ['&'] + (("lt;" + w) + "&gt;");
    assert Lower(x[0 + 1]) == 'l';
    ReplaceAllMiss('&', ("lt;" + w) + "&gt;", pat, rep);
    ReplaceAllPlainPrefix("lt;" + w, "&gt;", pat, rep);
    assert Lower("&gt;"[0 + 1]) == 'g';
    ReplaceAllLoneAmp("&gt;", pat, rep);
  }

  /** Ways of cutting `&lt;w&gt;` and `<w&gt;`. */
  lemma EscapedTagSpelling(w: string)
    ensures "&lt;" + w + "&gt;" == "&lt;" + (w + "&gt;")
    ensures "<" + (w + "&gt;") == "<" + w + "&gt;"
    ensures "<" + w + "&gt;" == ("<" + w) + "&gt;"
    ensures ("<" + w) + ">" == "<" + w + ">"
    ensures "&gt;" + [] == "&gt;" && ">" + [] == ">"
  {
  }

  /** The `&lt;` pass decodes the opening bracket. */
  lemma EscapedTagLtPass(w: string)
    requires '&' !in w
    ensures ReplaceAll("&lt;" + w + "&gt;", "&lt;", "<") == "<" + w + "&gt;"
  {
    EscapedTagSpelling(w);
    ReplaceAllHit("&lt;", w + "&gt;", "&lt;", "<");
    ReplaceAllPlainPrefix(w, "&gt;", "&lt;", "<");
    assert Lower("&gt;"[0 + 1]) == 'g' && "&lt;"[1] == 'l';
    ReplaceAllLoneAmp("&gt;", "&lt;", "<");
  }

  /** The `&gt;` pass decodes the closing bracket. */
  lemma EscapedTagGtPass(w: string)
    requires '&' !in w
    ensures ReplaceAll("<" + w + "&gt;", "&gt;", ">") == "<" + w + ">"
  {
    EscapedTagSpelling(w);
    ReplaceAllPlainPrefix("<" + w, "&gt;", "&gt;", ">");
    ReplaceAllHit("&gt;", [], "&gt;", ">");
  }

  /** The last two passes keep text without `&`. */
  lemma AmpFreeLastPasses(r: string)
    requires '&' !in r
    ensures ReplaceAll(ReplaceAll(r, "&quot;", "\""), "&#39;", "'") == r
  {
    assert r + [] == r;
    ReplaceAllPlainPrefix(r, [], "&quot;", "\"");
    ReplaceAllPlainPrefix(r, [], "&#39;", "'");
  }

  /** `&lt;w&gt;` has no tag and no outer whitespace, so stripping and
      trimming keep it. */
  lemma EscapedTagStripped(w: string)
    requires '<' !in w && '&' !in w
    ensures Stripped("&lt;" + w + "&gt;") == "&lt;" + w + "&gt;"
  {
    var x := "&lt;" + w + "&gt;";
    assert '<' !in x;
    StripTagsPrefix(x, []);
    assert x + [] == x;
    TrimPadded([], x, []);
    assert [] + x + [] == x;
  }

  /** `&lt;w&gt;` decodes to `<w>`. */
  lemma EscapedTagDecode(w: string)
    requires '&' !in w
    ensures DecodeEntities("&lt;" + w + "&gt;") == "<" + w + ">"
  {
    EscapedTagKept(w, Nbsp, " ");
    EscapedTagKept(w, "&amp;", "&");
    EscapedTagLtPass(w);
    EscapedTagGtPass(w);
    AmpFreeLastPasses("<" + w + ">");
    DecodeEntitiesVia("&lt;" + w + "&gt;", "&lt;" + w + "&gt;", "<" + w + ">");
  }

  /** An escaped tag is decoded into a tag, and the summary keeps it: the
      tags are stripped before the entities are decoded. */
  lemma SummaryOfEscapedTag(w: string)
    requires w != [] && NoWs(w) && '&' !in w && '<' !in w && |w| + 2 <= SummaryLimit
    ensures GenerateSummary("&lt;" + w + "&gt;") == "<" + w + ">"
    ensures !NoTag(GenerateSummary("&lt;" + w + "&gt;"))
  {
    var x := "&lt;" + w + "&gt;";
    var r := "<" + w + ">";
    EscapedTagStripped(w);
    EscapedTagDecode(w);
    WordNormalized(r);
    CleanFixpoint(r);
    SummaryGuard(x);
    assert r[0] == '<' && r[|r| - 1] == '>';
  }

  /** A double-escaped `&amp;nbsp;` before a word reaches the summary as the
      raw entity `&nbsp;`: the `&nbsp;` pass has run before the `&amp;` pass
      makes it. */
  lemma SummaryOfEscapedNbsp(w: string)
    requires NoWs(w) && '&' !in w && '<' !in w && |w| + |Nbsp| <= SummaryLimit
    ensures GenerateSummary("&amp;nbsp;" + w) == Nbsp + w
    ensures MatchesAt(GenerateSummary("&amp;nbsp;" + w), 0, Nbsp)
  {
    var x := "&amp;nbsp;" + w;
    var r := Nbsp + w;
    assert Stripped(x) == x by { EscapedNbspStripped(w); }
    assert DecodeEntities(x) == r by { DecodeAmpNbsp(w); }
    assert Clean(r) == r && MatchesAt(r, 0, Nbsp) by { NbspWord(w); }
    assert PlainText(x) == r;
    SummaryGuard(x);
  }

  /** `&nbsp;` followed by a word is already clean and starts with the
      entity. */
  lemma NbspWord(w: string)
    requires NoWs(w)
    ensures Clean(Nbsp + w) == Nbsp + w
    ensures MatchesAt(Nbsp + w, 0, Nbsp)
  {
    var r := Nbsp + w;
    assert forall i :: 0 <= i < |Nbsp| ==> r[i] == Nbsp[i];
    assert Clean(r) == r by {
      assert NoWs(r);
      WordNormalized(r);
      CleanFixpoint(r);
    }
    assert forall k :: 0 <= k < |Nbsp| ==> Lower(r[k]) == Nbsp[k] by { NbspLowerCase(); }
  }

  /** The entity pattern is written in lower case. */
  lemma NbspLowerCase()
    ensures forall k :: 0 <= k < |Nbsp| ==> Lower(Nbsp[k]) == Nbsp[k]
  {
    assert Nbsp == ['&', 'n', 'b', 's', 'p', ';'];
  }

  /** `&amp;nbsp;` and a word hold no tag and no outer white space. */
  lemma EscapedNbspStripped(w: string)
    requires NoWs(w) && '<' !in w
    ensures Stripped("&amp;nbsp;" + w) == "&amp;nbsp;" + w
  {
    var x := "&amp;nbsp;" + w;
    assert '<' !in x;
    StripTagsPrefix(x, []);
    assert x + [] == x;
    assert x[0] == '&' && !IsWs(x[|x| - 1]);
    TrimPadded([], x, []);
    assert [] + x + [] == x;
  }

  /** `&amp;nbsp;` alone summarises to the raw entity `&nbsp;`. */
  lemma SummaryOfDoubleEscapedNbsp()
    ensures GenerateSummary("&amp;nbsp;") == "&nbsp;"
  {
    SummaryOfEscapedNbsp([]);
    assert "&amp;nbsp;" + [] == "&amp;nbsp;";
  }

  /** The documented example of an escaped tag. */
  lemma SummaryOfEscapedBold()
    ensures GenerateSummary("&lt;b&gt;") == "<b>"
  {
    SummaryOfEscapedTag("b");
    EscapedBoldSpelling();
  }

  lemma EscapedBoldSpelling()
    ensures "&lt;" + "b" + "&gt;" == "&lt;b&gt;"
    ensures "<" + "b" + ">" == "<b>"
  {
  }
}
