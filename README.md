# Knowledge-sharing backend: article handlers, text service and token check

This project models the core of a small REST backend where users write
articles. It has four parts:

- **Text service** (`services/aiService.js`). It holds two deterministic
  string transforms.
  - `improveContent` trims the content, collapses whitespace runs to single
    spaces and prefixes `[AI Improved] `.
  - `generateSummary` makes the list-view snippet. It replaces tags with
    spaces, trims, decodes six HTML entities case-insensitively in a fixed
    order, collapses whitespace, trims again, and truncates to 200
    characters (197 kept plus `...`).
- **Article model** (`models/Article.js`). It defines the article record,
  the five-value category enumeration and the author link through `userId`.
- **Article handlers** (`controllers/articleController.js`).
  - `createArticle` answers 400, 201 or 500.
  - `getArticle` answers 404 or 200.
  - `updateArticle` answers 404, 403, 200 or 500. It uses the `??` merge of
    the body with the stored article and recomputes the summary only when
    the content is truthy.
  - `myArticles` lists the caller's own articles.
  - `deleteArticle` answers 404, 403 or 200.
- **Token check** (`middleware/auth.js`). The token is field 1 of the
  `Authorization` header split on single spaces. A missing token gives 401.
  A token the verifier rejects gives 403. Otherwise the decoded claims are
  attached to the request and the next handler runs.

The Dafny modules follow this split:

- `Wrappers` holds `Option` and JavaScript truthiness.
- `Whitespace` holds the ECMA-262 white-space set, `trim` and `replace(/\s+/g, ' ')`. It also has a reference definition, `Join(Words(s))`.
- `Markup` holds tag stripping and the case-insensitive entity passes.
- `AiService` holds the two service functions.
- `ArticleModel` holds the record, the category and the summary invariant.
- `ArticleController` holds the pure decisions and the class `ArticleStore`. That class keeps the article table as a `map` field, and its `Create`, `Update` and `Delete` methods change that field.
- `Auth` holds the header split, the decision, and the class `Exchange`. That class holds the request/response state that `authenticate` mutates.

The database is an in-memory table keyed by id. The token verifier
(`jwt.verify` with the server secret) is a function parameter that returns
`None` where the library throws.

The documented intent is that a summary contains no markup and no raw
entity. The code does not keep that promise, and the model follows the code:

- An escaped tag is decoded after the tags are stripped, so it comes back as
  a tag. `AiService.SummaryOfEscapedTag` shows `&lt;b&gt;` summarising to
  `<b>`.
- The `&amp;` pass runs after the `&nbsp;` pass, so a double-escaped entity
  survives. `AiService.SummaryOfDoubleEscapedNbsp` shows `&amp;nbsp;`
  summarising to the raw entity `&nbsp;`.

## Model

| member | source | states |
|---|---|---|
| Whitespace.BlankIffAllWs | services/aiService.js:13 | `content.trim() === ''` holds exactly when every character is ECMA-262 white space |
| Whitespace.Clean | services/aiService.js:16 | trimming then collapsing gives normalized text with the same words as the input; it equals the reference `Join(Words(s))`; it is empty exactly when the input is all white space |
| Whitespace.CleanIdempotent | services/aiService.js:16 | cleaning twice is cleaning once |
| Whitespace.CleanFixpoint | services/aiService.js:16 | cleaning leaves a string unchanged exactly when it is already normalized |
| Whitespace.TrimCollapseIsClean | services/aiService.js:40-41 | collapsing then trimming (the summary's order) gives the same text as trimming then collapsing (the improver's order) |
| Whitespace.CollapseShape | services/aiService.js:16 | the collapse never lengthens; it is empty only on empty input; it keeps whether each end is white space; its only white space is single plain spaces |
| Whitespace.CollapseFixpoint | services/aiService.js:40 | text whose white space is single plain spaces is unchanged by the collapse |
| Whitespace.WordsCollapse | services/aiService.js:16 | the collapse keeps the sequence of words |
| Whitespace.WordsTrim | services/aiService.js:16 | `trim()` keeps the sequence of words |
| Whitespace.WordsOfJoin | services/aiService.js:16 | joining non-empty white-space-free words with single spaces and splitting again gives the same words back |
| Whitespace.NormalizedIsJoinOfWords | services/aiService.js:16 | normalized text is the single-space join of its own words |
| Markup.StripTags | services/aiService.js:30 | replacing tags by one space never lengthens the text |
| Markup.StripTagsTag | services/aiService.js:30 | a `<`, a body without `>` and a `>` become one space, and the rest is stripped in turn |
| Markup.StripTagsPrefix | services/aiService.js:30 | text without `<` passes through unchanged before what follows is stripped |
| Markup.StripTagsNoClose | services/aiService.js:30 | text containing no `>` is unchanged, so an unterminated `<` is kept |
| Markup.StripTagsNoTag | services/aiService.js:30 | after stripping, no `<` has a `>` after it |
| Markup.StripTagsFixpoint | services/aiService.js:30 | stripping leaves text unchanged exactly when it holds no tag |
| Markup.ReplaceAllNone | services/aiService.js:34-39 | a global case-insensitive replace changes nothing when the pattern does not occur |
| Markup.ReplaceAllLength | services/aiService.js:34-39 | a replacement no longer than its pattern never lengthens the text, and a shorter one shortens it whenever the pattern occurs |
| Markup.ReplaceAllFixpoint | services/aiService.js:34-39 | with a shorter replacement, the replace is the identity exactly when the pattern does not occur |
| Markup.DecodeEntitiesIsTable | services/aiService.js:33-39 | the six chained passes are the generic decoder run over the entity table in source order |
| Markup.DecodeWithLength | services/aiService.js:33-39 | decoding with shrinking entities never lengthens the text |
| Markup.DecodeWithFixpoint | services/aiService.js:33-39 | decoding with shrinking entities is the identity exactly when no entity pattern occurs |
| Markup.DecodeEntitiesFixpoint | services/aiService.js:33-39 | entity decoding leaves text unchanged exactly when none of the six patterns occurs (in any letter case) |
| Markup.DecodeEntitiesNoAmp | services/aiService.js:33-39 | text without `&` is unchanged by decoding |
| Markup.DecodeAmpLt | services/aiService.js:35-36 | `&amp;lt;` decodes all the way to `<`, because the `&amp;` pass runs before the `&lt;` pass |
| Markup.DecodeAmpNbsp | services/aiService.js:34-35 | `&amp;nbsp;` decodes only to `&nbsp;`, because the `&nbsp;` pass has already run |
| AiService.ImproveContent | services/aiService.js:12-18 | blank content is returned as it is; other content becomes the tag followed by the single-space join of its words |
| AiService.ImprovedPart | services/aiService.js:16-17 | an improved text starts with the tag, and the rest is non-empty, normalized, has the input's words and is its own cleaning |
| AiService.ImproveTwice | services/aiService.js:12-18 | an improved text is normalized, and improving it again only adds a second tag |
| AiService.PlainText | services/aiService.js:30-41 | the text before truncation is the cleaned decoding of the trimmed tag-stripped content, and it is normalized |
| AiService.Truncate | services/aiService.js:43-46 | at most 200 characters; text of at most 200 is kept whole; longer text keeps its first 197 characters and ends in `...` |
| AiService.GenerateSummary | services/aiService.js:26-47 | a summary has at most 200 characters, and blank content gives the empty summary |
| AiService.SummaryGuard | services/aiService.js:27 | the early return for blank content agrees with the general path, so the summary is always the truncated plain text |
| AiService.SummaryLength | services/aiService.js:43-46 | plain text of at most 200 characters is the summary; longer plain text gives its 197-character prefix plus `...`, 200 characters in all |
| AiService.SummaryShape | services/aiService.js:40-46 | a summary has no white space at either end, and its only white space is single plain spaces |
| AiService.SummaryOfFiller | services/aiService.js:27-41 | content made only of white space, closed tags and `&nbsp;` (any case) has the empty summary |
| AiService.SummaryOfParagraph | services/aiService.js:26-47 | `<p>a &amp; b</p>` summarises to `a & b` for short words without `<` or `&` |
| AiService.SummaryHelloWelcome | services/aiService.js:26-47 | `<p>Hello &amp; welcome</p>` summarises to `Hello & welcome` |
| AiService.SummaryOfEscapedTag | services/aiService.js:30-39 | `&lt;w&gt;` summarises to the tag `<w>`, so a summary can hold a tag |
| AiService.SummaryOfEscapedNbsp | services/aiService.js:34-35 | `&amp;nbsp;` followed by a short word summarises to `&nbsp;` and that word, so the summary starts with a raw entity |
| AiService.SummaryOfDoubleEscapedNbsp | services/aiService.js:26-47 | `&amp;nbsp;` summarises to `&nbsp;` |
| AiService.SummaryOfEscapedBold | services/aiService.js:30-39 | `&lt;b&gt;` summarises to `<b>` |
| ArticleModel.ParseCategory | models/Article.js:10-13 | the store accepts a category only under one of the five enumerated spellings |
| ArticleModel.ParseCategoryExact | models/Article.js:11 | a string is accepted exactly when it spells one of the five values, and each value's spelling is accepted as that value |
| ArticleController.NewArticle | controllers/articleController.js:19-28 | an out-of-enum category makes the store refuse the create; otherwise the stored record has the given id, author, title, category and tags; its content is improved exactly when `useAI` is set; its summary is that of the stored content |
| ArticleController.Merge | controllers/articleController.js:114-130 | an update is refused exactly for an out-of-enum category; id and author never change; title, category and tags take the body's value when it is not null (`??`); truthy content replaces the content and recomputes the summary, while any other content keeps both |
| ArticleController.MergeKeepsConsistent | controllers/articleController.js:116-122 | after an update, the summary still matches the content |
| ArticleController.Guard | controllers/articleController.js:103-112 | 404 exactly when the id is absent; 403 exactly when it belongs to another author; otherwise the author passes |
| ArticleController.GetArticle | controllers/articleController.js:82-90 | 404 exactly when the id is absent; otherwise 200 with the stored article |
| ArticleController.MyArticles | controllers/articleController.js:145-151 | the listed articles are exactly the stored ones whose author is the caller |
| ArticleController.MyArticlesPartition | controllers/articleController.js:146 | a stored article is in a user's list exactly when that user wrote it |
| ArticleController.MyArticlesInsert | controllers/articleController.js:146 | storing a new article adds it to its author's list and changes no other list |
| ArticleController.MyArticlesRemove | controllers/articleController.js:146 | deleting an article removes it from its author's list and nothing else |
| ArticleController.CreateKeepsInvariant | controllers/articleController.js:19-28 | a create uses a free id and keeps the store invariant (ids below the counter, keyed by id, summaries matching content) |
| ArticleController.UpdateKeepsInvariant | controllers/articleController.js:116-130 | an accepted update keeps the store invariant |
| ArticleController.PutKeepsInvariant | controllers/articleController.js:124-130 | overwriting an article with a consistent record of the same id keeps the store invariant |
| ArticleController.DeleteKeepsInvariant | controllers/articleController.js:175 | deleting any id keeps the store invariant |
| ArticleController.ArticleStore.Create | controllers/articleController.js:11-36 | 400 with nothing changed when title, category or content is falsy; 500 with nothing changed for an out-of-enum category; otherwise 201, and the new record is stored under a fresh id |
| ArticleController.ArticleStore.Update | controllers/articleController.js:101-137 | 404/403 from the guard with nothing changed; 500 with nothing changed for an out-of-enum category; otherwise 200, and the merged record replaces the stored one; the store invariant is kept |
| ArticleController.ArticleStore.Delete | controllers/articleController.js:162-182 | 404/403 from the guard with nothing changed; otherwise 200, and exactly that id is removed; the store invariant is kept |
| Auth.Split | middleware/auth.js:9 | `split(' ')` gives at least one field, and no field contains the separator |
| Auth.SplitJoin | middleware/auth.js:9 | joining the fields with the separator gives the original string back |
| Auth.SplitField | middleware/auth.js:9 | a separator-free prefix followed by the separator is the first field, and the rest splits on its own |
| Auth.Token | middleware/auth.js:8-9 | a missing or empty header gives no token; otherwise the token is field 1 of the header split on spaces exactly when that field exists and is non-empty, and a token never contains a space |
| Auth.TokenOfSecondField | middleware/auth.js:9 | for `scheme token[ rest]`, the token is field 1 whatever the scheme |
| Auth.TokenNoSpace | middleware/auth.js:9-13 | a header without a space gives no token |
| Auth.TokenDoubleSpace | middleware/auth.js:9-13 | two spaces after the scheme give an empty field 1, hence no token |
| Auth.TokenBasicScheme | middleware/auth.js:9 | `Basic abc` yields the token `abc`: the scheme is not checked |
| Auth.TokenBearerDoubleSpace | middleware/auth.js:9-13 | `Bearer  x` yields no token |
| Auth.Decide | middleware/auth.js:7-22 | 401 exactly when there is no token; 403 exactly when the verifier rejects it; the request passes exactly when the verifier accepts it, carrying the decoded claims |
| Auth.MissingHeader | middleware/auth.js:8-13 | an absent or empty header is refused with 401 |
| Auth.Exchange.Authenticate | middleware/auth.js:7-22 | on pass, the claims are attached, the next handler runs once and the status is untouched; otherwise the status is set to 401 or 403 and the request is neither annotated nor passed on |

## Left out

- Strings are sequences of Dafny characters. A JavaScript string is a sequence of UTF-16 code units, so `length`, `substring` and the 197/200 cut points count code units. Each character here stands for one code unit, and a surrogate pair split by the truncation is not modelled.
- `listArticles` (the category, tag and search filters) is not part of this model.
- The `author` join (`include` of the user's id, name and email) on reads is left out. Reads return the stored article record only.
- `createdAt` ordering is left out. `ArticleController.MyArticles` returns a set, so it does not model the newest-first order.
- Database failures other than the enumeration check are left out. The model covers no connection errors or timeouts reaching the `catch` blocks (500).
- The length limit of `STRING` columns (title, tags) is left out.
- Request routing and parsing of the `:id` path parameter are left out. Ids are natural numbers; non-numeric ids are not modelled.
- Non-string body values (numbers, arrays) are left out. Body fields are optional strings and `useAI` is a boolean, taken by its truthiness.
- The text functions take strings. A `null` or `undefined` content, which `!content` also catches, is covered only through the blank case.
- `jwt.verify` is a parameter of type string to optional claims. Signatures, expiry and the secret are outside the model.
- `authController`, the user model and the AI routes are not part of this model.
- Logging with `console.error` is left out.
