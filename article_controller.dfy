/** The article handlers over an in-memory table that stands for the
    database: create, read one, update, list the caller's own, delete. */
module ArticleController {
  import opened Wrappers
  import opened ArticleModel
  import AiService

  /** A request body. Every field may be missing or null. */
  datatype ArticleInput = ArticleInput(
    title: Option<string>,
    category: Option<string>,
    content: Option<string>,
    tags: Option<string>,
    useAI: bool)

  /** What a handler answers. */
  datatype Reply =
    | Created(article: Article)
    | Found(article: Article)
    | Updated(article: Article)
    | Deleted
    | BadRequest
    | Forbidden
    | NotFound
    | ServerError

  /** The HTTP status of an answer. */
  function Status(r: Reply): nat {
    match r
    case Created(_) => 201
    case Found(_) => 200
    case Updated(_) => 200
    case Deleted => 200
    case BadRequest => 400
    case Forbidden => 403
    case NotFound => 404
    case ServerError => 500
  }

  // ------------------------------------------------------------- decisions

  /** The required fields of a create are all truthy. */
  predicate Required(body: ArticleInput) {
    Truthy(body.title) && Truthy(body.category) && Truthy(body.content)
  }

  /** The content a create stores, and the content an update stores when it
      is given content: improved when `useAI` is set, verbatim otherwise. */
  function FinalContent(content: string, useAI: bool): string {
    if useAI then AiService.ImproveContent(content) else content
  }

  /** The article a create stores under `id` for `user`, or `None` when the
      store refuses its category. */
  function NewArticle(id: ArticleId, user: UserId, body: ArticleInput): (r: Option<Article>)
    requires Required(body)
    ensures r.Some? <==> ParseCategory(body.category.value).Some?
    ensures r.Some? ==>
      && r.value.id == id
      && r.value.userId == user
      && r.value.title == body.title.value
      && CategoryName(r.value.category) == body.category.value
      && r.value.content == FinalContent(body.content.value, body.useAI)
      && r.value.tags == body.tags
      && Consistent(r.value)
  {
    var category := ParseCategory(body.category.value);
    if category.None? then None
    else
      var content := FinalContent(body.content.value, body.useAI);
      Some(Article(id, body.title.value, category.value, content, body.tags,
                   Some(AiService.GenerateSummary(content)), user))
  }

  /** The article after an update, or `None` when the store refuses the new
      category. Title, category and tags are replaced when the request gives
      them at all, even empty (`??`); content only when it is truthy, and the
      summary follows the content. */
  function Merge(a: Article, body: ArticleInput): (r: Option<Article>)
    ensures r.Some? <==> (body.category.None? || ParseCategory(body.category.value).Some?)
    ensures r.Some? ==>
      && r.value.id == a.id
      && r.value.userId == a.userId
      && r.value.title == OrElse(body.title, a.title)
      && (body.category.Some? ==> CategoryName(r.value.category) == body.category.value)
      && (body.category.None? ==> r.value.category == a.category)
      && r.value.tags == (if body.tags.Some? then body.tags else a.tags)
      && (Truthy(body.content) ==>
            r.value.content == FinalContent(body.content.value, body.useAI)
            && Consistent(r.value))
      && (!Truthy(body.content) ==>
            r.value.content == a.content && r.value.shortSummary == a.shortSummary)
  {
    var category := if body.category.Some? then ParseCategory(body.category.value) else Some(a.category);
    if category.None? then None
    else
      var content := if Truthy(body.content) then FinalContent(body.content.value, body.useAI) else a.content;
      var summary := if Truthy(body.content) then Some(AiService.GenerateSummary(content)) else a.shortSummary;
      Some(Article(a.id, OrElse(body.title, a.title), category.value, content,
                   if body.tags.Some? then body.tags else a.tags, summary, a.userId))
  }

  /** The 404 and 403 checks shared by update and delete: `None` lets the
      author through. */
  function Guard(table: map<ArticleId, Article>, id: ArticleId, user: UserId): (r: Option<Reply>)
    ensures r == Some(NotFound) <==> id !in table
    ensures r == Some(Forbidden) <==> id in table && table[id].userId != user
    ensures r.None? <==> id in table && table[id].userId == user
  {
    if id !in table then Some(NotFound)
    else if table[id].userId != user then Some(Forbidden)
    else None
  }

  // ------------------------------------------------------------ read paths

  /** `getArticle`: the article under `id`, or 404. */
  function GetArticle(table: map<ArticleId, Article>, id: ArticleId): (r: Reply)
    ensures r == NotFound <==> id !in table
    ensures r != NotFound ==> r == Found(table[id]) && Status(r) == 200
  {
    if id in table then Found(table[id]) else NotFound
  }

  /** `myArticles`: the caller's articles, in no particular order. */
  function MyArticles(table: map<ArticleId, Article>, user: UserId): (r: set<Article>)
    ensures forall a :: a in r <==> a in table.Values && a.userId == user
  {
    set id | id in table && table[id].userId == user :: table[id]
  }

  /** Every stored article is listed for its author and for nobody else. */
  lemma MyArticlesPartition(table: map<ArticleId, Article>, id: ArticleId, user: UserId)
    requires id in table
    ensures table[id] in MyArticles(table, user) <==> table[id].userId == user
  {
    assert table[id] in table.Values;
  }

  /** Keys that match the id fields. */
  predicate KeyedById(table: map<ArticleId, Article>) {
    forall k :: k in table ==> table[k].id == k
  }

  /** Storing a new article adds it to its author's list and to no other. */
  lemma MyArticlesInsert(table: map<ArticleId, Article>, a: Article, user: UserId)
    requires KeyedById(table) && a.id !in table
    ensures MyArticles(table[a.id := a], user) ==
      MyArticles(table, user) + (if a.userId == user then {a} else {})
  {
    var t := table[a.id := a];
    forall b | b in MyArticles(t, user)
      ensures b in MyArticles(table, user) + (if a.userId == user then {a} else {})
    {
      var k :| k in t && t[k] == b;
      if k != a.id {
        assert b in table.Values;
      }
    }
    forall b | b in MyArticles(table, user)
      ensures b in MyArticles(t, user)
    {
      var k :| k in table && table[k] == b;
      assert k != a.id;
      assert t[k] == b;
    }
    assert a in t.Values by {
      assert t[a.id] == a;
    }
  }

  /** Deleting an article removes it from its author's list and changes
      nothing else. */
  lemma MyArticlesRemove(table: map<ArticleId, Article>, id: ArticleId, user: UserId)
    requires KeyedById(table) && id in table
    ensures MyArticles(table - {id}, user) == MyArticles(table, user) - {table[id]}
  {
    var t := table - {id};
    forall b | b in MyArticles(table, user) - {table[id]}
      ensures b in MyArticles(t, user)
    {
      var k :| k in table && table[k] == b;
      assert k != id;
      assert t[k] == b;
    }
    forall b | b in MyArticles(t, user)
      ensures b != table[id]
    {
      var k :| k in t && t[k] == b;
      assert b.id == k;
    }
  }

  // ------------------------------------------------------------ the store

  /** Ids are below the next one and match their keys, and every summary
      is the one computed from its content. */
  predicate StoreInvariant(table: map<ArticleId, Article>, nextId: ArticleId) {
    && (forall id :: id in table ==> id < nextId)
    && KeyedById(table)
    && (forall id :: id in table ==> Consistent(table[id]))
  }

  /** Creating an article under the next id keeps the invariant, and that id
      was free. */
  lemma CreateKeepsInvariant(table: map<ArticleId, Article>, nextId: ArticleId, user: UserId, body: ArticleInput)
    requires StoreInvariant(table, nextId) && Required(body) && NewArticle(nextId, user, body).Some?
    ensures nextId !in table
    ensures StoreInvariant(table[nextId := NewArticle(nextId, user, body).value], nextId + 1)
  {
    var a := NewArticle(nextId, user, body).value;
    assert a.id == nextId && Consistent(a);
    var t := table[nextId := a];
    forall k | k in t
      ensures k < nextId + 1 && t[k].id == k && Consistent(t[k])
    {
      if k != nextId {
        assert t[k] == table[k];
      }
    }
  }

  /** Replacing an article by its merge with an update body keeps the
      invariant. */
  lemma UpdateKeepsInvariant(table: map<ArticleId, Article>, nextId: ArticleId, id: ArticleId, body: ArticleInput)
    requires StoreInvariant(table, nextId) && id in table && Merge(table[id], body).Some?
    ensures StoreInvariant(table[id := Merge(table[id], body).value], nextId)
  {
    var m := Merge(table[id], body).value;
    assert m.id == id && Consistent(m) by { MergeKeepsConsistent(table[id], body); }
    PutKeepsInvariant(table, nextId, id, m);
  }

  /** A merged article keeps its id, and its summary still matches its
      content. */
  lemma MergeKeepsConsistent(a: Article, body: ArticleInput)
    requires Consistent(a) && Merge(a, body).Some?
    ensures Merge(a, body).value.id == a.id && Consistent(Merge(a, body).value)
  {
    var m := Merge(a, body).value;
    if !Truthy(body.content) {
      assert m.content == a.content && m.shortSummary == a.shortSummary;
    }
  }

  /** Overwriting an existing key with a consistent article of that id keeps
      the invariant. */
  lemma PutKeepsInvariant(table: map<ArticleId, Article>, nextId: ArticleId, id: ArticleId, m: Article)
    requires StoreInvariant(table, nextId) && id in table && m.id == id && Consistent(m)
    ensures StoreInvariant(table[id := m], nextId)
  {
    var t := table[id := m];
    forall k | k in t
      ensures k < nextId && t[k].id == k && Consistent(t[k])
    {
      if k != id {
        assert t[k] == table[k];
      }
    }
  }

  /** Removing an article keeps the invariant. */
  lemma DeleteKeepsInvariant(table: map<ArticleId, Article>, nextId: ArticleId, id: ArticleId)
    requires StoreInvariant(table, nextId)
    ensures StoreInvariant(table - {id}, nextId)
  {
    var t := table - {id};
    forall k | k in t
      ensures k < nextId && t[k].id == k && Consistent(t[k])
    {
      assert t[k] == table[k];
    }
  }

  /** The table of articles and the next id the database hands out. */
  class ArticleStore {
    var table: map<ArticleId, Article>
    var nextId: ArticleId

    /** The store's invariant, over its current table and counter. */
    predicate Valid()
      reads this
    {
      StoreInvariant(table, nextId)
    }

    constructor ()
      ensures table == map[] && nextId == 1
      ensures Valid()
    {
      table := map[];
      nextId := 1;
    }

    /** `createArticle` for the authenticated `user`. */
    method Create(user: UserId, body: ArticleInput) returns (reply: Reply)
      requires Valid()
      modifies this
      ensures Valid()
      ensures !Required(body) ==>
        reply == BadRequest && table == old(table) && nextId == old(nextId)
      ensures Required(body) && NewArticle(old(nextId), user, body).None? ==>
        reply == ServerError && table == old(table) && nextId == old(nextId)
      ensures Required(body) && NewArticle(old(nextId), user, body).Some? ==>
        && old(nextId) !in old(table)
        && reply == Created(NewArticle(old(nextId), user, body).value)
        && table == old(table)[old(nextId) := reply.article]
        && nextId == old(nextId) + 1
    {
      if !Required(body) {
        return BadRequest;
      }
      var article := NewArticle(nextId, user, body);
      if article.None? {
        return ServerError;
      }
      CreateKeepsInvariant(table, nextId, user, body);
      table := table[nextId := article.value];
      nextId := nextId + 1;
      reply := Created(article.value);
    }

    /** `updateArticle` of article `id` by the authenticated `user`. */
    method Update(user: UserId, id: ArticleId, body: ArticleInput) returns (reply: Reply)
      requires Valid()
      modifies this
      ensures Valid()
      ensures nextId == old(nextId)
      ensures Guard(old(table), id, user).Some? ==>
        reply == Guard(old(table), id, user).value && table == old(table)
      ensures Guard(old(table), id, user).None? && Merge(old(table)[id], body).None? ==>
        reply == ServerError && table == old(table)
      ensures Guard(old(table), id, user).None? && Merge(old(table)[id], body).Some? ==>
        && reply == Updated(Merge(old(table)[id], body).value)
        && table == old(table)[id := reply.article]
    {
      var guard := Guard(table, id, user);
      if guard.Some? {
        return guard.value;
      }
      var merged := Merge(table[id], body);
      if merged.None? {
        return ServerError;
      }
      UpdateKeepsInvariant(table, nextId, id, body);
      table := table[id := merged.value];
      reply := Updated(merged.value);
    }

    /** `deleteArticle` of article `id` by the authenticated `user`. */
    method Delete(user: UserId, id: ArticleId) returns (reply: Reply)
      requires Valid()
      modifies this
      ensures Valid()
      ensures nextId == old(nextId)
      ensures Guard(old(table), id, user).Some? ==>
        reply == Guard(old(table), id, user).value && table == old(table)
      ensures Guard(old(table), id, user).None? ==>
        reply == Deleted && table == old(table) - {id}
    {
      var guard := Guard(table, id, user);
      if guard.Some? {
        return guard.value;
      }
      DeleteKeepsInvariant(table, nextId, id);
      table := table - {id};
      reply := Deleted;
    }
  }
}
