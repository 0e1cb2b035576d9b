/** The `Article` record of the object mapper: its fields, the category
    enumeration and the author link. */
module ArticleModel {
  import opened Wrappers
  import AiService

  /** The values of the `category` enumeration. */
  datatype Category = Tech | AI | Backend | Frontend | DevOps

  /** The spelling of a category in requests and in the database. */
  function CategoryName(c: Category): string {
    match c
    case Tech => "Tech"
    case AI => "AI"
    case Backend => "Backend"
    case Frontend => "Frontend"
    case DevOps => "DevOps"
  }

  /** The enumeration check of the store: a value outside the five
      spellings is refused. */
  function ParseCategory(s: string): (r: Option<Category>)
    ensures r.Some? ==> CategoryName(r.value) == s
  {
    if s == "Tech" then Some(Tech)
    else if s == "AI" then Some(AI)
    else if s == "Backend" then Some(Backend)
    else if s == "Frontend" then Some(Frontend)
    else if s == "DevOps" then Some(DevOps)
    else None
  }

  /** Every category is accepted under its own spelling, and only the five
      spellings are accepted. */
  lemma ParseCategoryExact(s: string)
    ensures ParseCategory(s).Some? <==> exists c :: CategoryName(c) == s
    ensures forall c :: ParseCategory(CategoryName(c)) == Some(c)
  {
    if exists c :: CategoryName(c) == s {
      var c :| CategoryName(c) == s;
      assert ParseCategory(CategoryName(c)) == Some(c) by {
        match c
        case Tech =>
        case AI =>
        case Backend =>
        case Frontend =>
        case DevOps =>
      }
    }
    forall c ensures ParseCategory(CategoryName(c)) == Some(c) {
      match c
      case Tech =>
      case AI =>
      case Backend =>
      case Frontend =>
      case DevOps =>
    }
  }

  type ArticleId = nat
  type UserId = nat

  /** A stored article. `title`, `category` and `content` are never null;
      `tags` and `shortSummary` may be. `userId` is the author: an article
      belongs to one user, and a user may have many articles. */
  datatype Article = Article(
    id: ArticleId,
    title: string,
    category: Category,
    content: string,
    tags: Option<string>,
    shortSummary: Option<string>,
    userId: UserId)

  /** The summary is the one computed from the stored content. */
  predicate Consistent(a: Article) {
    a.shortSummary == Some(AiService.GenerateSummary(a.content))
  }
}
