/** The client's post feed: which request each of the two `useFetchBlogs`
    hooks makes, and how both turn the server's records and page counts
    into what the cards show. */
module BlogFeed {
  import opened Wrappers
  import opened JsText
  import opened Numerals

  const BlogsPerPage := 6
  const ServerBaseUrl := "http://localhost:5000"
  const BlogsApiUrl := "http://localhost:5000/api/blogs"
  const PlaceholderHost := "placehold.co"
  const PlaceholderPrefix := "https://" + PlaceholderHost + "/400x250/3730a3/ffffff?text="
  const UntitledTitle := "Untitled Post"
  const NoDescription := "No description available."
  const AnonymousAuthor := "Anonymous"
  const UserGenerated := "User Generated"
  const DateUnknown := "Date Unknown"

  /** A post as the client receives it; any field may be missing. */
  datatype ApiBlog = ApiBlog(
    id: int,
    title: Option<string>,
    description: Option<string>,
    content: Option<string>,
    authorName: Option<string>,
    imageUrl: Option<string>,
    createdAt: Option<string>,
    isOwner: Option<bool>)

  /** A post as a card shows it. */
  datatype Card = Card(
    id: int,
    title: string,
    description: string,
    content: Option<string>,
    name: string,
    imageUrl: string,
    category: string,
    date: string,
    isOwner: Option<bool>)

  /** The stand-in picture, captioned with the title or "Blog Post". */
  function Placeholder(title: Option<string>): (r: string)
    ensures IsPrefix(PlaceholderPrefix, r) && r[|PlaceholderPrefix|..] == OrElse(title, "Blog Post")
  {
    var r := PlaceholderPrefix + OrElse(title, "Blog Post");
    assert r[..|PlaceholderPrefix|] == PlaceholderPrefix;
    r
  }

  /** The date line: the locale rendering of `created_at`, or "Date
      Unknown". `format` stands for `new Date(...).toLocaleDateString()`. */
  function DateLabel(createdAt: Option<string>, format: string -> string): (r: string)
    ensures Truthy(createdAt) ==> r == format(createdAt.value)
    ensures !Truthy(createdAt) ==> r == DateUnknown
  {
    if Truthy(createdAt) then format(createdAt.value) else DateUnknown
  }

  /** The card picture: the stored path under the server's address, else
      the placeholder. */
  function CardImage(base: string, b: ApiBlog): (r: string)
    ensures Truthy(b.imageUrl) ==> r == base + b.imageUrl.value
    ensures !Truthy(b.imageUrl) ==> r == Placeholder(b.title)
  {
    if Truthy(b.imageUrl) then base + b.imageUrl.value else Placeholder(b.title)
  }

  /** One record mapped to a card: text defaults for a missing title,
      description and author, and the fields the card does not interpret
      passed through. */
  function NormaliseBlog(base: string, b: ApiBlog, format: string -> string): (r: Card)
    ensures r.id == b.id && r.content == b.content && r.isOwner == b.isOwner
    ensures r.title == (if Truthy(b.title) then b.title.value else UntitledTitle)
    ensures r.description == (if Truthy(b.description) then b.description.value else NoDescription)
    ensures r.name == (if Truthy(b.authorName) then b.authorName.value else AnonymousAuthor)
    ensures r.imageUrl == CardImage(base, b) && r.category == UserGenerated
    ensures r.date == DateLabel(b.createdAt, format)
  {
    Card(
      b.id,
      OrElse(b.title, UntitledTitle),
      OrElse(b.description, NoDescription),
      b.content,
      OrElse(b.authorName, AnonymousAuthor),
      CardImage(base, b),
      UserGenerated,
      DateLabel(b.createdAt, format),
      b.isOwner)
  }

  /** `json.blogs.map(...)`: one card per record, in the same order. */
  function NormaliseBlogs(base: string, bs: seq<ApiBlog>, format: string -> string): (r: seq<Card>)
    ensures |r| == |bs|
    ensures forall k :: 0 <= k < |bs| ==> r[k] == NormaliseBlog(base, bs[k], format)
  {
    if |bs| == 0 then []
    else [NormaliseBlog(base, bs[0], format)] + NormaliseBlogs(base, bs[1..], format)
  }

  /** Mapping a concatenation maps each part. */
  lemma NormaliseBlogsAppend(base: string, a: seq<ApiBlog>, b: seq<ApiBlog>, format: string -> string)
    ensures NormaliseBlogs(base, a + b, format) == NormaliseBlogs(base, a, format) + NormaliseBlogs(base, b, format)
  {
    var l := NormaliseBlogs(base, a + b, format);
    var r := NormaliseBlogs(base, a, format) + NormaliseBlogs(base, b, format);
    assert |l| == |r|;
    forall k | 0 <= k < |l| ensures l[k] == r[k] {
      if k < |a| { assert (a + b)[k] == a[k]; } else { assert (a + b)[k] == b[k - |a|]; }
    }
  }

  /** The `pagination` object as received. */
  datatype ApiPagination = ApiPagination(totalCount: Option<int>, totalPages: Option<int>)

  /** `n || fallback` for a number that may be missing; 0 is falsy. */
  function NumberOr(n: Option<int>, fallback: int): (r: int)
    ensures r == fallback || (n.Some? && r == n.value && r != 0)
    ensures n.Some? && n.value != 0 ==> r == n.value
  {
    if n.Some? && n.value != 0 then n.value else fallback
  }

  datatype FeedData = FeedData(blogs: seq<Card>, totalCount: int, totalPages: int)

  /** The hook's new state: the cards, the count (0 when missing) and the
      number of pages (1 when missing or 0). */
  function FeedState(base: string, blogs: seq<ApiBlog>, pagination: Option<ApiPagination>,
                     format: string -> string): (r: FeedData)
    ensures r.blogs == NormaliseBlogs(base, blogs, format)
    ensures r.totalCount == (if pagination.Some? then NumberOr(pagination.value.totalCount, 0) else 0)
    ensures r.totalPages == (if pagination.Some? then NumberOr(pagination.value.totalPages, 1) else 1)
    ensures r.totalPages != 0
  {
    var count := if pagination.Some? then NumberOr(pagination.value.totalCount, 0) else 0;
    var pages := if pagination.Some? then NumberOr(pagination.value.totalPages, 1) else 1;
    FeedData(NormaliseBlogs(base, blogs, format), count, pages)
  }

  // ---------------------------------------------------------------------
  // The request of the `fetch` copy

  datatype FeedRequest = FeedRequest(url: string, authorization: Option<string>)

  /** `postView === "my" && userId`: the user's own posts are wanted. */
  predicate WantsOwn(mine: bool, userId: Option<string>) {
    mine && Truthy(userId)
  }

  function QueryString(page: int): string {
    "?page=" + IntToString(page) + "&limit=" + IntToString(BlogsPerPage)
  }

  /** The URL and header the `fetch` copy requests: the user's list under
      `/user/{userId}` or the general list, always with the page and a
      limit of 6, and a bearer header exactly when there is a token. */
  function FetchRequest(mine: bool, userId: Option<string>, token: Option<string>, page: int): (r: FeedRequest)
    ensures WantsOwn(mine, userId) ==> r.url == BlogsApiUrl + "/user/" + userId.value + QueryString(page)
    ensures !WantsOwn(mine, userId) ==> r.url == BlogsApiUrl + QueryString(page)
    ensures r.authorization.Some? <==> Truthy(token)
    ensures r.authorization.Some? ==> r.authorization.value == "Bearer " + token.value
  {
    var url := if WantsOwn(mine, userId) then BlogsApiUrl + "/user/" + userId.value + QueryString(page)
               else BlogsApiUrl + QueryString(page);
    FeedRequest(url, if Truthy(token) then Some("Bearer " + token.value) else None)
  }

  // ---------------------------------------------------------------------
  // The request of the service copy

  datatype ServiceCall =
    | UserBlogs(userId: string, page: int, limit: int)
    | AllBlogs(page: int, limit: int)

  /** The service call the other copy makes, always for six posts. */
  function ServiceRequest(mine: bool, userId: Option<string>, page: int): (r: ServiceCall)
    ensures r.UserBlogs? <==> WantsOwn(mine, userId)
    ensures r.UserBlogs? ==> r == UserBlogs(userId.value, page, BlogsPerPage)
    ensures r.AllBlogs? ==> r == AllBlogs(page, BlogsPerPage)
  {
    if WantsOwn(mine, userId) then UserBlogs(userId.value, page, BlogsPerPage) else AllBlogs(page, BlogsPerPage)
  }

  /** The two copies ask for the same thing: the own-posts list exactly
      when the other asks for it, for the same page and limit. */
  lemma CopiesAgree(mine: bool, userId: Option<string>, token: Option<string>, page: int)
    ensures var call := ServiceRequest(mine, userId, page);
      var req := FetchRequest(mine, userId, token, page);
      && (call.UserBlogs? ==> req.url == BlogsApiUrl + "/user/" + call.userId + QueryString(call.page))
      && (call.AllBlogs? ==> req.url == BlogsApiUrl + QueryString(call.page))
      && call.limit == BlogsPerPage
  {
  }
}
