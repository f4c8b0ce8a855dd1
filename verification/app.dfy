/** The pieces put together: the post router behind the identity
    middleware, and what the client's requests and the server's answers
    mean for each other. */
module App {
  import opened Wrappers
  import opened JsText
  import opened Numerals
  import opened Paging
  import opened BlogModel
  import opened BlogView
  import opened BlogRoutes
  import opened AuthMiddleware
  import AuthView
  import BlogFeed
  import BlogForm

  datatype Verb = GetVerb | PostVerb | PutVerb | DeleteVerb

  datatype Endpoint =
    | ListAll
    | ListMine
    | ShowOne(id: string)
    | CreateOne
    | UpdateOne(id: string)
    | DeleteOne(id: string)

  /** The router's table, tried in the order the routes are declared, on
      the path segments below `/api/blogs`. `/my-posts` is declared before
      `/:id` and so wins. */
  function Dispatch(verb: Verb, segments: seq<string>): (r: Option<Endpoint>)
    ensures r.Some? ==> |segments| <= 1
    ensures verb == GetVerb && segments == ["my-posts"] ==> r == Some(ListMine)
  {
    match verb
    case GetVerb =>
      if segments == [] then Some(ListAll)
      else if segments == ["my-posts"] then Some(ListMine)
      else if |segments| == 1 && segments[0] != "" then Some(ShowOne(segments[0]))
      else None
    case PostVerb => if segments == [] then Some(CreateOne) else None
    case PutVerb => if |segments| == 1 && segments[0] != "" then Some(UpdateOne(segments[0])) else None
    case DeleteVerb => if |segments| == 1 && segments[0] != "" then Some(DeleteOne(segments[0])) else None
  }

  /** A request to the post API. */
  datatype BlogRequest = BlogRequest(
    verb: Verb,
    segments: seq<string>,
    authorization: Option<string>,
    page: Option<string>,
    limit: Option<string>,
    form: Form,
    file: Option<Upload>)

  datatype Outcome = Answered(response: Response) | NoRoute

  /** `req.userId` as the middleware leaves it for the handler. */
  function UserIdOf(i: Identity): Option<int> {
    if i.SignedIn? then Some(i.userId) else None
  }

  /** One request through the router: an unmatched path is answered by the
      framework; a matched one first passes the identity middleware, which
      may refuse it before the upload is stored or the handler runs. */
  function Serve(s: Backend, req: BlogRequest, decode: string -> Option<AuthView.Claims>, nowMs: int): (r: (Backend, Outcome))
    ensures Dispatch(req.verb, req.segments).None? ==> r == (s, NoRoute)
    ensures Dispatch(req.verb, req.segments).Some? && Authenticate(req.authorization, decode, nowMs) == Rejected ==>
      r == (s, Answered(Response(RejectedStatus, ErrorBody(RejectedMessage))))
    ensures r.1.NoRoute? ==> Dispatch(req.verb, req.segments).None?
  {
    match Dispatch(req.verb, req.segments)
    case None => (s, NoRoute)
    case Some(endpoint) =>
      var identity := Authenticate(req.authorization, decode, nowMs);
      if identity == Rejected then (s, Answered(Response(RejectedStatus, ErrorBody(RejectedMessage))))
      else
        var userId := UserIdOf(identity);
        match endpoint
        case ListAll => (s, Answered(ListBlogs(s.blogs, req.page, req.limit, userId)))
        case ListMine => (s, Answered(ListMyBlogs(s.blogs, req.page, req.limit, userId)))
        case ShowOne(id) => (s, Answered(ShowBlog(s.blogs, id, userId)))
        case CreateOne =>
          var (s', resp) := CreateRoute(s, req.form, req.file, userId, nowMs);
          (s', Answered(resp))
        case UpdateOne(id) =>
          var (s', resp) := UpdateRoute(s, id, req.form, req.file, userId, nowMs);
          (s', Answered(resp))
        case DeleteOne(id) =>
          var (s', resp) := DeleteRoute(s, id, userId);
          (s', Answered(resp))
  }

  /** Reads never change the backend. */
  lemma ReadsChangeNothing(s: Backend, req: BlogRequest, decode: string -> Option<AuthView.Claims>, nowMs: int)
    requires req.verb == GetVerb
    ensures Serve(s, req, decode, nowMs).0 == s
  {
  }

  /** A request without a usable identity cannot write: creating, editing
      and deleting leave the posts as they were and answer 401, except that
      the upload middleware refuses a file in the wrong field first. */
  lemma AnonymousCannotWrite(s: Backend, req: BlogRequest, decode: string -> Option<AuthView.Claims>, nowMs: int)
    requires req.verb != GetVerb && Dispatch(req.verb, req.segments).Some?
    requires Authenticate(req.authorization, decode, nowMs) == Anonymous
    ensures var (s', out) := Serve(s, req, decode, nowMs);
      && s'.blogs == s.blogs
      && (req.verb == DeleteVerb || !UnexpectedFile(req.file) ==>
            out == Answered(Response(401, ErrorBody(AuthRequiredMessage))))
      && (req.verb != DeleteVerb && UnexpectedFile(req.file) ==>
            out == Answered(Response(500, ErrorPage(UnexpectedFieldMessage))))
  {
  }

  /** The client's own-posts address, `/user/{id}`, matches no route. */
  lemma OwnPostsPathHasNoRoute(s: Backend, userId: string, req: BlogRequest, decode: string -> Option<AuthView.Claims>, nowMs: int)
    requires req.segments == ["user", userId]
    ensures Serve(s, req, decode, nowMs) == (s, NoRoute)
  {
  }

  // ---------------------------------------------------------------------
  // Client and server

  /** The `pagination` object as the client reads it back. */
  function ApiPaginationOf(p: PageInfo): BlogFeed.ApiPagination {
    BlogFeed.ApiPagination(Some(p.totalCount), if p.totalPages.Some? then Some(p.totalPages.value) else None)
  }

  /** The page count the client shows for a listing: the server's count,
      except that an empty table's 0 pages shows as 1. */
  lemma ClientPageCount(t: BlogTable, page: int, limit: int, userId: Option<int>, format: string -> string)
    requires 0 < limit <= BigintMax && 0 <= Offset(page, limit) <= BigintMax
    ensures var listing := GetAll(t, page, limit, userId).value;
      var data := BlogFeed.FeedState(BlogFeed.ServerBaseUrl, [], Some(ApiPaginationOf(listing.pagination)), format);
      && data.totalCount == |t.posts|
      && data.totalPages == (if |t.posts| == 0 then 1 else CeilDiv(|t.posts|, limit))
      && data.totalPages >= 1
  {
  }

  /** The page and limit the client puts in the query string read back on
      the server as the same numbers. */
  lemma ClientQueryReadBack(page: int)
    requires page != 0
    ensures QueryInt(Some(IntToString(page)), DefaultPage) == page
    ensures QueryInt(Some(IntToString(BlogFeed.BlogsPerPage)), DefaultLimit) == BlogFeed.BlogsPerPage
  {
    QueryIntOfNumeral(page, DefaultPage);
    QueryIntOfNumeral(BlogFeed.BlogsPerPage, DefaultLimit);
  }

  /** A listed row as the client receives it; the author's name and the
      rendered creation time come from outside the model. */
  function ApiOf(row: Row, authorName: Option<string>, createdAt: Option<string>): BlogFeed.ApiBlog {
    BlogFeed.ApiBlog(row.post.id, Some(row.post.title), Some(row.post.description), Some(row.post.content),
                     authorName, row.post.imageUrl, createdAt, Some(row.isOwner))
  }

  /** The multipart fields as the server's form sees them. */
  function FormOf(p: BlogForm.Payload): Form {
    Form(Some(p.title), Some(p.description), Some(p.content), p.imageUrl)
  }

  /** Saving an edit without touching the picture sends back the card's
      display address, and the server stores that instead of the path it
      had: a stored picture gains the server's address in front, and a
      post without one gets the placeholder's address. */
  lemma EditKeepsDisplayUrl(row: Row, authorName: Option<string>, createdAt: Option<string>,
                            format: string -> string, token: string, title: string, description: string,
                            content: string)
    requires token != ""
    ensures var card := BlogFeed.NormaliseBlog(BlogFeed.ServerBaseUrl, ApiOf(row, authorName, createdAt), format);
      var out := BlogForm.HandleSubmit(true, Some(token), Some(BlogForm.Existing(card.id, Some(card.imageUrl))),
                                       BlogForm.FormState(title, description, content, None, false));
      var sent := UpdateImageUrl(None, FormOf(out.request.payload).imageUrl);
      && out.Send? && out.request.verb == BlogForm.Put
      && (Truthy(row.post.imageUrl) ==> sent == Some(BlogFeed.ServerBaseUrl + row.post.imageUrl.value))
      && (!Truthy(row.post.imageUrl) ==> sent == Some(BlogFeed.Placeholder(Some(row.post.title))))
      && sent != row.post.imageUrl
  {
    var b := ApiOf(row, authorName, createdAt);
    var card := BlogFeed.NormaliseBlog(BlogFeed.ServerBaseUrl, b, format);
    if Truthy(row.post.imageUrl) {
      assert |BlogFeed.ServerBaseUrl + row.post.imageUrl.value| > |row.post.imageUrl.value|;
    } else {
      assert BlogFeed.Placeholder(Some(row.post.title)) != "";
    }
  }

  /** Ticking "remove image" sends no `image_url`, so the server clears the
      picture although it never reads the `removeImage` field. */
  lemma RemoveImageClearsPicture(existing: BlogForm.Existing, token: string, title: string,
                                 description: string, content: string)
    requires token != ""
    ensures var out := BlogForm.HandleSubmit(true, Some(token), Some(existing),
                                             BlogForm.FormState(title, description, content, None, true));
      out.Send? && UpdateImageUrl(None, FormOf(out.request.payload).imageUrl) == None
  {
  }
}
