/** The `/api/blogs` routes: query defaulting, the sign-in guard, the
    uploaded image's name and URL, and the mapping from service errors to
    HTTP statuses. Each handler runs after the identity middleware, which
    hands it `req.userId`. */
module BlogRoutes {
  import opened Wrappers
  import opened JsText
  import opened Numerals
  import opened JsParseInt
  import opened BlogModel
  import opened BlogView
  import opened NodePath
  import opened Paging

  // ---------------------------------------------------------------------
  // Query parameters

  const DefaultPage := 1
  const DefaultLimit := 6

  /** `parseInt(raw) || fallback`: a missing value, `NaN` and 0 all give
      the fallback. */
  function QueryInt(raw: Option<string>, fallback: int): (r: int)
    ensures r == fallback || (raw.Some? && ParseInt(raw.value) == Some(r) && r != 0)
    ensures raw.Some? && ParseInt(raw.value).Some? && ParseInt(raw.value).value != 0 ==> r == ParseInt(raw.value).value
  {
    if raw.None? then fallback
    else
      match ParseInt(raw.value)
      case None => fallback
      case Some(n) => if n == 0 then fallback else n
  }

  /** The numeral of any integer reads back as that integer, and a zero, a
      missing value or text with no leading digits falls back. */
  lemma QueryIntOfNumeral(i: int, fallback: int)
    ensures QueryInt(Some(IntToString(i)), fallback) == (if i == 0 then fallback else i)
  {
    ParseIntToString(i);
  }

  /** A missing value and a value with no leading digits fall back. */
  lemma QueryIntFallback(fallback: int)
    ensures QueryInt(None, fallback) == fallback
    ensures QueryInt(Some(""), fallback) == fallback
    ensures QueryInt(Some("abc"), fallback) == fallback
  {
    assert !IsWhiteSpace('a');
    assert TrimStart("abc") == "abc";
    assert !HasHexPrefix("abc");
    assert DigitOf('a', 10).None?;
    assert DigitRun("abc", 10) == 0;
  }

  // ---------------------------------------------------------------------
  // Uploaded images

  /** The file part of a multipart request: the form field it came in and
      the client's file name; `timestamp` is `Date.now()` when it is stored. */
  datatype Upload = Upload(fieldname: string, originalName: string, timestamp: nat)

  /** `s` without its trailing run of `c`. */
  function TrimEnd(s: string, c: char): (r: string)
    ensures |r| <= |s| && r == s[..|r|]
    ensures |r| > 0 ==> r[|r| - 1] != c
    ensures forall k :: |r| <= k < |s| ==> s[k] == c
    decreases |s|
  {
    if |s| > 0 && s[|s| - 1] == c then TrimEnd(s[..|s| - 1], c) else s
  }

  /** Node's POSIX `path.extname`: from the last '.' of the last path
      segment to its end, except that a segment with no dot, one whose only
      leading dot is its first character, and the segment ".." have none. */
  function Extname(path: string): (r: string)
    ensures r == [] || (r[0] == '.' && '.' !in r[1..] && '/' !in r)
  {
    SegmentExt(AfterLast(TrimEnd(path, '/'), '/'))
  }

  /** The extension of one path segment. */
  function SegmentExt(base: string): (r: string)
    ensures r == [] || (r[0] == '.' && '.' !in r[1..])
    ensures forall c :: c in r ==> c in base
  {
    var dot := LastIndexOf(base, '.');
    if dot <= 0 || base == ".." then ""
    else
      var r := base[dot..];
      assert r[1..] == base[dot + 1..];
      assert forall j :: 1 <= j < |r| ==> r[j] == base[dot + j];
      r
  }

  /** A name with a stem and an extension has that extension. */
  lemma ExtnameOfName(stem: string, ext: string)
    requires stem != [] && '/' !in stem && '/' !in ext && '.' !in ext
    requires !(stem == "." && ext == [])
    ensures Extname(stem + "." + ext) == "." + ext
  {
    var path := stem + "." + ext;
    NoSlashJoined(stem, ext);
    ExtnameOfSegment(path);
    LastIndexOfSplit(stem, '.', ext);
    assert path[|stem|..] == "." + ext;
  }

  lemma NoSlashJoined(stem: string, ext: string)
    requires '/' !in stem && '/' !in ext
    ensures '/' !in stem + "." + ext
  {
    var path := stem + "." + ext;
    forall k | 0 <= k < |path| ensures path[k] != '/' {
      if k < |stem| { assert path[k] == stem[k]; }
      else if k > |stem| { assert path[k] == ext[k - |stem| - 1]; }
    }
  }

  /** A path without '/' is a single segment. */
  lemma ExtnameOfSegment(path: string)
    requires path != [] && '/' !in path
    ensures Extname(path) == SegmentExt(path)
  {
    assert path[|path| - 1] in path;
    assert TrimEnd(path, '/') == path;
    assert LastIndexOf(path, '/') == -1;
    assert AfterLast(path, '/') == path;
  }

  /** Names with no dot, or only a leading one, have no extension. */
  lemma ExtnameEmpty()
    ensures Extname("photo") == ""
    ensures Extname(".env") == ""
    ensures Extname("..") == ""
    ensures Extname("") == ""
  {
    assert TrimEnd("photo", '/') == "photo";
    assert LastIndexOf("photo", '/') == -1;
    assert LastIndexOf("photo", '.') == -1;
    assert TrimEnd(".env", '/') == ".env";
    assert LastIndexOf(".env", '/') == -1;
    LastIndexOfSplit("", '.', "env");
    assert "" + ['.'] + "env" == ".env";
    assert TrimEnd("..", '/') == "..";
    assert LastIndexOf("..", '/') == -1;
  }

  /** The stored file's name: `fieldname-timestamp.ext`. */
  function UploadFilename(u: Upload): (r: string)
    ensures IsPrefix(u.fieldname + "-" + NatToString(u.timestamp), r)
    ensures r[|u.fieldname| + 1 + |NatToString(u.timestamp)|..] == Extname(u.originalName)
  {
    var head := u.fieldname + "-" + NatToString(u.timestamp);
    var r := head + Extname(u.originalName);
    assert r[..|head|] == head;
    r
  }

  const UploadPrefix := "/uploads/"

  /** The `image_url` of a stored upload. */
  function UploadUrl(u: Upload): (r: string)
    ensures IsPrefix(UploadPrefix, r) && r[|UploadPrefix|..] == UploadFilename(u)
  {
    var r := UploadPrefix + UploadFilename(u);
    assert r[..|UploadPrefix|] == UploadPrefix;
    r
  }

  /** `upload.single('image')` takes a file from the `image` field only. */
  const ImageField := "image"
  const UnexpectedFieldMessage := "Unexpected field"

  /** A file in any other field is a `MulterError`, which Express's final
      handler answers before the route handler runs. */
  predicate UnexpectedFile(file: Option<Upload>) {
    file.Some? && file.value.fieldname != ImageField
  }

  /** Where the disk storage writes an accepted file: `./uploads/<filename>`
      below the working directory. */
  function UploadPath(cwd: FilePath, u: Upload): FilePath {
    cwd + ["uploads", UploadFilename(u)]
  }

  /** Multer stores the file before the handler runs, whatever the handler
      then decides. */
  function Store(images: set<FilePath>, cwd: FilePath, file: Option<Upload>): (r: set<FilePath>)
    requires !UnexpectedFile(file)
    ensures file.None? ==> r == images
    ensures file.Some? ==> r == images + {UploadPath(cwd, file.value)}
  {
    if file.None? then images else images + {UploadPath(cwd, file.value)}
  }

  /** The stored name of an accepted file is one plain segment. */
  lemma UploadFilenamePlain(u: Upload)
    requires u.fieldname == ImageField
    ensures PlainSegment(UploadFilename(u)) && '/' !in UploadFilename(u)
  {
    var digits := NatToString(u.timestamp);
    var ext := Extname(u.originalName);
    ImageNameNoSlash(digits, ext);
    assert UploadFilename(u) == ImageField + "-" + digits + ext;
  }

  lemma ImageNameNoSlash(digits: string, ext: string)
    requires AllDigits(digits, 10) && '/' !in ext
    ensures var name := ImageField + "-" + digits + ext;
      |name| >= 6 && '/' !in name
  {
    var name := ImageField + "-" + digits + ext;
    forall k | 0 <= k < |name| ensures name[k] != '/' {
      if k < 6 {
        assert name[k] == "image-"[k];
      } else if k < 6 + |digits| {
        assert name[k] == digits[k - 6];
        assert DigitOf(digits[k - 6], 10).Some?;
      } else {
        assert name[k] == ext[k - 6 - |digits|];
      }
    }
  }

  /** The `image_url` of an upload leads back to the stored file, so that
      deleting a post that still has its own upload removes exactly that
      file, and nothing else. */
  lemma UploadRoundTrip(images: set<FilePath>, cwd: FilePath, u: Upload)
    requires u.fieldname == ImageField
    ensures JoinPath(cwd, UploadUrl(u)) == UploadPath(cwd, u)
    ensures UploadPath(cwd, u) in Store(images, cwd, Some(u))
    ensures UploadPath(cwd, u) !in images ==>
      RemoveImage(Store(images, cwd, Some(u)), cwd, Some(UploadUrl(u))) == images
  {
    UploadFilenamePlain(u);
    UploadUrlResolves(cwd, UploadFilename(u));
    var url := UploadUrl(u);
    assert url[|url| - 1] == UploadFilename(u)[|UploadFilename(u)| - 1];
    RemoveStored(images, cwd, UploadUrl(u), UploadPath(cwd, u));
  }

  lemma RemoveStored(images: set<FilePath>, cwd: FilePath, url: string, p: FilePath)
    requires url != "" && !TrailingSeparator(url) && JoinPath(cwd, url) == p
    ensures p !in images ==> RemoveImage(images + {p}, cwd, Some(url)) == images
  {
    assert Truthy(Some(url));
  }

  /** `/uploads/<name>` names the file `name` of the upload directory. */
  lemma UploadUrlResolves(cwd: FilePath, name: string)
    requires PlainSegment(name) && '/' !in name
    ensures JoinPath(cwd, UploadPrefix + name) == cwd + ["uploads", name]
  {
    SplitNoSep(name, '/');
    SplitSlashLit("uploads", "uploads/", name);
    SplitSlashLit("", "/", "uploads/" + name);
    assert UploadPrefix + name == "/" + ("uploads/" + name) by {
      assert UploadPrefix == "/" + "uploads/";
    }
    assert Split(UploadPrefix + name, '/') == [""] + ["uploads", name];
    ResolveAppend(cwd, [""], ["uploads", name]);
    ResolvePlain(cwd, ["uploads", name]);
  }

  /** Other spellings of an upload's `image_url` name the same file: a post
      edited to carry `uploads/<name>` or `/uploads/./<name>` deletes the
      file of the post that uploaded `<name>`. */
  lemma AliasedImageUrls(cwd: FilePath, name: string)
    requires PlainSegment(name) && '/' !in name
    ensures JoinPath(cwd, "uploads/" + name) == cwd + ["uploads", name]
    ensures JoinPath(cwd, "/uploads/./" + name) == cwd + ["uploads", name]
  {
    RelativeUploadUrl(cwd, name);
    DottedUploadUrl(cwd, name);
  }

  lemma RelativeUploadUrl(cwd: FilePath, name: string)
    requires PlainSegment(name) && '/' !in name
    ensures JoinPath(cwd, "uploads/" + name) == cwd + ["uploads", name]
  {
    SplitNoSep(name, '/');
    SplitSlashLit("uploads", "uploads/", name);
    ResolvePlain(cwd, ["uploads", name]);
  }

  lemma DottedUploadUrl(cwd: FilePath, name: string)
    requires PlainSegment(name) && '/' !in name
    ensures JoinPath(cwd, "/uploads/./" + name) == cwd + ["uploads", name]
  {
    DottedUploadSplit(name);
    ResolveAppend(cwd, ["", "uploads", "."], [name]);
    DottedUploadDir(cwd);
    ResolvePlain(cwd + ["uploads"], [name]);
  }

  lemma DottedUploadSplit(name: string)
    requires '/' !in name
    ensures Split("/uploads/./" + name, '/') == ["", "uploads", "."] + [name]
  {
    var s2 := "./" + name;
    var s3 := "uploads/" + s2;
    SplitNoSep(name, '/');
    SplitSlashLit(".", "./", name);
    SplitSlashLit("uploads", "uploads/", s2);
    SplitSlashLit("", "/", s3);
    DottedLiteral(name);
  }

  lemma DottedLiteral(name: string)
    ensures "/uploads/./" + name == "/" + ("uploads/" + ("./" + name))
  {
    assert "/uploads/./" == "/" + ("uploads/" + "./");
  }

  /** `a/` followed by `s` splits into `a` and the pieces of `s`. */
  lemma SplitSlashLit(a: string, aSlash: string, s: string)
    requires '/' !in a && aSlash == a + "/"
    ensures Split(aSlash + s, '/') == [a] + Split(s, '/')
  {
    assert aSlash + s == a + ['/'] + s;
    SplitPiece(a, '/', s);
  }

  lemma DottedUploadDir(cwd: FilePath)
    ensures Resolve(cwd, ["", "uploads", "."]) == cwd + ["uploads"]
  {
    assert ["", "uploads", "."] == [""] + ["uploads"] + ["."];
    ResolveAppend(cwd, [""] + ["uploads"], ["."]);
    ResolveAppend(cwd, [""], ["uploads"]);
  }

  /** The `image_url` handed to `createBlog`: the upload's URL, else null. */
  function CreateImageUrl(file: Option<Upload>): (r: Option<string>)
    ensures r.Some? <==> file.Some?
    ensures r.Some? ==> r.value == UploadUrl(file.value)
  {
    if file.Some? then Some(UploadUrl(file.value)) else None
  }

  /** The `image_url` handed to `updateBlog`: a new upload wins over the
      form's `image_url` field. */
  function UpdateImageUrl(file: Option<Upload>, formImageUrl: Option<string>): (r: Option<string>)
    ensures file.Some? ==> r == Some(UploadUrl(file.value))
    ensures file.None? ==> r == formImageUrl
  {
    if file.Some? then Some(UploadUrl(file.value)) else formImageUrl
  }

  // ---------------------------------------------------------------------
  // Responses

  datatype Body =
    | ListingBody(listing: Listing)
    | RowBody(row: Row)
    | PostBody(post: Post)
    | UpdatedBody(updated: Option<Post>)
    | DeletedBody
    | ErrorBody(error: string)
    | ErrorPage(error: string)

  datatype Response = Response(status: nat, body: Body)

  const AuthRequiredMessage := "Authentication required"
  const FetchBlogsFailed := "Failed to fetch blogs"
  const FetchUserBlogsFailed := "Failed to fetch user's blogs"
  const FetchBlogFailed := "Failed to fetch blog"
  const DeletedMessage := "Blog deleted successfully"

  /** `!req.userId`: no identity, or the falsy id 0. */
  predicate SignedOut(userId: Option<int>) {
    userId.None? || userId.value == 0
  }

  /** The form fields of a create or update request. */
  datatype Form = Form(
    title: Option<string>,
    description: Option<string>,
    content: Option<string>,
    imageUrl: Option<string>)

  /** The message of an error identifies the not-found and forbidden
      errors: no database message collides with them. */
  lemma MessageIdentifies(e: BlogError)
    ensures Message(e) == NotFoundMessage <==> e == NotFound
    ensures Message(e) == UpdateForbiddenMessage <==> e == UpdateForbidden
    ensures Message(e) == DeleteForbiddenMessage <==> e == DeleteForbidden
  {
    MessagesDistinct();
    if e.Database? {
      var m := DbMessage(e.cause);
      assert m[0] != NotFoundMessage[0] && m[0] != UpdateForbiddenMessage[0];
    }
  }

  /** The status a failed update or delete is answered with: the route
      compares the error's message with the not-found text and with its
      own forbidden text. */
  function FailureStatus(e: BlogError, forbidden: string): (status: nat)
    requires forbidden == UpdateForbiddenMessage || forbidden == DeleteForbiddenMessage
    ensures status == 404 <==> e == NotFound
    ensures status == 403 <==> Message(e) == forbidden
    ensures status == 500 <==> e != NotFound && Message(e) != forbidden
  {
    MessageIdentifies(e);
    if Message(e) == NotFoundMessage then 404
    else if Message(e) == forbidden then 403
    else 500
  }

  /** `error.message || fallback`: every message the service throws is
      non-empty, so the message itself. */
  function ErrorText(e: BlogError): (r: string)
    ensures r == Message(e) && r != ""
  {
    match e
    case Database(cause) =>
      assert DbMessage(cause)[0] in "OLiv";
      Message(e)
    case _ => Message(e)
  }

  // ---------------------------------------------------------------------
  // Handlers

  /** GET `/`: one page of every post. */
  function ListBlogs(t: BlogTable, page: Option<string>, limit: Option<string>, userId: Option<int>): (r: Response)
    ensures GetAll(t, QueryInt(page, DefaultPage), QueryInt(limit, DefaultLimit), userId).Ok? ==>
      r == Response(200, ListingBody(GetAll(t, QueryInt(page, DefaultPage), QueryInt(limit, DefaultLimit), userId).value))
    ensures GetAll(t, QueryInt(page, DefaultPage), QueryInt(limit, DefaultLimit), userId).Err? ==>
      r == Response(500, ErrorBody(FetchBlogsFailed))
  {
    match GetAllBlogs(t, QueryInt(page, DefaultPage), QueryInt(limit, DefaultLimit), userId)
    case Ok(listing) => Response(200, ListingBody(listing))
    case Err(_) => Response(500, ErrorBody(FetchBlogsFailed))
  }

  /** GET `/my-posts`: one page of the caller's own posts. */
  function ListMyBlogs(t: BlogTable, page: Option<string>, limit: Option<string>, userId: Option<int>): (r: Response)
    ensures GetByUserId(t, userId, QueryInt(page, DefaultPage), QueryInt(limit, DefaultLimit)).Ok? ==>
      r == Response(200, ListingBody(GetByUserId(t, userId, QueryInt(page, DefaultPage), QueryInt(limit, DefaultLimit)).value))
    ensures GetByUserId(t, userId, QueryInt(page, DefaultPage), QueryInt(limit, DefaultLimit)).Err? ==>
      r == Response(500, ErrorBody(FetchUserBlogsFailed))
  {
    match GetUserBlogs(t, userId, QueryInt(page, DefaultPage), QueryInt(limit, DefaultLimit))
    case Ok(listing) => Response(200, ListingBody(listing))
    case Err(_) => Response(500, ErrorBody(FetchUserBlogsFailed))
  }

  /** GET `/:id`: one post, 404 when there is none, and a generic 500 for
      anything else. */
  function ShowBlog(t: BlogTable, id: string, userId: Option<int>): (r: Response)
    ensures r.status == 200 <==> GetBlogById(t, id, userId).Ok?
    ensures r.status == 200 ==> r.body == RowBody(GetBlogById(t, id, userId).value)
    ensures r.status == 404 <==> GetBlogById(t, id, userId) == Err(NotFound)
    ensures r.status == 404 ==> r.body == ErrorBody(NotFoundMessage)
    ensures r.status != 200 && r.status != 404 ==> r == Response(500, ErrorBody(FetchBlogFailed))
  {
    match GetBlogById(t, id, userId)
    case Ok(row) => Response(200, RowBody(row))
    case Err(e) =>
      MessageIdentifies(e);
      if Message(e) == NotFoundMessage then Response(404, ErrorBody(Message(e)))
      else Response(500, ErrorBody(FetchBlogFailed))
  }

  /** POST `/`: a file in the wrong field is refused before anything is
      stored; then 401 without a user, else the service's outcome: 201 with
      the post, or 500 carrying the error's message. */
  function CreateRoute(s: Backend, form: Form, file: Option<Upload>, userId: Option<int>, now: int)
    : (r: (Backend, Response))
    ensures UnexpectedFile(file) ==> r == (s, Response(500, ErrorPage(UnexpectedFieldMessage)))
    ensures !UnexpectedFile(file) ==> r.0.images == Store(s.images, s.cwd, file) && r.0.cwd == s.cwd
    ensures !UnexpectedFile(file) && SignedOut(userId) ==>
      r.0.blogs == s.blogs && r.1 == Response(401, ErrorBody(AuthRequiredMessage))
    ensures !UnexpectedFile(file) && !SignedOut(userId) ==>
      var (s', result) := CreateBlog(s.(images := Store(s.images, s.cwd, file)),
        BlogFields(form.title, form.description, form.content, CreateImageUrl(file)), userId.value, now);
      && r.0 == s'
      && (result.Ok? ==> r.1 == Response(201, PostBody(result.value)))
      && (result.Err? ==> r.1 == Response(500, ErrorBody(Message(result.error))))
  {
    if UnexpectedFile(file) then (s, Response(500, ErrorPage(UnexpectedFieldMessage)))
    else
      var stored := s.(images := Store(s.images, s.cwd, file));
      if SignedOut(userId) then (stored, Response(401, ErrorBody(AuthRequiredMessage)))
      else
        var fields := BlogFields(form.title, form.description, form.content, CreateImageUrl(file));
        var (s', result) := CreateBlog(stored, fields, userId.value, now);
        match result
        case Ok(post) => (s', Response(201, PostBody(post)))
        case Err(e) => (s', Response(500, ErrorBody(ErrorText(e))))
  }

  /** PUT `/:id`: a file in the wrong field is refused before anything is
      stored; then 401 without a user; 404, 403 or 500 for the service's
      errors; the updated row otherwise. */
  function UpdateRoute(s: Backend, id: string, form: Form, file: Option<Upload>, userId: Option<int>, now: int)
    : (r: (Backend, Response))
    ensures UnexpectedFile(file) ==> r == (s, Response(500, ErrorPage(UnexpectedFieldMessage)))
    ensures !UnexpectedFile(file) ==> r.0.images == Store(s.images, s.cwd, file) && r.0.cwd == s.cwd
    ensures !UnexpectedFile(file) && SignedOut(userId) ==>
      r.0.blogs == s.blogs && r.1 == Response(401, ErrorBody(AuthRequiredMessage))
    ensures !UnexpectedFile(file) && !SignedOut(userId) ==>
      var (s', result) := UpdateBlog(s.(images := Store(s.images, s.cwd, file)), id,
        BlogFields(form.title, form.description, form.content, UpdateImageUrl(file, form.imageUrl)), userId.value, now);
      && r.0 == s'
      && (result.Ok? ==> r.1 == Response(200, UpdatedBody(result.value)))
      && (result.Err? ==> r.1 == Response(FailureStatus(result.error, UpdateForbiddenMessage), ErrorBody(Message(result.error))))
  {
    if UnexpectedFile(file) then (s, Response(500, ErrorPage(UnexpectedFieldMessage)))
    else
      var stored := s.(images := Store(s.images, s.cwd, file));
      if SignedOut(userId) then (stored, Response(401, ErrorBody(AuthRequiredMessage)))
      else
        var fields := BlogFields(form.title, form.description, form.content, UpdateImageUrl(file, form.imageUrl));
        var (s', result) := UpdateBlog(stored, id, fields, userId.value, now);
        match result
        case Ok(updated) => (s', Response(200, UpdatedBody(updated)))
        case Err(e) => (s', Response(FailureStatus(e, UpdateForbiddenMessage), ErrorBody(ErrorText(e))))
  }

  /** DELETE `/:id`: 401 without a user; 404, 403 or 500 for the service's
      errors; a confirmation otherwise. */
  function DeleteRoute(s: Backend, id: string, userId: Option<int>): (r: (Backend, Response))
    ensures SignedOut(userId) ==> r == (s, Response(401, ErrorBody(AuthRequiredMessage)))
    ensures !SignedOut(userId) ==>
      var (s', result) := DeleteBlog(s, id, userId.value);
      && r.0 == s'
      && (result.Ok? ==> r.1 == Response(200, DeletedBody))
      && (result.Err? ==> r.1 == Response(FailureStatus(result.error, DeleteForbiddenMessage), ErrorBody(Message(result.error))))
  {
    if SignedOut(userId) then (s, Response(401, ErrorBody(AuthRequiredMessage)))
    else
      var (s', result) := DeleteBlog(s, id, userId.value);
      match result
      case Ok(_) => (s', Response(200, DeletedBody))
      case Err(e) => (s', Response(FailureStatus(e, DeleteForbiddenMessage), ErrorBody(ErrorText(e))))
  }

  // ---------------------------------------------------------------------
  // Properties across the handlers

  /** The listing answers 200 exactly when the defaulted page and limit give
      a limit and an offset that PostgreSQL accepts, and the generic 500
      otherwise; a zero or unreadable limit is never the cause, since it
      falls back to six. */
  lemma ListBlogsStatus(t: BlogTable, page: Option<string>, limit: Option<string>, userId: Option<int>)
    ensures var p := QueryInt(page, DefaultPage);
      var l := QueryInt(limit, DefaultLimit);
      var r := ListBlogs(t, page, limit, userId);
      && l != 0
      && (r.status == 200 <==> 0 < l <= BigintMax && 0 <= Offset(p, l) <= BigintMax)
      && (r.status != 200 ==> r == Response(500, ErrorBody(FetchBlogsFailed)))
  {
  }

  /** Without query parameters the listing is the first six posts, newest
      first. */
  lemma ListBlogsDefault(t: BlogTable, userId: Option<int>)
    ensures var r := ListBlogs(t, None, None, userId);
      && r.status == 200 && r.body.ListingBody?
      && r.body.listing.pagination.currentPage == 1 && r.body.listing.pagination.pageSize == 6
      && PostsOf(r.body.listing.blogs) == PageSlice(NewestFirst(t.posts), 0, 6)
  {
    var r := ListBlogs(t, None, None, userId);
    assert Offset(1, 6) == 0;
    assert PostsOf(r.body.listing.blogs) == PageSlice(NewestFirst(t.posts), 0, 6);
  }

  /** The own-posts listing answers like the general one, shows only the
      caller's posts, and shows a signed-out caller an empty page rather
      than 401. */
  lemma ListMyBlogsShowsOwn(t: BlogTable, page: Option<string>, limit: Option<string>, userId: Option<int>)
    ensures var p := QueryInt(page, DefaultPage);
      var l := QueryInt(limit, DefaultLimit);
      var r := ListMyBlogs(t, page, limit, userId);
      && (r.status == 200 <==> 0 < l <= BigintMax && 0 <= Offset(p, l) <= BigintMax)
      && (r.status != 200 ==> r == Response(500, ErrorBody(FetchUserBlogsFailed)))
      && (r.status == 200 ==> r.body.ListingBody? && forall k :: 0 <= k < |r.body.listing.blogs| ==>
            && userId.Some?
            && r.body.listing.blogs[k].post in t.posts
            && r.body.listing.blogs[k].post.authorId == userId.value)
      && (userId.None? && r.status == 200 ==> r.body.listing.blogs == [])
  {
    var p := QueryInt(page, DefaultPage);
    var l := QueryInt(limit, DefaultLimit);
    if userId.None? {
      AnonymousOwnListingEmpty(t, p, l);
    } else {
      OwnRowsAreCallers(t, userId.value, p, l);
    }
  }

  lemma OwnRowsAreCallers(t: BlogTable, userId: int, page: int, limit: int)
    ensures var r := GetByUserId(t, Some(userId), page, limit);
      r.Ok? ==> forall k :: 0 <= k < |r.value.blogs| ==>
        r.value.blogs[k].post in t.posts && r.value.blogs[k].post.authorId == userId
  {
    var r := GetByUserId(t, Some(userId), page, limit);
    var mine := ByAuthor(t.posts, Some(userId));
    if r.Ok? {
      forall k | 0 <= k < |r.value.blogs|
        ensures r.value.blogs[k].post in mine
      {
        assert r.value.blogs[k].post == NewestFirst(mine)[Offset(page, limit) + k];
        assert r.value.blogs[k].post in multiset(NewestFirst(mine));
      }
    }
  }

  /** A post created with an upload carries the URL of a file that is on
      disk once the request is done. */
  lemma CreatedImageStored(s: Backend, form: Form, u: Upload, userId: int, now: int)
    requires u.fieldname == ImageField && userId != 0
    ensures var (s', r) := CreateRoute(s, form, Some(u), Some(userId), now);
      r.status == 201 ==>
        && r.body.PostBody? && r.body.post.imageUrl == Some(UploadUrl(u))
        && JoinPath(s'.cwd, UploadUrl(u)) in s'.images
  {
    var stored := s.(images := Store(s.images, s.cwd, Some(u)));
    var fields := BlogFields(form.title, form.description, form.content, CreateImageUrl(Some(u)));
    var (s', result) := CreateBlog(stored, fields, userId, now);
    assert CreateRoute(s, form, Some(u), Some(userId), now).0 == s';
    if result.Ok? {
      assert s'.images == stored.images && s'.cwd == s.cwd;
      assert result.value.imageUrl == Some(UploadUrl(u));
      UploadRoundTrip(s.images, s.cwd, u);
    }
  }

  /** Missing fields on an update are a 500 carrying the validation
      message, whether or not the post exists. */
  lemma UpdateMissingFieldsIs500(s: Backend, id: string, form: Form, file: Option<Upload>, userId: int, now: int)
    requires userId != 0 && !UnexpectedFile(file)
    requires !Truthy(form.title)
    ensures UpdateRoute(s, id, form, file, Some(userId), now).1 == Response(500, ErrorBody(MissingFieldsMessage))
    ensures UpdateRoute(s, id, form, file, Some(userId), now).0.blogs == s.blogs
  {
    MessagesDistinct();
  }

  /** A signed-in caller who does not own the post gets 403 and the table
      is unchanged. */
  lemma UpdateByOtherIs403(s: Backend, k: int, form: Form, userId: int, now: int)
    requires Valid(s.blogs) && s.blogs.nextId <= IntMax
    requires 0 <= k < |s.blogs.posts| && s.blogs.posts[k].authorId != userId && userId != 0
    requires FieldsPresent(BlogFields(form.title, form.description, form.content, form.imageUrl))
    ensures var r := UpdateRoute(s, NatToString(s.blogs.posts[k].id), form, None, Some(userId), now);
      r.1 == Response(403, ErrorBody(UpdateForbiddenMessage)) && r.0 == s
  {
    var p := s.blogs.posts[k];
    PgIntegerOfId(p.id);
    FindPostAt(s.blogs.posts, k);
    MessagesDistinct();
  }

  /** A delete by the owner answers 200, and afterwards the post is gone and
      every other post remains. */
  lemma DeleteByOwnerRemovesPost(s: Backend, k: int, userId: int)
    requires Valid(s.blogs) && s.blogs.nextId <= IntMax
    requires 0 <= k < |s.blogs.posts| && s.blogs.posts[k].authorId == userId && userId != 0
    ensures var r := DeleteRoute(s, NatToString(s.blogs.posts[k].id), Some(userId));
      && r.1 == Response(200, DeletedBody)
      && s.blogs.posts[k] !in r.0.blogs.posts
      && (forall q :: q in s.blogs.posts && q != s.blogs.posts[k] ==> q in r.0.blogs.posts)
  {
    var p := s.blogs.posts[k];
    PgIntegerOfId(p.id);
    FindPostAt(s.blogs.posts, k);
    var r := DeleteRoute(s, NatToString(p.id), Some(userId));
    forall q | q in s.blogs.posts && q != p ensures q in r.0.blogs.posts {
      var j :| 0 <= j < |s.blogs.posts| && s.blogs.posts[j] == q;
      assert j != k;
    }
  }
}
