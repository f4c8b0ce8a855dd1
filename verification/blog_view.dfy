/** The post service: input validation, not-found and ownership checks in
    front of the post model, and removal of a deleted post's image file. */
module BlogView {
  import opened Wrappers
  import opened JsText
  import opened BlogModel
  import opened NodePath

  /** The errors the service throws, one per message. */
  datatype BlogError =
    | MissingFields
    | NotFound
    | UpdateForbidden
    | DeleteForbidden
    | Database(cause: DbError)

  const MissingFieldsMessage := "Title, description, and content are required"
  const NotFoundMessage := "Blog not found"
  const UpdateForbiddenMessage := "Unauthorized to update this blog"
  const DeleteForbiddenMessage := "Unauthorized to delete this blog"

  /** `error.message`. */
  function Message(e: BlogError): string {
    match e
    case MissingFields => MissingFieldsMessage
    case NotFound => NotFoundMessage
    case UpdateForbidden => UpdateForbiddenMessage
    case DeleteForbidden => DeleteForbiddenMessage
    case Database(cause) => DbMessage(cause)
  }

  /** The service's own messages are pairwise distinct, so matching on the
      message string tells the errors apart. */
  lemma MessagesDistinct()
    ensures MissingFieldsMessage != NotFoundMessage
    ensures MissingFieldsMessage != UpdateForbiddenMessage
    ensures MissingFieldsMessage != DeleteForbiddenMessage
    ensures NotFoundMessage != UpdateForbiddenMessage
    ensures NotFoundMessage != DeleteForbiddenMessage
    ensures UpdateForbiddenMessage != DeleteForbiddenMessage
  {
    assert MissingFieldsMessage[0] != NotFoundMessage[0];
    assert MissingFieldsMessage[0] != UpdateForbiddenMessage[0];
    assert MissingFieldsMessage[0] != DeleteForbiddenMessage[0];
    assert NotFoundMessage[0] != UpdateForbiddenMessage[0];
    assert NotFoundMessage[0] != DeleteForbiddenMessage[0];
    assert UpdateForbiddenMessage[16] != DeleteForbiddenMessage[16];
  }

  /** The `blogData` argument: the request's fields, any of which may be
      missing. */
  datatype BlogFields = BlogFields(
    title: Option<string>,
    description: Option<string>,
    content: Option<string>,
    imageUrl: Option<string>)

  /** `title && description && content`. */
  predicate FieldsPresent(f: BlogFields) {
    Truthy(f.title) && Truthy(f.description) && Truthy(f.content)
  }

  /** What the backend keeps: the `blogs` table, the process's working
      directory, and the files that exist on disk, by normalised path. */
  datatype Backend = Backend(blogs: BlogTable, cwd: FilePath, images: set<FilePath>)

  /** Some post of the table has id `id` and belongs to `userId`. */
  predicate OwnedBy(t: BlogTable, id: int, userId: int) {
    exists p :: p in t.posts && p.id == id && IsOwner(p, Some(userId))
  }

  /** `getAllBlogs`: the model's listing, unchanged. */
  function GetAllBlogs(t: BlogTable, page: int, limit: int, userId: Option<int>): (r: Result<Listing, DbError>)
    ensures r == GetAll(t, page, limit, userId)
  {
    GetAll(t, page, limit, userId)
  }

  /** `getUserBlogs`: the model's author listing, unchanged. */
  function GetUserBlogs(t: BlogTable, userId: Option<int>, page: int, limit: int): (r: Result<Listing, DbError>)
    ensures r == GetByUserId(t, userId, page, limit)
  {
    GetByUserId(t, userId, page, limit)
  }

  /** `getBlogById`: the row, or 'Blog not found' when no row has that id. */
  function GetBlogById(t: BlogTable, id: string, userId: Option<int>): (r: Result<Row, BlogError>)
    ensures PgInteger(id).Err? ==> r == Err(Database(PgInteger(id).error))
    ensures PgInteger(id).Ok? ==>
      (r == Err(NotFound) <==> forall k :: 0 <= k < |t.posts| ==> t.posts[k].id != PgInteger(id).value)
    ensures r.Ok? ==> r.value.post in t.posts && r.value.post.id == PgInteger(id).value
    ensures r.Ok? ==> (r.value.isOwner <==> IsOwner(r.value.post, userId))
  {
    var found :- MapDb(GetById(t, id, userId));
    if found.None? then Err(NotFound) else Ok(found.value)
  }

  function MapDb<T>(r: Result<T, DbError>): (m: Result<T, BlogError>)
    ensures r.Ok? ==> m == Ok(r.value)
    ensures r.Err? ==> m == Err(Database(r.error))
  {
    match r
    case Ok(v) => Ok(v)
    case Err(e) => Err(Database(e))
  }

  /** `createBlog`: rejects missing fields before touching the table,
      otherwise inserts the post with the caller as author. */
  function CreateBlog(s: Backend, f: BlogFields, userId: int, now: int): (r: (Backend, Result<Post, BlogError>))
    ensures !FieldsPresent(f) <==> r.1 == Err(MissingFields)
    ensures r.1.Err? ==> r.0 == s
    ensures r.1.Ok? ==>
      && r.1.value == Post(s.blogs.nextId, f.title.value, f.description.value, f.content.value,
                           f.imageUrl, userId, now, now)
      && r.0 == s.(blogs := BlogTable(s.blogs.posts + [r.1.value], s.blogs.nextId + 1))
  {
    if !FieldsPresent(f) then (s, Err(MissingFields))
    else
      var (t', p) := Create(s.blogs, f.title.value, f.description.value, f.content.value, f.imageUrl, userId, now);
      (s.(blogs := t'), Ok(p))
  }

  /** `updateBlog`: validates the fields first, then looks the post up, then
      checks ownership, and only then rewrites the row. */
  function UpdateBlog(s: Backend, id: string, f: BlogFields, userId: int, now: int)
    : (r: (Backend, Result<Option<Post>, BlogError>))
    ensures !FieldsPresent(f) ==> r.1 == Err(MissingFields)
    ensures FieldsPresent(f) && PgInteger(id).Err? ==> r.1 == Err(Database(PgInteger(id).error))
    ensures FieldsPresent(f) && PgInteger(id).Ok? ==>
      var found := FindPost(s.blogs.posts, PgInteger(id).value);
      && (found.None? <==> r.1 == Err(NotFound))
      && (found.Some? && !IsOwner(found.value, Some(userId)) <==> r.1 == Err(UpdateForbidden))
      && (found.Some? && IsOwner(found.value, Some(userId)) <==> r.1.Ok?)
    ensures r.1.Err? ==> r.0 == s
    ensures r.1.Ok? ==> PgInteger(id).Ok? && OwnedBy(s.blogs, PgInteger(id).value, userId)
    ensures r.1.Ok? ==> r.0.images == s.images && r.1.value.Some?
    ensures r.1.Ok? ==>
      Update(s.blogs, id, f.title.value, f.description.value, f.content.value, f.imageUrl, now)
        == Ok((r.0.blogs, r.1.value))
  {
    if !FieldsPresent(f) then (s, Err(MissingFields))
    else
      match GetById(s.blogs, id, Some(userId))
      case Err(e) => (s, Err(Database(e)))
      case Ok(None) => (s, Err(NotFound))
      case Ok(Some(row)) =>
        if !row.isOwner then (s, Err(UpdateForbidden))
        else
          var u := Update(s.blogs, id, f.title.value, f.description.value, f.content.value, f.imageUrl, now);
          var k :| 0 <= k < |s.blogs.posts| && s.blogs.posts[k] == row.post;
          assert u.value.0.posts[k].id == row.post.id;
          (s.(blogs := u.value.0), Ok(u.value.1))
  }

  /** The files left after deleting a post: when the post has a truthy
      `image_url`, the file that `path.join(cwd, image_url)` names goes if
      it exists, whichever post it was uploaded for, and every other file
      stays. A joined path that keeps a trailing separator names no
      regular file, so `existsSync` fails and nothing is removed. */
  function RemoveImage(images: set<FilePath>, cwd: FilePath, imageUrl: Option<string>): (r: set<FilePath>)
    ensures Truthy(imageUrl) && !TrailingSeparator(imageUrl.value) ==>
      r == images - {JoinPath(cwd, imageUrl.value)}
    ensures !Truthy(imageUrl) || TrailingSeparator(imageUrl.value) ==> r == images
  {
    if Truthy(imageUrl) && !TrailingSeparator(imageUrl.value) && JoinPath(cwd, imageUrl.value) in images
    then images - {JoinPath(cwd, imageUrl.value)}
    else images
  }

  /** An `image_url` with a slash appended reaches the same segments as the
      original, yet deleting its post leaves the file that the original
      names in place. */
  lemma SlashAppendedKeepsFile(images: set<FilePath>, cwd: FilePath, url: string)
    requires url != ""
    ensures JoinPath(cwd, url + "/") == JoinPath(cwd, url)
    ensures RemoveImage(images, cwd, Some(url + "/")) == images
    ensures !TrailingSeparator(url) ==>
      RemoveImage(images, cwd, Some(url)) == images - {JoinPath(cwd, url + "/")}
  {
    SeparatorAppended(cwd, url);
  }

  /** `deleteBlog`: not found first, then ownership; on success the image
      file goes and then the row. */
  function DeleteBlog(s: Backend, id: string, userId: int): (r: (Backend, Result<bool, BlogError>))
    ensures r.1.Err? ==> r.0 == s
    ensures PgInteger(id).Err? ==> r.1 == Err(Database(PgInteger(id).error))
    ensures PgInteger(id).Ok? ==>
      var found := FindPost(s.blogs.posts, PgInteger(id).value);
      && (found.None? <==> r.1 == Err(NotFound))
      && (found.Some? && !IsOwner(found.value, Some(userId)) <==> r.1 == Err(DeleteForbidden))
      && (found.Some? && IsOwner(found.value, Some(userId)) <==> r.1.Ok?)
    ensures r.1.Ok? ==> r.1.value
    ensures r.1.Ok? ==> PgInteger(id).Ok? && OwnedBy(s.blogs, PgInteger(id).value, userId)
    ensures r.1.Ok? ==>
      exists p :: p in s.blogs.posts && p.id == PgInteger(id).value && r.0.images == RemoveImage(s.images, s.cwd, p.imageUrl)
    ensures r.1.Ok? ==> r.0.blogs.nextId == s.blogs.nextId && r.0.cwd == s.cwd
    ensures r.1.Ok? ==> forall q :: q in r.0.blogs.posts <==> q in s.blogs.posts && q.id != PgInteger(id).value
  {
    match GetById(s.blogs, id, Some(userId))
    case Err(e) => (s, Err(Database(e)))
    case Ok(None) => (s, Err(NotFound))
    case Ok(Some(row)) =>
      if !row.isOwner then (s, Err(DeleteForbidden))
      else
        var images := RemoveImage(s.images, s.cwd, row.post.imageUrl);
        var t' := Delete(s.blogs, id).value;
        (Backend(t', s.cwd, images), Ok(true))
  }
}
