/** The single-post page: how it maps the fetched record and when it
    shows a header picture. */
module SingleBlog {
  import opened Wrappers
  import opened JsText
  import opened BlogFeed

  /** The page's view of a post. */
  datatype Detail = Detail(
    id: int,
    title: string,
    description: string,
    content: Option<string>,
    imageUrl: string,
    category: string,
    date: string)

  /** `mapBlogData`: the same defaults as the feed, except that the stored
      `image_url` is used as it is, without the server's address. */
  function MapBlogData(b: ApiBlog, format: string -> string): (r: Detail)
    ensures r.id == b.id && r.content == b.content
    ensures r.title == (if Truthy(b.title) then b.title.value else UntitledTitle)
    ensures r.description == (if Truthy(b.description) then b.description.value else NoDescription)
    ensures Truthy(b.imageUrl) ==> r.imageUrl == b.imageUrl.value
    ensures !Truthy(b.imageUrl) ==> r.imageUrl == Placeholder(b.title)
    ensures r.category == UserGenerated && r.date == DateLabel(b.createdAt, format)
  {
    Detail(
      b.id,
      OrElse(b.title, UntitledTitle),
      OrElse(b.description, NoDescription),
      b.content,
      OrElse(b.imageUrl, Placeholder(b.title)),
      UserGenerated,
      DateLabel(b.createdAt, format))
  }

  /** The header picture: none when the image is empty or a placeholder. */
  function HeaderImage(d: Detail): (r: Option<string>)
    ensures r.None? <==> d.imageUrl == "" || Contains(d.imageUrl, PlaceholderHost)
    ensures r.Some? ==> r.value == d.imageUrl
  {
    if d.imageUrl != "" && !Contains(d.imageUrl, PlaceholderHost) then Some(d.imageUrl) else None
  }

  /** A post without a stored picture has no header picture; one with a
      stored picture has it unless its path mentions the placeholder host. */
  lemma HeaderImageOfPost(b: ApiBlog, format: string -> string)
    ensures var h := HeaderImage(MapBlogData(b, format));
      h.None? <==> !Truthy(b.imageUrl) || Contains(b.imageUrl.value, PlaceholderHost)
  {
    if !Truthy(b.imageUrl) {
      var rest := "/400x250/3730a3/ffffff?text=" + OrElse(b.title, "Blog Post");
      assert Placeholder(b.title) == "https://" + PlaceholderHost + rest;
      ContainsInfix("https://", PlaceholderHost, rest);
      assert MapBlogData(b, format).imageUrl == Placeholder(b.title);
    }
  }

  /** The page and the feed's card agree on the text of a post; their
      pictures differ only by the server's address in front of a stored
      path. */
  lemma DetailMatchesCard(base: string, b: ApiBlog, format: string -> string)
    ensures var d := MapBlogData(b, format);
      var c := NormaliseBlog(base, b, format);
      && d.id == c.id && d.title == c.title && d.description == c.description
      && d.content == c.content && d.category == c.category && d.date == c.date
      && (Truthy(b.imageUrl) ==> c.imageUrl == base + d.imageUrl)
      && (!Truthy(b.imageUrl) ==> c.imageUrl == d.imageUrl)
  {
  }
}
