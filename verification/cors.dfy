/** The cross-origin allowlist: a browser origin may call the API when it
    sends no origin at all or exactly one of three listed origins. */
module Cors {
  import opened Wrappers
  import opened JsText

  const AllowedOrigins := ["http://localhost:3000", "http://localhost:3001", "http://frontend.blogpost.run.place"]

  const RefusedMessage := "Not allowed by CORS"

  /** `corsOptions.origin`: `callback(null, true)` is `Ok(true)`, and
      `callback(new Error(...))` is `Err` with its message. */
  function CheckOrigin(origin: Option<string>): (r: Result<bool, string>)
    ensures r.Ok? <==> !Truthy(origin) || origin.value in AllowedOrigins
    ensures r.Ok? ==> r.value
    ensures r.Err? ==> r.error == RefusedMessage
  {
    if !Truthy(origin) || origin.value in AllowedOrigins then Ok(true) else Err(RefusedMessage)
  }

  /** Requests without an origin, such as those from curl, are allowed. */
  lemma NoOriginAllowed()
    ensures CheckOrigin(None) == Ok(true)
    ensures CheckOrigin(Some("")) == Ok(true)
  {
  }

  /** Each listed origin is allowed. */
  lemma ListedOriginsAllowed()
    ensures CheckOrigin(Some("http://localhost:3000")) == Ok(true)
    ensures CheckOrigin(Some("http://localhost:3001")) == Ok(true)
    ensures CheckOrigin(Some("http://frontend.blogpost.run.place")) == Ok(true)
  {
  }

  /** Matching is exact: a listed origin with anything appended, a
      trailing slash included, is refused. */
  lemma ExtendedOriginRefused(k: int, suffix: string)
    requires 0 <= k < |AllowedOrigins| && suffix != ""
    ensures CheckOrigin(Some(AllowedOrigins[k] + suffix)) == Err(RefusedMessage)
  {
    var o := AllowedOrigins[k] + suffix;
    assert |AllowedOrigins[0]| == 21 && |AllowedOrigins[1]| == 21 && |AllowedOrigins[2]| == 34;
    assert o[7] == AllowedOrigins[k][7];
    assert k < 2 ==> AllowedOrigins[k][7] != AllowedOrigins[2][7];
    assert o !in AllowedOrigins;
  }

  /** Other sites, and the listed host on another port, are refused. */
  lemma OtherOriginsRefused()
    ensures CheckOrigin(Some("http://localhost:5173")) == Err(RefusedMessage)
    ensures CheckOrigin(Some("https://frontend.blogpost.run.place")) == Err(RefusedMessage)
  {
    assert "http://localhost:5173"[20] != "http://localhost:3000"[20];
    assert "http://localhost:5173"[17] != "http://localhost:3001"[17];
    assert "https://frontend.blogpost.run.place"[4] != "http://frontend.blogpost.run.place"[4];
  }
}
