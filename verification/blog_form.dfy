/** The create/edit form's submit handler: whether a request is made, and
    which multipart fields, method and URL it uses. */
module BlogForm {
  import opened Wrappers
  import opened JsText
  import opened Numerals

  const ApiBaseUrl := "http://localhost:5000/api"
  const NotSignedInMessage := "You are not logged in or your session has expired. Please sign in."

  /** The post being edited, as the list handed it over. */
  datatype Existing = Existing(id: int, imageUrl: Option<string>)

  /** A file picked in the file input. */
  datatype File = File(name: string)

  /** What the user has typed and picked. */
  datatype FormState = FormState(
    title: string,
    description: string,
    content: string,
    imageFile: Option<File>,
    removeImage: bool)

  /** The multipart fields in the order they are appended: the three
      texts always, then each optional field when it is appended. */
  datatype Payload = Payload(
    title: string,
    description: string,
    content: string,
    image: Option<File>,
    removeImage: Option<string>,
    imageUrl: Option<string>)

  datatype Method = Post | Put

  datatype Submission = Submission(verb: Method, url: string, authorization: string, payload: Payload)

  datatype SubmitOutcome = NotSignedIn(message: string) | Send(request: Submission)

  /** `String(flag)` as `FormData` stores a boolean. */
  function BoolText(b: bool): string {
    if b then "true" else "false"
  }

  /** Whether the current picture is sent back: when editing, not removing
      it, not replacing it, and there is one. */
  predicate KeepsImage(initial: Option<Existing>, f: FormState) {
    initial.Some? && !f.removeImage && f.imageFile.None? && Truthy(initial.value.imageUrl)
  }

  function BuildPayload(initial: Option<Existing>, f: FormState): (r: Payload)
    ensures r.title == f.title && r.description == f.description && r.content == f.content
    ensures r.image == f.imageFile
    ensures r.removeImage.Some? <==> initial.Some?
    ensures r.removeImage.Some? ==> r.removeImage.value == (if f.removeImage then "true" else "false")
    ensures r.imageUrl.Some? <==> KeepsImage(initial, f)
    ensures r.imageUrl.Some? ==> r.imageUrl == initial.value.imageUrl
  {
    Payload(
      f.title, f.description, f.content,
      f.imageFile,
      if initial.Some? then Some(BoolText(f.removeImage)) else None,
      if KeepsImage(initial, f) then initial.value.imageUrl else None)
  }

  /** `handleSubmit`: nothing is sent without a session; otherwise the
      form goes to `PUT /blogs/{id}` when editing and `POST /blogs`
      otherwise, with the bearer token. */
  function HandleSubmit(isAuthenticated: bool, token: Option<string>, initial: Option<Existing>, f: FormState)
    : (r: SubmitOutcome)
    ensures r.NotSignedIn? <==> !isAuthenticated || !Truthy(token)
    ensures r.NotSignedIn? ==> r.message == NotSignedInMessage
    ensures r.Send? ==> r.request.authorization == "Bearer " + token.value
    ensures r.Send? ==> r.request.payload == BuildPayload(initial, f)
    ensures r.Send? && initial.Some? ==>
      r.request.verb == Put && r.request.url == ApiBaseUrl + "/blogs/" + IntToString(initial.value.id)
    ensures r.Send? && initial.None? ==> r.request.verb == Post && r.request.url == ApiBaseUrl + "/blogs"
  {
    if !isAuthenticated || !Truthy(token) then NotSignedIn(NotSignedInMessage)
    else
      var verb := if initial.Some? then Put else Post;
      var url := if initial.Some? then ApiBaseUrl + "/blogs/" + IntToString(initial.value.id) else ApiBaseUrl + "/blogs";
      Send(Submission(verb, url, "Bearer " + token.value, BuildPayload(initial, f)))
  }

  /** The file name shown next to the current picture: what follows the
      last '/' of its URL. It is shown when editing a post that has one. */
  function CurrentImageName(initial: Option<Existing>): (r: Option<string>)
    ensures r.Some? <==> initial.Some? && Truthy(initial.value.imageUrl)
    ensures r.Some? ==> r.value == AfterLast(initial.value.imageUrl.value, '/')
  {
    if initial.Some? && Truthy(initial.value.imageUrl) then Some(AfterLast(initial.value.imageUrl.value, '/'))
    else None
  }

  /** The name shown for an uploaded picture is its stored file name. */
  lemma CurrentImageNameOfUpload(id: int, dir: string, filename: string)
    requires '/' !in filename && filename != []
    ensures CurrentImageName(Some(Existing(id, Some(dir + "/" + filename)))) == Some(filename)
  {
    AfterLastSplit(dir, '/', filename);
    assert dir + "/" + filename == dir + ['/'] + filename;
  }
}
