/**
 * The activity form: when its submit button is enabled, and what one submit
 * does — the early return without a photo, the upload, the choice between
 * updating and adding a log, the payload sent, and the reset after a save.
 *
 * The photo upload and the save request are outside the model: their
 * outcomes are parameters (what the upload returned, or None when it threw;
 * whether the server accepted the save). The upload hands back whatever URL
 * the answer holds without checking the status, so an answer without one is
 * Some("") here, the empty string standing for the missing URL.
 */
module Form {
  import opened Options

  /** The form fields; "" stands for an absent `PhotoURL` or `_id`. */
  datatype FormData = FormData(referenceID: string, email: string, activity: string, status: string,
                               photoURL: string, remarks: string, id: string)

  datatype UserDetails = UserDetails(referenceID: string, email: string)

  /** Latitude and longitude as the browser reported them; None until known. */
  datatype State = State(data: FormData, location: string, latitude: Option<real>, longitude: Option<real>,
                         image: string, uploading: bool, shown: bool)

  const LocationUnavailable := "Location unavailable"
  const FetchingLocation := "Fetching location..."

  /** The submit button's `disabled` expression. */
  predicate SubmitDisabled(s: State) {
    s.data.activity == "" || s.data.status == "" || s.uploading || s.image == ""
    || s.location == "" || s.location == LocationUnavailable || s.location == FetchingLocation
  }

  datatype Method = Put | Post

  const UpdateUrl := "/api/ModuleSales/Activity/UpdateLog?id="
  const AddUrl := "/api/ModuleSales/Activity/AddLog"

  /** The body sent: the form fields, with the place and the uploaded photo put over them. */
  datatype Payload = Payload(referenceID: string, email: string, activity: string, status: string,
                             remarks: string, id: string, location: string, latitude: Option<real>,
                             longitude: Option<real>, photoURL: string)

  datatype Request = Request(verb: Method, url: string, body: Payload)

  /** An existing log (`_id` set) is updated in place, by its id unencoded in the URL; otherwise a log is added. */
  function RequestFor(s: State, photoURL: string): (r: Request)
    ensures r.verb == Put <==> s.data.id != ""
    ensures r.body == Payload(s.data.referenceID, s.data.email, s.data.activity, s.data.status, s.data.remarks,
                              s.data.id, s.location, s.latitude, s.longitude, photoURL)
  {
    var body := Payload(s.data.referenceID, s.data.email, s.data.activity, s.data.status, s.data.remarks,
                        s.data.id, s.location, s.latitude, s.longitude, photoURL);
    if s.data.id != "" then Request(Put, UpdateUrl + s.data.id, body) else Request(Post, AddUrl, body)
  }

  /** The id an update URL names, read back from the URL alone; None for the add URL. */
  function IdOfUrl(url: string): Option<string> {
    if |url| > |UpdateUrl| && url[..|UpdateUrl|] == UpdateUrl then Some(url[|UpdateUrl|..]) else None
  }

  /** The URL tells the two requests apart and carries the id of the log it updates. */
  lemma UrlNamesTheLog(s: State, photoURL: string)
    ensures IdOfUrl(RequestFor(s, photoURL).url) == (if s.data.id != "" then Some(s.data.id) else None)
  {
    var url := RequestFor(s, photoURL).url;
    if s.data.id != "" {
      assert url[..|UpdateUrl|] == UpdateUrl;
    }
  }

  /** The fields a new entry starts from: the user's own reference and email. */
  function Fresh(user: UserDetails): (d: FormData)
    ensures d.referenceID == user.referenceID && d.email == user.email
    ensures d.activity == "" && d.status == "" && d.photoURL == "" && d.remarks == "" && d.id == ""
  {
    FormData(user.referenceID, user.email, "", "", "", "", "")
  }

  datatype Notice = NeedPhoto | Updated | Added | SaveFailed

  datatype Outcome = Outcome(state: State, request: Option<Request>, notice: Notice, refetch: bool)

  /**
   * `handleSubmit`. Without an image it stops before uploading; an upload
   * that throws, or a failed save, keeps the form as it was; a save resets the fields,
   * clears the image, closes the form and reloads the logs. Whatever
   * happens, it ends with the upload flag cleared.
   */
  function Submit(s: State, user: UserDetails, upload: Option<string>, saved: bool): (o: Outcome)
    ensures !o.state.uploading
    ensures s.image == "" ==> o == Outcome(s.(uploading := false), None, NeedPhoto, false)
    ensures o.request.Some? <==> s.image != "" && upload.Some?
    ensures o.request.Some? ==> o.request.value == RequestFor(s, upload.value)
    ensures o.refetch <==> o.request.Some? && saved
    ensures !o.refetch ==> o.state == s.(uploading := false)
    ensures o.refetch ==> o.state == s.(data := Fresh(user), image := "", shown := false, uploading := false)
    ensures o.refetch ==> o.notice == (if s.data.id != "" then Updated else Added)
    ensures s.image != "" && !o.refetch ==> o.notice == SaveFailed
  {
    if s.image == "" then Outcome(s.(uploading := false), None, NeedPhoto, false)
    else match upload
      case None => Outcome(s.(uploading := false), None, SaveFailed, false)
      case Some(url) =>
        var request := RequestFor(s, url);
        if !saved then Outcome(s.(uploading := false), Some(request), SaveFailed, false)
        else
          var notice := if s.data.id != "" then Updated else Added;
          Outcome(s.(data := Fresh(user), image := "", shown := false, uploading := false), Some(request), notice, true)
  }

  /** A form that can be submitted holds a photo, so its submit reaches the upload. */
  lemma EnabledReachesUpload(s: State, user: UserDetails, upload: Option<string>, saved: bool)
    requires !SubmitDisabled(s)
    ensures Submit(s, user, upload, saved).notice != NeedPhoto
  {
  }

  /** After a save the button is disabled again until a type, a status and a new photo are given. */
  lemma SavedFormIsDisabled(s: State, user: UserDetails, url: string)
    ensures SubmitDisabled(Submit(s, user, Some(url), true).state)
  {
  }

  /**
   * An upload answered without a URL does not stop the submit: the log is
   * sent with an empty photo URL and, once saved, the form is reset as usual.
   */
  lemma UploadWithoutUrlStillSaves(s: State, user: UserDetails, saved: bool)
    requires s.image != ""
    ensures var o := Submit(s, user, Some(""), saved);
      && o.request == Some(RequestFor(s, ""))
      && o.request.value.body.photoURL == ""
      && (saved ==> o.refetch && o.notice == (if s.data.id != "" then Updated else Added))
  {
  }
}
