/**
  The profile-edit dialog: loading the signed-in user, replacing and
  removing the avatar in the `profile_image` bucket, and the two-step save
  of the four profile fields.
 */
module EditProfile {
  import opened Outcomes
  import opened JsStrings

  /** The `user_metadata` the auth service keeps for a user. */
  datatype Metadata = Metadata(avatarUrl: Option<string>, name: string, email: string, age: int, location: string)

  /** The signed-in user as the auth service returns it. */
  datatype AuthUser = AuthUser(id: string, metadata: Metadata)

  /** The four editable fields, carried by both writes of a save. */
  datatype Fields = Fields(name: string, email: string, age: int, location: string)

  datatype ProfileState = ProfileState(
    user: Option<AuthUser>,
    profileImg: Option<string>,
    loading: bool,
    imgChangeLoading: bool,
    userId: string,
    fields: Fields,
    saveLoading: bool)

  /** The part of `user_metadata` an auth update writes. */
  datatype MetadataPatch = AvatarPatch(avatarUrl: Option<string>) | FieldsPatch(fields: Fields)

  /** Requests sent to the auth service, the `users` table and the `profile_image` bucket. */
  datatype ProfileCall =
    | GetUser
    | Upload(path: string)
    | GetPublicUrl(path: string)
    | UpdateMetadata(patch: MetadataPatch)
    | RemoveObject(path: string)
    | UpdateUsersRow(id: string, name: string, email: string, age: int, location: string)

  datatype Step = Step(state: ProfileState, calls: seq<ProfileCall>)

  /** A file picked in the hidden input; only its name matters here. */
  datatype PickedFile = PickedFile(name: string)

  /** What a public URL of the bucket holds before the object's path. */
  const PublicMarker := "/storage/v1/object/public/profile_image/"

  /** `avatar_url || null`: a missing or empty URL shows the placeholder. */
  function AvatarOrNull(url: Option<string>): (r: Option<string>)
    ensures r.Some? <==> url.Some? && url.value != ""
    ensures r.Some? ==> r == url
  {
    if url.Some? && url.value != "" then url else None
  }

  /** The mount fetch: a user fills the form and the avatar; an error or no user changes nothing. */
  function Load(st: ProfileState, fetched: Result<Option<AuthUser>>): (r: Step)
    ensures r.calls == [GetUser]
    ensures !r.state.loading
    ensures fetched.Err? || fetched.value.None? ==> r.state == st.(loading := false)
    ensures fetched.Ok? && fetched.value.Some? ==>
              var u := fetched.value.value;
              && r.state.user == Some(u)
              && r.state.userId == u.id
              && (r.state.profileImg.Some? <==> u.metadata.avatarUrl.Some? && u.metadata.avatarUrl.value != "")
              && (r.state.profileImg.Some? ==> r.state.profileImg == u.metadata.avatarUrl)
              && r.state.fields == Fields(u.metadata.name, u.metadata.email, u.metadata.age, u.metadata.location)
              && r.state.imgChangeLoading == st.imgChangeLoading
              && r.state.saveLoading == st.saveLoading
  {
    var next := match fetched
      case Ok(Some(u)) =>
        var m := u.metadata;
        st.(user := Some(u), profileImg := AvatarOrNull(m.avatarUrl), userId := u.id,
            fields := Fields(m.name, m.email, m.age, m.location))
      case _ => st;
    Step(next.(loading := false), [GetUser])
  }

  /** `file.name.split(".").pop()`. */
  function Extension(fileName: string): (ext: string)
    ensures |ext| <= |fileName| && fileName[|fileName| - |ext|..] == ext
    ensures '.' !in ext
    ensures |ext| == |fileName| || fileName[|fileName| - |ext| - 1] == '.'
    ensures '.' !in fileName ==> ext == fileName
  {
    AfterLast(fileName, '.')
  }

  /** Where an avatar is stored: `<user id>/profile.<extension>`. */
  function UploadPath(userId: string, fileName: string): (path: string)
    ensures |path| == |userId| + 9 + |Extension(fileName)|
    ensures path[..|userId|] == userId
    ensures path[|userId|..|userId| + 9] == "/profile."
    ensures path[|userId| + 9..] == Extension(fileName)
  {
    userId + "/profile." + Extension(fileName)
  }

  /**
    A picked file. With no file, or no signed-in user id, nothing happens.
    Otherwise the local preview shows at once and the file is uploaded; only
    when the upload and the metadata update both succeed does the public
    URL replace the preview, and neither failure brings the old image back.
   */
  function PickFile(st: ProfileState, file: Option<PickedFile>, preview: string, uploaded: Result<Unit>,
                    publicUrl: string, recorded: Result<Unit>): (r: Step)
    ensures file.None? || st.user.None? || st.user.value.id == "" ==> r == Step(st, [])
    ensures file.Some? && st.user.Some? && st.user.value.id != "" ==>
              var path := UploadPath(st.user.value.id, file.value.name);
              && |r.calls| >= 1 && r.calls[0] == Upload(path)
              && !r.state.imgChangeLoading
              && (uploaded.Err? ==> r.calls == [Upload(path)] && r.state.profileImg == Some(preview))
              && (uploaded.Ok? ==> r.calls == [Upload(path), GetPublicUrl(path), UpdateMetadata(AvatarPatch(Some(publicUrl)))])
              && (uploaded.Ok? && recorded.Err? ==> r.state.profileImg == Some(preview))
              && (uploaded.Ok? && recorded.Ok? ==> r.state.profileImg == Some(publicUrl))
              && r.state.(profileImg := st.profileImg, imgChangeLoading := st.imgChangeLoading) == st
  {
    if file.None? || st.user.None? || st.user.value.id == "" then Step(st, [])
    else
      var path := UploadPath(st.user.value.id, file.value.name);
      var previewing := st.(profileImg := Some(preview), imgChangeLoading := false);
      if uploaded.Err? then Step(previewing, [Upload(path)])
      else
        var calls := [Upload(path), GetPublicUrl(path), UpdateMetadata(AvatarPatch(Some(publicUrl)))];
        if recorded.Err? then Step(previewing, calls)
        else Step(previewing.(profileImg := Some(publicUrl)), calls)
  }

  /**
    `url.split(PublicMarker)[1]`, kept only when it is a non-empty string:
    the text after the first marker up to the next marker or the end.
   */
  function RemovalPath(url: string): (r: Option<string>)
    ensures IndexOf(url, PublicMarker).None? ==> r.None?
    ensures IndexOf(url, PublicMarker).Some? ==>
              var start := IndexOf(url, PublicMarker).value + |PublicMarker|;
              var end := PieceEnd(url, PublicMarker, start);
              r == if start == end then None else Some(url[start..end])
  {
    SplitSecondPiece(url, PublicMarker);
    var parts := Split(url, PublicMarker);
    if |parts| < 2 || parts[1] == "" then None else Some(parts[1])
  }

  /**
    The remove button. Without an image, or with one whose URL yields no
    storage path, nothing happens. Otherwise the object is removed; on
    success the image is cleared locally and in the metadata, on error the
    state is kept.
   */
  function RemovePhoto(st: ProfileState, removed: Result<Unit>): (r: Step)
    ensures st.profileImg.None? || st.profileImg.value == "" ==> r == Step(st, [])
    ensures st.profileImg.Some? && RemovalPath(st.profileImg.value).None? ==> r == Step(st, [])
    ensures st.profileImg.Some? && RemovalPath(st.profileImg.value).Some? ==>
              var path := RemovalPath(st.profileImg.value).value;
              && (removed.Err? ==> r == Step(st, [RemoveObject(path)]))
              && (removed.Ok? ==> r == Step(st.(profileImg := None), [RemoveObject(path), UpdateMetadata(AvatarPatch(None))]))
  {
    if st.profileImg.None? || st.profileImg.value == "" then Step(st, [])
    else
      match RemovalPath(st.profileImg.value)
      case None => Step(st, [])
      case Some(path) =>
        if removed.Err? then Step(st, [RemoveObject(path)])
        else Step(st.(profileImg := None), [RemoveObject(path), UpdateMetadata(AvatarPatch(None))])
  }

  /**
    Save changes. The `users` row is written first; only if that succeeds is
    `saveLoading` released and the same four fields mirrored into the
    metadata. A failed row write leaves `saveLoading` set until a later
    save's row write succeeds. The outcome of the
    metadata write is only logged.
   */
  function Save(st: ProfileState, rowWritten: Result<Unit>): (r: Step)
    ensures |r.calls| >= 1
    ensures r.calls[0] == UpdateUsersRow(st.userId, st.fields.name, st.fields.email, st.fields.age, st.fields.location)
    ensures rowWritten.Err? ==> |r.calls| == 1 && r.state.saveLoading
    ensures rowWritten.Ok? ==> |r.calls| == 2 && r.calls[1] == UpdateMetadata(FieldsPatch(st.fields)) && !r.state.saveLoading
    ensures r.state.(saveLoading := st.saveLoading) == st
  {
    var row := UpdateUsersRow(st.userId, st.fields.name, st.fields.email, st.fields.age, st.fields.location);
    match rowWritten
    case Err(_) => Step(st.(saveLoading := true), [row])
    case Ok(_) => Step(st.(saveLoading := false), [row, UpdateMetadata(FieldsPatch(st.fields))])
  }

  /** Both writes of a save carry the same four values. */
  lemma SaveWritesAgree(st: ProfileState)
    ensures
      var calls := Save(st, Ok(())).calls;
      && calls[0].UpdateUsersRow? && calls[1].UpdateMetadata? && calls[1].patch.FieldsPatch?
      && calls[0].name == calls[1].patch.fields.name
      && calls[0].email == calls[1].patch.fields.email
      && calls[0].age == calls[1].patch.fields.age
      && calls[0].location == calls[1].patch.fields.location
  {
  }

  /**
    The click on save runs even while a save is pending: `saveLoading` only
    changes the caption, so a stuck flag neither blocks a retry nor changes
    what is sent.
   */
  lemma SaveIgnoresPendingFlag(st: ProfileState, rowWritten: Result<Unit>)
    ensures Save(st.(saveLoading := true), rowWritten) == Save(st.(saveLoading := false), rowWritten)
  {
  }

  /**
    A failed upload strands the preview: when the preview URL holds no
    public-URL marker (a browser object URL), the remove button does
    nothing afterwards.
   */
  lemma FailedUploadPreviewCannotBeRemoved(st: ProfileState, name: string, preview: string,
                                           err: string, publicUrl: string, recorded: Result<Unit>, removed: Result<Unit>)
    requires st.user.Some? && st.user.value.id != ""
    requires !Contains(preview, PublicMarker)
    ensures
      var after := PickFile(st, Some(PickedFile(name)), preview, Err(err), publicUrl, recorded).state;
      && after.profileImg == Some(preview)
      && RemovePhoto(after, removed) == Step(after, [])
  {
  }

  /**
    Removing an avatar whose public URL is `<project URL><marker><path>`
    targets exactly `<path>`, as long as the marker first occurs right
    after the project URL and `<path>` holds no marker.
   */
  lemma RemoveTargetsUploadedObject(project: string, path: string)
    requires IndexOf(project + PublicMarker, PublicMarker) == Some(|project|)
    requires path != "" && !Contains(path, PublicMarker)
    ensures RemovalPath(project + PublicMarker + path) == Some(path)
  {
    SecondPieceOfComposite(project, PublicMarker, path);
  }

  /** An upload path has one `/`, between the user id and `profile.`, when neither the id nor the file name has one. */
  lemma UploadPathHasOneSlash(userId: string, fileName: string)
    requires '/' !in userId && '/' !in fileName
    ensures forall p :: 0 <= p < |UploadPath(userId, fileName)| && p != |userId| ==> UploadPath(userId, fileName)[p] != '/'
  {
    var path := UploadPath(userId, fileName);
    var ext := Extension(fileName);
    forall p | 0 <= p < |path| && p != |userId|
      ensures path[p] != '/'
    {
      if p < |userId| {
        assert path[p] == userId[p];
      } else if p < |userId| + 9 {
        assert path[p] == "/profile."[p - |userId|];
      } else {
        var q := p - |userId| - 9;
        assert path[p] == ext[q];
        assert ext[q] == fileName[|fileName| - |ext|..][q];
      }
    }
  }

  /**
    The remove button deletes the object the upload wrote: the public URL of
    `UploadPath(id, name)` gives that path back, when neither the user id nor
    the file name holds a `/` and the marker first occurs right after the
    project URL.
   */
  lemma RemoveUndoesUpload(project: string, userId: string, fileName: string)
    requires IndexOf(project + PublicMarker, PublicMarker) == Some(|project|)
    requires '/' !in userId && '/' !in fileName
    ensures RemovalPath(project + PublicMarker + UploadPath(userId, fileName)) == Some(UploadPath(userId, fileName))
  {
    UploadPathFreeOfMarker(userId, fileName);
    RemoveTargetsUploadedObject(project, UploadPath(userId, fileName));
  }

  /** An upload path never holds the public-URL marker, which has two `/` eight apart. */
  lemma UploadPathFreeOfMarker(userId: string, fileName: string)
    requires '/' !in userId && '/' !in fileName
    ensures !Contains(UploadPath(userId, fileName), PublicMarker)
  {
    UploadPathHasOneSlash(userId, fileName);
    assert PublicMarker[0] == '/' && PublicMarker[8] == '/';
    NoOccurrenceWithOneMark(UploadPath(userId, fileName), PublicMarker, '/', |userId|, 0, 8);
  }

  /**
    Upload then remove, through the handlers: after a fully successful pick
    whose public URL is that of the upload path, the remove button deletes
    exactly the uploaded object and clears the image locally and in the
    metadata.
   */
  lemma PickThenRemove(st: ProfileState, project: string, fileName: string, preview: string)
    requires st.user.Some? && st.user.value.id != ""
    requires '/' !in st.user.value.id && '/' !in fileName
    requires IndexOf(project + PublicMarker, PublicMarker) == Some(|project|)
    ensures
      var path := UploadPath(st.user.value.id, fileName);
      var picked := PickFile(st, Some(PickedFile(fileName)), preview, Ok(()), project + PublicMarker + path, Ok(()));
      && picked.calls[0] == Upload(path)
      && RemovePhoto(picked.state, Ok(())) ==
         Step(picked.state.(profileImg := None), [RemoveObject(path), UpdateMetadata(AvatarPatch(None))])
  {
    RemoveUndoesUpload(project, st.user.value.id, fileName);
  }

  /**
    A reload after a successful pick shows what the pick left on screen:
    the metadata now carries the public URL, and `avatar_url || null` keeps
    it.
   */
  lemma ReloadAfterUpload(st: ProfileState, file: PickedFile, preview: string, publicUrl: string, u: AuthUser)
    requires st.user.Some? && st.user.value.id != ""
    requires publicUrl != ""
    ensures
      var picked := PickFile(st, Some(file), preview, Ok(()), publicUrl, Ok(()));
      var recorded := u.(metadata := u.metadata.(avatarUrl := Some(publicUrl)));
      && picked.calls[2] == UpdateMetadata(AvatarPatch(recorded.metadata.avatarUrl))
      && Load(picked.state, Ok(Some(recorded))).state.profileImg == picked.state.profileImg
  {
  }

  /**
    A reload after a successful removal shows no image either: the metadata
    avatar is now null, and `avatar_url || null` gives the placeholder.
   */
  lemma ReloadAfterRemove(st: ProfileState, u: AuthUser)
    requires st.profileImg.Some? && RemovalPath(st.profileImg.value).Some?
    ensures
      var removed := RemovePhoto(st, Ok(()));
      var recorded := u.(metadata := u.metadata.(avatarUrl := None));
      && removed.calls[1] == UpdateMetadata(AvatarPatch(recorded.metadata.avatarUrl))
      && Load(removed.state, Ok(Some(recorded))).state.profileImg == removed.state.profileImg == None
  {
  }

  /**
    Saving a freshly loaded profile without edits writes back exactly the
    loaded metadata fields, to the loaded user's row and then to the
    metadata.
   */
  lemma SaveAfterLoad(st: ProfileState, u: AuthUser)
    ensures
      var m := u.metadata;
      var loaded := Load(st, Ok(Some(u))).state;
      Save(loaded, Ok(())).calls ==
        [UpdateUsersRow(u.id, m.name, m.email, m.age, m.location),
         UpdateMetadata(FieldsPatch(Fields(m.name, m.email, m.age, m.location)))]
  {
  }
}
