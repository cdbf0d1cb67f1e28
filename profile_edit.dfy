/** The string work of the profile editor (app/student/ProfileEdit.jsx): the file name and
    MIME type sent with an avatar upload, when an upload is attempted, which avatar is
    stored, and when saving is refused. The upload and the store writes are I/O; the
    upload's result is a parameter and the writes are returned as a value. */
module ProfileEdit {
  import opened JsString

  /** A character of the regular-expression class `\w`. */
  predicate IsWordChar(c: char) {
    ('a' <= c <= 'z') || ('A' <= c <= 'Z') || ('0' <= c <= '9') || c == '_'
  }

  predicate AllWord(s: string) {
    forall i :: 0 <= i < |s| ==> IsWordChar(s[i])
  }

  /** `uri.split("/").pop()`: the text after the last `/` of `uri`, or all of `uri` when it
      has no `/`. */
  function FileName(uri: string): (r: string)
    ensures |r| <= |uri| && r == uri[|uri| - |r|..]
    ensures '/' !in r
    ensures |r| < |uri| ==> uri[|uri| - |r| - 1] == '/'
  {
    if uri == [] || uri[|uri| - 1] == '/' then []
    else
      var n := |uri| - 1;
      var r := FileName(uri[..n]);
      assert uri[n - |r|..] == uri[..n][n - |r|..] + [uri[n]];
      r + [uri[n]]
  }

  /** Taking the file name of a path undoes joining a directory and a name with `/`. */
  lemma {:induction false} FileNameOfPath(dir: string, name: string)
    requires '/' !in name
    ensures FileName(dir + "/" + name) == name
  {
    var s := dir + "/" + name;
    if name != [] {
      var n := |name| - 1;
      assert s[..|s| - 1] == dir + "/" + name[..n];
      assert s[|s| - 1] == name[n];
      assert name[n] in name;
      FileNameOfPath(dir, name[..n]);
      assert name == name[..n] + [name[n]];
    }
  }

  /** `w` is the longest run of word characters that ends `s`. */
  ghost predicate IsWordRun(s: string, w: string) {
    && |w| <= |s| && w == s[|s| - |w|..] && AllWord(w)
    && (|w| < |s| ==> !IsWordChar(s[|s| - |w| - 1]))
  }

  /** The longest run of word characters at the end of `s`. */
  function WordRun(s: string): (r: string)
    ensures IsWordRun(s, r)
  {
    if s == [] || !IsWordChar(s[|s| - 1]) then []
    else
      var n := |s| - 1;
      var r := WordRun(s[..n]);
      assert s[n - |r|..] == s[..n][n - |r|..] + [s[n]];
      r + [s[n]]
  }

  /** A `.` followed by nothing but word characters is exactly where the final word run
      starts. */
  lemma DotEndsWordRun(s: string, w: string, p: nat)
    requires IsWordRun(s, w)
    requires p < |s| && s[p] == '.' && AllWord(s[p + 1..])
    ensures |w| == |s| - p - 1
  {
  }

  /** The capture of `/\.(\w+)$/.exec(name)`: the word characters after a `.` that run to the
      end of `name`. There is a match exactly when some `.` is followed by one or more word
      characters and nothing else. */
  function Extension(name: string): (r: Option<string>)
    ensures r.Some? ==> && 0 < |r.value| < |name|
                        && name[|name| - |r.value| - 1] == '.'
                        && name[|name| - |r.value|..] == r.value && AllWord(r.value)
    ensures r.None? ==> forall p :: 0 <= p < |name| - 1 && name[p] == '.' ==> !AllWord(name[p + 1..])
  {
    var w := WordRun(name);
    if 0 < |w| < |name| && name[|name| - |w| - 1] == '.' then Some(w)
    else
      ExtensionAbsent(name, w);
      None
  }

  lemma ExtensionAbsent(name: string, w: string)
    requires IsWordRun(name, w)
    requires !(0 < |w| < |name| && name[|name| - |w| - 1] == '.')
    ensures forall p :: 0 <= p < |name| - 1 && name[p] == '.' ==> !AllWord(name[p + 1..])
  {
    forall p | 0 <= p < |name| - 1 && name[p] == '.' && AllWord(name[p + 1..]) ensures false {
      DotEndsWordRun(name, w, p);
    }
  }

  /** The `type` of the upload form: `image/` and the extension, or `image` without one. */
  function MimeType(name: string): (r: string)
    ensures Extension(name).Some? ==> r == "image/" + Extension(name).value
    ensures Extension(name).None? ==> r == "image"
  {
    match Extension(name)
    case Some(x) => "image/" + x
    case None => "image"
  }

  /** A file `base.ext` under any directory is uploaded as `image/ext` when `ext` is made of
      word characters. */
  lemma MimeTypeOfPath(dir: string, base: string, ext: string)
    requires '/' !in base && '/' !in ext && ext != [] && AllWord(ext)
    ensures FileName(dir + "/" + base + "." + ext) == base + "." + ext
    ensures MimeType(base + "." + ext) == "image/" + ext
  {
    var name := base + "." + ext;
    assert dir + "/" + base + "." + ext == dir + "/" + name;
    assert '/' !in name by {
      forall i | 0 <= i < |name| ensures name[i] != '/' {
        if i < |base| { assert name[i] == base[i]; }
        else if i > |base| { assert name[i] == ext[i - |base| - 1]; }
      }
    }
    FileNameOfPath(dir, name);
    assert name[|base|] == '.' && name[|base| + 1..] == ext;
    var w := WordRun(name);
    DotEndsWordRun(name, w, |base|);
    assert w == ext;
  }

  /** A name whose last `.` is followed by a character outside `\w` has no extension, so it
      is uploaded as plain `image`. */
  lemma MimeTypeNoExtension(name: string, p: nat)
    requires p < |name| && name[p] == '.' && '.' !in name[p + 1..]
    requires !AllWord(name[p + 1..]) || p == |name| - 1
    ensures MimeType(name) == "image"
  {
  }

  /** What the upload form carries: `{uri, name, type}`. */
  datatype AvatarForm = AvatarForm(uri: string, name: string, mimeType: string)

  /** The form `uploadAvatarToServer` builds for a local file. */
  function AvatarUpload(localUri: string): (f: AvatarForm)
    ensures f.uri == localUri && f.name == FileName(localUri) && f.mimeType == MimeType(f.name)
  {
    var name := FileName(localUri);
    AvatarForm(localUri, name, MimeType(name))
  }

  /** How the upload `POST` ended: it threw, or it resolved with `data.avatarUrl`
      (absent when the response has none). */
  datatype UploadReply = UploadThrew | UploadReplied(avatarUrl: Option<string>)

  /** `uploadAvatarToServer`'s result: the returned URL when it is a non-empty string, and
      `null` when the response has none or the upload failed. */
  function UploadedUrl(reply: UploadReply): (r: Option<string>)
    ensures r.Some? <==> reply.UploadReplied? && Truthy(reply.avatarUrl)
    ensures r.Some? ==> r == reply.avatarUrl && r.value != ""
  {
    if reply.UploadReplied? then Or(reply.avatarUrl, None) else None
  }

  /** An upload is attempted only for a `file://` or `content://` avatar. */
  predicate IsLocalUri(avatarUri: Option<string>) {
    Truthy(avatarUri)
    && (StartsWith(avatarUri.value, "file://") || StartsWith(avatarUri.value, "content://"))
  }

  /** The effect of `saveProfile`: refused, with nothing uploaded or written; or saved,
      possibly after an upload, writing the name, the email and, when there is one, the
      avatar. */
  datatype ProfileSave =
    | Refused
    | Saved(upload: Option<AvatarForm>, userName: string, userEmail: string, avatar: Option<string>)

  /** `saveProfile`. A name or email that trims to nothing refuses the save. Otherwise a
      local avatar is uploaded (with `reply` as the upload's outcome), the name and email
      are stored as typed, and the stored avatar is the uploaded URL, else the current
      avatar, else none. */
  function SaveProfile(name: string, email: string, avatarUri: Option<string>,
                       reply: UploadReply): (r: ProfileSave)
    ensures r.Refused? <==> Trim(name) == [] || Trim(email) == []
    ensures r.Saved? ==> r.userName == name && r.userEmail == email
    ensures r.Saved? ==> (r.upload.Some? <==> IsLocalUri(avatarUri))
    ensures r.Saved? && r.upload.Some? ==> r.upload.value == AvatarUpload(avatarUri.value)
    ensures r.Saved? ==> r.avatar.Some? ==> r.avatar.value != ""
    ensures r.Saved? && r.upload.Some? && UploadedUrl(reply).Some? ==> r.avatar == UploadedUrl(reply)
    ensures r.Saved? && (r.upload.None? || UploadedUrl(reply).None?) ==>
              r.avatar == if Truthy(avatarUri) then avatarUri else None
  {
    if Trim(name) == [] || Trim(email) == [] then Refused
    else
      var uploaded := if IsLocalUri(avatarUri) then UploadedUrl(reply) else None;
      Saved(if IsLocalUri(avatarUri) then Some(AvatarUpload(avatarUri.value)) else None,
            name, email, Or(Or(uploaded, avatarUri), None))
  }

  /** An avatar that is not a local file is never uploaded: the upload's outcome cannot
      change what is saved. */
  lemma SaveIgnoresUploadForRemoteAvatar(name: string, email: string, avatarUri: Option<string>,
                                         r1: UploadReply, r2: UploadReply)
    requires !IsLocalUri(avatarUri)
    ensures SaveProfile(name, email, avatarUri, r1) == SaveProfile(name, email, avatarUri, r2)
  {
  }

  /** A failed upload of a local avatar falls back to storing the local URI. */
  lemma FailedUploadKeepsLocalAvatar(name: string, email: string, avatarUri: Option<string>)
    requires IsLocalUri(avatarUri)
    requires Trim(name) != [] && Trim(email) != []
    ensures SaveProfile(name, email, avatarUri, UploadThrew).avatar == avatarUri
  {
  }
}
