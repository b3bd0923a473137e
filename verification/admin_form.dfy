/** The upload form of the admin page: its state record and the handlers
    that change it. Timers are not run: each simulated delay is recorded as
    pending in the state, and its expiry is a separate transition. */
module AdminForm {
  import opened Optional
  import opened Text
  import opened FileNames

  /** What the form keeps of a picked file: its name and MIME type. */
  datatype FileInfo = FileInfo(name: string, mimeType: string)

  /** The simulated delay currently pending, if any: the 2-second wait that
      stands in for the upload, or the 2-second wait before the form resets. */
  datatype Timer = NoTimer | UploadTimer | ResetTimer

  /** The form's state hooks, plus the pending delay. */
  datatype State = State(
    file: Option<FileInfo>,
    name: string,
    description: string,
    region: string,
    uploading: bool,
    uploadSuccess: bool,
    error: string,
    timer: Timer)

  /** Inline error messages ("select an audio file", "enter an audio name",
      "select a region"). */
  const ErrNoFile: string := "请选择音频文件"
  const ErrNoName: string := "请输入音频名称"
  const ErrNoRegion: string := "请选择地区"

  /** The values the region selector offers. */
  const RegionSlugs: seq<string> := ["chengdu", "shanghai", "hongkong", "shenyang"]

  /** The state the page starts in: everything empty, nothing pending. */
  const Initial: State := State(None, "", "", "", false, false, "", NoTimer)

  /** The file-type check applied to a picked file. */
  predicate IsAudio(f: FileInfo): (b: bool)
    ensures b <==> exists t :: f.mimeType == "audio/" + t
  {
    StartsWith(f.mimeType, "audio/")
  }

  /** `handleFileChange`: `picked` is the first file of the input's list,
      None when the list is empty. */
  function HandleFileChange(s: State, picked: Option<FileInfo>): (r: State)
    ensures picked.None? ==> r == s
    ensures picked.Some? && !(exists t :: picked.value.mimeType == "audio/" + t) ==>
              r == s.(file := None, error := ErrNoFile)
    ensures picked.Some? && (exists t :: picked.value.mimeType == "audio/" + t) ==>
              && r.file == picked && r.error == ""
              && (s.name == "" ==> r.name == DefaultName(picked.value.name))
              && (s.name != "" ==> r.name == s.name)
              && r.(file := s.file, error := s.error, name := s.name) == s
  {
    match picked
    case None => s
    case Some(f) =>
      if !IsAudio(f) then s.(error := ErrNoFile, file := None)
      else
        var s' := s.(file := Some(f), error := "");
        if s.name == "" then s'.(name := DefaultName(f.name)) else s'
  }

  /** The validation prefix of `handleUpload`: the message of the first
      failing check, or None when the form may be submitted. */
  function Validate(s: State): (r: Option<string>)
    ensures r.None? <==> s.file.Some? && !AllWhitespace(s.name) && s.region != ""
    ensures s.file.None? ==> r == Some(ErrNoFile)
    ensures s.file.Some? && AllWhitespace(s.name) ==> r == Some(ErrNoName)
    ensures s.file.Some? && !AllWhitespace(s.name) && s.region == "" ==> r == Some(ErrNoRegion)
  {
    BlankIffAllWhitespace(s.name);
    if s.file.None? then Some(ErrNoFile)
    else if IsBlank(s.name) then Some(ErrNoName)
    else if s.region == "" then Some(ErrNoRegion)
    else None
  }

  /** `handleUpload` up to its first `await`: on a failed check only the
      error changes; otherwise the form is marked uploading, the error is
      cleared and the upload delay starts. */
  function HandleUpload(s: State): (r: State)
    ensures Validate(s).Some? ==> r == s.(error := Validate(s).value)
    ensures Validate(s).None? ==>
              r.uploading && r.error == "" && r.timer == UploadTimer
              && r.(uploading := s.uploading, error := s.error, timer := s.timer) == s
  {
    match Validate(s)
    case Some(msg) => s.(error := msg)
    case None => s.(uploading := true, error := "", timer := UploadTimer)
  }

  /** The upload delay has elapsed: the simulated response is a success and
      the reset delay starts. */
  function CompleteUpload(s: State): (r: State)
    ensures r.uploadSuccess && r.timer == ResetTimer
    ensures r.(uploadSuccess := s.uploadSuccess, timer := s.timer) == s
  {
    s.(uploadSuccess := true, timer := ResetTimer)
  }

  /** The reset delay has elapsed: file, name, description and region are
      emptied and both flags drop; the error message is left as it is. */
  function ResetForm(s: State): (r: State)
    ensures r == Initial.(error := s.error)
    ensures s.error == "" ==> r == Initial
  {
    s.(file := None, name := "", description := "", region := "",
       uploading := false, uploadSuccess := false, timer := NoTimer)
  }

  /** `clearFile`: the held file is dropped. */
  function ClearFile(s: State): (r: State)
    ensures r.file.None? && r.(file := s.file) == s
  {
    s.(file := None)
  }

  /** The name input's change handler. */
  function SetName(s: State, v: string): (r: State)
    ensures r.name == v && r.(name := s.name) == s
  {
    s.(name := v)
  }

  /** The description textarea's change handler. */
  function SetDescription(s: State, v: string): (r: State)
    ensures r.description == v && r.(description := s.description) == s
  {
    s.(description := v)
  }

  /** The region selector's `onValueChange`. */
  function SetRegion(s: State, v: string): (r: State)
    ensures r.region == v && r.(region := s.region) == s
  {
    s.(region := v)
  }

  /** The upload button's `disabled={!file || uploading || uploadSuccess}`,
      negated. While it holds, the missing-file check cannot fail. */
  predicate ButtonEnabled(s: State): (b: bool)
    ensures b <==> s.file.Some? && !s.uploading && !s.uploadSuccess
    ensures b ==> Validate(s) != Some(ErrNoFile)
  {
    s.file.Some? && !s.uploading && !s.uploadSuccess
  }
}
