/** Start-up model loading (`load_model`) and the upload handler's decision
    sequence (`upload_file`). */
module Upload {
  import opened Wrappers
  import Text
  import AllowedFiles
  import Detection

  const UPLOAD_FOLDER := "static/uploads"

  const NO_FILE_PART := "No file part"
  const NO_SELECTED_FILE := "No selected file"
  const FILE_TYPE_NOT_ALLOWED := "File type not allowed"

  /** An uploaded file part, reduced to the name the client sent. */
  datatype FileStorage = FileStorage(filename: string)

  /** An upload request: the multipart field `file`, when present. */
  datatype UploadRequest = UploadRequest(file: Option<FileStorage>)

  /** The JSON body the handler answers with. */
  datatype Response<Box, Conf> =
    | Rejected(error: string)
    | Processed(filename: string, detections: seq<Detection.Record<Box, Conf>>)

  /** `load_model`: no model when the weight file is missing or constructing the
      model raises; otherwise the constructed model. */
  function LoadModel<Box, Conf>(weightsExist: bool, construct: Result<Detection.Model<Box, Conf>, string>)
    : (model: Option<Detection.Model<Box, Conf>>)
    ensures model.Some? <==> weightsExist && construct.Success?
    ensures model.Some? ==> model.value == construct.value
  {
    if !weightsExist then None
    else
      match construct
      case Failure(_) => None
      case Success(m) => Some(m)
  }

  /** The truth value of a file part, which is that of its name. */
  predicate IsTruthy(file: FileStorage) {
    file.filename != ""
  }

  /** `os.path.join(folder, name)` on POSIX, for a folder without a trailing
      separator: an absolute `name` replaces the folder. */
  function JoinPath(folder: string, name: string): (path: string)
    ensures |name| <= |path| && path[|path| - |name|..] == name
    ensures |name| > 0 && name[0] == '/' ==> path == name
    ensures !(|name| > 0 && name[0] == '/') ==>
      |path| == |folder| + 1 + |name| && path[..|folder| + 1] == folder + "/"
  {
    if |name| > 0 && name[0] == '/' then name else folder + "/" + name
  }

  /** The client's name behind the whole-second timestamp and an underscore. */
  function StampedName(now: nat, original: string): string {
    Text.IntToDecimal(now) + "_" + original
  }

  /** The stored file name: the stamped name passed through the sanitiser as
      a whole. What the sanitiser is given splits back, at its first '_',
      into a text that reads as the timestamp and the client's name. */
  function StoredName(now: nat, original: string, secureFilename: string -> string): (stored: string)
    ensures var s := StampedName(now, original); var d := |Text.IntToDecimal(now)|;
      && stored == secureFilename(s)
      && d < |s| && s[d] == '_' && '_' !in s[..d]
      && Text.ParseInt(s[..d]) == now && s[d + 1..] == original
  {
    var s := StampedName(now, original);
    var d := Text.IntToDecimal(now);
    assert s[..|d|] == d && s[|d| + 1..] == original;
    Text.IntToDecimalRoundTrip(now);
    secureFilename(s)
  }

  /** Two texts joined to their tails by a separator neither contains are
      told apart at the first separator. */
  lemma SplitAtFirst(a: string, b: string, x: string, y: string, sep: char)
    requires sep !in a && sep !in b && a + [sep] + x == b + [sep] + y
    ensures a == b && x == y
  {
    var s := a + [sep] + x;
    assert s[|a|] == sep && s[|b|] == sep;
    assert a == s[..|a|] == b;
    assert x == s[|a| + 1..] == y;
  }

  /** Distinct timestamps or distinct client names give distinct stamped
      names, so the sanitiser never receives the same text for two of them. */
  lemma StampedNameInjective(now: nat, original: string, now': nat, original': string)
    requires StampedName(now, original) == StampedName(now', original')
    ensures now == now' && original == original'
  {
    var d, d' := Text.IntToDecimal(now), Text.IntToDecimal(now');
    assert '_' !in d && '_' !in d';
    SplitAtFirst(d, d', original, original', '_');
    Text.IntToDecimalRoundTrip(now);
    Text.IntToDecimalRoundTrip(now');
  }

  /** `upload_file`: the three checks, in order, each with its own message;
      only a request that passes all three is stored and run through the
      detection adapter. `now` is `int(time.time())`. */
  function UploadFile<Box, Conf>(request: UploadRequest, now: nat, secureFilename: string -> string,
                                 model: Option<Detection.Model<Box, Conf>>): (response: Response<Box, Conf>)
    ensures response == Rejected(NO_FILE_PART) <==> request.file.None?
    ensures response == Rejected(NO_SELECTED_FILE) <==>
      request.file.Some? && request.file.value.filename == ""
    ensures response == Rejected(FILE_TYPE_NOT_ALLOWED) <==>
      request.file.Some? && request.file.value.filename != "" && !AllowedFiles.AllowedFile(request.file.value.filename)
    ensures response.Processed? <==>
      request.file.Some? && request.file.value.filename != "" && AllowedFiles.AllowedFile(request.file.value.filename)
    ensures response.Processed? ==>
      && response.filename == StoredName(now, request.file.value.filename, secureFilename)
      && response.detections == Detection.Adapt(model, JoinPath(UPLOAD_FOLDER, response.filename))
  {
    match request.file
    case None => Rejected(NO_FILE_PART)
    case Some(file) =>
      if file.filename == "" then Rejected(NO_SELECTED_FILE)
      else if IsTruthy(file) && AllowedFiles.AllowedFile(file.filename) then
        var filename := StoredName(now, file.filename, secureFilename);
        var filepath := JoinPath(UPLOAD_FOLDER, filename);
        Processed(filename, Detection.Adapt(model, filepath))
      else Rejected(FILE_TYPE_NOT_ALLOWED)
  }

  /** A rejected request never reaches storage or the model: the answer is
      the same whatever the clock, the sanitiser and the model. */
  lemma RejectionIgnoresDetection<Box, Conf>(request: UploadRequest,
                                             now: nat, secureFilename: string -> string, model: Option<Detection.Model<Box, Conf>>,
                                             now': nat, secureFilename': string -> string, model': Option<Detection.Model<Box, Conf>>)
    requires UploadFile(request, now, secureFilename, model).Rejected?
    ensures UploadFile(request, now', secureFilename', model') == UploadFile(request, now, secureFilename, model)
  {
  }

  /** Whatever the request, every accepted upload yields detection output of
      the adapter's shape: never empty, and either detections only or one
      message. */
  lemma AcceptedOutputShape<Box, Conf>(request: UploadRequest, now: nat, secureFilename: string -> string,
                                       model: Option<Detection.Model<Box, Conf>>)
    requires UploadFile(request, now, secureFilename, model).Processed?
    ensures var ds := UploadFile(request, now, secureFilename, model).detections;
      |ds| >= 1 && (Detection.AllDetections(ds) || (|ds| == 1 && ds[0].Message?))
  {
  }

  /** A model that failed to load at start-up degrades every accepted upload
      to the "not loaded" message. */
  lemma LoadFailureDegrades<Box, Conf>(weightsExist: bool, construct: Result<Detection.Model<Box, Conf>, string>,
                                       request: UploadRequest, now: nat, secureFilename: string -> string)
    requires !weightsExist || construct.Failure?
    requires UploadFile(request, now, secureFilename, LoadModel(weightsExist, construct)).Processed?
    ensures UploadFile(request, now, secureFilename, LoadModel(weightsExist, construct)).detections
            == [Detection.Record.Message(Detection.NOT_LOADED_MESSAGE)]
  {
  }

  /** A request without a `file` part. */
  lemma NoFilePartScenario<Box, Conf>(now: nat, secureFilename: string -> string, model: Option<Detection.Model<Box, Conf>>)
    ensures UploadFile(UploadRequest(None), now, secureFilename, model) == Rejected(NO_FILE_PART)
  {
  }

  /** A `photo.txt` upload. */
  lemma ForeignExtensionScenario<Box, Conf>(now: nat, secureFilename: string -> string, model: Option<Detection.Model<Box, Conf>>)
    ensures UploadFile(UploadRequest(Some(FileStorage("photo.txt"))), now, secureFilename, model)
            == Rejected(FILE_TYPE_NOT_ALLOWED)
  {
    AllowedFiles.RejectsForeignExtension();
  }

  /** A `cat.jpg` upload while no model is loaded: stored under the
      timestamped name, answered with the "not loaded" message. */
  lemma NoModelScenario<Box, Conf>(now: nat, secureFilename: string -> string)
    ensures UploadFile<Box, Conf>(UploadRequest(Some(FileStorage("cat.jpg"))), now, secureFilename, None)
            == Processed(secureFilename(Text.IntToDecimal(now) + "_cat.jpg"),
                         [Detection.Record.Message(Detection.NOT_LOADED_MESSAGE)])
  {
    AllowedFiles.AcceptsPlainJpg();
    var stamp := Text.IntToDecimal(now);
    assert stamp + "_" + "cat.jpg" == stamp + "_cat.jpg";
    var stored := StoredName(now, "cat.jpg", secureFilename);
    assert stored == secureFilename(stamp + "_cat.jpg");
    assert Detection.Adapt<Box, Conf>(None, JoinPath(UPLOAD_FOLDER, stored))
        == [Detection.Record.Message(Detection.NOT_LOADED_MESSAGE)];
  }
}
