# GenseAI upload-and-detect pipeline, modelled in Dafny

GenseAI is a small Flask application. A client uploads an image to
`POST /upload`. The handler checks the request, stores the file under a
timestamped name, runs a YOLO object detector on it, and answers with the
detections as JSON. This project models the three pieces of logic the
application owns, and proves properties of them:

- **the extension whitelist** (`ALLOWED_EXTENSIONS`, `allowed_file`), in module
  `AllowedFiles`. It is built on `Text`, which models the Python string
  built-ins it uses, `str.lower` and `str.rsplit('.', 1)`. `Text` also models
  `str(int)`, which the adapter and the upload handler use.
- **the detection adapter** (`process_prediction`), in module `Detection`.
  It turns the detector's native results into a flat list of
  `{class, confidence, box}` records, or into one message record. The
  reference semantics is the function `Adapt`, built from `LookUpLabel`,
  `BoxRecords` and `Collect`, which follow the source's evaluation order. The
  source's nested loops, which append in place, are the methods
  `ProcessPrediction` (over the results) and `AppendBoxes` (over one
  result's zipped boxes). `ProcessPrediction` is proved to compute `Adapt`.
  `AppendBoxes` is proved to append exactly one result's records,
  `ResultRecords`, or to report the first missing class index.
- **the upload decision sequence** (`upload_file`) and **start-up model
  loading** (`load_model`), in module `Upload`. They are pure functions: the
  three checks in their fixed order with their fixed messages, then
  store-and-detect.

Inputs from outside the program are parameters:

- the detector is a `Detection.Model`. Its `run` maps an image path either to
  the native results or to the text of the exception it raised;
- `None` stands for "no model loaded";
- the clock reading `int(time.time())` is `now`;
- `secure_filename` is an uninterpreted `string -> string`;
- whether the weight file exists, and what constructing the model yields, are
  the inputs of `LoadModel`.

The module-global `model` becomes an explicit argument, because it is set
once at start-up and only read afterwards.

Boxes and confidence scores are type parameters (`Box`, `Conf`). The adapter
copies them through unchanged, so the model never needs floating point.

A `KeyError` on a missing label carries the missing key. Python's text for it
is the key's decimal form, so the error record reads
`"Error during prediction: " + str(cls)`.

Two details of the code are easy to misread, and the model follows the code:

- the stored file name is `secure_filename("<ts>_<name>")`: the whole string
  is sanitised, not only the client's name (`app.py:77`);
- the three native sequences are not required to have the same length. The
  adapter zips them, so each result contributes as many records as its
  shortest sequence has entries (`app.py:48`).

## Model

| member | source | states |
|---|---|---|
| `AllowedFiles.AllowedFile` | app.py:91-93 | an accepted name contains a '.' (the extension set is `{png, jpg, jpeg, gif}`, app.py:12) |
| `AllowedFiles.NoDotRejected` | app.py:92 | a name with no '.' is always rejected |
| `AllowedFiles.SuffixDecides` | app.py:92-93 | for any prefix, even one containing dots, `prefix + "." + ext` with a dot-free `ext` is accepted exactly when lower-cased `ext` is an allowed extension |
| `AllowedFiles.LastDotDecides` | app.py:93 | if position `i` holds the last '.', the verdict is that of the text after `i` |
| `AllowedFiles.AllowedFileCharacterised` | app.py:91-93 | both directions: a name is accepted exactly when some '.' in it has no '.' after it and an allowed text (lower-cased) after it |
| `AllowedFiles.CaseInsensitive` | app.py:93 | lower-casing the whole name never changes the verdict |
| `AllowedFiles.AcceptsMultiDotUpperCase` | app.py:91-93 | `"A.TAR.PNG"` is accepted |
| `AllowedFiles.AcceptsBareExtension` | app.py:91-93 | `".png"` is accepted |
| `AllowedFiles.AcceptsPlainJpg` | app.py:91-93 | `"cat.jpg"` is accepted |
| `AllowedFiles.RejectsForeignExtension` | app.py:91-93 | `"photo.txt"` is rejected |
| `AllowedFiles.RejectsEmptyExtension` | app.py:91-93 | `"file."` is rejected |
| `Text.Lower` | app.py:93 | lower-casing keeps the length and maps each character through the ASCII case mapping |
| `Text.LastIndexOf` | app.py:93 | absent exactly when the character does not occur; otherwise an in-range index holding it, with no occurrence after it |
| `Text.RSplitOnce` | app.py:93 | no separator: the whole string alone; otherwise two parts that rebuild the string around one separator, the second part free of separators |
| `Text.RSplitOnceOfJoin` | app.py:93 | splitting `prefix + [sep] + tail`, with `sep` not in `tail`, gives back exactly `[prefix, tail]` |
| `Text.NatToDecimal` | app.py:77 | the timestamp text is a non-empty string of digits with no leading zero |
| `Text.IntToDecimal` | app.py:49 | `str(int)` is non-empty and starts with '-' exactly for negative values |
| `Text.IntToDecimalRoundTrip` | app.py:49 | parsing `str(i)` gives back `i` |
| `Text.IntToDecimalInjective` | app.py:49 | distinct class indices get distinct fallback labels |
| `Detection.ZipLength` | app.py:48 | `zip` over the three sequences yields as many triples as the shortest one: no sequence is shorter, and one of them has exactly that length |
| `Detection.LookUpLabel` | app.py:49 | the lookup succeeds exactly when there is no label table or the table has the key; on success the label is `names[cls]` or, with no table, the decimal text of `cls`; on failure the `KeyError` text is the key in decimal |
| `Detection.BoxRecords` | app.py:48-54 | handling the first `n` zipped boxes, when it succeeds, yields exactly `n` records |
| `Detection.Collect` | app.py:44-56 | a successful collection has exactly `TotalCount(rs)` records: the sum, over results with a non-empty box sequence, of the shortest of the three sequence lengths |
| `Detection.BoxRecordsSucceeds` | app.py:48-49 | a result's records succeed exactly when every zipped box can be named |
| `Detection.BoxRecordsAt` | app.py:48-54 | the `i`-th record of a result is `{names[cls[i]] or str(cls[i]), conf[i], xyxy[i]}` |
| `Detection.BoxRecordsFirstMissing` | app.py:48-49 | the first box in zip order whose class index is missing from the label table decides the failure text |
| `Detection.CollectSucceeds` | app.py:45-49 | collection succeeds exactly when every box of every result can be named |
| `Detection.CollectDetectionsOnly` | app.py:50-54 | a successful collection holds detection records only, never a message |
| `Detection.CollectAt` | app.py:45-54 | encounter order: the `i`-th box of the `k`-th result sits at position `i` past the records of results `0..k-1`, and carries that box's label, confidence and corners |
| `Detection.CollectAppend` | app.py:45-56 | results are handled one after another and independently: collecting `a + b` is collecting `a`, then `b`, with `a`'s failure first |
| `Detection.NoBoxesContributeNothing` | app.py:46-56 | removing a result that has no boxes, or an empty box sequence, leaves the outcome unchanged |
| `Detection.CollectFirstMissing` | app.py:45-61 | the first box, in encounter order, with an unnamed class index makes the whole collection fail with that index's text, so earlier detections are discarded |
| `Detection.Adapt` | app.py:36-61 | the output is never empty; it is either detections only or exactly one message; with no model it is exactly the "Model is not loaded..." record |
| `Detection.AdaptNoObjects` | app.py:58 | both directions: the output is exactly `[{message: "No objects detected"}]` when the model ran and no result yields a zipped (box, confidence, class) triple |
| `Detection.AdaptErrorReport` | app.py:42-61 | both directions: the output is the single "Error during prediction: ..." record exactly when the model raised or a label was missing; after the prefix comes the text of the exception raised by the model call, or that of the failed label lookup |
| `Detection.AdaptFirstMissing` | app.py:45-61 | the first box, in encounter order, whose class index is missing from its label table makes the output exactly `[{message: "Error during prediction: " + str(cls)}]` for that index |
| `Detection.AdaptDetectionCount` | app.py:44-58 | when the model ran, every index could be named and some result yields a zipped (box, confidence, class) triple, the output holds detections only, exactly `TotalCount` of them: one per zipped triple, summed over the results |
| `Detection.AdaptDetections` | app.py:44-58 | when the model ran, every index could be named and some result yields a zipped (box, confidence, class) triple, the output is `TotalCount` detections in encounter order, each as `BoxRecordsAt` and `CollectAt` describe |
| `Detection.AppendBoxes` | app.py:48-54 | the inner loop appends exactly the result's records to the list, or reports the first missing class index, whose decimal text is the failure text |
| `Detection.ProcessPrediction` | app.py:36-61 | the imperative adapter (early returns, nested loops, appends) returns exactly `Adapt(model, imagePath)` |
| `Upload.LoadModel` | app.py:19-33 | a model is loaded exactly when the weight file exists and constructing the model raises nothing; it is then the constructed model |
| `Upload.StoredName` | app.py:77 | the stored name is the sanitiser applied to one string; its first '_' separates a text that reads back as the timestamp from the client's name |
| `Upload.StampedNameInjective` | app.py:77 | different timestamps or different client names never hand the sanitiser the same string |
| `Upload.JoinPath` | app.py:78 | an absolute stored name (one starting with '/') replaces the folder, so the path is exactly that name; otherwise the path is exactly the upload folder, a '/', and the name; either way it ends with the name |
| `Upload.UploadFile` | app.py:67-89 | both directions, in order: "No file part" exactly when there is no `file` part; "No selected file" exactly when the name is empty; "File type not allowed" exactly when the name is non-empty and not allowed; otherwise the response is processed, stored as `secure_filename(str(now) + "_" + name)`, with the adapter's output for `JoinPath("static/uploads", <stored name>)` |
| `Upload.RejectionIgnoresDetection` | app.py:69-89 | a rejected request gets the same answer whatever the clock, the sanitiser and the model, so the adapter is not consulted |
| `Upload.AcceptedOutputShape` | app.py:82-87 | an accepted upload's detections are never empty, and are either all detections or exactly one message |
| `Upload.LoadFailureDegrades` | app.py:19-40 | after a failed start-up load, every accepted upload is answered with the "Model is not loaded..." record |
| `Upload.NoFilePartScenario` | app.py:69-70 | a request without a `file` part is answered "No file part" |
| `Upload.ForeignExtensionScenario` | app.py:76-89 | a `photo.txt` upload is answered "File type not allowed" |
| `Upload.NoModelScenario` | app.py:76-87 | a `cat.jpg` upload with no model is stored as `secure_filename(str(now) + "_cat.jpg")` and answered with the "Model is not loaded..." record |

## Left out

- Flask routing, `render_template`, `jsonify`, request parsing and `app.run` (app.py:1, 8, 63-65, 95-96): web-framework plumbing. The response is a datatype, and the HTTP status (200 on every path where the handler returns) is not modelled.
- `os.makedirs`, `file.save` and `os.path.exists` (app.py:16, 23, 79): filesystem I/O. Whether the weight file exists is an input of `LoadModel`, and storing the file has no effect in the model. The model assumes the save succeeds. A `file.save` that raises is not caught by `upload_file`, so that request ends in a server error, which the model does not represent. The request carries no image bytes, so `run` stands for the detector applied to whatever was saved at that path.
- `YOLO(...)` and the inference call `model(image_path)` (app.py:26, 42): a foreign library. Each becomes an abstract outcome, either a value or the text of the exception raised.
- `float(score)` and `box.cpu().numpy().tolist()` (app.py:52-53): tensor and float conversions. Scores and boxes stay opaque and are copied through, and an exception raised inside these conversions is not modelled.
- `int(cls)` (app.py:49): class indices are already integers in the model, so truncating a tensor value to an int is not modelled.
- `hasattr(result, 'boxes')` and `hasattr(result.boxes, 'xyxy')` (app.py:46): both are folded into one optional `boxes` field. `hasattr(result, 'names')` is an optional label table, and a table is a `map<int, string>`.
- `secure_filename` and `time.time()` (app.py:77): a foreign sanitiser and the clock, so they are parameters. As a result, the model cannot say what characters a stored name contains.
- `Text.Lower`: models ASCII case mapping only, because Python's Unicode case mapping is outside the model. Both agree on ASCII text, and every allowed extension is ASCII.
- `Upload.UploadFile`: answers `Processed` whenever the three checks pass, because a `file.save` (app.py:79) that raises, and the server error it causes, are outside the model.
- `Upload.JoinPath`: models POSIX `os.path.join` only (an absolute second part replaces the folder), because the platform the server runs on is outside the model.
- Truth value of a file part (app.py:76): taken to be that of its name, as werkzeug's `FileStorage` defines it; werkzeug is not part of this model. Only the `file` field of `request.files` is modelled.
- All `print` logging (app.py:22-61).
