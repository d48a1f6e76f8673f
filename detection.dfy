/** The detection adapter (`process_prediction`): it runs the loaded model on
    a stored image and flattens the model's native results into a list of
    detection records, or into a single message record. */
module Detection {
  import opened Wrappers
  import Text

  // AdaptNoObjects and AdaptErrorReport tell the three messages apart by their
  // first characters; the longer texts are written as two literals so that
  // those characters can be read off them.
  const NOT_LOADED_MESSAGE := "Model is not loaded." + " Check server logs for details."
  const NO_OBJECTS_MESSAGE := "No objects detected"
  const ERROR_PREFIX := "Error during" + " prediction: "

  /** One element of the adapter's output: a detection, or a message. The
      box and the confidence are kept as the model produced them. */
  datatype Record<Box, Conf> =
    | Detection(className: string, confidence: Conf, box: Box)
    | Message(message: string)

  /** The native `boxes` of one result: three parallel sequences (corners,
      confidence scores and class indices). */
  datatype Boxes<Box, Conf> = Boxes(xyxy: seq<Box>, conf: seq<Conf>, cls: seq<int>)

  /** One native result: its boxes when it exposes them, and its label table
      when it has one. */
  datatype NativeResult<Box, Conf> =
    NativeResult(boxes: Option<Boxes<Box, Conf>>, names: Option<map<int, string>>)

  /** The loaded model: running it on an image path yields its results, or
      raises an exception with the given text. */
  datatype Model<Box, Conf> = Model(run: string -> Result<seq<NativeResult<Box, Conf>>, string>)

  // ---------------------------------------------------------------------
  // Reference definitions
  // ---------------------------------------------------------------------

  function Min(a: nat, b: nat): nat { if a <= b then a else b }

  /** How many triples `zip(xyxy, conf, cls)` yields: the shortest length. */
  function ZipLength<Box, Conf>(b: Boxes<Box, Conf>): (n: nat)
    ensures n <= |b.xyxy| && n <= |b.conf| && n <= |b.cls|
    ensures n == |b.xyxy| || n == |b.conf| || n == |b.cls|
  {
    Min(|b.xyxy|, Min(|b.conf|, |b.cls|))
  }

  /** Whether the adapter looks into this result's boxes at all. */
  predicate HasBoxes<Box, Conf>(r: NativeResult<Box, Conf>) {
    r.boxes.Some? && |r.boxes.value.xyxy| > 0
  }

  /** The number of detections one result contributes. */
  function BoxCount<Box, Conf>(r: NativeResult<Box, Conf>): nat {
    if HasBoxes(r) then ZipLength(r.boxes.value) else 0
  }

  /** The number of detections a sequence of results contributes. */
  function TotalCount<Box, Conf>(rs: seq<NativeResult<Box, Conf>>): nat {
    if rs == [] then 0 else TotalCount(rs[..|rs| - 1]) + BoxCount(rs[|rs| - 1])
  }

  /** Whether class index `c` can be named: there is no label table, or the
      table has the key. */
  predicate Resolves(names: Option<map<int, string>>, c: int) {
    names.None? || c in names.value
  }

  /** Whether the `i`-th box of result `r` can be named. */
  predicate BoxResolves<Box, Conf>(r: NativeResult<Box, Conf>, i: nat)
    requires i < BoxCount(r)
  {
    Resolves(r.names, r.boxes.value.cls[i])
  }

  /** The label of class index `c`: its entry in the label table, or its
      decimal text when there is no table. */
  function Label(names: Option<map<int, string>>, c: int): string
    requires Resolves(names, c)
  {
    if names.Some? then names.value[c] else Text.IntToDecimal(c)
  }

  /** The record the `i`-th box of result `r` becomes. */
  function Expected<Box, Conf>(r: NativeResult<Box, Conf>, i: nat): Record<Box, Conf>
    requires i < BoxCount(r) && BoxResolves(r, i)
  {
    var b := r.boxes.value;
    Detection(Label(r.names, b.cls[i]), b.conf[i], b.xyxy[i])
  }

  predicate AllDetections<Box, Conf>(ds: seq<Record<Box, Conf>>) {
    forall i :: 0 <= i < |ds| ==> ds[i].Detection?
  }

  // ---------------------------------------------------------------------
  // The adapter as functions, in the source's evaluation order
  // ---------------------------------------------------------------------

  /** Looking up a class index: a missing key raises `KeyError`, whose text
      is the key's decimal form. */
  function LookUpLabel(names: Option<map<int, string>>, c: int): (r: Result<string, string>)
    ensures r.Success? <==> Resolves(names, c)
    ensures r.Success? ==> r.value == Label(names, c)
    ensures r.Failure? ==> r.error == Text.IntToDecimal(c)
  {
    match names
    case None => Success(Text.IntToDecimal(c))
    case Some(m) => if c in m then Success(m[c]) else Failure(Text.IntToDecimal(c))
  }

  /** The records of the first `n` zipped triples of one result, or the
      first lookup failure among them. */
  function BoxRecords<Box, Conf>(r: NativeResult<Box, Conf>, n: nat): (out: Result<seq<Record<Box, Conf>>, string>)
    requires n <= BoxCount(r)
    ensures out.Success? ==> |out.value| == n
  {
    if n == 0 then Success([])
    else
      match BoxRecords(r, n - 1)
      case Failure(e) => Failure(e)
      case Success(ds) =>
        var b := r.boxes.value;
        match LookUpLabel(r.names, b.cls[n - 1])
        case Failure(e) => Failure(e)
        case Success(name) => Success(ds + [Detection(name, b.conf[n - 1], b.xyxy[n - 1])])
  }

  /** The records of one result (none when it exposes no boxes). */
  function ResultRecords<Box, Conf>(r: NativeResult<Box, Conf>): Result<seq<Record<Box, Conf>>, string> {
    BoxRecords(r, BoxCount(r))
  }

  /** Running one step after another: the first failure wins, otherwise the
      records of both steps, in order. */
  function Then<Box, Conf>(x: Result<seq<Record<Box, Conf>>, string>, y: Result<seq<Record<Box, Conf>>, string>): Result<seq<Record<Box, Conf>>, string> {
    if x.Failure? then x
    else if y.Failure? then Failure(y.error)
    else Success(x.value + y.value)
  }

  /** The records of a sequence of results, in order, or the first failure. */
  function Collect<Box, Conf>(rs: seq<NativeResult<Box, Conf>>): (out: Result<seq<Record<Box, Conf>>, string>)
    ensures out.Success? ==> |out.value| == TotalCount(rs)
  {
    if rs == [] then Success([])
    else Then(Collect(rs[..|rs| - 1]), ResultRecords(rs[|rs| - 1]))
  }

  // ---------------------------------------------------------------------
  // Properties of one result's records
  // ---------------------------------------------------------------------

  /** The records of a result succeed exactly when every zipped box, up to
      `n`, can be named. */
  lemma {:induction false} BoxRecordsSucceeds<Box, Conf>(r: NativeResult<Box, Conf>, n: nat)
    requires n <= BoxCount(r)
    ensures BoxRecords(r, n).Success? <==> forall i :: 0 <= i < n ==> BoxResolves(r, i)
  {
    if n > 0 {
      BoxRecordsSucceeds(r, n - 1);
      assert LookUpLabel(r.names, r.boxes.value.cls[n - 1]).Success? <==> BoxResolves(r, n - 1);
    }
  }

  /** Zip order within a result: the `i`-th record is the `i`-th triple, named. */
  lemma {:induction false} BoxRecordsAt<Box, Conf>(r: NativeResult<Box, Conf>, n: nat, i: nat)
    requires n <= BoxCount(r) && BoxRecords(r, n).Success? && i < n
    ensures BoxResolves(r, i) && BoxRecords(r, n).value[i] == Expected(r, i)
  {
    if i < n - 1 {
      BoxRecordsAt(r, n - 1, i);
    }
  }

  /** Once a lookup has failed, later boxes do not change the outcome. */
  lemma {:induction false} BoxRecordsFailurePersists<Box, Conf>(r: NativeResult<Box, Conf>, j: nat, n: nat)
    requires j <= n <= BoxCount(r) && BoxRecords(r, j).Failure?
    ensures BoxRecords(r, n) == BoxRecords(r, j)
  {
    if n > j {
      BoxRecordsFailurePersists(r, j, n - 1);
    }
  }

  /** One more named box extends the records of a result by one detection. */
  lemma BoxRecordsStep<Box, Conf>(r: NativeResult<Box, Conf>, j: nat, ds: seq<Record<Box, Conf>>, name: string)
    requires j < BoxCount(r) && BoxRecords(r, j) == Success(ds)
    requires LookUpLabel(r.names, r.boxes.value.cls[j]) == Success(name)
    ensures BoxRecords(r, j + 1) == Success(ds + [Detection(name, r.boxes.value.conf[j], r.boxes.value.xyxy[j])])
  {
  }

  /** The first box, in zip order, whose class index the label table lacks
      decides the failure: its text is that index in decimal. */
  lemma BoxRecordsFirstMissing<Box, Conf>(r: NativeResult<Box, Conf>, n: nat, i: nat)
    requires i < n <= BoxCount(r)
    requires !BoxResolves(r, i) && forall j :: 0 <= j < i ==> BoxResolves(r, j)
    ensures BoxRecords(r, n) == Failure(Text.IntToDecimal(r.boxes.value.cls[i]))
  {
    BoxRecordsSucceeds(r, i);
    BoxRecordsFailurePersists(r, i + 1, n);
  }

  // ---------------------------------------------------------------------
  // Properties of the collected records
  // ---------------------------------------------------------------------

  /** The records of a sequence of results succeed exactly when every box of
      every result can be named. */
  lemma {:induction false} CollectSucceeds<Box, Conf>(rs: seq<NativeResult<Box, Conf>>)
    ensures Collect(rs).Success? <==>
      forall k, i :: 0 <= k < |rs| && 0 <= i < BoxCount(rs[k]) ==> BoxResolves(rs[k], i)
  {
    if rs != [] {
      var init, last := rs[..|rs| - 1], rs[|rs| - 1];
      CollectSucceeds(init);
      BoxRecordsSucceeds(last, BoxCount(last));
      assert forall k :: 0 <= k < |init| ==> init[k] == rs[k];
    }
  }

  /** A successful collection holds detections only. */
  lemma {:induction false} CollectDetectionsOnly<Box, Conf>(rs: seq<NativeResult<Box, Conf>>)
    requires Collect(rs).Success?
    ensures AllDetections(Collect(rs).value)
  {
    if rs != [] {
      var init, last := rs[..|rs| - 1], rs[|rs| - 1];
      CollectDetectionsOnly(init);
      var ds, more := Collect(init).value, ResultRecords(last).value;
      forall i | 0 <= i < |more| ensures more[i].Detection? {
        BoxRecordsAt(last, BoxCount(last), i);
      }
      assert Collect(rs).value == ds + more;
    }
  }

  /** No result contributes anything exactly when the total is zero. */
  lemma {:induction false} TotalCountZero<Box, Conf>(rs: seq<NativeResult<Box, Conf>>)
    ensures TotalCount(rs) == 0 <==> forall k :: 0 <= k < |rs| ==> BoxCount(rs[k]) == 0
  {
    if rs != [] {
      var init := rs[..|rs| - 1];
      TotalCountZero(init);
      assert forall k :: 0 <= k < |init| ==> init[k] == rs[k];
    }
  }

  /** Encounter order: the `i`-th box of the `k`-th result becomes the record
      at position `i` past everything the earlier results contributed. */
  lemma {:induction false} CollectAt<Box, Conf>(rs: seq<NativeResult<Box, Conf>>, k: nat, i: nat)
    requires Collect(rs).Success?
    requires k < |rs| && i < BoxCount(rs[k])
    ensures BoxResolves(rs[k], i)
    ensures TotalCount(rs[..k]) + i < |Collect(rs).value|
    ensures Collect(rs).value[TotalCount(rs[..k]) + i] == Expected(rs[k], i)
  {
    var init := rs[..|rs| - 1];
    assert forall j :: 0 <= j < |init| ==> init[j] == rs[j];
    if k == |rs| - 1 {
      assert rs[..k] == init;
      BoxRecordsAt(rs[k], BoxCount(rs[k]), i);
    } else {
      assert init[..k] == rs[..k];
      CollectAt(init, k, i);
    }
  }

  /** Grouping does not matter when steps run one after another. */
  lemma ThenAssociative<Box, Conf>(x: Result<seq<Record<Box, Conf>>, string>, y: Result<seq<Record<Box, Conf>>, string>, z: Result<seq<Record<Box, Conf>>, string>)
    ensures Then(Then(x, y), z) == Then(x, Then(y, z))
  {
    if x.Success? && y.Success? && z.Success? {
      assert x.value + y.value + z.value == x.value + (y.value + z.value);
    }
  }

  /** Results are handled one after the other and independently: collecting
      a concatenation collects each part and joins them, the first part's
      failure taking precedence. */
  lemma {:induction false} CollectAppend<Box, Conf>(a: seq<NativeResult<Box, Conf>>, b: seq<NativeResult<Box, Conf>>)
    ensures Collect(a + b) == Then(Collect(a), Collect(b))
  {
    if b == [] {
      assert a + b == a;
      if Collect(a).Success? {
        assert Collect(a).value + [] == Collect(a).value;
      }
    } else {
      var bInit, last := b[..|b| - 1], b[|b| - 1];
      assert (a + b)[..|a + b| - 1] == a + bInit;
      assert (a + b)[|a + b| - 1] == last;
      calc {
        Collect(a + b);
        Then(Collect(a + bInit), ResultRecords(last));
        { CollectAppend(a, bInit); }
        Then(Then(Collect(a), Collect(bInit)), ResultRecords(last));
        { ThenAssociative(Collect(a), Collect(bInit), ResultRecords(last)); }
        Then(Collect(a), Then(Collect(bInit), ResultRecords(last)));
        Then(Collect(a), Collect(b));
      }
    }
  }

  /** A failure among the first `m` results is the failure of them all. */
  lemma CollectPrefixFailure<Box, Conf>(rs: seq<NativeResult<Box, Conf>>, m: nat)
    requires m <= |rs| && Collect(rs[..m]).Failure?
    ensures Collect(rs) == Collect(rs[..m])
  {
    CollectAppend(rs[..m], rs[m..]);
    assert rs[..m] + rs[m..] == rs;
  }

  /** A result without boxes contributes nothing: dropping it changes nothing. */
  lemma NoBoxesContributeNothing<Box, Conf>(rs: seq<NativeResult<Box, Conf>>, k: nat)
    requires k < |rs| && !HasBoxes(rs[k])
    ensures Collect(rs[..k] + rs[k + 1..]) == Collect(rs)
  {
    var a, b := rs[..k], rs[k + 1..];
    assert Collect(rs[..k + 1]) == Collect(a) by {
      assert rs[..k + 1][..k] == a;
      assert ResultRecords(rs[k]) == Success([]);
      if Collect(a).Success? {
        assert Collect(a).value + [] == Collect(a).value;
      }
    }
    assert rs[..k + 1] + b == rs;
    CollectAppend(rs[..k + 1], b);
    CollectAppend(a, b);
  }

  /** One more result extends the collected records by that result's records. */
  lemma CollectStep<Box, Conf>(rs: seq<NativeResult<Box, Conf>>, k: nat, ds: seq<Record<Box, Conf>>, more: seq<Record<Box, Conf>>)
    requires k < |rs| && Collect(rs[..k]) == Success(ds) && ResultRecords(rs[k]) == Success(more)
    ensures Collect(rs[..k + 1]) == Success(ds + more)
  {
    assert rs[..k + 1][..k] == rs[..k];
  }

  /** A result whose records fail, after earlier results that all succeeded,
      makes the whole collection fail with that result's text. */
  lemma CollectStopsAt<Box, Conf>(rs: seq<NativeResult<Box, Conf>>, k: nat)
    requires k < |rs| && Collect(rs[..k]).Success? && ResultRecords(rs[k]).Failure?
    ensures Collect(rs) == Failure(ResultRecords(rs[k]).error)
  {
    assert Collect(rs[..k + 1]) == Failure(ResultRecords(rs[k]).error) by {
      assert rs[..k + 1][..k] == rs[..k];
    }
    CollectPrefixFailure(rs, k + 1);
  }

  /** The first box, in encounter order, whose class index its result's label
      table lacks decides the failure: its text is that index in decimal, and
      nothing collected before it survives. */
  lemma CollectFirstMissing<Box, Conf>(rs: seq<NativeResult<Box, Conf>>, k: nat, i: nat)
    requires k < |rs| && i < BoxCount(rs[k]) && !BoxResolves(rs[k], i)
    requires forall k', j :: 0 <= k' < k && 0 <= j < BoxCount(rs[k']) ==> BoxResolves(rs[k'], j)
    requires forall j :: 0 <= j < i ==> BoxResolves(rs[k], j)
    ensures Collect(rs) == Failure(Text.IntToDecimal(rs[k].boxes.value.cls[i]))
  {
    CollectSucceeds(rs[..k]);
    BoxRecordsFirstMissing(rs[k], BoxCount(rs[k]), i);
    CollectStopsAt(rs, k);
  }

  // ---------------------------------------------------------------------
  // The adapter's output
  // ---------------------------------------------------------------------

  /** The adapter's output for a given model and image path. */
  function Adapt<Box, Conf>(model: Option<Model<Box, Conf>>, imagePath: string): (out: seq<Record<Box, Conf>>)
    ensures |out| >= 1
    ensures AllDetections(out) || (|out| == 1 && out[0].Message?)
    ensures model.None? ==> out == [Message(NOT_LOADED_MESSAGE)]
  {
    match model
    case None => [Message(NOT_LOADED_MESSAGE)]
    case Some(m) =>
      match m.run(imagePath)
      case Failure(e) => [Message(ERROR_PREFIX + e)]
      case Success(results) =>
        match Collect(results)
        case Failure(e) => [Message(ERROR_PREFIX + e)]
        case Success(ds) =>
          CollectDetectionsOnly(results);
          if |ds| == 0 then [Message(NO_OBJECTS_MESSAGE)] else ds
  }

  /** Whether the output is the single error record. */
  predicate IsErrorReport<Box, Conf>(out: seq<Record<Box, Conf>>) {
    && |out| == 1
    && out[0].Message?
    && |ERROR_PREFIX| <= |out[0].message|
    && out[0].message[..|ERROR_PREFIX|] == ERROR_PREFIX
  }

  /** "No objects detected" is returned exactly when the model ran and no
      result yields a zipped (box, confidence, class) triple. */
  lemma AdaptNoObjects<Box, Conf>(model: Option<Model<Box, Conf>>, imagePath: string)
    ensures Adapt(model, imagePath) == [Message(NO_OBJECTS_MESSAGE)] <==>
      model.Some? && model.value.run(imagePath).Success? && TotalCount(model.value.run(imagePath).value) == 0
  {
    assert NO_OBJECTS_MESSAGE[0] == 'N';
    if model.None? {
      assert NOT_LOADED_MESSAGE[0] == 'M';
    } else {
      var outcome := model.value.run(imagePath);
      if outcome.Failure? {
        assert (ERROR_PREFIX + outcome.error)[0] == 'E';
      } else {
        var rs := outcome.value;
        TotalCountZero(rs);
        CollectSucceeds(rs);
        if Collect(rs).Failure? {
          assert (ERROR_PREFIX + Collect(rs).error)[0] == 'E';
        } else {
          CollectDetectionsOnly(rs);
        }
      }
    }
  }

  /** The single error record is returned exactly when the model raised or
      a class index was missing from a label table; its text after the prefix
      is the exception's text. */
  lemma AdaptErrorReport<Box, Conf>(model: Option<Model<Box, Conf>>, imagePath: string)
    ensures IsErrorReport(Adapt(model, imagePath)) <==>
      model.Some? && (model.value.run(imagePath).Failure? || Collect(model.value.run(imagePath).value).Failure?)
    ensures model.Some? && model.value.run(imagePath).Failure? ==>
      Adapt(model, imagePath) == [Message(ERROR_PREFIX + model.value.run(imagePath).error)]
    ensures model.Some? && model.value.run(imagePath).Success? && Collect(model.value.run(imagePath).value).Failure? ==>
      Adapt(model, imagePath) == [Message(ERROR_PREFIX + Collect(model.value.run(imagePath).value).error)]
  {
    assert NOT_LOADED_MESSAGE[0] != ERROR_PREFIX[0];
    assert NO_OBJECTS_MESSAGE[0] != ERROR_PREFIX[0];
    if model.Some? {
      var outcome := model.value.run(imagePath);
      if outcome.Failure? {
        assert (ERROR_PREFIX + outcome.error)[..|ERROR_PREFIX|] == ERROR_PREFIX;
      } else if Collect(outcome.value).Failure? {
        assert (ERROR_PREFIX + Collect(outcome.value).error)[..|ERROR_PREFIX|] == ERROR_PREFIX;
      } else {
        CollectDetectionsOnly(outcome.value);
      }
    }
  }

  /** The first box, in encounter order, whose class index its label table
      lacks turns the whole output into the error record naming that index. */
  lemma AdaptFirstMissing<Box, Conf>(model: Model<Box, Conf>, imagePath: string, k: nat, i: nat)
    requires model.run(imagePath).Success?
    requires var rs := model.run(imagePath).value;
      && k < |rs| && i < BoxCount(rs[k]) && !BoxResolves(rs[k], i)
      && (forall k', j :: 0 <= k' < k && 0 <= j < BoxCount(rs[k']) ==> BoxResolves(rs[k'], j))
      && (forall j :: 0 <= j < i ==> BoxResolves(rs[k], j))
    ensures var rs := model.run(imagePath).value;
      Adapt(Some(model), imagePath) == [Message(ERROR_PREFIX + Text.IntToDecimal(rs[k].boxes.value.cls[i]))]
  {
    CollectFirstMissing(model.run(imagePath).value, k, i);
  }

  /** When the model ran, some result yields a zipped (box, confidence, class)
      triple and every class index could be named, the output holds detections
      only, one per zipped triple of every result. */
  lemma AdaptDetectionCount<Box, Conf>(model: Model<Box, Conf>, imagePath: string)
    requires model.run(imagePath).Success?
    requires var rs := model.run(imagePath).value;
      && TotalCount(rs) > 0
      && forall k', j :: 0 <= k' < |rs| && 0 <= j < BoxCount(rs[k']) ==> BoxResolves(rs[k'], j)
    ensures var out := Adapt(Some(model), imagePath);
      AllDetections(out) && |out| == TotalCount(model.run(imagePath).value)
  {
    var rs := model.run(imagePath).value;
    CollectSucceeds(rs);
    CollectDetectionsOnly(rs);
  }

  /** When the model ran, some result yields a zipped (box, confidence, class)
      triple and every class index could be named, the output is
      the detections themselves: as many as the results hold, in encounter
      order, each labelled through its result's table or by its index. */
  lemma AdaptDetections<Box, Conf>(model: Model<Box, Conf>, imagePath: string, k: nat, i: nat)
    requires model.run(imagePath).Success?
    requires var rs := model.run(imagePath).value;
      && TotalCount(rs) > 0
      && forall k', j :: 0 <= k' < |rs| && 0 <= j < BoxCount(rs[k']) ==> BoxResolves(rs[k'], j)
    requires k < |model.run(imagePath).value| && i < BoxCount(model.run(imagePath).value[k])
    ensures var rs := model.run(imagePath).value; var out := Adapt(Some(model), imagePath);
      && AllDetections(out)
      && |out| == TotalCount(rs)
      && BoxResolves(rs[k], i)
      && TotalCount(rs[..k]) + i < |out|
      && out[TotalCount(rs[..k]) + i] == Expected(rs[k], i)
  {
    var rs := model.run(imagePath).value;
    CollectSucceeds(rs);
    CollectDetectionsOnly(rs);
    CollectAt(rs, k, i);
  }

  // ---------------------------------------------------------------------
  // The adapter as the source runs it
  // ---------------------------------------------------------------------

  /** The inner loop of `process_prediction` over one result's zipped boxes:
      appends one detection per box, or stops at the first class index the
      label table lacks (the `KeyError`) and reports that index. */
  method AppendBoxes<Box, Conf>(result: NativeResult<Box, Conf>, detections: seq<Record<Box, Conf>>)
    returns (extended: seq<Record<Box, Conf>>, missing: Option<int>)
    requires HasBoxes(result)
    ensures missing.None? <==> ResultRecords(result).Success?
    ensures missing.None? ==> extended == detections + ResultRecords(result).value
    ensures missing.Some? ==> ResultRecords(result).error == Text.IntToDecimal(missing.value)
  {
    var boxes := result.boxes.value;
    extended := detections;
    ghost var added: seq<Record<Box, Conf>> := [];
    var j := 0;
    while j < |boxes.xyxy| && j < |boxes.conf| && j < |boxes.cls|
      invariant 0 <= j <= BoxCount(result)
      invariant BoxRecords(result, j) == Success(added)
      invariant extended == detections + added
    {
      var c := boxes.cls[j];
      var name;
      if result.names.Some? {
        if c !in result.names.value {
          BoxRecordsFailurePersists(result, j + 1, BoxCount(result));
          return extended, Some(c);
        }
        name := result.names.value[c];
      } else {
        name := Text.IntToDecimal(c);
      }
      BoxRecordsStep(result, j, added, name);
      extended := extended + [Detection(name, boxes.conf[j], boxes.xyxy[j])];
      added := added + [Detection(name, boxes.conf[j], boxes.xyxy[j])];
      j := j + 1;
    }
    return extended, None;
  }

  /** `process_prediction`: the model check, the model call, then a loop over
      the results appending each one's detections; a missing label aborts
      with the error record and drops what was collected. */
  method ProcessPrediction<Box, Conf>(model: Option<Model<Box, Conf>>, imagePath: string)
    returns (output: seq<Record<Box, Conf>>)
    ensures output == Adapt(model, imagePath)
  {
    if model.None? {
      return [Message(NOT_LOADED_MESSAGE)];
    }
    var outcome := model.value.run(imagePath);
    if outcome.Failure? {
      return [Message(ERROR_PREFIX + outcome.error)];
    }
    var results := outcome.value;
    var detections: seq<Record<Box, Conf>> := [];
    var k := 0;
    while k < |results|
      invariant 0 <= k <= |results|
      invariant Collect(results[..k]) == Success(detections)
    {
      var result := results[k];
      if result.boxes.Some? && |result.boxes.value.xyxy| > 0 {
        var extended, missing := AppendBoxes(result, detections);
        if missing.Some? {
          CollectStopsAt(results, k);
          return [Message(ERROR_PREFIX + Text.IntToDecimal(missing.value))];
        }
        CollectStep(results, k, detections, ResultRecords(result).value);
        detections := extended;
      } else {
        CollectStep(results, k, detections, []);
        assert detections + [] == detections;
      }
      k := k + 1;
    }
    assert results[..k] == results;
    if |detections| == 0 {
      return [Message(NO_OBJECTS_MESSAGE)];
    }
    return detections;
  }
}
