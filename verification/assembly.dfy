/**
 * Assembly of one group's PDF from its selected images: per image, open it,
 * convert RGBA/LA to RGB, save it as a one-page temporary PDF and append that
 * to the merger; then write the merged document and, on every exit path,
 * try to remove the recorded temporary files and close the merger.
 *
 * Image decoding, PDF encoding, the merger and the file system are not
 * modelled; an environment of oracles says which of their calls succeed.
 * A temporary file is identified by the position of the image it was made
 * for, since each image makes at most one.
 */
module Assembly {
  import opened Sequences
  import opened Discovery

  /** The image modes the model distinguishes. */
  datatype Mode = RGB | RGBA | LA | L | P | PA | CMYK

  /** The modes converted to RGB before saving. */
  predicate IsConverted(m: Mode) {
    m == RGBA || m == LA
  }

  /** The mode of the page saved for an image of mode `m`. */
  function PdfMode(m: Mode): (r: Mode)
    ensures IsConverted(m) ==> r == RGB
    ensures !IsConverted(m) ==> r == m
    ensures r != RGBA && r != LA
  {
    if IsConverted(m) then RGB else m
  }

  /** Which library calls succeed for one image path. */
  datatype ImageOracle = ImageOracle(
    opens: bool,        // Image.open succeeds
    mode: Mode,         // the opened image's mode
    converts: bool,     // convert('RGB') succeeds, when it is attempted
    tempCreated: bool,  // NamedTemporaryFile succeeds
    saves: bool,        // image.save into the temporary file succeeds
    appends: bool)      // the merger's append of that file succeeds

  /** Whether `open(pdf_path, 'wb')` and the merger's write succeed for an output path. */
  datatype OutputOracle = OutputOracle(opens: bool, writes: bool)

  datatype Env = Env(
    image: Path -> ImageOracle,
    output: Path -> OutputOracle,
    removes: Path -> bool,   // os.remove of the temporary file made for this image succeeds
    closes: Path -> bool)    // the merger's close succeeds, per output path

  /** How a call ends: a returned boolean or an exception. */
  datatype Outcome = Returned(value: bool) | Raised

  /** The step at which one image's processing raised. */
  datatype Stage = OpenFailed | ConvertFailed | TempFailed | SaveFailed | AppendFailed

  datatype Stop = Finished | Failed(at: nat, stage: Stage)

  /** A page of the merged document: the image it came from and its saved mode. */
  datatype Page = Page(source: Path, mode: Mode)

  /** The state of the loop over the images. */
  datatype RenderState = RenderState(
    created: seq<nat>,   // temporary files that exist on disk
    recorded: seq<nat>,  // the temp_files list
    pages: seq<Page>,    // what the merger holds
    stop: Stop)

  /** What is at the output path after the call. */
  datatype OutputState = Untouched | Partial | Complete

  datatype Report = Report(
    outcome: Outcome,
    output: OutputState,
    document: seq<Page>,  // the pages of a completely written output
    created: seq<nat>,
    removals: seq<nat>,   // removal attempts, in order
    leftover: set<nat>)   // temporary files still on disk afterwards

  /** Every step for one image succeeds. */
  predicate Renders(o: ImageOracle) {
    o.opens && (IsConverted(o.mode) ==> o.converts) && o.tempCreated && o.saves && o.appends
  }

  predicate AllRender(images: seq<Path>, image: Path -> ImageOracle) {
    forall k | 0 <= k < |images| :: Renders(image(images[k]))
  }

  /** The first step that raises, in the order the loop body performs them. */
  function FailingStage(o: ImageOracle): Stage
    requires !Renders(o)
  {
    if !o.opens then OpenFailed
    else if IsConverted(o.mode) && !o.converts then ConvertFailed
    else if !o.tempCreated then TempFailed
    else if !o.saves then SaveFailed
    else AppendFailed
  }

  /** The temporary file exists once NamedTemporaryFile has succeeded (delete=False). */
  predicate CreatesTemp(stage: Stage) {
    stage == SaveFailed || stage == AppendFailed
  }

  /** The file is recorded only after a successful save. */
  predicate RecordsTemp(stage: Stage) {
    stage == AppendFailed
  }

  function PageFor(path: Path, o: ImageOracle): Page {
    Page(path, PdfMode(o.mode))
  }

  /** Reference: one page per image, in input order. */
  function PagesOf(images: seq<Path>, image: Path -> ImageOracle): (ps: seq<Page>)
    ensures |ps| == |images|
    ensures forall k | 0 <= k < |images| :: ps[k] == PageFor(images[k], image(images[k]))
  {
    seq(|images|, k requires 0 <= k < |images| => PageFor(images[k], image(images[k])))
  }

  /** One iteration of the loop body for the image at position `i`. */
  function Step(st: RenderState, i: nat, path: Path, o: ImageOracle): RenderState {
    if Renders(o) then
      st.(created := st.created + [i], recorded := st.recorded + [i], pages := st.pages + [PageFor(path, o)])
    else
      var stage := FailingStage(o);
      st.(created := if CreatesTemp(stage) then st.created + [i] else st.created,
          recorded := if RecordsTemp(stage) then st.recorded + [i] else st.recorded,
          stop := Failed(i, stage))
  }

  /** How many images were processed completely. */
  function Done(stop: Stop, n: nat): nat {
    if stop.Finished? then n else stop.at
  }

  /**
   * The loop over the images, stopping at the first exception. Its result is
   * fixed by the first image that does not render: every image before it has
   * a page and a recorded temporary file; that image itself leaves an
   * unrecorded file when its save raised and a recorded one when its append
   * raised.
   */
  function RenderLoop(images: seq<Path>, image: Path -> ImageOracle): (st: RenderState)
    ensures st.stop.Finished? <==> AllRender(images, image)
    ensures st.stop.Failed? ==>
      && st.stop.at < |images|
      && AllRender(images[..st.stop.at], image)
      && !Renders(image(images[st.stop.at]))
      && st.stop.stage == FailingStage(image(images[st.stop.at]))
    ensures Done(st.stop, |images|) <= |images|
    ensures st.pages == PagesOf(images[..Done(st.stop, |images|)], image)
    ensures st.recorded == Indices(Done(st.stop, |images|))
      + (if st.stop.Failed? && RecordsTemp(st.stop.stage) then [st.stop.at] else [])
    ensures st.created == Indices(Done(st.stop, |images|))
      + (if st.stop.Failed? && CreatesTemp(st.stop.stage) then [st.stop.at] else [])
    decreases |images|
  {
    if images == [] then RenderState([], [], [], Finished)
    else
      var n := |images| - 1;
      var prefix := images[..n];
      var prev := RenderLoop(prefix, image);
      if prev.stop.Failed? then
        assert prefix[..prev.stop.at] == images[..prev.stop.at];
        prev
      else
        var st := Step(prev, n, images[n], image(images[n]));
        IndicesSnoc(n);
        assert prefix == images[..n][..n];
        assert images[..|images|] == images;
        assert Renders(image(images[n])) ==> PagesOf(prefix, image) + [PageFor(images[n], image(images[n]))] == PagesOf(images, image);
        assert forall k | 0 <= k < n :: prefix[k] == images[k];
        st
  }

  /**
   * The temporary files after the loop: each created file belongs to an
   * image of the list, the recorded ones are created and distinct, and the
   * only created file left unrecorded is that of an image whose save raised.
   */
  lemma TempFiles(images: seq<Path>, image: Path -> ImageOracle)
    ensures var st := RenderLoop(images, image);
      && (forall t | t in st.created :: t < |images|)
      && Distinct(st.recorded)
      && (forall t | t in st.recorded :: t in st.created)
      && |st.created| <= |st.recorded| + 1
      && forall t | t in st.created && t !in st.recorded ::
        var o := image(images[t]);
        o.opens && o.tempCreated && !o.saves
  {
    var st := RenderLoop(images, image);
    var done := Done(st.stop, |images|);
    assert forall k | 0 <= k < |st.created| :: st.created[k] <= done;
    IndicesDistinct(done);
    assert st.recorded == Indices(done) || st.recorded == Indices(done + 1) by {
      IndicesSnoc(done);
    }
    IndicesDistinct(done + 1);
  }

  /**
   * The whole call. An empty list returns False before anything is created.
   * Otherwise the output is written only when every image renders, and the
   * call returns True exactly when, in addition, the write and the close
   * succeed. The temporary files it tries to remove are exactly the recorded
   * ones, each once; a failed removal leaves a file behind but is not part of
   * the outcome. A file whose save raised is never recorded and stays.
   */
  function CreatePdfFromImages(images: seq<Path>, pdfPath: Path, env: Env): (rep: Report)
    ensures |images| == 0 ==> rep == Report(Returned(false), Untouched, [], [], [], {})
    ensures rep.output == Complete <==>
      |images| > 0 && AllRender(images, env.image) && env.output(pdfPath).opens && env.output(pdfPath).writes
    ensures rep.output == Partial <==>
      |images| > 0 && AllRender(images, env.image) && env.output(pdfPath).opens && !env.output(pdfPath).writes
    ensures rep.outcome == Returned(true) <==> rep.output == Complete && env.closes(pdfPath)
    ensures rep.outcome == Raised <==> |images| > 0 && !env.closes(pdfPath)
    ensures rep.output == Complete ==> rep.document == PagesOf(images, env.image) && rep.created == Indices(|images|)
    ensures rep.output != Complete ==> rep.document == []
    ensures forall p | p in rep.document :: !IsConverted(p.mode)
    ensures forall t | t in rep.created :: t < |images|
    ensures Distinct(rep.removals)
    ensures forall t | t in rep.removals :: t in rep.created
    ensures |rep.created| <= |rep.removals| + 1
    ensures forall t :: t in rep.leftover <==> t in rep.created && (t !in rep.removals || !env.removes(images[t]))
    ensures forall t | t in rep.created && t !in rep.removals ::
      var o := env.image(images[t]);
      o.opens && o.tempCreated && !o.saves && t in rep.leftover
    ensures |images| > 0 ==>
      var st := RenderLoop(images, env.image);
      rep.created == st.created && rep.removals == st.recorded
  {
    if |images| == 0 then Report(Returned(false), Untouched, [], [], [], {})
    else
      var st := RenderLoop(images, env.image);
      var done := Done(st.stop, |images|);
      var output :=
        if st.stop.Failed? then Untouched
        else if |st.recorded| > 0 then
          if !env.output(pdfPath).opens then Untouched
          else if !env.output(pdfPath).writes then Partial
          else Complete
        else Untouched;
      var leftover := set t | t in st.created && (t !in st.recorded || !env.removes(images[t]));
      assert images[..done] == images ==> done == |images|;
      TempFiles(images, env.image);
      Report(
        if env.closes(pdfPath) then Returned(output == Complete) else Raised,
        output,
        if output == Complete then st.pages else [],
        st.created,
        st.recorded,
        leftover)
  }

  /** Whether a removal succeeds never changes the outcome, the output or the document. */
  lemma RemovalDoesNotAffectResult(images: seq<Path>, pdfPath: Path, env: Env, removes: Path -> bool)
    ensures var a := CreatePdfFromImages(images, pdfPath, env);
      var b := CreatePdfFromImages(images, pdfPath, env.(removes := removes));
      a.outcome == b.outcome && a.output == b.output && a.document == b.document && a.removals == b.removals
  {
  }

  /** For a non-empty list that renders completely, the branch for an empty temp_files list is never taken. */
  lemma NoTempFilesBranchUnreachable(images: seq<Path>, image: Path -> ImageOracle)
    requires |images| > 0
    ensures RenderLoop(images, image).stop.Finished? ==> |RenderLoop(images, image).recorded| == |images| > 0
  {
  }

  /**
   * Cleanup after the first image that does not render, at position `k`:
   * every earlier image's temporary file gets a removal attempt; the failing
   * image's file exists exactly when its save or its append raised, gets a
   * removal attempt exactly when its append raised, and when its save raised
   * it is never removed and stays on disk.
   */
  lemma CleanupAfterFailure(images: seq<Path>, pdfPath: Path, env: Env, k: nat)
    requires k < |images|
    requires AllRender(images[..k], env.image)
    requires !Renders(env.image(images[k]))
    ensures forall j | 0 <= j < k ::
      j in CreatePdfFromImages(images, pdfPath, env).created && j in CreatePdfFromImages(images, pdfPath, env).removals
    ensures k in CreatePdfFromImages(images, pdfPath, env).created <==> CreatesTemp(FailingStage(env.image(images[k])))
    ensures k in CreatePdfFromImages(images, pdfPath, env).removals <==> FailingStage(env.image(images[k])) == AppendFailed
    ensures FailingStage(env.image(images[k])) == SaveFailed ==> k in CreatePdfFromImages(images, pdfPath, env).leftover
    ensures CreatePdfFromImages(images, pdfPath, env).output == Untouched
  {
    var st := RenderLoop(images, env.image);
    assert images[..|images|] == images;
    assert !AllRender(images, env.image);
    var at := st.stop.at;
    assert at == k;
    var rep := CreatePdfFromImages(images, pdfPath, env);
    assert rep.created == st.created && rep.removals == st.recorded;
    forall j | 0 <= j < k
      ensures j in rep.created && j in rep.removals
    {
      assert Indices(k)[j] == j;
    }
  }
}
