/**
 * One document at a time (`process`), the recursive walk over the collection
 * (`processRecursive`) and the validation of the two directories
 * (`verifyFiles`), as functions of the file system before and after.
 */
module Pipeline {
  import opened Basics
  import opened Paths
  import opened Placement
  import opened Disk

  /** The resolved configuration of one run, with the detector and the charsets it relies on. */
  datatype RunConfig = RunConfig(
    root: string,
    outputDir: string,
    targetCodepage: Option<string>,
    moveUnknown: bool,
    sep: char,
    accept: string -> bool,
    detect: (string, seq<byte>) -> Detection,
    codec: Codec)

  /** The extension filter's verdict on a path. */
  predicate Accepts(cfg: RunConfig, path: string) {
    cfg.accept(path)
  }

  /** The filter used when no extensions are given: every file is accepted. */
  function AcceptAll(path: string): (r: bool)
    ensures r
  {
    true
  }

  /** The plan for one regular file: its prefix, its name and the detector's answer on its bytes. */
  function ProcessPlan(cfg: RunConfig, fs: FsState, doc: string): Plan
    requires doc in fs.files
  {
    PlanFor(cfg.outputDir, cfg.targetCodepage, cfg.moveUnknown,
            RelativePrefix(doc, cfg.root, cfg.sep), FileName(doc, cfg.sep),
            cfg.detect(doc, fs.files[doc]))
  }

  /** `process`: drop, or create the bucket directory and then copy or transcode. */
  function ProcessEffect(cfg: RunConfig, fs: FsState, doc: string): (e: Effect)
    requires doc in fs.files
    ensures e.status.Dropped? <==> ProcessPlan(cfg, fs, doc).Drop?
    ensures e.status.Dropped? ==> e.fs == fs
    ensures e.status.Failed? <==>
              && ProcessPlan(cfg, fs, doc).Place?
              && !SameSize(MkDirs(fs, ProcessPlan(cfg, fs, doc).dir), doc, ProcessPlan(cfg, fs, doc).target)
              && ProcessPlan(cfg, fs, doc).target in MkDirs(fs, ProcessPlan(cfg, fs, doc).dir).dirs
    ensures e.status.Written? <==>
              && ProcessPlan(cfg, fs, doc).Place?
              && !SameSize(MkDirs(fs, ProcessPlan(cfg, fs, doc).dir), doc, ProcessPlan(cfg, fs, doc).target)
              && ProcessPlan(cfg, fs, doc).target !in MkDirs(fs, ProcessPlan(cfg, fs, doc).dir).dirs
    ensures e.status.Failed? ==> e.status.failure == CannotWrite(ProcessPlan(cfg, fs, doc).target)
  {
    match ProcessPlan(cfg, fs, doc)
    case Drop => Effect(fs, Dropped)
    case Place(mode, _, dir, target) => PlaceEffect(cfg, fs, doc, mode, dir, target)
  }

  /** A placed document: `mkdirs` of the bucket directory, then the transfer the mode names. */
  function PlaceEffect(cfg: RunConfig, fs: FsState, doc: string, mode: Mode, dir: string, target: string): (e: Effect)
    requires doc in fs.files
    ensures !e.status.Dropped?
    ensures e.status.SkippedSameSize? <==> SameSize(MkDirs(fs, dir), doc, target)
    ensures e.status.Failed? <==> !SameSize(MkDirs(fs, dir), doc, target) && target in MkDirs(fs, dir).dirs
    ensures e.status.Written? <==> !SameSize(MkDirs(fs, dir), doc, target) && target !in MkDirs(fs, dir).dirs
    ensures e.status.Failed? ==> e.status.failure == CannotWrite(target)
    ensures e.status.Failed? || e.status.SkippedSameSize? ==> e.fs == MkDirs(fs, dir)
    ensures e.status.Written? ==>
              && e.fs.dirs == MkDirs(fs, dir).dirs
              && e.fs.files == fs.files[target := if mode.RawCopy? then fs.files[doc]
                                                  else cfg.codec.encode(mode.target, cfg.codec.decode(mode.source, fs.files[doc]))]
  {
    var fs1 := MkDirs(fs, dir);
    match mode
    case RawCopy => RawCopyEffect(fs1, doc, target)
    case Transcode(source, targetCs) => TranscodeEffect(fs1, doc, target, source, targetCs, cfg.codec)
  }

  /** In copy mode a written document arrives byte for byte at its destination, and no other file changes. */
  lemma CopiedDocumentArrives(cfg: RunConfig, fs: FsState, doc: string)
    requires doc in fs.files
    requires ProcessPlan(cfg, fs, doc).Place? && ProcessPlan(cfg, fs, doc).mode.RawCopy?
    requires ProcessEffect(cfg, fs, doc).status.Written?
    ensures ProcessEffect(cfg, fs, doc).fs.files == fs.files[ProcessPlan(cfg, fs, doc).target := fs.files[doc]]
  {
  }

  /**
   * In transcode mode a written document arrives at its destination as its
   * bytes decoded under the detected charset and encoded under the target
   * codepage, and no other file changes.
   */
  lemma TranscodedDocumentArrives(cfg: RunConfig, fs: FsState, doc: string)
    requires doc in fs.files
    requires ProcessPlan(cfg, fs, doc).Place? && ProcessPlan(cfg, fs, doc).mode.Transcode?
    requires ProcessEffect(cfg, fs, doc).status.Written?
    ensures var source, target := cfg.detect(doc, fs.files[doc]).name, cfg.targetCodepage.value;
            ProcessEffect(cfg, fs, doc).fs.files
              == fs.files[ProcessPlan(cfg, fs, doc).target := cfg.codec.encode(target, cfg.codec.decode(source, fs.files[doc]))]
  {
  }

  /** A path keeps its kind and its bytes. */
  predicate Untouched(fs: FsState, fs': FsState, p: string) {
    && (p in fs.files <==> p in fs'.files)
    && (p in fs.files ==> fs'.files[p] == fs.files[p])
    && (p in fs.dirs <==> p in fs'.dirs)
  }

  /** Nothing outside `outputDir + "/"` changed. */
  ghost predicate SameOutside(fs: FsState, fs': FsState, outputDir: string) {
    forall p :: !(outputDir + "/" <= p) ==> Untouched(fs, fs', p)
  }

  /**
   * A document whose charset was not detected is dropped, without a trace in
   * the file system, unless unknown documents are to be moved.
   */
  lemma UndetectedDropped(cfg: RunConfig, fs: FsState, doc: string)
    requires doc in fs.files && !cfg.moveUnknown
    requires !cfg.detect(doc, fs.files[doc]).Known?
    ensures ProcessEffect(cfg, fs, doc) == Effect(fs, Dropped)
  {
  }

  /**
   * The bucket directory is created before the size test: a document that is
   * placed, even one skipped as already there, leaves its directory behind
   * (unless a regular file occupies that path).
   */
  lemma PlacedDocumentHasDirectory(cfg: RunConfig, fs: FsState, doc: string)
    requires doc in fs.files
    requires ProcessPlan(cfg, fs, doc).Place?
    ensures var dir := ProcessPlan(cfg, fs, doc).dir;
            dir in fs.files || dir in ProcessEffect(cfg, fs, doc).fs.dirs
    ensures ProcessEffect(cfg, fs, doc).status.SkippedSameSize? ==>
              ProcessEffect(cfg, fs, doc).fs == MkDirs(fs, ProcessPlan(cfg, fs, doc).dir)
    ensures ProcessEffect(cfg, fs, doc).status.Failed? ==>
              ProcessEffect(cfg, fs, doc).fs == MkDirs(fs, ProcessPlan(cfg, fs, doc).dir)
  {
  }

  /** Processing a document writes only below the output directory. */
  lemma ProcessConfined(cfg: RunConfig, fs: FsState, doc: string)
    requires doc in fs.files
    ensures SameOutside(fs, ProcessEffect(cfg, fs, doc).fs, cfg.outputDir)
  {
    var e := ProcessEffect(cfg, fs, doc);
    match ProcessPlan(cfg, fs, doc)
    case Drop =>
    case Place(mode, _, dir, target) =>
      var fs1 := MkDirs(fs, dir);
      MkDirsConfined(fs, dir, cfg.outputDir);
      match mode
      case RawCopy =>
        TransferConfined(fs1, RawCopyEffect(fs1, doc, target), target, cfg.outputDir);
        SameOutsideTransitive(fs, fs1, e.fs, cfg.outputDir);
      case Transcode(source, targetCs) =>
        TransferConfined(fs1, TranscodeEffect(fs1, doc, target, source, targetCs, cfg.codec), target, cfg.outputDir);
        SameOutsideTransitive(fs, fs1, e.fs, cfg.outputDir);
  }

  /** Creating a directory below the output directory changes nothing outside it. */
  lemma MkDirsConfined(fs: FsState, dir: string, outputDir: string)
    requires outputDir + "/" <= dir
    ensures SameOutside(fs, MkDirs(fs, dir), outputDir)
  {
  }

  /** A copy or transcode into a destination below the output directory changes nothing outside it. */
  lemma TransferConfined(fs: FsState, e: Effect, to: string, outputDir: string)
    requires outputDir + "/" <= to
    requires || e.fs == fs
             || e.fs == CreateNewFile(fs, to)
             || (to in e.fs.files && e.fs == FsState(fs.files[to := e.fs.files[to]], fs.dirs))
    ensures SameOutside(fs, e.fs, outputDir)
  {
  }

  /**
   * In copy mode a document that was written is skipped, with nothing
   * changed, when it is processed again.
   */
  lemma CopyModeIdempotent(cfg: RunConfig, fs: FsState, doc: string)
    requires doc in fs.files
    requires ProcessPlan(cfg, fs, doc).Place? && ProcessPlan(cfg, fs, doc).mode.RawCopy?
    requires ProcessEffect(cfg, fs, doc).status.Written?
    ensures var fs' := ProcessEffect(cfg, fs, doc).fs;
            doc in fs'.files && ProcessEffect(cfg, fs', doc) == Effect(fs', SkippedSameSize)
  {
    var plan := ProcessPlan(cfg, fs, doc);
    var fs1 := MkDirs(fs, plan.dir);
    var fs' := ProcessEffect(cfg, fs, doc).fs;
    assert doc != plan.target;
    assert fs'.files[doc] == fs.files[doc];
    assert ProcessPlan(cfg, fs', doc) == plan;
    assert MkDirs(fs', plan.dir) == fs';
    RawCopyIdempotent(fs1, doc, plan.target);
  }

  /**
   * A node of the collection: `null`, or a path with its children. The
   * children stand for the listing `listFiles` gives when the walk reaches
   * the directory, in its order; when the output directory lies inside the
   * collection that listing may include files written earlier in the run,
   * which `Outside` rules out for the walk lemmas.
   */
  datatype Tree = NullFile | Entry(path: string, children: seq<Tree>)

  /** The file system after a walk, the documents handed to `process` in order, and the exception, if any. */
  datatype Walked = Walked(fs: FsState, processed: seq<string>, error: Option<Failure>)

  /**
   * `processRecursive`: fail on `null` or a missing node; visit a directory's
   * children from the last to the first; hand an accepted regular file to
   * `process`. The first failure ends the walk.
   */
  function Walk(cfg: RunConfig, fs: FsState, t: Tree): (w: Walked)
    ensures t.NullFile? ==> w == Walked(fs, [], Some(NullArgument))
    ensures t.Entry? && !Exists(fs, t.path) ==> w == Walked(fs, [], Some(DoesNotExist(t.path)))
    ensures w.error.Some? ==> w.error.value.NullArgument? || w.error.value.DoesNotExist? || w.error.value.CannotWrite?
    decreases t
  {
    match t
    case NullFile => Walked(fs, [], Some(NullArgument))
    case Entry(p, cs) =>
      if !Exists(fs, p) then Walked(fs, [], Some(DoesNotExist(p)))
      else if p in fs.dirs then WalkChildren(cfg, fs, cs, |cs|)
      else if Accepts(cfg, p) then
        var e := ProcessEffect(cfg, fs, p);
        Walked(e.fs, [p], if e.status.Failed? then Some(e.status.failure) else None)
      else Walked(fs, [], None)
  }

  /** The walk over the last `k` children of a directory, last child first. */
  function WalkChildren(cfg: RunConfig, fs: FsState, cs: seq<Tree>, k: nat): (w: Walked)
    requires k <= |cs|
    ensures w.error.Some? ==> w.error.value.NullArgument? || w.error.value.DoesNotExist? || w.error.value.CannotWrite?
    decreases cs, k
  {
    if k == 0 then Walked(fs, [], None)
    else
      var w := WalkChildren(cfg, fs, cs, k - 1);
      if w.error.Some? then w
      else
        var w2 := Walk(cfg, w.fs, cs[|cs| - k]);
        Walked(w2.fs, w.processed + w2.processed, w2.error)
  }

  /** Every node is present, and so is every node below a directory. */
  ghost predicate AllExist(fs: FsState, t: Tree)
    decreases t
  {
    t.Entry? && Exists(fs, t.path) &&
    (t.path in fs.dirs ==> forall i :: 0 <= i < |t.children| ==> AllExist(fs, t.children[i]))
  }

  /** No node of the collection lies below the output directory. */
  ghost predicate Outside(outputDir: string, t: Tree)
    decreases t
  {
    t.Entry? ==>
      !(outputDir + "/" <= t.path) && forall i :: 0 <= i < |t.children| ==> Outside(outputDir, t.children[i])
  }

  /**
   * The reference order of the walk, read off the file system as it is: the
   * accepted regular files, children of a directory from the last to the first.
   */
  ghost function Accepted(cfg: RunConfig, fs: FsState, t: Tree): seq<string>
    decreases t
  {
    match t
    case NullFile => []
    case Entry(p, cs) =>
      if p in fs.dirs then AcceptedChildren(cfg, fs, cs, |cs|)
      else if Accepts(cfg, p) then [p]
      else []
  }

  ghost function AcceptedChildren(cfg: RunConfig, fs: FsState, cs: seq<Tree>, k: nat): seq<string>
    requires k <= |cs|
    decreases cs, k
  {
    if k == 0 then [] else AcceptedChildren(cfg, fs, cs, k - 1) + Accepted(cfg, fs, cs[|cs| - k])
  }

  /** The regular files of a tree, children of a directory from the last to the first, without any filter. */
  ghost function RegularFiles(fs: FsState, t: Tree): seq<string>
    decreases t
  {
    match t
    case NullFile => []
    case Entry(p, cs) =>
      if p in fs.dirs then RegularFilesChildren(fs, cs, |cs|)
      else if p in fs.files then [p]
      else []
  }

  ghost function RegularFilesChildren(fs: FsState, cs: seq<Tree>, k: nat): seq<string>
    requires k <= |cs|
    decreases cs, k
  {
    if k == 0 then [] else RegularFilesChildren(fs, cs, k - 1) + RegularFiles(fs, cs[|cs| - k])
  }

  /**
   * Without an extension list the filter accepts every path, so the
   * reference order of the walk is every regular file of the collection.
   */
  lemma {:induction false} DefaultFilterAcceptsEveryFile(cfg: RunConfig, fs: FsState, t: Tree)
    requires cfg.accept == AcceptAll && AllExist(fs, t)
    ensures Accepted(cfg, fs, t) == RegularFiles(fs, t)
    decreases t
  {
    match t
    case Entry(p, cs) =>
      if p in fs.dirs {
        DefaultFilterAcceptsEveryChild(cfg, fs, cs, |cs|);
      } else {
        assert Accepts(cfg, p) by { assert AcceptAll(p); }
      }
  }

  lemma {:induction false} DefaultFilterAcceptsEveryChild(cfg: RunConfig, fs: FsState, cs: seq<Tree>, k: nat)
    requires cfg.accept == AcceptAll && k <= |cs|
    requires forall i :: 0 <= i < |cs| ==> AllExist(fs, cs[i])
    ensures AcceptedChildren(cfg, fs, cs, k) == RegularFilesChildren(fs, cs, k)
    decreases cs, k
  {
    if k > 0 {
      DefaultFilterAcceptsEveryChild(cfg, fs, cs, k - 1);
      DefaultFilterAcceptsEveryFile(cfg, fs, cs[|cs| - k]);
    }
  }

  /** Only documents the filter accepts ever reach `process`. */
  lemma {:induction false} WalkProcessesOnlyAccepted(cfg: RunConfig, fs: FsState, t: Tree)
    ensures forall i :: 0 <= i < |Walk(cfg, fs, t).processed| ==> Accepts(cfg, Walk(cfg, fs, t).processed[i])
    decreases t
  {
    match t
    case NullFile =>
    case Entry(p, cs) =>
      if Exists(fs, p) && p in fs.dirs {
        assert Walk(cfg, fs, t) == WalkChildren(cfg, fs, cs, |cs|);
        ChildrenProcessOnlyAccepted(cfg, fs, cs, |cs|);
      }
  }

  lemma {:induction false} ChildrenProcessOnlyAccepted(cfg: RunConfig, fs: FsState, cs: seq<Tree>, k: nat)
    requires k <= |cs|
    ensures forall i :: 0 <= i < |WalkChildren(cfg, fs, cs, k).processed| ==>
                          Accepts(cfg, WalkChildren(cfg, fs, cs, k).processed[i])
    decreases cs, k
  {
    if k > 0 {
      ChildrenProcessOnlyAccepted(cfg, fs, cs, k - 1);
      var w := WalkChildren(cfg, fs, cs, k - 1);
      if w.error.None? {
        var w2 := Walk(cfg, w.fs, cs[|cs| - k]);
        WalkProcessesOnlyAccepted(cfg, w.fs, cs[|cs| - k]);
        assert WalkChildren(cfg, fs, cs, k).processed == w.processed + w2.processed;
        forall i | 0 <= i < |w.processed + w2.processed|
          ensures Accepts(cfg, (w.processed + w2.processed)[i])
        {
          if i >= |w.processed| {
            assert (w.processed + w2.processed)[i] == w2.processed[i - |w.processed|];
          } else {
            assert (w.processed + w2.processed)[i] == w.processed[i];
          }
        }
      } else {
        assert WalkChildren(cfg, fs, cs, k) == w;
      }
    }
  }

  /** Changes confined to the output directory leave the collection's shape and order alone. */
  lemma {:induction false} AcceptedStable(cfg: RunConfig, fs: FsState, fs': FsState, t: Tree)
    requires SameOutside(fs, fs', cfg.outputDir) && Outside(cfg.outputDir, t)
    ensures AllExist(fs, t) ==> AllExist(fs', t)
    ensures Accepted(cfg, fs', t) == Accepted(cfg, fs, t)
    decreases t
  {
    match t
    case NullFile =>
    case Entry(p, cs) =>
      assert Untouched(fs, fs', p);
      forall i | 0 <= i < |cs|
        ensures AllExist(fs, cs[i]) ==> AllExist(fs', cs[i])
      {
        AcceptedStable(cfg, fs, fs', cs[i]);
      }
      AcceptedChildrenStable(cfg, fs, fs', cs, |cs|);
  }

  lemma {:induction false} AcceptedChildrenStable(cfg: RunConfig, fs: FsState, fs': FsState, cs: seq<Tree>, k: nat)
    requires k <= |cs|
    requires SameOutside(fs, fs', cfg.outputDir)
    requires forall i :: 0 <= i < |cs| ==> Outside(cfg.outputDir, cs[i])
    ensures AcceptedChildren(cfg, fs', cs, k) == AcceptedChildren(cfg, fs, cs, k)
    decreases cs, k
  {
    if k > 0 {
      AcceptedChildrenStable(cfg, fs, fs', cs, k - 1);
      AcceptedStable(cfg, fs, fs', cs[|cs| - k]);
    }
  }

  /**
   * When every node is present and the output directory lies outside the
   * collection, the walk hands `process` exactly the accepted files in the
   * reference order, stopping early only on a failed transfer, and changes
   * nothing outside the output directory.
   */
  lemma {:induction false} WalkVisitsAcceptedInOrder(cfg: RunConfig, fs: FsState, t: Tree)
    requires AllExist(fs, t) && Outside(cfg.outputDir, t)
    ensures var w := Walk(cfg, fs, t);
            && w.processed <= Accepted(cfg, fs, t)
            && (w.error.None? ==> w.processed == Accepted(cfg, fs, t))
            && (w.error.Some? ==> w.error.value.CannotWrite?)
            && SameOutside(fs, w.fs, cfg.outputDir)
    decreases t
  {
    match t
    case Entry(p, cs) =>
      if p in fs.dirs {
        WalkChildrenVisitsAccepted(cfg, fs, cs, |cs|);
      } else if Accepts(cfg, p) {
        ProcessConfined(cfg, fs, p);
      }
  }

  lemma {:induction false} WalkChildrenVisitsAccepted(cfg: RunConfig, fs: FsState, cs: seq<Tree>, k: nat)
    requires k <= |cs|
    requires forall i :: 0 <= i < |cs| ==> AllExist(fs, cs[i]) && Outside(cfg.outputDir, cs[i])
    ensures var w := WalkChildren(cfg, fs, cs, k);
            && w.processed <= AcceptedChildren(cfg, fs, cs, k)
            && (w.error.None? ==> w.processed == AcceptedChildren(cfg, fs, cs, k))
            && (w.error.Some? ==> w.error.value.CannotWrite?)
            && SameOutside(fs, w.fs, cfg.outputDir)
    decreases cs, k
  {
    if k > 0 {
      WalkChildrenVisitsAccepted(cfg, fs, cs, k - 1);
      var w := WalkChildren(cfg, fs, cs, k - 1);
      var c := cs[|cs| - k];
      if w.error.None? {
        AcceptedStable(cfg, fs, w.fs, c);
        WalkVisitsAcceptedInOrder(cfg, w.fs, c);
        VisitNextChild(cfg, fs, cs, k);
      } else {
        assert WalkChildren(cfg, fs, cs, k) == w;
      }
    }
  }

  /** The step of `WalkChildrenVisitsAccepted`: the facts for `k - 1` children and for the next child give those for `k`. */
  lemma VisitNextChild(cfg: RunConfig, fs: FsState, cs: seq<Tree>, k: nat)
    requires 0 < k <= |cs|
    requires var w := WalkChildren(cfg, fs, cs, k - 1);
             && w.error.None?
             && w.processed == AcceptedChildren(cfg, fs, cs, k - 1)
             && SameOutside(fs, w.fs, cfg.outputDir)
    requires var w := WalkChildren(cfg, fs, cs, k - 1);
             var c := cs[|cs| - k];
             var w2 := Walk(cfg, w.fs, c);
             && Accepted(cfg, w.fs, c) == Accepted(cfg, fs, c)
             && w2.processed <= Accepted(cfg, w.fs, c)
             && (w2.error.None? ==> w2.processed == Accepted(cfg, w.fs, c))
             && (w2.error.Some? ==> w2.error.value.CannotWrite?)
             && SameOutside(w.fs, w2.fs, cfg.outputDir)
    ensures var w := WalkChildren(cfg, fs, cs, k);
            && w.processed <= AcceptedChildren(cfg, fs, cs, k)
            && (w.error.None? ==> w.processed == AcceptedChildren(cfg, fs, cs, k))
            && (w.error.Some? ==> w.error.value.CannotWrite?)
            && SameOutside(fs, w.fs, cfg.outputDir)
  {
    var w := WalkChildren(cfg, fs, cs, k - 1);
    var c := cs[|cs| - k];
    var w2 := Walk(cfg, w.fs, c);
    WalkChildrenStep(cfg, fs, cs, k);
    assert AcceptedChildren(cfg, fs, cs, k) == AcceptedChildren(cfg, fs, cs, k - 1) + Accepted(cfg, fs, c);
    PrefixAppend(w.processed, w2.processed, Accepted(cfg, fs, c));
    SameOutsideTransitive(fs, w.fs, w2.fs, cfg.outputDir);
  }

  /** One more child: the walk of the `k`-th child from the end, from where the first `k - 1` left off. */
  lemma WalkChildrenStep(cfg: RunConfig, fs: FsState, cs: seq<Tree>, k: nat)
    requires 0 < k <= |cs|
    requires WalkChildren(cfg, fs, cs, k - 1).error.None?
    ensures var w := WalkChildren(cfg, fs, cs, k - 1);
            var w2 := Walk(cfg, w.fs, cs[|cs| - k]);
            WalkChildren(cfg, fs, cs, k) == Walked(w2.fs, w.processed + w2.processed, w2.error)
  {
  }

  lemma PrefixAppend(a: seq<string>, b: seq<string>, c: seq<string>)
    requires b <= c
    ensures a + b <= a + c
  {
    assert (a + c)[..|a + b|] == a + c[..|b|];
  }

  lemma SameOutsideTransitive(fs: FsState, fs': FsState, fs'': FsState, outputDir: string)
    requires SameOutside(fs, fs', outputDir) && SameOutside(fs', fs'', outputDir)
    ensures SameOutside(fs, fs'', outputDir)
  {
    forall p | !(outputDir + "/" <= p)
      ensures Untouched(fs, fs'', p)
    {
      assert Untouched(fs, fs', p) && Untouched(fs', fs'', p);
    }
  }

  /** Once a child's walk has failed, the remaining children are not visited. */
  lemma {:induction false} WalkChildrenStopsAtFailure(cfg: RunConfig, fs: FsState, cs: seq<Tree>, k: nat, n: nat)
    requires k <= n <= |cs|
    requires WalkChildren(cfg, fs, cs, k).error.Some?
    ensures WalkChildren(cfg, fs, cs, n) == WalkChildren(cfg, fs, cs, k)
    decreases n
  {
    if n > k {
      WalkChildrenStopsAtFailure(cfg, fs, cs, k, n - 1);
    }
  }

  /** `verifyFiles`: the file system after `mkdirs` of the output directory, and the collected complaints. */
  datatype Verified = Verified(fs: FsState, message: string)

  const RootNullMessage: string := "-> Collection root directory is null!\n"
  const OutputNullMessage: string := "-> Output directory is null!\n"
  const OutputNotDirectoryMessage: string := "-> Output directory has to be a directory, no File!\n"

  function RootMissingMessage(root: string): string {
    "-> Collection root directory:\"" + root + "\" does not exist!\n"
  }

  /** The complaint about the collection root, checked before anything is created. */
  function RootComplaint(root: Option<string>, fs: FsState): (m: string)
    ensures m == [] <==> root.Some? && Exists(fs, root.value)
  {
    if root.None? then RootNullMessage
    else if !Exists(fs, root.value) then RootMissingMessage(root.value)
    else ""
  }

  /** The complaint about the output directory, checked after `mkdirs`. */
  function OutputComplaint(outputDir: Option<string>, fs: FsState): (m: string)
    ensures m == [] <==> outputDir.Some? && outputDir.value in fs.dirs
  {
    if outputDir.None? then OutputNullMessage
    else if outputDir.value !in fs.dirs then OutputNotDirectoryMessage
    else ""
  }

  /**
   * `verifyFiles`: the root's complaint comes first and is judged on the file
   * system as it was; `mkdirs` of the output directory is the only change, and
   * the output directory is judged after it.
   */
  function VerifyEffect(root: Option<string>, outputDir: Option<string>, fs: FsState): (v: Verified)
    ensures v.fs.files == fs.files
    ensures outputDir.None? ==> v.fs == fs
    ensures outputDir.Some? ==> v.fs == MkDirs(fs, outputDir.value)
    ensures RootComplaint(root, fs) <= v.message
    ensures v.message == [] <==> RootComplaint(root, fs) == [] && OutputComplaint(outputDir, v.fs) == []
  {
    var fs1 := if outputDir.Some? then MkDirs(fs, outputDir.value) else fs;
    Verified(fs1, RootComplaint(root, fs) + OutputComplaint(outputDir, fs1))
  }

  /**
   * The run is refused exactly when the root is `null` or missing, or the
   * output directory is `null` or occupied by a regular file; otherwise the
   * output directory exists afterwards.
   */
  lemma VerifyRejectsIff(root: Option<string>, outputDir: Option<string>, fs: FsState)
    requires fs.files.Keys !! fs.dirs
    ensures var v := VerifyEffect(root, outputDir, fs);
            && (v.message != [] <==>
                  root.None? || !Exists(fs, root.value) || outputDir.None? || outputDir.value in fs.files)
            && (v.message == [] ==> outputDir.value in v.fs.dirs && v.fs.files == fs.files)
  {
  }
}
