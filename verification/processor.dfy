/**
 * The processor object: its configuration, the file system it works on, and
 * the two transfer buffers shared by every copy and every transcode of a
 * run. Each method is proved against the function of `Pipeline` or `Disk`
 * that says what it does to the file system.
 */
module Processor {
  import opened Basics
  import opened Paths
  import opened Placement
  import opened Disk
  import opened Pipeline

  /** Size of both transfer buffers. */
  const BufferSize: nat := 1024

  /** The file system, updated in place by the processor. */
  class FileSystem {
    var files: map<string, seq<byte>>
    var dirs: set<string>

    constructor (files: map<string, seq<byte>>, dirs: set<string>)
      ensures State() == FsState(files, dirs)
    {
      this.files := files;
      this.dirs := dirs;
    }

    function State(): FsState
      reads this
    {
      FsState(files, dirs)
    }

    /** `File.mkdirs` on `dir`. */
    method MakeDirs(dir: string)
      modifies this
      ensures State() == MkDirs(old(State()), dir)
    {
      if dir !in files {
        dirs := dirs + {dir};
      }
    }
  }

  class CodepageProcessor {
    const collectionRoot: Option<string>
    const outputDir: Option<string>
    const moveUnknown: bool
    const targetCodepage: Option<string>
    const extensionFilter: string -> bool
    const detector: (string, seq<byte>) -> Detection
    const codec: Codec
    const fileseparator: char
    const fs: FileSystem
    const transcodeBuffer: array<char>
    const rawtransportBuffer: array<byte>

    ghost predicate Valid() {
      transcodeBuffer.Length == BufferSize && rawtransportBuffer.Length == BufferSize
    }

    /** Both directories are set: what a successful `verifyFiles` leaves behind. */
    predicate Configured() {
      collectionRoot.Some? && outputDir.Some?
    }

    function Config(): RunConfig
      requires Configured()
    {
      RunConfig(collectionRoot.value, outputDir.value, targetCodepage, moveUnknown, fileseparator,
                extensionFilter, detector, codec)
    }

    constructor (collectionRoot: Option<string>, outputDir: Option<string>, moveUnknown: bool,
                 targetCodepage: Option<string>, extensionFilter: string -> bool,
                 detector: (string, seq<byte>) -> Detection, codec: Codec, fileseparator: char,
                 fs: FileSystem)
      ensures Valid() && fresh(transcodeBuffer) && fresh(rawtransportBuffer)
      ensures this.collectionRoot == collectionRoot && this.outputDir == outputDir
      ensures this.moveUnknown == moveUnknown && this.targetCodepage == targetCodepage
      ensures this.extensionFilter == extensionFilter && this.detector == detector
      ensures this.codec == codec && this.fileseparator == fileseparator && this.fs == fs
    {
      this.collectionRoot := collectionRoot;
      this.outputDir := outputDir;
      this.moveUnknown := moveUnknown;
      this.targetCodepage := targetCodepage;
      this.extensionFilter := extensionFilter;
      this.detector := detector;
      this.codec := codec;
      this.fileseparator := fileseparator;
      this.fs := fs;
      transcodeBuffer := new char[BufferSize];
      rawtransportBuffer := new byte[BufferSize];
    }

    /**
     * `rawCopy`: the bytes flow through `rawtransportBuffer` in chunks of at
     * most its length; only the first `len` elements of each chunk are written.
     */
    method RawCopy(from: string, to: string) returns (status: Status)
      requires Valid()
      modifies fs, rawtransportBuffer
      ensures fs.State() == RawCopyEffect(old(fs.State()), from, to).fs
      ensures status == RawCopyEffect(old(fs.State()), from, to).status
    {
      if Exists(fs.State(), to) {
        if Length(fs.State(), from) == Length(fs.State(), to) {
          return SkippedSameSize;
        }
      } else {
        fs.files := fs.files[to := []];
      }
      if from !in fs.files {
        return Failed(CannotRead(from));
      }
      if to in fs.dirs {
        return Failed(CannotWrite(to));
      }
      var source := fs.files[from];
      ghost var created := fs.files;
      fs.files := fs.files[to := []];
      Pump(source, to);
      assert [] + source == source;
      assert fs.files == created[to := source];
      return Written;
    }

    /**
     * The loop of `rawCopy`: read at most a buffer's length, write the `len`
     * elements read, until the source is exhausted. The destination ends with
     * what it held followed by the source.
     */
    method Pump(source: seq<byte>, to: string)
      requires Valid() && to in fs.files
      modifies fs, rawtransportBuffer
      ensures fs.files == old(fs.files)[to := old(fs.files[to]) + source]
      ensures fs.dirs == old(fs.dirs)
    {
      ghost var start := fs.files;
      var pos := 0;
      assert start[to] + source[..pos] == start[to];
      while pos < |source|
        invariant 0 <= pos <= |source|
        invariant fs.files == start[to := start[to] + source[..pos]]
        invariant fs.dirs == old(fs.dirs)
        decreases |source| - pos
      {
        var len :| 1 <= len <= rawtransportBuffer.Length && len <= |source| - pos;
        forall k | 0 <= k < len {
          rawtransportBuffer[k] := source[pos + k];
        }
        assert rawtransportBuffer[..len] == source[pos..pos + len];
        fs.files := fs.files[to := fs.files[to] + rawtransportBuffer[..len]];
        assert start[to] + source[..pos] + source[pos..pos + len] == start[to] + source[..pos + len];
        pos := pos + len;
      }
      assert source[..pos] == source;
    }

    /**
     * The transcoding branch: the document is read as characters of `source`
     * through `transcodeBuffer`, and what was read is written out encoded as
     * `target` when the writer is closed.
     */
    method Transcode(document: string, target: string, source: string, targetCharset: string)
      returns (status: Status)
      requires Valid() && document in fs.files
      modifies fs, transcodeBuffer
      ensures fs.State() == TranscodeEffect(old(fs.State()), document, target, source, targetCharset, codec).fs
      ensures status == TranscodeEffect(old(fs.State()), document, target, source, targetCharset, codec).status
    {
      if Exists(fs.State(), target) && Length(fs.State(), target) == Length(fs.State(), document) {
        return SkippedSameSize;
      }
      if !Exists(fs.State(), target) {
        fs.files := fs.files[target := []];
      }
      if target in fs.dirs {
        return Failed(CannotWrite(target));
      }
      var reader := codec.decode(source, fs.files[document]);
      fs.files := fs.files[target := []];
      var written := Drain(reader);
      fs.files := fs.files[target := codec.encode(targetCharset, written)];
      return Written;
    }

    /**
     * The loop of the transcoding branch: read at most a buffer's length of
     * characters and pass on the `len` read, until the reader is exhausted.
     */
    method Drain(reader: seq<char>) returns (written: seq<char>)
      requires Valid()
      modifies transcodeBuffer
      ensures written == reader
    {
      written := [];
      var pos := 0;
      while pos < |reader|
        invariant 0 <= pos <= |reader|
        invariant written == reader[..pos]
        decreases |reader| - pos
      {
        var len :| 1 <= len <= transcodeBuffer.Length && len <= |reader| - pos;
        forall k | 0 <= k < len {
          transcodeBuffer[k] := reader[pos + k];
        }
        assert transcodeBuffer[..len] == reader[pos..pos + len];
        written := written + transcodeBuffer[..len];
        assert reader[..pos] + reader[pos..pos + len] == reader[..pos + len];
        pos := pos + len;
      }
      assert reader[..pos] == reader;
    }

    /** `process`: plan the document's place, create its directory, then copy or transcode. */
    method Process(document: string) returns (status: Status)
      requires Valid() && Configured() && document in fs.files
      modifies fs, transcodeBuffer, rawtransportBuffer
      ensures fs.State() == ProcessEffect(Config(), old(fs.State()), document).fs
      ensures status == ProcessEffect(Config(), old(fs.State()), document).status
    {
      var prefix := RelativePrefix(document, collectionRoot.value, fileseparator);
      var filename := FileName(document, fileseparator);
      var charset := detector(document, fs.files[document]);
      var plan := PlanFor(outputDir.value, targetCodepage, moveUnknown, prefix, filename, charset);
      assert plan == ProcessPlan(Config(), fs.State(), document);
      match plan
      case Drop =>
        return Dropped;
      case Place(mode, _, dir, target) =>
        fs.MakeDirs(dir);
        match mode
        case RawCopy =>
          status := RawCopy(document, target);
        case Transcode(sourceCharset, targetCharset) =>
          status := Transcode(document, target, sourceCharset, targetCharset);
    }

    /**
     * `processRecursive`: throws on `null` or a missing node, visits a
     * directory's children from the last index to the first, and hands
     * accepted regular files to `process`; the first failure propagates.
     */
    method ProcessRecursive(f: Tree) returns (error: Option<Failure>)
      requires Valid() && Configured()
      modifies fs, transcodeBuffer, rawtransportBuffer
      ensures fs.State() == Walk(Config(), old(fs.State()), f).fs
      ensures error == Walk(Config(), old(fs.State()), f).error
      decreases f
    {
      match f
      case NullFile =>
        return Some(NullArgument);
      case Entry(path, childs) =>
        if !Exists(fs.State(), path) {
          return Some(DoesNotExist(path));
        }
        if path in fs.dirs {
          assert Walk(Config(), fs.State(), f) == WalkChildren(Config(), fs.State(), childs, |childs|);
          error := ProcessChildren(childs);
        } else if extensionFilter(path) {
          ghost var e := ProcessEffect(Config(), fs.State(), path);
          assert Walk(Config(), fs.State(), f)
              == Walked(e.fs, [path], if e.status.Failed? then Some(e.status.failure) else None);
          var status := Process(path);
          return if status.Failed? then Some(status.failure) else None;
        } else {
          assert Walk(Config(), fs.State(), f) == Walked(fs.State(), [], None);
          return None;
        }
    }

    /**
     * The loop of `processRecursive` over a directory's listing, from the last
     * index down to 0; the first failure propagates.
     */
    method ProcessChildren(childs: seq<Tree>) returns (error: Option<Failure>)
      requires Valid() && Configured()
      modifies fs, transcodeBuffer, rawtransportBuffer
      ensures fs.State() == WalkChildren(Config(), old(fs.State()), childs, |childs|).fs
      ensures error == WalkChildren(Config(), old(fs.State()), childs, |childs|).error
      decreases childs
    {
      ghost var cfg := Config();
      ghost var start := fs.State();
      var i := |childs|;
      while i > 0
        invariant 0 <= i <= |childs|
        invariant fs.State() == WalkChildren(cfg, start, childs, |childs| - i).fs
        invariant WalkChildren(cfg, start, childs, |childs| - i).error.None?
      {
        i := i - 1;
        ghost var before := fs.State();
        WalkChildrenStep(cfg, start, childs, |childs| - i);
        assert childs[|childs| - (|childs| - i)] == childs[i];
        error := ProcessRecursive(childs[i]);
        assert fs.State() == Walk(cfg, before, childs[i]).fs && error == Walk(cfg, before, childs[i]).error;
        if error.Some? {
          WalkChildrenStopsAtFailure(cfg, start, childs, |childs| - i, |childs|);
          return;
        }
      }
      return None;
    }

    /** `verifyFiles`: collect every complaint, creating the output directory on the way. */
    method VerifyFiles() returns (error: Option<Failure>)
      modifies fs
      ensures fs.State() == VerifyEffect(collectionRoot, outputDir, old(fs.State())).fs
      ensures var message := VerifyEffect(collectionRoot, outputDir, old(fs.State())).message;
              error == if message == [] then None else Some(IllegalArgument(message))
    {
      ghost var before := fs.State();
      var msg: string := [];
      if collectionRoot.None? {
        msg := msg + RootNullMessage;
      } else if !Exists(fs.State(), collectionRoot.value) {
        msg := msg + RootMissingMessage(collectionRoot.value);
      }
      assert msg == RootComplaint(collectionRoot, before);
      if outputDir.None? {
        msg := msg + OutputNullMessage;
      } else {
        fs.MakeDirs(outputDir.value);
        if outputDir.value !in fs.dirs {
          msg := msg + OutputNotDirectoryMessage;
        }
      }
      assert fs.State() == VerifyEffect(collectionRoot, outputDir, before).fs;
      assert msg == RootComplaint(collectionRoot, before) + OutputComplaint(outputDir, fs.State());
      if |msg| > 0 {
        return Some(IllegalArgument(msg));
      }
      return None;
    }

    /** `process()`: validate the two directories, then walk the collection from its root. */
    method Run(root: Tree) returns (error: Option<Failure>)
      requires Valid()
      requires collectionRoot.Some? ==> root.Entry? && root.path == collectionRoot.value
      modifies fs, transcodeBuffer, rawtransportBuffer
      ensures var v := VerifyEffect(collectionRoot, outputDir, old(fs.State()));
              if v.message != [] then fs.State() == v.fs && error == Some(IllegalArgument(v.message))
              else Configured() && fs.State() == Walk(Config(), v.fs, root).fs
                   && error == Walk(Config(), v.fs, root).error
    {
      error := VerifyFiles();
      if error.Some? {
        return;
      }
      error := ProcessRecursive(root);
    }
  }
}
