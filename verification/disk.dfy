/**
 * The file system as the processor sees it, and the effect of the two
 * transfers of `CodepageProcessor`: the raw byte copy (`rawCopy`) and the
 * transcoding copy, both guarded by the size-only "already there" test.
 */
module Disk {
  import opened Basics

  /** Regular files with their bytes, and the set of directories, by path. */
  datatype FsState = FsState(files: map<string, seq<byte>>, dirs: set<string>)

  /** The platform's charsets: decoding bytes under one, encoding characters under another. */
  datatype Codec = Codec(decode: (string, seq<byte>) -> seq<char>, encode: (string, seq<char>) -> seq<byte>)

  datatype Failure =
    | NullArgument             // a `null` file handed to the traversal
    | DoesNotExist(path: string)
    | CannotRead(path: string)   // opening the source stream failed
    | CannotWrite(path: string)  // opening the destination stream failed
    | IllegalArgument(message: string)

  datatype Status = Dropped | SkippedSameSize | Written | Failed(failure: Failure)

  /** The file system after an operation, and how the operation ended. */
  datatype Effect = Effect(fs: FsState, status: Status)

  /** `File.exists`. */
  predicate Exists(fs: FsState, p: string) {
    p in fs.files || p in fs.dirs
  }

  /** `File.length`: 0 for a path that is not a regular file. */
  function Length(fs: FsState, p: string): nat {
    if p in fs.files then |fs.files[p]| else 0
  }

  /** `File.mkdirs`: records the directory unless a regular file occupies the path. */
  function MkDirs(fs: FsState, p: string): (r: FsState)
    ensures r.files == fs.files
    ensures p in r.dirs <==> p !in fs.files || p in fs.dirs
    ensures fs.dirs <= r.dirs && r.dirs - fs.dirs <= {p}
  {
    if p in fs.files then fs else fs.(dirs := fs.dirs + {p})
  }

  /** `File.createNewFile`: an empty regular file, unless the path exists. */
  function CreateNewFile(fs: FsState, p: string): (r: FsState)
    ensures Exists(r, p) && r.dirs == fs.dirs
    ensures Exists(fs, p) ==> r == fs
    ensures !Exists(fs, p) ==> p in r.files && r.files[p] == [] && r.files - {p} == fs.files
  {
    if Exists(fs, p) then fs else fs.(files := fs.files[p := []])
  }

  /**
   * The size-only test: the destination exists and is as long as the source.
   * A missing destination is never "the same size", even for an empty source.
   */
  predicate SameSize(fs: FsState, from: string, to: string)
    ensures SameSize(fs, from, to) ==> Exists(fs, to)
  {
    Exists(fs, to) && Length(fs, to) == Length(fs, from)
  }

  /** The bytes of a path, empty when it is not a regular file. */
  function Contents(fs: FsState, p: string): seq<byte> {
    if p in fs.files then fs.files[p] else []
  }

  /**
   * `rawCopy`: skip on equal size; otherwise create a missing destination,
   * open the source (which must be a regular file), open the destination
   * (which must not be a directory) and copy the bytes.
   */
  function RawCopyEffect(fs: FsState, from: string, to: string): (e: Effect)
    ensures e.status.SkippedSameSize? <==> SameSize(fs, from, to)
    ensures e.status.SkippedSameSize? ==> e.fs == fs
    ensures e.status.Written? ==>
              (from in fs.files || from == to) && e.fs == FsState(fs.files[to := Contents(fs, from)], fs.dirs)
    ensures e.status.Failed? ==> e.fs == CreateNewFile(fs, to) && (e.status.failure == CannotRead(from) || e.status.failure == CannotWrite(to))
    ensures e.status.Failed? <==> !SameSize(fs, from, to) && (from !in CreateNewFile(fs, to).files || to in fs.dirs)
    ensures e.status.Written? <==> !SameSize(fs, from, to) && from in CreateNewFile(fs, to).files && to !in fs.dirs
    ensures !e.status.Dropped?
  {
    if SameSize(fs, from, to) then Effect(fs, SkippedSameSize)
    else
      var fs1 := CreateNewFile(fs, to);
      if from !in fs1.files then Effect(fs1, Failed(CannotRead(from)))
      else if to in fs1.dirs then Effect(fs1, Failed(CannotWrite(to)))
      else Effect(FsState(fs1.files[to := fs1.files[from]], fs1.dirs), Written)
  }

  /**
   * The transcoding branch: the same size test (against the length of the
   * undecoded source), then the source decoded under `source` and written
   * encoded under `target`.
   */
  function TranscodeEffect(fs: FsState, doc: string, to: string, source: string, target: string,
                           codec: Codec): (e: Effect)
    requires doc in fs.files
    ensures e.status.SkippedSameSize? <==> SameSize(fs, doc, to)
    ensures e.status.SkippedSameSize? ==> e.fs == fs
    ensures e.status.Written? ==>
              e.fs == FsState(fs.files[to := codec.encode(target, codec.decode(source, fs.files[doc]))], fs.dirs)
    ensures e.status.Failed? ==> e.fs == CreateNewFile(fs, to) && e.status.failure == CannotWrite(to)
    ensures e.status.Failed? <==> !SameSize(fs, doc, to) && to in fs.dirs
    ensures e.status.Written? <==> !SameSize(fs, doc, to) && to !in fs.dirs
    ensures !e.status.Dropped?
  {
    if SameSize(fs, doc, to) then Effect(fs, SkippedSameSize)
    else
      var fs1 := CreateNewFile(fs, to);
      if to in fs1.dirs then Effect(fs1, Failed(CannotWrite(to)))
      else
        var text := codec.decode(source, fs1.files[doc]);
        Effect(FsState(fs1.files[to := codec.encode(target, text)], fs1.dirs), Written)
  }

  /** A copy that was written is skipped, with nothing changed, when repeated. */
  lemma RawCopyIdempotent(fs: FsState, from: string, to: string)
    requires RawCopyEffect(fs, from, to).status.Written?
    ensures var fs' := RawCopyEffect(fs, from, to).fs;
            RawCopyEffect(fs', from, to) == Effect(fs', SkippedSameSize)
  {
  }

  /**
   * A transcode that was written is skipped when repeated only if the encoded
   * text happens to be as long as the source; otherwise it is written again,
   * with the same bytes.
   */
  lemma TranscodeRepeated(fs: FsState, doc: string, to: string, source: string, target: string, codec: Codec)
    requires doc in fs.files
    requires TranscodeEffect(fs, doc, to, source, target, codec).status.Written?
    ensures var fs' := TranscodeEffect(fs, doc, to, source, target, codec).fs;
            var encoded := codec.encode(target, codec.decode(source, fs.files[doc]));
            && doc in fs'.files && fs'.files[doc] == fs.files[doc]
            && (|encoded| == |fs.files[doc]| ==>
                  TranscodeEffect(fs', doc, to, source, target, codec) == Effect(fs', SkippedSameSize))
            && (|encoded| != |fs.files[doc]| ==>
                  TranscodeEffect(fs', doc, to, source, target, codec) == Effect(fs', Written))
  {
    assert doc != to;
  }
}
