# cpdetector's CodepageProcessor, modelled in Dafny

`CodepageProcessor` sorts a directory tree of documents into an output tree
keyed by character encoding. Every regular file the extension filter accepts
is handed to a codepage detector. Depending on the answer, the file is:

- dropped;
- copied byte for byte into `<output>/<detected charset, lower-cased>/…`;
- copied into `<output>/unknown/…`;
- or, when a target codepage is configured and the charset is known,
  transcoded into `<output>/<target codepage>/…`.

A destination that already exists with the same length as the source is left
alone.

The model has seven modules, one per part of the processor:

- `Basics`: `Option` (Java's nullable references) and `byte`.
- `Tokenizer`: `parseCSVList`, splitting on `;` and `,` as `StringTokenizer`
  does. `ParseCsvList` is the token loop. It is proved equal to `Tokens`, the
  maximal delimiter-free runs in source order.
- `Paths`: `lastIndexOf`, the file name and the relative prefix of `process`.
  Paths are raw strings.
- `Placement`: the drop / copy / transcode decision, the bucket name, and the
  destination directory and file.
- `Disk`: the file system as a value (a map from path to bytes, plus a set of
  directories). It also holds the effect of `rawCopy` and of the transcoding
  branch, including the size-only skip rule.
- `Pipeline`: `process`, the recursive walk and `verifyFiles`, each a function
  from the file system before to the file system after. The walk is compared
  with `Accepted`, a reference definition that is independent of processing.
- `Processor`: two classes. `FileSystem` is updated in place.
  `CodepageProcessor` holds the configuration and the two shared 1024-element
  buffers, `transcodeBuffer` and `rawtransportBuffer`. Its methods run the
  copy and transcode loops chunk by chunk through those buffers. Each method
  is proved to produce exactly the state that the matching function of
  `Pipeline` or `Disk` describes.

Some collaborators are parameters of the configuration, not code:

- the detector: a total function from a path and its bytes to `null`, the
  unknown sentinel or a charset name;
- the charsets' decode and encode;
- the extension filter;
- the order of a directory listing (the children of a `Tree` node).

Each read of a stream returns between 1 and the buffer's length elements, and
the model does not fix which. The proofs hold for every such choice.

Three behaviours of the code shape the model:

- A file directly under the collection root gets the relative prefix `"/"`,
  not the empty string (CodepageProcessor.java:436-442). The prefix is empty
  only when the root's length is beyond the last separator, for example when
  the root is the file itself. Destination paths therefore keep the
  separators that raw string concatenation produces.
- `processRecursive` does not catch an exception from `process`
  (CodepageProcessor.java:354-369). The first failed transfer ends the whole
  walk (`WalkChildrenStopsAtFailure`), and the remaining documents are not
  processed.
- In the transcoding branch, the skip test compares the length of the
  existing target with the length of the undecoded source
  (CodepageProcessor.java:482). A transcoded file whose encoded length
  differs from its source is therefore written again on every run
  (`TranscodeRepeated`). Copy mode, by contrast, is idempotent
  (`CopyModeIdempotent`).

## Model

| member | source | states |
|---|---|---|
| `Tokenizer.ParseCsvList` | src/info/monitorenter/cpdetector/CodepageProcessor.java:327-337 | `null` gives `null`; otherwise the list built token by token equals `Tokens` of the literal |
| `Tokenizer.Tokens` | src/info/monitorenter/cpdetector/CodepageProcessor.java:332-335 | every token is non-empty and contains no `;` or `,` |
| `Tokenizer.RunLength` | src/info/monitorenter/cpdetector/CodepageProcessor.java:332-335 | a token runs up to the first delimiter or the end, and no further |
| `Tokenizer.TokensSplitAtDelimiter` | src/info/monitorenter/cpdetector/CodepageProcessor.java:332-335 | a delimiter splits the list: the tokens of `a;b` are those of `a` followed by those of `b` (maximal runs, source order) |
| `Tokenizer.TokensJoinRoundTrip` | src/info/monitorenter/cpdetector/CodepageProcessor.java:327-337 | tokenising a list of tokens joined by a delimiter gives back that list |
| `Tokenizer.NoTokensIffOnlyDelimiters` | src/info/monitorenter/cpdetector/CodepageProcessor.java:279-284 | the result is empty exactly when the literal holds only delimiters (the case the `-d` option rejects) |
| `Tokenizer.SkipDelimiters` | src/info/monitorenter/cpdetector/CodepageProcessor.java:332-335 | the tokenizer's scan past delimiters stops at a non-delimiter or the end, and the tokens of what remains are unchanged |
| `Tokenizer.ScanToken` | src/info/monitorenter/cpdetector/CodepageProcessor.java:332-335 | from a non-delimiter, the scan returns one non-empty token, and the tokens of the rest follow it |
| `Paths.LastIndexOf` | src/info/monitorenter/cpdetector/CodepageProcessor.java:436 | -1 when the separator is absent, otherwise an index holding it with none after it |
| `Paths.FileName` | src/info/monitorenter/cpdetector/CodepageProcessor.java:434 | the maximal separator-free suffix of the path |
| `Paths.RelativePrefix` | src/info/monitorenter/cpdetector/CodepageProcessor.java:434-442 | empty iff the root's length exceeds the last separator's index; otherwise it ends with the separator, and prefix + file name is the document's path after the root |
| `Paths.NestedDocumentPrefix` | src/info/monitorenter/cpdetector/CodepageProcessor.java:434-442 | a document at root + rel + name has prefix rel and file name name |
| `Paths.DirectChildPrefix` | src/info/monitorenter/cpdetector/CodepageProcessor.java:434-442 | a file directly under the root has the separator alone as prefix, not "" |
| `Placement.ToLower` | src/info/monitorenter/cpdetector/CodepageProcessor.java:508-511 | same length, letter by letter lowering, no upper-case letter left |
| `Placement.BucketDir` | src/info/monitorenter/cpdetector/CodepageProcessor.java:467-471 | the bucket directory is out/bucket/, then the prefix and a separator when the prefix is non-empty, and it always ends with a separator |
| `Placement.PlanFor` | src/info/monitorenter/cpdetector/CodepageProcessor.java:448-519 | drop iff undetected and not moving unknowns; transcode iff a target is set and the charset is known, with the target name verbatim as bucket; otherwise the detected or "unknown" name lower-cased; destination out/bucket/[prefix/]file name, under the output directory |
| `Placement.BucketTargetInjective` | src/info/monitorenter/cpdetector/CodepageProcessor.java:467-478 | within a bucket, for any file separator, the destination determines the prefix (ending with the separator or empty) and the file name (free of it) |
| `Placement.DestinationsDistinct` | src/info/monitorenter/cpdetector/CodepageProcessor.java:507-519 | for any file separator, two documents with non-empty prefixes and different paths below the root never share a destination within one bucket |
| `Disk.MkDirs` | src/info/monitorenter/cpdetector/CodepageProcessor.java:473 | `mkdirs` never touches regular files and adds at most the one directory; afterwards the path is a directory unless a regular file occupies it |
| `Disk.CreateNewFile` | src/info/monitorenter/cpdetector/CodepageProcessor.java:482-487 | `createNewFile` leaves an existing path alone; otherwise it adds an empty regular file and nothing else |
| `Disk.SameSize` | src/info/monitorenter/cpdetector/CodepageProcessor.java:529-535 | the skip test: a missing destination never passes it, even for an empty source |
| `Disk.RawCopyEffect` | src/info/monitorenter/cpdetector/CodepageProcessor.java:528-551 | skipped, unchanged, iff the target exists with the source's length; failed iff not skipped and the source is not a regular file or the target is a directory; written otherwise, and then the target holds the source's bytes and nothing else changes; on failure at most an empty target was created |
| `Disk.TranscodeEffect` | src/info/monitorenter/cpdetector/CodepageProcessor.java:482-501 | same size test; failed iff not skipped and the target is a directory; written otherwise, and then the target holds the source decoded under the detected charset and encoded under the target codepage |
| `Disk.RawCopyIdempotent` | src/info/monitorenter/cpdetector/CodepageProcessor.java:529-532 | a written copy is skipped with no change when repeated |
| `Disk.TranscodeRepeated` | src/info/monitorenter/cpdetector/CodepageProcessor.java:482-485 | a written transcode is skipped when repeated only if the encoded length equals the source length; otherwise it is rewritten with the same bytes |
| `Pipeline.ProcessEffect` | src/info/monitorenter/cpdetector/CodepageProcessor.java:423-526 | dropped iff the plan drops, and then the file system is unchanged; a placed document fails iff it is not the same size and its destination is a directory after `mkdirs`, with the destination as the failed path; it is written iff not the same size and the destination is not a directory |
| `Pipeline.PlaceEffect` | src/info/monitorenter/cpdetector/CodepageProcessor.java:467-524 | never dropped; skipped iff the size test holds after `mkdirs`; failed, with the destination as the failed path, iff the destination is then a directory; after a skip or a failure the file system is exactly the state after `mkdirs`; otherwise written, with only the destination's bytes changed (the source's bytes in copy mode, its transcoding otherwise) and only the bucket directory added |
| `Pipeline.CopiedDocumentArrives` | src/info/monitorenter/cpdetector/CodepageProcessor.java:502-524 | in copy mode a written document arrives byte for byte at its planned destination, and no other file changes |
| `Pipeline.TranscodedDocumentArrives` | src/info/monitorenter/cpdetector/CodepageProcessor.java:463-501 | in transcode mode a written document arrives at its planned destination as its bytes decoded under the detected charset and encoded under the target codepage, and no other file changes |
| `Pipeline.UndetectedDropped` | src/info/monitorenter/cpdetector/CodepageProcessor.java:448-457 | a `null` or unknown detection without move-unknown returns before any directory or file is created |
| `Pipeline.PlacedDocumentHasDirectory` | src/info/monitorenter/cpdetector/CodepageProcessor.java:473-485 | the bucket directory is created before the size test; a skipped or failed transfer leaves exactly the state after `mkdirs`, which for a failure is the final state of the run |
| `Pipeline.ProcessConfined` | src/info/monitorenter/cpdetector/CodepageProcessor.java:463-524 | processing changes nothing outside the output directory |
| `Pipeline.CopyModeIdempotent` | src/info/monitorenter/cpdetector/CodepageProcessor.java:502-524 | in copy mode a document processed a second time is skipped with no change |
| `Pipeline.AcceptAll` | src/info/monitorenter/cpdetector/CodepageProcessor.java:240-244 | the filter used without an extension list accepts every path; what that means for the walk is stated by `Pipeline.DefaultFilterAcceptsEveryFile` |
| `Pipeline.DefaultFilterAcceptsEveryFile` | src/info/monitorenter/cpdetector/CodepageProcessor.java:240-244 | with no extension list and every node present, the files the walk must process are exactly the regular files of the collection (`RegularFiles`, defined without the filter), so with `Pipeline.WalkVisitsAcceptedInOrder` every regular file is processed unless a transfer fails |
| `Pipeline.DefaultFilterAcceptsEveryChild` | src/info/monitorenter/cpdetector/CodepageProcessor.java:362-368 | the same for the last k children of a directory: the accepted files among them are all their regular files, in the order the walk visits them |
| `Pipeline.Walk` | src/info/monitorenter/cpdetector/CodepageProcessor.java:354-369 | the model of `processRecursive`: a `null` node and a missing node each raise an `IllegalArgumentException` (`NullArgument` and `DoesNotExist(path)`), in both cases before anything changes; the only other exception is a destination that cannot be opened for writing |
| `Pipeline.WalkChildren` | src/info/monitorenter/cpdetector/CodepageProcessor.java:361-365 | the loop over a directory's listing, last index first: the same three kinds of exception |
| `Pipeline.WalkProcessesOnlyAccepted` | src/info/monitorenter/cpdetector/CodepageProcessor.java:366-368 | only files the extension filter accepts reach `process` |
| `Pipeline.WalkVisitsAcceptedInOrder` | src/info/monitorenter/cpdetector/CodepageProcessor.java:354-369 | with every node present and the output outside the collection, the walk processes a prefix of the accepted files in reverse-child order, all of them unless a transfer failed, and a failure can only be a destination that cannot be written; nothing outside the output directory changes |
| `Pipeline.WalkChildrenVisitsAccepted` | src/info/monitorenter/cpdetector/CodepageProcessor.java:361-365 | the same for the children of a directory, from the last index to the first |
| `Pipeline.WalkChildrenStopsAtFailure` | src/info/monitorenter/cpdetector/CodepageProcessor.java:363-365 | after a child's walk fails, no further child is visited |
| `Pipeline.AcceptedStable` | src/info/monitorenter/cpdetector/CodepageProcessor.java:354-369 | writes confined to the output directory do not change which nodes exist or which files the walk accepts |
| `Pipeline.RootComplaint` | src/info/monitorenter/cpdetector/CodepageProcessor.java:394-403 | no complaint about the collection root iff it is non-`null` and exists |
| `Pipeline.OutputComplaint` | src/info/monitorenter/cpdetector/CodepageProcessor.java:404-411 | no complaint about the output directory iff it is non-`null` and is a directory (after `mkdirs`) |
| `Pipeline.VerifyEffect` | src/info/monitorenter/cpdetector/CodepageProcessor.java:388-418 | regular files never change, and `mkdirs` of a non-`null` output directory is the only change; the root's complaint comes first; the message is empty iff neither directory draws a complaint |
| `Pipeline.VerifyRejectsIff` | src/info/monitorenter/cpdetector/CodepageProcessor.java:388-418 | refused exactly when the root is `null` or missing or the output directory is `null` or a regular file; otherwise the output directory exists afterwards |
| `Processor.FileSystem.MakeDirs` | src/info/monitorenter/cpdetector/CodepageProcessor.java:473 | `mkdirs` records the directory unless a regular file occupies the path |
| `Processor.CodepageProcessor.constructor` | src/info/monitorenter/cpdetector/CodepageProcessor.java:184-189 | both transfer buffers are fresh arrays of 1024 elements |
| `Processor.CodepageProcessor.RawCopy` | src/info/monitorenter/cpdetector/CodepageProcessor.java:528-551 | the skip test, file creation and open failure of `rawCopy`, with the chunk loop delegated to `Pump`; the result equals `RawCopyEffect`, so after a copy the target holds the source's bytes |
| `Processor.CodepageProcessor.Pump` | src/info/monitorenter/cpdetector/CodepageProcessor.java:544-548 | the chunk loop: each read returns between 1 and the buffer's length bytes and only `buffer[0..len)` is written and passed on; whatever lengths the reads return, the destination ends up holding what it held followed by the whole source; no directory changes |
| `Processor.CodepageProcessor.Transcode` | src/info/monitorenter/cpdetector/CodepageProcessor.java:482-501 | character chunks through `transcodeBuffer`; the result equals `TranscodeEffect` |
| `Processor.CodepageProcessor.Drain` | src/info/monitorenter/cpdetector/CodepageProcessor.java:494-498 | whatever lengths the reads return, the characters passed on are exactly the reader's contents, in order |
| `Processor.CodepageProcessor.Process` | src/info/monitorenter/cpdetector/CodepageProcessor.java:423-526 | the file system and status equal `ProcessEffect` |
| `Processor.CodepageProcessor.ProcessRecursive` | src/info/monitorenter/cpdetector/CodepageProcessor.java:354-369 | fails on `null` or a missing node, loops over children from the last index down, and ends in the state and error `Walk` gives |
| `Processor.CodepageProcessor.ProcessChildren` | src/info/monitorenter/cpdetector/CodepageProcessor.java:361-365 | the loop over a directory's listing from the last index down; the state and error equal `WalkChildren`, so the first failure stops the loop |
| `Processor.CodepageProcessor.VerifyFiles` | src/info/monitorenter/cpdetector/CodepageProcessor.java:388-418 | the root is checked against the state before `mkdirs` of the output directory, the output directory against the state after it; the messages are collected in that order and it throws iff any was added |
| `Processor.CodepageProcessor.Run` | src/info/monitorenter/cpdetector/CodepageProcessor.java:371-380 | validation first; on success the walk from the collection root |

## Left out

- Option parsing (`parseArgs`, `ACmdLineArgsInheritor`): a thin layer over an external command-line parser. Its results arrive as the constructor's arguments.
- Loading detectors by reflection and `Charset.forName`: these are platform calls.
- `printCharsets`, `loadCodepages`, `describe`, `usage`, `main` and all console output: no content to model.
- `Thread.sleep` between documents: no observable effect on the file system.
- The detection algorithms: the detector is a function-valued parameter. Failures inside the detector are not modelled.
- Character decoding and encoding: they are the `Codec` parameter. The round trip A → B → A is therefore not stated. Replacement of unmappable characters is not modelled.
- `java.io.File` path normalisation (absolute paths, trailing and duplicate separators): destinations are the raw concatenated strings.
- `Processor.FileSystem.MakeDirs` and `Disk.MkDirs`: `mkdirs` creating missing ancestor directories is not modelled; only the directory itself is recorded.
- `Disk.CreateNewFile`: `createNewFile` failing for a missing parent directory (an `IOException`) is not modelled.
- I/O errors after a stream is open: only failures to open a stream are modelled.
- The length of a directory: `File.length` leaves it unspecified, and the model takes 0.
- `FileFilterExtensions` is not part of this model: the filter is a parameter. The default filter (`Pipeline.AcceptAll`) accepts every path.
- `UnknownCharset` is not part of this model. Its bucket name is taken as "unknown", the directory the usage text names (CodepageProcessor.java:602).
- `Placement.ToLower`: lowers ASCII letters only, because Java's locale-dependent Unicode case mapping is not modelled.
- `File.listFiles` (CodepageProcessor.java:362): the children of a `Tree` node are given, not read from the file system. They stand for the listing each directory has when the walk reaches it, in the order `listFiles` returns, which is unspecified. When the output directory lies inside the collection, that listing can include files written earlier in the same run. `Pipeline.WalkVisitsAcceptedInOrder` excludes exactly that case with its requirement that no node lies below the output directory.
- `Processor.CodepageProcessor.Transcode`: the writer's encoded bytes appear in the target when the stream is closed. Per-chunk flushing is not modelled. The final content is the same.
