/**
 * Path arithmetic of `CodepageProcessor.process`: paths are raw strings, the
 * separator is the platform's `file.separator` character, and the relative
 * prefix of a document is cut out of its absolute path by index.
 */
module Paths {

  /** `String.lastIndexOf`: the index of the last `c` in `s`, or -1. */
  function LastIndexOf(s: string, c: char): (r: int)
    ensures -1 <= r < |s|
    ensures r == -1 ==> c !in s
    ensures 0 <= r ==> s[r] == c && c !in s[r + 1..]
  {
    if s == [] then -1
    else if s[|s| - 1] == c then |s| - 1
    else
      var r := LastIndexOf(s[..|s| - 1], c);
      assert r >= 0 ==> s[r + 1..] == s[..|s| - 1][r + 1..] + [s[|s| - 1]];
      r
  }

  /** Any occurrence of `c` with no `c` after it is the last one. */
  lemma LastIndexOfAt(s: string, c: char, k: nat)
    requires k < |s| && s[k] == c && c !in s[k + 1..]
    ensures LastIndexOf(s, c) == k
  {
  }

  /** The file name: the text after the last separator (the whole path if there is none). */
  function FileName(path: string, sep: char): (name: string)
    ensures sep !in name
    ensures |name| <= |path| && path[|path| - |name|..] == name
    ensures |name| < |path| ==> path[|path| - |name| - 1] == sep
  {
    path[LastIndexOf(path, sep) + 1..]
  }

  /**
   * The path between the collection root and the file: from index |root| of
   * the document's path up to and including its last separator, or empty when
   * |root| lies beyond that separator. The document's path is not checked to
   * begin with the root.
   */
  function RelativePrefix(doc: string, root: string, sep: char): (prefix: string)
    ensures prefix == [] <==> |root| > LastIndexOf(doc, sep)
    ensures prefix != [] ==> prefix[|prefix| - 1] == sep
    ensures prefix != [] ==>
              |root| + |prefix| + |FileName(doc, sep)| == |doc| &&
              doc[|root|..] == prefix + FileName(doc, sep)
  {
    var stop := LastIndexOf(doc, sep);
    var start := |root|;
    if start > stop then [] else doc[start..stop + 1]
  }

  /**
   * A document at `root + rel + name`, where `rel` ends with the separator and
   * `name` holds none, has prefix `rel` and file name `name`.
   */
  lemma NestedDocumentPrefix(root: string, rel: string, name: string, sep: char)
    requires rel != [] && rel[|rel| - 1] == sep
    requires sep !in name
    ensures RelativePrefix(root + rel + name, root, sep) == rel
    ensures FileName(root + rel + name, sep) == name
  {
    var doc := root + rel + name;
    var k := |root| + |rel| - 1;
    assert doc[k] == sep;
    assert doc[k + 1..] == name;
    LastIndexOfAt(doc, sep, k);
    assert doc[|root|..k + 1] == rel;
  }

  /** A file directly under the root gets the separator alone as prefix, not "". */
  lemma DirectChildPrefix(root: string, name: string, sep: char)
    requires sep !in name
    ensures RelativePrefix(root + [sep] + name, root, sep) == [sep]
    ensures FileName(root + [sep] + name, sep) == name
  {
    NestedDocumentPrefix(root, [sep], name, sep);
  }
}
