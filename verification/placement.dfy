/**
 * The placement decision of `CodepageProcessor.process`: whether a document
 * is dropped, copied under a bucket named after its detected charset, or
 * transcoded under a bucket named after the target charset, and the
 * destination directory and file that follow.
 */
module Placement {
  import opened Basics
  import opened Paths

  /** What the detector proxy answered: `null`, the unknown sentinel, or a charset. */
  datatype Detection = NullCharset | UnknownCharset | Known(name: string)

  /** Bucket name of the unknown sentinel (the directory "unknown" of the usage text). */
  const UnknownCharsetName: string := "unknown"

  datatype Mode = Transcode(source: string, target: string) | RawCopy

  /** Either the document is dropped, or it goes to `target` inside `dir`. */
  datatype Plan = Drop | Place(mode: Mode, bucket: string, dir: string, target: string)

  /** `Character.toLowerCase` on the ASCII letters. */
  function LowerChar(c: char): char {
    if 'A' <= c <= 'Z' then (c as int + 32) as char else c
  }

  /** `String.toLowerCase`, letter by letter: no upper-case ASCII letter is left. */
  function ToLower(s: string): (r: string)
    ensures |r| == |s|
    ensures forall i :: 0 <= i < |s| ==> r[i] == LowerChar(s[i])
    ensures forall i :: 0 <= i < |r| ==> !('A' <= r[i] <= 'Z')
  {
    if s == [] then [] else [LowerChar(s[0])] + ToLower(s[1..])
  }

  /** The directory a document goes to: the bucket, then the prefix when there is one. */
  function BucketDir(outputDir: string, bucket: string, prefix: string): (d: string)
    ensures outputDir + "/" + bucket + "/" <= d
    ensures |prefix| > 0 ==> d[|outputDir + "/" + bucket + "/"|..] == prefix + "/"
    ensures prefix == [] ==> d == outputDir + "/" + bucket + "/"
    ensures d[|d| - 1] == '/'
  {
    if |prefix| > 0 then outputDir + "/" + bucket + "/" + prefix + "/"
    else outputDir + "/" + bucket + "/"
  }

  /** The decision for one document, given its prefix, its file name and the detector's answer. */
  function PlanFor(outputDir: string, targetCodepage: Option<string>, moveUnknown: bool,
                   prefix: string, filename: string, detected: Detection): (p: Plan)
    ensures p.Drop? <==> !detected.Known? && !moveUnknown
    ensures p.Place? ==> (p.mode.Transcode? <==> targetCodepage.Some? && detected.Known?)
    ensures p.Place? && p.mode.Transcode? ==>
              p.bucket == targetCodepage.value && p.mode == Transcode(detected.name, targetCodepage.value)
    ensures p.Place? && p.mode.RawCopy? ==>
              p.bucket == ToLower(if detected.Known? then detected.name else UnknownCharsetName)
    ensures p.Place? ==> p.dir == BucketDir(outputDir, p.bucket, prefix) && p.target == p.dir + filename
    ensures p.Place? ==>
              p.target == outputDir + "/" + p.bucket + "/" + (if prefix == [] then "" else prefix + "/") + filename
    ensures p.Place? ==> outputDir + "/" <= p.dir && outputDir + "/" <= p.target
  {
    if !detected.Known? && !moveUnknown then Drop
    else
      var name := if detected.Known? then detected.name else UnknownCharsetName;
      if targetCodepage.Some? && detected.Known? then
        var dir := BucketDir(outputDir, targetCodepage.value, prefix);
        BucketPath(outputDir, targetCodepage.value, prefix, filename);
        Place(Transcode(name, targetCodepage.value), targetCodepage.value, dir, dir + filename)
      else
        var bucket := ToLower(name);
        var dir := BucketDir(outputDir, bucket, prefix);
        BucketPath(outputDir, bucket, prefix, filename);
        Place(RawCopy, bucket, dir, dir + filename)
  }

  /** A destination spelled out: the bucket path, then the prefix and its separator when there is one, then the name. */
  lemma BucketPath(outputDir: string, bucket: string, prefix: string, filename: string)
    ensures BucketDir(outputDir, bucket, prefix) + filename
         == outputDir + "/" + bucket + "/" + (if prefix == [] then "" else prefix + "/") + filename
    ensures BucketDir(outputDir, bucket, prefix) + filename
         == (outputDir + "/" + bucket + "/") + ((if prefix == [] then "" else prefix + "/") + filename)
    ensures outputDir + "/" <= BucketDir(outputDir, bucket, prefix)
    ensures outputDir + "/" <= BucketDir(outputDir, bucket, prefix) + filename
  {
    var b := outputDir + "/" + bucket + "/";
    var mid: string := if prefix == [] then "" else prefix + "/";
    var d := BucketDir(outputDir, bucket, prefix);
    if prefix == [] {
      assert d == b + mid;
    } else {
      assert d == b + prefix + "/";
      assert b + prefix + "/" == b + mid;
    }
    assert d + filename == b + (mid + filename);
    assert b == (outputDir + "/") + (bucket + "/");
    assert d == (outputDir + "/") + ((bucket + "/") + mid);
  }

  lemma SameSuffix(b: string, x: string, y: string)
    requires b + x == b + y
    ensures x == y
  {
    assert x == (b + x)[|b|..];
    assert y == (b + y)[|b|..];
  }

  /**
   * Within one bucket, the destination determines the prefix and the file
   * name, for prefixes that end with the separator and names that hold none,
   * whatever the separator is.
   */
  lemma BucketTargetInjective(outputDir: string, bucket: string, sep: char,
                              p1: string, n1: string, p2: string, n2: string)
    requires sep !in n1 && sep !in n2
    requires |p1| > 0 ==> p1[|p1| - 1] == sep
    requires |p2| > 0 ==> p2[|p2| - 1] == sep
    requires BucketDir(outputDir, bucket, p1) + n1 == BucketDir(outputDir, bucket, p2) + n2
    ensures p1 == p2 && n1 == n2
  {
    var s1 := (if p1 == [] then "" else p1 + "/") + n1;
    var s2 := (if p2 == [] then "" else p2 + "/") + n2;
    BucketPath(outputDir, bucket, p1, n1);
    BucketPath(outputDir, bucket, p2, n2);
    SameSuffix(outputDir + "/" + bucket + "/", s1, s2);
    if |p1| > 0 && |p2| > 0 {
      JoinedInjective(sep, p1, n1, p2, n2);
    } else if |p1| > 0 {
      SlashAt(p1, n1);
      assert false;
    } else if |p2| > 0 {
      SlashAt(p2, n2);
      assert false;
    } else {
      assert s1 == n1 && s2 == n2;
    }
  }

  /** A non-empty prefix ending with the separator, '/', and a name without it: the joined string splits back uniquely. */
  lemma JoinedInjective(sep: char, p1: string, n1: string, p2: string, n2: string)
    requires sep !in n1 && sep !in n2
    requires |p1| > 0 && p1[|p1| - 1] == sep
    requires |p2| > 0 && p2[|p2| - 1] == sep
    requires p1 + "/" + n1 == p2 + "/" + n2
    ensures p1 == p2 && n1 == n2
  {
    var s := p1 + "/" + n1;
    SlashAt(p1, n1);
    SlashAt(p2, n2);
    if sep == '/' {
      LastIndexOfAt(s, '/', |p1|);
      LastIndexOfAt(s, '/', |p2|);
    } else {
      assert sep !in s[|p1|..];
      assert sep !in s[|p2|..];
      LastIndexOfAt(s, sep, |p1| - 1);
      LastIndexOfAt(s, sep, |p2| - 1);
    }
    assert p1 == s[..|p1|];
  }

  /** A prefix, then '/', then a name: where each part sits in the joined string. */
  lemma SlashAt(p: string, n: string)
    ensures (p + "/" + n)[|p|] == '/' && (p + "/" + n)[|p| + 1..] == n && (p + "/" + n)[..|p|] == p
    ensures (p + "/" + n)[|p|..] == "/" + n
    ensures |p| > 0 ==> (p + "/" + n)[|p| - 1] == p[|p| - 1]
  {
    assert (p + "/" + n)[|p|..] == "/" + n;
  }

  /**
   * Two documents under the same root that have a non-empty prefix and differ
   * in their path below the root never share a destination within a bucket.
   */
  lemma DestinationsDistinct(outputDir: string, bucket: string, root: string, sep: char, d1: string, d2: string)
    requires RelativePrefix(d1, root, sep) != [] && RelativePrefix(d2, root, sep) != []
    requires d1[|root|..] != d2[|root|..]
    ensures BucketDir(outputDir, bucket, RelativePrefix(d1, root, sep)) + FileName(d1, sep)
         != BucketDir(outputDir, bucket, RelativePrefix(d2, root, sep)) + FileName(d2, sep)
  {
    var p1, n1 := RelativePrefix(d1, root, sep), FileName(d1, sep);
    var p2, n2 := RelativePrefix(d2, root, sep), FileName(d2, sep);
    if BucketDir(outputDir, bucket, p1) + n1 == BucketDir(outputDir, bucket, p2) + n2 {
      BucketTargetInjective(outputDir, bucket, sep, p1, n1, p2, n2);
    }
  }
}
