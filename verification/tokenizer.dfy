/**
 * The comma- or semicolon-separated lists of the command line (document
 * extensions, detector class names), split as `java.util.StringTokenizer`
 * splits them with the delimiter set ";,": runs of delimiters separate
 * tokens and empty tokens never appear.
 */
module Tokenizer {
  import opened Basics

  predicate IsDelimiter(c: char) {
    c == ';' || c == ','
  }

  /** A token: a non-empty run of characters none of which is a delimiter. */
  predicate IsToken(t: string) {
    |t| > 0 && forall i :: 0 <= i < |t| ==> !IsDelimiter(t[i])
  }

  /** Length of the delimiter-free run at the front of `s`. */
  function RunLength(s: string): (n: nat)
    ensures n <= |s|
    ensures forall k :: 0 <= k < n ==> !IsDelimiter(s[k])
    ensures n < |s| ==> IsDelimiter(s[n])
  {
    if s == [] || IsDelimiter(s[0]) then 0 else 1 + RunLength(s[1..])
  }

  /** The tokens of `s`, in source order: the maximal delimiter-free runs. */
  function Tokens(s: string): (ts: seq<string>)
    ensures forall i :: 0 <= i < |ts| ==> IsToken(ts[i])
    decreases |s|
  {
    if s == [] then []
    else if IsDelimiter(s[0]) then Tokens(s[1..])
    else
      var n := RunLength(s);
      [s[..n]] + Tokens(s[n..])
  }

  /** The tokens written back out, one delimiter `d` between neighbours. */
  function Join(ts: seq<string>, d: char): string {
    if ts == [] then []
    else if |ts| == 1 then ts[0]
    else ts[0] + [d] + Join(ts[1..], d)
  }

  lemma RunLengthUnique(s: string, n: nat)
    requires n <= |s|
    requires forall k :: 0 <= k < n ==> !IsDelimiter(s[k])
    requires n < |s| ==> IsDelimiter(s[n])
    ensures RunLength(s) == n
  {
  }

  /** A single delimiter cuts the list in two: tokens never span a delimiter. */
  lemma {:induction false} TokensSplitAtDelimiter(a: string, d: char, b: string)
    requires IsDelimiter(d)
    ensures Tokens(a + [d] + b) == Tokens(a) + Tokens(b)
    decreases |a|
  {
    var s := a + [d] + b;
    if a == [] {
      assert s[1..] == b;
    } else if IsDelimiter(a[0]) {
      assert s[1..] == a[1..] + [d] + b;
      TokensSplitAtDelimiter(a[1..], d, b);
    } else {
      var n := RunLength(a);
      FirstTokenBeforeDelimiter(a, d, b);
      TokensSplitAtDelimiter(a[n..], d, b);
      assert Tokens(s) == [s[..n]] + Tokens(s[n..]);
    }
  }

  /** The first token of `a` is also the first token of `a`, a delimiter and `b`. */
  lemma FirstTokenBeforeDelimiter(a: string, d: char, b: string)
    requires IsDelimiter(d)
    ensures var s, n := a + [d] + b, RunLength(a);
            RunLength(s) == n && s[..n] == a[..n] && s[n..] == a[n..] + [d] + b
  {
    var s, n := a + [d] + b, RunLength(a);
    assert forall k :: 0 <= k < n ==> s[k] == a[k];
    RunLengthUnique(s, n);
    assert s[n..] == a[n..] + [d] + b;
  }

  /** A delimiter-free non-empty string is one token. */
  lemma TokensOfToken(t: string)
    requires IsToken(t)
    ensures Tokens(t) == [t]
  {
    RunLengthUnique(t, |t|);
    assert t[..|t|] == t;
    assert t[|t|..] == [];
  }

  /** Tokenising undoes joining: the list is recovered token by token. */
  lemma {:induction false} TokensJoinRoundTrip(ts: seq<string>, d: char)
    requires IsDelimiter(d)
    requires forall i :: 0 <= i < |ts| ==> IsToken(ts[i])
    ensures Tokens(Join(ts, d)) == ts
  {
    if ts == [] {
    } else if |ts| == 1 {
      TokensOfToken(ts[0]);
    } else {
      TokensSplitAtDelimiter(ts[0], d, Join(ts[1..], d));
      TokensOfToken(ts[0]);
      TokensJoinRoundTrip(ts[1..], d);
    }
  }

  /** The list is empty exactly when the literal holds nothing but delimiters. */
  lemma {:induction false} NoTokensIffOnlyDelimiters(s: string)
    ensures Tokens(s) == [] <==> forall i :: 0 <= i < |s| ==> IsDelimiter(s[i])
    decreases |s|
  {
    if s != [] && IsDelimiter(s[0]) {
      NoTokensIffOnlyDelimiters(s[1..]);
      assert forall i :: 1 <= i < |s| ==> s[i] == s[1..][i - 1];
    }
  }

  /** `skipDelimiters` of the tokenizer: advance over delimiters. */
  method SkipDelimiters(s: string, from: nat) returns (pos: nat)
    requires from <= |s|
    ensures from <= pos <= |s|
    ensures pos < |s| ==> !IsDelimiter(s[pos])
    ensures Tokens(s[pos..]) == Tokens(s[from..])
  {
    pos := from;
    while pos < |s| && IsDelimiter(s[pos])
      invariant from <= pos <= |s|
      invariant Tokens(s[pos..]) == Tokens(s[from..])
    {
      assert s[pos..][1..] == s[pos + 1..];
      pos := pos + 1;
    }
  }

  /** `scanToken` of the tokenizer: advance to the next delimiter or the end. */
  method ScanToken(s: string, from: nat) returns (pos: nat)
    requires from < |s| && !IsDelimiter(s[from])
    ensures from < pos <= |s|
    ensures Tokens(s[from..]) == [s[from..pos]] + Tokens(s[pos..])
  {
    pos := from;
    while pos < |s| && !IsDelimiter(s[pos])
      invariant from <= pos <= |s|
      invariant forall k :: from <= k < pos ==> !IsDelimiter(s[k])
    {
      pos := pos + 1;
    }
    RunLengthUnique(s[from..], pos - from);
    assert s[from..][..pos - from] == s[from..pos];
    assert s[from..][pos - from..] == s[pos..];
  }

  /**
   * `parseCSVList`: `None` for a `null` literal, otherwise the tokens in
   * source order, appended one by one to the list.
   */
  method ParseCsvList(listLiteral: Option<string>) returns (r: Option<seq<string>>)
    ensures listLiteral.None? ==> r.None?
    ensures listLiteral.Some? ==> r == Some(Tokens(listLiteral.value))
  {
    if listLiteral.None? {
      return None;
    }
    var s := listLiteral.value;
    var tmpList: seq<string> := [];
    assert s[0..] == s;
    var pos := SkipDelimiters(s, 0);
    while pos < |s|
      invariant pos <= |s|
      invariant pos < |s| ==> !IsDelimiter(s[pos])
      invariant tmpList + Tokens(s[pos..]) == Tokens(s)
      decreases |s| - pos
    {
      var end := ScanToken(s, pos);
      tmpList := tmpList + [s[pos..end]];
      pos := SkipDelimiters(s, end);
    }
    assert s[pos..] == [];
    assert Tokens(s[pos..]) == [];
    assert tmpList == Tokens(s);
    return Some(tmpList);
  }
}
