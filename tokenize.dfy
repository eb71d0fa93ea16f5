/**
 * The tokens `strtok` yields: the maximal non-empty runs of bytes that are not
 * delimiters, from left to right.
 */
module Tokenize {
  import opened Wrappers

  /** The length of the leading run of non-delimiter bytes of `s`. */
  function Run(s: seq<char>, delims: seq<char>): (n: nat)
    ensures n <= |s|
    ensures forall k :: 0 <= k < n ==> s[k] !in delims
    ensures n == |s| || s[n] in delims
  {
    if s == [] || s[0] in delims then 0 else 1 + Run(s[1..], delims)
  }

  /** The run of `s` is the only prefix that is delimiter-free and maximal. */
  lemma RunUnique(s: seq<char>, delims: seq<char>, n: nat)
    requires n <= |s|
    requires forall k :: 0 <= k < n ==> s[k] !in delims
    requires n == |s| || s[n] in delims
    ensures Run(s, delims) == n
  {
  }

  /** The token sequence of `s`: delimiters are skipped, each maximal run of others is one token. */
  function Tokens(s: seq<char>, delims: seq<char>): (r: seq<seq<char>>)
    decreases |s|
  {
    if s == [] then []
    else if s[0] in delims then Tokens(s[1..], delims)
    else
      var n := Run(s, delims);
      [s[..n]] + Tokens(s[n..], delims)
  }

  /** What one token looks like: non-empty, and free of delimiters. */
  predicate IsToken(t: seq<char>, delims: seq<char>)
  {
    t != [] && forall k :: 0 <= k < |t| ==> t[k] !in delims
  }

  /** Every token is non-empty and contains no delimiter. */
  lemma {:induction false} TokensAreTokens(s: seq<char>, delims: seq<char>)
    ensures forall i :: 0 <= i < |Tokens(s, delims)| ==> IsToken(Tokens(s, delims)[i], delims)
    decreases |s|
  {
    if s == [] {
    } else if s[0] in delims {
      TokensAreTokens(s[1..], delims);
    } else {
      var n := Run(s, delims);
      TokensAreTokens(s[n..], delims);
      assert IsToken(s[..n], delims);
    }
  }

  /** The concatenation of a sequence of texts. */
  function Concat(ts: seq<seq<char>>): (r: seq<char>)
  {
    if ts == [] then [] else ts[0] + Concat(ts[1..])
  }

  /** `s` with every delimiter byte removed. */
  function Strip(s: seq<char>, delims: seq<char>): (r: seq<char>)
  {
    if s == [] then [] else (if s[0] in delims then [] else [s[0]]) + Strip(s[1..], delims)
  }

  lemma {:induction false} StripAppend(a: seq<char>, b: seq<char>, delims: seq<char>)
    ensures Strip(a + b, delims) == Strip(a, delims) + Strip(b, delims)
  {
    if a == [] {
      assert a + b == b;
    } else {
      assert (a + b)[1..] == a[1..] + b;
      StripAppend(a[1..], b, delims);
    }
  }

  lemma {:induction false} StripDelimiterFree(s: seq<char>, delims: seq<char>)
    requires forall k :: 0 <= k < |s| ==> s[k] !in delims
    ensures Strip(s, delims) == s
  {
    if s != [] {
      StripDelimiterFree(s[1..], delims);
    }
  }

  /** Concatenating the tokens gives the source with all delimiters removed. */
  lemma {:induction false} TokensConcat(s: seq<char>, delims: seq<char>)
    ensures Concat(Tokens(s, delims)) == Strip(s, delims)
    decreases |s|
  {
    if s == [] {
    } else if s[0] in delims {
      TokensConcat(s[1..], delims);
    } else {
      var n := Run(s, delims);
      TokensConcat(s[n..], delims);
      var ts := [s[..n]] + Tokens(s[n..], delims);
      assert ts[0] == s[..n] && ts[1..] == Tokens(s[n..], delims);
      StripDelimiterFree(s[..n], delims);
      assert s == s[..n] + s[n..];
      StripAppend(s[..n], s[n..], delims);
    }
  }

  /** A delimiter splits the tokens: those of the left part, then those of the right part. */
  lemma {:induction false} TokensSplit(a: seq<char>, d: char, b: seq<char>, delims: seq<char>)
    requires d in delims
    ensures Tokens(a + [d] + b, delims) == Tokens(a, delims) + Tokens(b, delims)
    decreases |a|
  {
    var s := a + [d] + b;
    if a == [] {
      assert s[1..] == b;
    } else if a[0] in delims {
      assert s[1..] == a[1..] + [d] + b;
      TokensSplit(a[1..], d, b, delims);
    } else {
      var n := Run(a, delims);
      RunUnique(s, delims, n);
      assert s[..n] == a[..n];
      assert s[n..] == a[n..] + [d] + b;
      TokensSplit(a[n..], d, b, delims);
    }
  }

  /** A non-empty delimiter-free text is a single token. */
  lemma TokensOfToken(t: seq<char>, delims: seq<char>)
    requires IsToken(t, delims)
    ensures Tokens(t, delims) == [t]
  {
    RunUnique(t, delims, |t|);
    assert t[..|t|] == t && t[|t|..] == [];
  }

  /** A text made only of delimiters has no token. */
  lemma {:induction false} TokensOfDelimiters(s: seq<char>, delims: seq<char>)
    requires forall k :: 0 <= k < |s| ==> s[k] in delims
    ensures Tokens(s, delims) == []
  {
    if s != [] {
      TokensOfDelimiters(s[1..], delims);
    }
  }

  /** A delimiter at `i` contributes nothing: the tokens from `i` are those from `i + 1`. */
  lemma TokensSkip(s: seq<char>, i: nat, delims: seq<char>)
    requires i < |s| && s[i] in delims
    ensures Tokens(s[i..], delims) == Tokens(s[i + 1..], delims)
  {
  }

  /** A stretch of delimiters from `lo` up to `hi` contributes nothing. */
  lemma {:induction false} TokensSkipAll(s: seq<char>, lo: nat, hi: nat, delims: seq<char>)
    requires lo <= hi <= |s|
    requires forall k :: lo <= k < hi ==> s[k] in delims
    ensures Tokens(s[lo..], delims) == Tokens(s[hi..], delims)
    decreases hi - lo
  {
    if lo < hi {
      TokensSkip(s, lo, delims);
      TokensSkipAll(s, lo + 1, hi, delims);
    }
  }

  /** A maximal run from `start` to `end` is the first token of the text from `start`. */
  lemma TokensTake(s: seq<char>, start: nat, end: nat, delims: seq<char>)
    requires start < end <= |s|
    requires forall k :: start <= k < end ==> s[k] !in delims
    requires end == |s| || s[end] in delims
    ensures Tokens(s[start..], delims) == [s[start..end]] + Tokens(s[end..], delims)
  {
    var t := s[start..];
    RunUnique(t, delims, end - start);
    assert t[..end - start] == s[start..end];
    assert t[end - start..] == s[end..];
  }

  /**
   * strtok resumed at `pos` of `text`: skip delimiters, then take the run that
   * follows as the token (None when only delimiters remain); `next` is where the
   * following call resumes, just past the delimiter that ended the token.
   */
  method StrTok(text: seq<char>, pos: nat, delims: seq<char>) returns (token: Option<seq<char>>, next: nat)
    requires pos <= |text|
    ensures pos <= next <= |text|
    ensures token.None? <==> forall k :: pos <= k < |text| ==> text[k] in delims
    ensures token.None? ==> Tokens(text[pos..], delims) == []
    ensures token.Some? ==> next > pos && Tokens(text[pos..], delims) == [token.value] + Tokens(text[next..], delims)
  {
    var i := pos;
    while i < |text| && text[i] in delims
      invariant pos <= i <= |text|
      invariant forall k :: pos <= k < i ==> text[k] in delims
    {
      i := i + 1;
    }
    if i == |text| {
      TokensSkipAll(text, pos, i, delims);
      assert text[i..] == [];
      return None, i;
    }
    var start := i;
    while i < |text| && text[i] !in delims
      invariant start <= i <= |text|
      invariant forall k :: start <= k < i ==> text[k] !in delims
    {
      i := i + 1;
    }
    TokensSkipAll(text, pos, start, delims);
    TokensTake(text, start, i, delims);
    ghost var rest := Tokens(text[i..], delims);
    assert Tokens(text[pos..], delims) == [text[start..i]] + rest;
    token := Some(text[start..i]);
    next := if i < |text| then i + 1 else i;
    if i < |text| {
      TokensSkip(text, i, delims);
    }
    assert Tokens(text[next..], delims) == rest;
  }

  /** Consecutive delimiters yield no empty token: "a,,b,c" splits into "a", "b", "c". */
  lemma TokensExampleInner(x: char, y: char, z: char, d: char, delims: seq<char>)
    requires d in delims && x !in delims && y !in delims && z !in delims
    ensures Tokens([x, d, d, y, d, z], delims) == [[x], [y], [z]]
  {
    TokensExampleTail(y, z, d, delims);
    TokensOfToken([x], delims);
    assert [x, d, d, y, d, z] == [x] + [d] + [d, y, d, z];
    TokensSplit([x], d, [d, y, d, z], delims);
  }

  /** A leading delimiter yields no empty token: ",b,c" splits into "b", "c". */
  lemma TokensExampleTail(y: char, z: char, d: char, delims: seq<char>)
    requires d in delims && y !in delims && z !in delims
    ensures Tokens([d, y, d, z], delims) == [[y], [z]]
  {
    TokensOfToken([y], delims);
    TokensOfToken([z], delims);
    assert [y, d, z] == [y] + [d] + [z];
    TokensSplit([y], d, [z], delims);
    assert [d, y, d, z] == [] + [d] + [y, d, z];
    TokensSplit([], d, [y, d, z], delims);
  }

  /** Leading and trailing delimiters yield no empty token: ",a," splits into "a". */
  lemma TokensExampleOuter(x: char, d: char, delims: seq<char>)
    requires d in delims && x !in delims
    ensures Tokens([d, x, d], delims) == [[x]]
  {
    TokensOfToken([x], delims);
    assert [x, d] == [x] + [d] + [];
    TokensSplit([x], d, [], delims);
    assert [d, x, d] == [] + [d] + [x, d];
    TokensSplit([], d, [x, d], delims);
  }
}
