/**
 * C-string semantics over `seq<char>`: a C string ends at its first NUL byte
 * (or, here, at the end of the sequence), and `strcmp` orders the texts
 * byte-wise.
 */
module CStrings {

  const NUL: char := '\0'

  /** A text the C library sees in full: it contains no NUL. */
  predicate IsText(s: seq<char>)
  {
    forall k :: 0 <= k < |s| ==> s[k] != NUL
  }

  /** strlen: the index of the first NUL, or the whole length when there is none. */
  function Strlen(s: seq<char>): (n: nat)
    ensures n <= |s|
    ensures forall k :: 0 <= k < n ==> s[k] != NUL
    ensures n == |s| || s[n] == NUL
  {
    if s == [] || s[0] == NUL then 0 else 1 + Strlen(s[1..])
  }

  /** The text a C string stands for: the bytes before its terminator. */
  function CStr(s: seq<char>): (t: seq<char>)
    ensures IsText(t) && t <= s
    ensures |t| == |s| || s[|t|] == NUL
  {
    s[..Strlen(s)]
  }

  lemma CStrOfText(s: seq<char>)
    ensures IsText(s) ==> CStr(s) == s
  {
  }

  /** A NUL at index `n` ends the C string no later than `n`. */
  lemma CStrCut(s: seq<char>, n: nat)
    requires n < |s| && s[n] == NUL
    ensures CStr(s) == CStr(s[..n])
  {
  }

  /**
   * strcmp on two texts, reduced to its sign: negative, zero or positive as the
   * first differing byte (or the shorter text) decides.
   */
  function Compare(a: seq<char>, b: seq<char>): (r: int)
    ensures -1 <= r <= 1
  {
    if a == [] then (if b == [] then 0 else -1)
    else if b == [] then 1
    else if a[0] < b[0] then -1
    else if b[0] < a[0] then 1
    else Compare(a[1..], b[1..])
  }

  /** Byte-wise lexicographic order, as a reference: a proper prefix, or a smaller byte at the first difference. */
  ghost predicate LexLess(a: seq<char>, b: seq<char>)
  {
    (|a| < |b| && a == b[..|a|]) ||
    exists k :: 0 <= k < |a| && k < |b| && a[..k] == b[..k] && a[k] < b[k]
  }

  /** strcmp is zero exactly when the texts are equal. */
  lemma {:induction false} CompareZero(a: seq<char>, b: seq<char>)
    ensures Compare(a, b) == 0 <==> a == b
  {
    if a != [] && b != [] && a[0] == b[0] {
      CompareZero(a[1..], b[1..]);
      assert a == [a[0]] + a[1..] && b == [b[0]] + b[1..];
    }
  }

  /** Swapping the arguments of strcmp flips the sign. */
  lemma {:induction false} CompareAntisymmetric(a: seq<char>, b: seq<char>)
    ensures Compare(b, a) == -Compare(a, b)
  {
    if a != [] && b != [] && a[0] == b[0] {
      CompareAntisymmetric(a[1..], b[1..]);
    }
  }

  /** strcmp is negative exactly when the first text precedes the second byte-wise. */
  lemma {:induction false} CompareLess(a: seq<char>, b: seq<char>)
    ensures Compare(a, b) < 0 <==> LexLess(a, b)
  {
    if a == [] {
      if b != [] {
        assert a == b[..0];
      }
    } else if b == [] {
    } else if a[0] < b[0] {
      assert a[..0] == b[..0];
    } else if b[0] < a[0] {
      // neither a prefix of b nor smaller at the first byte
    } else {
      CompareLess(a[1..], b[1..]);
      LexLessTail(a, b);
    }
  }

  /** Texts that start with the same byte are ordered as their tails are. */
  lemma LexLessTail(a: seq<char>, b: seq<char>)
    requires a != [] && b != [] && a[0] == b[0]
    ensures LexLess(a, b) <==> LexLess(a[1..], b[1..])
  {
    var a', b' := a[1..], b[1..];
    if LexLess(a', b') {
      if |a'| < |b'| && a' == b'[..|a'|] {
        assert a == [a[0]] + a' && b[..|a|] == [b[0]] + b'[..|a'|];
      } else {
        var k :| 0 <= k < |a'| && k < |b'| && a'[..k] == b'[..k] && a'[k] < b'[k];
        assert a[..k + 1] == [a[0]] + a'[..k] && b[..k + 1] == [b[0]] + b'[..k];
        assert a[k + 1] < b[k + 1];
      }
    }
    if LexLess(a, b) {
      if |a| < |b| && a == b[..|a|] {
        assert a' == b'[..|a'|];
      } else {
        var k :| 0 <= k < |a| && k < |b| && a[..k] == b[..k] && a[k] < b[k];
        assert k > 0;
        assert a'[..k - 1] == a[..k][1..] && b'[..k - 1] == b[..k][1..];
        assert a'[k - 1] < b'[k - 1];
      }
    }
  }
}
