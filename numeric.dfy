/**
 * The value `String_toi` computes, stated over the character sequence. A
 * character is accepted in one of two ranges, both with strict bounds, and the
 * first range wins when both hold; one rejected character makes the whole
 * result 0.
 */
module Numeric {

  function Pow(b: int, e: nat): (r: int)
  {
    if e == 0 then 1 else b * Pow(b, e - 1)
  }

  /** The first accepted range: strictly between '0' and '0' + base. */
  predicate IsDigitChar(c: char, base: int)
  {
    '0' as int < c as int < '0' as int + base
  }

  /** The second accepted range: strictly between 'A' and 'A' + base - 10. */
  predicate IsLetterChar(c: char, base: int)
  {
    'A' as int < c as int < 'A' as int + base - 10
  }

  predicate Accepted(c: char, base: int)
  {
    IsDigitChar(c, base) || IsLetterChar(c, base)
  }

  /** The value of an accepted character: counted from '0' in the first range, from 'A' + 10 in the second. */
  function CharValue(c: char, base: int): (r: int)
  {
    if IsDigitChar(c, base) then c as int - '0' as int else c as int - 'A' as int + 10
  }

  predicate AllAccepted(s: seq<char>, base: int)
  {
    forall k :: 0 <= k < |s| ==> Accepted(s[k], base)
  }

  /** The sum over the last `k` positions, position i (from the right, from 0) weighted by base^i. */
  function PositionalSum(s: seq<char>, base: int, k: nat): (r: int)
    requires k <= |s|
  {
    if k == 0 then 0 else PositionalSum(s, base, k - 1) + CharValue(s[|s| - k], base) * Pow(base, k - 1)
  }

  /** The closed form of String_toi. */
  function ToiValue(s: seq<char>, base: int): (r: int)
  {
    if AllAccepted(s, base) then PositionalSum(s, base, |s|) else 0
  }

  /** Conventional positional notation, read left to right, as an independent reference. */
  function Horner(s: seq<char>, base: int): (r: int)
  {
    if s == [] then 0 else Horner(s[..|s| - 1], base) * base + CharValue(s[|s| - 1], base)
  }

  lemma ShiftSum(u: int, b: int, a: int, v: int, w: int)
    ensures u + b * a + v * (b * w) == u + b * (a + v * w)
  {
  }

  /** Appending a character shifts every earlier position one place to the left. */
  lemma {:induction false} PositionalSumAppend(p: seq<char>, c: char, base: int, k: nat)
    requires k <= |p|
    ensures PositionalSum(p + [c], base, k + 1) == CharValue(c, base) + base * PositionalSum(p, base, k)
  {
    var s := p + [c];
    if k == 0 {
      assert s[|s| - 1] == c;
    } else {
      PositionalSumAppend(p, c, base, k - 1);
      assert s[|s| - (k + 1)] == p[|p| - k];
      var v, a, w := CharValue(p[|p| - k], base), PositionalSum(p, base, k - 1), Pow(base, k - 1);
      assert PositionalSum(s, base, k + 1) == PositionalSum(s, base, k) + v * (base * w);
      assert PositionalSum(p, base, k) == a + v * w;
      assert PositionalSum(s, base, k) == CharValue(c, base) + base * a;
      assert Pow(base, k) == base * w;
      ShiftSum(CharValue(c, base), base, a, v, w);
    }
  }

  /** Summing weighted positions from the right agrees with left-to-right positional reading. */
  lemma {:induction false} PositionalSumIsHorner(s: seq<char>, base: int)
    ensures PositionalSum(s, base, |s|) == Horner(s, base)
  {
    if s != [] {
      var p, c := s[..|s| - 1], s[|s| - 1];
      assert s == p + [c];
      PositionalSumIsHorner(p, base);
      PositionalSumAppend(p, c, base, |p|);
    }
  }

  /** When every character is accepted, String_toi reads the text in positional notation. */
  lemma ToiIsHorner(s: seq<char>, base: int)
    requires AllAccepted(s, base)
    ensures ToiValue(s, base) == Horner(s, base)
  {
    PositionalSumIsHorner(s, base);
  }

  /** Appending an accepted character to an accepted text multiplies by the base and adds its value. */
  lemma ToiAppend(s: seq<char>, c: char, base: int)
    requires AllAccepted(s + [c], base)
    ensures ToiValue(s + [c], base) == ToiValue(s, base) * base + CharValue(c, base)
  {
    assert (s + [c])[..|s|] == s;
    assert AllAccepted(s, base) by {
      forall k | 0 <= k < |s| ensures Accepted(s[k], base) {
        assert (s + [c])[k] == s[k];
      }
    }
    ToiIsHorner(s + [c], base);
    ToiIsHorner(s, base);
  }

  /** An accepted character has a positive value, and only a base of at least 2 accepts anything. */
  lemma AcceptedFacts(c: char, base: int)
    requires Accepted(c, base)
    ensures CharValue(c, base) >= 1 && base >= 2
  {
  }

  lemma {:induction false} HornerPositive(s: seq<char>, base: int)
    requires AllAccepted(s, base) && s != []
    ensures Horner(s, base) >= 1
  {
    var p := s[..|s| - 1];
    AcceptedFacts(s[|s| - 1], base);
    if p != [] {
      assert AllAccepted(p, base) by {
        forall k | 0 <= k < |p| ensures Accepted(p[k], base) {
          assert s[k] == p[k];
        }
      }
      HornerPositive(p, base);
      ProductPositive(Horner(p, base), base);
    }
    assert Horner(s, base) == Horner(p, base) * base + CharValue(s[|s| - 1], base);
  }

  lemma ProductPositive(x: int, y: int)
    requires x >= 1 && y >= 2
    ensures x * y >= 2
  {
  }

  /** String_toi gives 0 exactly for the empty text and for a text with a rejected character. */
  lemma ToiZero(s: seq<char>, base: int)
    ensures ToiValue(s, base) == 0 <==> s == [] || !AllAccepted(s, base)
  {
    if s != [] && AllAccepted(s, base) {
      ToiIsHorner(s, base);
      HornerPositive(s, base);
    }
  }

  /** '0' is outside both ranges for every base, so a text containing it gives 0. */
  lemma ToiRejectsZeroDigit(s: seq<char>, base: int)
    requires '0' in s
    ensures ToiValue(s, base) == 0
  {
  }

  /** 'A' is outside the letter range for every base and inside the digit range only from base 18 on. */
  lemma ToiRejectsLetterA(s: seq<char>, base: int)
    requires 'A' in s && base <= 17
    ensures ToiValue(s, base) == 0
  {
  }

  /** No base up to 42 accepts a lower-case letter. */
  lemma ToiRejectsLowerCase(s: seq<char>, base: int, k: nat)
    requires k < |s| && 'a' <= s[k] <= 'z' && base <= 42
    ensures ToiValue(s, base) == 0
  {
  }

  /** No base up to 10 accepts an upper-case letter. */
  lemma ToiRejectsUpperCase(s: seq<char>, base: int, k: nat)
    requires k < |s| && 'A' <= s[k] <= 'Z' && base <= 10
    ensures ToiValue(s, base) == 0
  {
  }

  /** In base 10 exactly '1' to '9' are accepted, each with its decimal value. */
  lemma DecimalDigits(c: char)
    ensures Accepted(c, 10) <==> '1' <= c <= '9'
    ensures Accepted(c, 10) ==> CharValue(c, 10) == c as int - '0' as int
  {
  }

  /** In base 16 the accepted characters are '1' to '?' (values 1 to 15) and 'B' to 'F' (values 11 to 15). */
  lemma HexDigits(c: char)
    ensures Accepted(c, 16) <==> ('1' <= c <= '?' || 'B' <= c <= 'F')
    ensures '1' <= c <= '?' ==> CharValue(c, 16) == c as int - '0' as int
    ensures 'B' <= c <= 'F' ==> CharValue(c, 16) == c as int - 'A' as int + 10
  {
  }

  /**
   * Above 'A' the letter test decides: such a character is accepted exactly
   * from base c - 54 on (a byte 0x80, read unsigned, from base 74 with value 73).
   */
  lemma AcceptedAboveA(c: char, base: int)
    requires c as int > 'A' as int
    ensures Accepted(c, base) <==> base >= c as int - 54
    ensures base >= c as int - 54 && !IsDigitChar(c, base) ==> CharValue(c, base) == c as int - 55
  {
  }

  lemma ToiExamples()
    ensures ToiValue("FF", 16) == 255
    ensures ToiValue("A", 16) == 0
    ensures ToiValue("10", 10) == 0
    ensures ToiValue("19", 10) == 19
    ensures ToiValue("A", 18) == 17
    ensures ToiValue("a", 43) == 42
    ensures ToiValue("", 10) == 0
    ensures ToiValue([128 as char], 74) == 73
    ensures ToiValue([128 as char], 73) == 0
  {
    assert AllAccepted("FF", 16);
    assert PositionalSum("FF", 16, 1) == 15;
    assert !Accepted("A"[0], 16);
    assert !Accepted("10"[1], 10);
    assert AllAccepted("19", 10);
    assert PositionalSum("19", 10, 1) == 9;
    assert AllAccepted("A", 18);
    assert AllAccepted("a", 43);
    assert AllAccepted([128 as char], 74);
    assert CharValue(128 as char, 74) == 73;
    assert PositionalSum([128 as char], 74, 1) == 73;
    assert !Accepted([128 as char][0], 73);
  }
}
