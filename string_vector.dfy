/**
 * The String layer: a String is a byte Vector whose `length` counts the text
 * and whose buffer holds a NUL terminator just past it.
 */
module StringVector {
  import opened Wrappers
  import opened Vectors
  import opened CStrings
  import opened Tokenize
  import opened Numeric

  type String = Vector<char>

  /** The capacity `initString` asks for (_STRING_VECTOR_INIT_SIZE). */
  const STRING_VECTOR_INIT_SIZE: nat := 64

  ghost predicate IsString(str: String)
    reads str, str.arr
  {
    str.Valid() && str.length < str.arr.Length && str.arr[str.length] == NUL
  }

  /**
   * initString: a String holding the bytes of `contents` before its terminator;
   * a NULL `contents` gives the empty String.
   */
  method InitString(contents: Option<seq<char>>) returns (str: String)
    ensures fresh(str) && fresh(str.arr) && IsString(str)
    ensures str.length == (if contents.Some? then Strlen(contents.value) else 0)
    ensures str.Contents() == (if contents.Some? then CStr(contents.value) else [])
    ensures IsText(str.Contents())
    ensures str.Capacity() >= STRING_VECTOR_INIT_SIZE
  {
    var len := if contents.Some? then Strlen(contents.value) else 0;
    str := InitByteVector(STRING_VECTOR_INIT_SIZE, if contents.Some? then contents.value[..len] else []);
  }

  /**
   * initStringCp: a String with the content of `copyString`, asking for its whole
   * capacity; the copy owns a buffer of its own.
   */
  method InitStringCp(copyString: String) returns (str: String)
    requires copyString.Valid()
    ensures fresh(str) && fresh(str.arr) && IsString(str)
    ensures str.Contents() == copyString.Contents()
    ensures str.Capacity() >= copyString.Capacity()
  {
    str := InitByteVector(copyString.arr.Length, copyString.arr[..copyString.length]);
  }

  /** String_charAt: the byte at `index`, or V_E_RANGE when `index` is not below `length`. */
  function CharAt(str: String, index: nat): (r: Result<char>)
    reads str, str.arr
    requires str.Valid()
    ensures r.Ok? <==> index < str.length
    ensures r.Ok? ==> r.value == str.Contents()[index]
    ensures r.Err? ==> r.error == V_E_RANGE
  {
    str.At(index)
  }

  /**
   * String_cmp: strcmp of the two buffers, which stops at each one's first NUL;
   * negative, zero or positive as the texts compare byte-wise.
   */
  function StringCmp(str: String, comparedToStr: String): (r: int)
    reads str, str.arr, comparedToStr, comparedToStr.arr
    requires IsString(str) && IsString(comparedToStr)
    ensures r == 0 <==> CStr(str.Contents()) == CStr(comparedToStr.Contents())
    ensures r < 0 <==> LexLess(CStr(str.Contents()), CStr(comparedToStr.Contents()))
    ensures r > 0 <==> LexLess(CStr(comparedToStr.Contents()), CStr(str.Contents()))
    ensures IsText(str.Contents()) && IsText(comparedToStr.Contents()) ==>
              (r == 0 <==> str.Contents() == comparedToStr.Contents())
  {
    var a, b := str.arr[..], comparedToStr.arr[..];
    CStrCut(a, str.length);
    CStrCut(b, comparedToStr.length);
    assert a[..str.length] == str.Contents() && b[..comparedToStr.length] == comparedToStr.Contents();
    CompareZero(CStr(a), CStr(b));
    CompareLess(CStr(a), CStr(b));
    CompareLess(CStr(b), CStr(a));
    CompareAntisymmetric(CStr(a), CStr(b));
    CStrOfText(str.Contents());
    CStrOfText(comparedToStr.Contents());
    Compare(CStr(a), CStr(b))
  }

  /** Swapping the Strings flips the sign of String_cmp. */
  lemma StringCmpAntisymmetric(str: String, comparedToStr: String)
    requires IsString(str) && IsString(comparedToStr)
    ensures StringCmp(comparedToStr, str) < 0 <==> StringCmp(str, comparedToStr) > 0
    ensures StringCmp(comparedToStr, str) == 0 <==> StringCmp(str, comparedToStr) == 0
    ensures StringCmp(comparedToStr, str) > 0 <==> StringCmp(str, comparedToStr) < 0
  {
  }

  /**
   * String_toi: scans from the last byte to the first, adding each accepted
   * byte's value times base^position, and gives 0 at the first rejected byte.
   */
  method Toi(str: String, base: int) returns (num: int)
    requires str.Valid()
    ensures num == ToiValue(str.Contents(), base)
  {
    ghost var s := str.Contents();
    num := 0;
    var i := 0;
    while i < str.length
      invariant 0 <= i <= str.length
      invariant num == PositionalSum(s, base, i)
      invariant forall k :: |s| - i <= k < |s| ==> Accepted(s[k], base)
    {
      var c := str.At(str.length - 1 - i).value;
      assert c == s[|s| - (i + 1)];
      var p := Pow(base, i);
      if c as int < '0' as int + base && c as int > '0' as int {
        assert CharValue(c, base) == c as int - '0' as int;
        num := num + (c as int - '0' as int) * p;
      } else if c as int < base - 10 + 'A' as int && c as int > 'A' as int {
        assert CharValue(c, base) == c as int - 'A' as int + 10;
        num := num + (c as int - 'A' as int + 10) * p;
      } else {
        assert !Accepted(s[|s| - (i + 1)], base);
        return 0;
      }
      i := i + 1;
    }
  }

  /**
   * String_tok: clears `tokenContainer`, then appends, in order, every token
   * strtok finds in a private copy of the String's bytes; `str` itself is not touched.
   */
  method Tok(str: String, tokenContainer: Vector<seq<char>>, delimiters: seq<char>)
    requires IsString(str) && tokenContainer.Valid()
    modifies tokenContainer, tokenContainer.arr
    ensures tokenContainer.Valid()
    ensures tokenContainer.Contents() == Tokens(CStr(str.Contents()), CStr(delimiters))
    ensures str.Contents() == old(str.Contents())
  {
    tokenContainer.Clear();
    var tokenized := str.arr[..str.length + 1];
    CStrCut(tokenized, str.length);
    assert tokenized[..str.length] == str.Contents();
    AddTokens(tokenContainer, CStr(tokenized), CStr(delimiters));
  }

  /** The strtok loop of String_tok: appends each token of `text`, in order, to `tokenContainer`. */
  method AddTokens(tokenContainer: Vector<seq<char>>, text: seq<char>, delims: seq<char>)
    requires tokenContainer.Valid()
    modifies tokenContainer, tokenContainer.arr
    ensures tokenContainer.Valid()
    ensures tokenContainer.Contents() == old(tokenContainer.Contents()) + Tokens(text, delims)
  {
    ghost var before := tokenContainer.Contents();
    var token, pos := StrTok(text, 0, delims);
    assert text[0..] == text;
    while token.Some?
      invariant pos <= |text|
      invariant tokenContainer.Valid()
      invariant tokenContainer.arr == old(tokenContainer.arr) || fresh(tokenContainer.arr)
      invariant token.Some? ==> tokenContainer.Contents() + [token.value] + Tokens(text[pos..], delims) == before + Tokens(text, delims)
      invariant token.None? ==> tokenContainer.Contents() == before + Tokens(text, delims)
      decreases |text| - pos + (if token.Some? then 1 else 0)
    {
      tokenContainer.Add(token.value);
      token, pos := StrTok(text, pos, delims);
    }
  }

  /** A caller's view of construction and copying (the length check of test/stringTests.cpp). */
  method InitScenario()
  {
    var str := InitString(Some("..."));
    CStrOfText("...");
    assert str.length == 3;

    var copy := InitStringCp(str);
    copy.Clear();
    assert copy.Contents() == [] && str.Contents() == "...";
  }

  /** A caller's view of tokenizing: the container receives the tokens and the source keeps its text. */
  method TokScenario()
  {
    var text := ['a', ',', ',', 'b', ',', 'c'];
    var line := InitString(Some(text));
    assert IsText(text) && IsText(",");
    CStrOfText(text);
    CStrOfText(",");
    assert line.Contents() == text;
    var tokens := new Vector<seq<char>>.Init(0, []);
    Tok(line, tokens, ",");
    assert line.Contents() == text;
    TokensExampleInner('a', 'b', 'c', ',', ",");
    assert tokens.Contents() == Tokens(text, ",") == ["a", "b", "c"];
  }
}
