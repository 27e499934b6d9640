/** The mapping on the names its test cases use. Each result is derived from the
    general lemmas (the code-point description, case folding, the leading `_`
    rule); the facts about the literal texts themselves are kept in small lemmas
    of their own. */
module UsernameMappingExamples {
  import opened Utf8
  import opened UsernameMapping

  /** A text made only of characters that pass through is its own fold. */
  lemma FoldOfPassing(s: string, caseSensitive: bool)
    requires forall i :: 0 <= i < |s| ==> PassesThrough(s[i], caseSensitive)
    ensures CodePointFold(s, caseSensitive) == s
  {
    CodePointFoldIdentity(s, caseSensitive);
  }

  lemma FoldCons(c: char, s: string, caseSensitive: bool)
    ensures CodePointFold([c] + s, caseSensitive) == CodePointPiece(c, caseSensitive) + CodePointFold(s, caseSensitive)
  {
    assert ([c] + s)[1..] == s;
  }

  // ---------------------------------------------------------------------------
  // "test1234" is left alone

  lemma PassThroughFold()
    ensures CodePointFold("test1234", false) == "test1234"
  {
    FoldOfPassing("test1234", false);
  }

  lemma PassThroughExample()
    ensures MapUsername("test1234", false) == "test1234"
  {
    MapUsernameByCodePoint("test1234", false);
    PassThroughFold();
  }

  // ---------------------------------------------------------------------------
  // "tEST_1234": lower-cased, or with `case_sensitive` each capital marked by `_`

  lemma LowerExample()
    ensures LowerAscii("tEST_1234") == "test_1234"
  {
  }

  lemma LowerFold()
    ensures CodePointFold("test_1234", false) == "test_1234"
  {
    FoldOfPassing("test_1234", false);
  }

  lemma UpperCaseExample()
    ensures MapUsername("tEST_1234", false) == "test_1234"
  {
    MapUsernameByCodePoint("tEST_1234", false);
    CaseInsensitiveFold("tEST_1234");
    LowerExample();
    LowerFold();
  }

  lemma CapitalsFold()
    ensures CodePointFold("EST", true) == "_e_s_t"
  {
  }

  lemma DigitsFold()
    ensures CodePointFold("1234", true) == "1234"
  {
    FoldOfPassing("1234", true);
  }

  lemma CaseSensitiveParts()
    ensures "tEST_1234" == ['t'] + ("EST" + (['_'] + "1234"))
    ensures "t" + ("_e_s_t" + ("__" + "1234")) == "t_e_s_t__1234"
  {
  }

  lemma CaseSensitiveFold()
    ensures CodePointFold("tEST_1234", true) == "t_e_s_t__1234"
  {
    CaseSensitiveParts();
    FoldCons('t', "EST" + (['_'] + "1234"), true);
    CodePointFoldAppend("EST", ['_'] + "1234", true);
    FoldCons('_', "1234", true);
    CapitalsFold();
    DigitsFold();
  }

  lemma CaseSensitiveExample()
    ensures MapUsername("tEST_1234", true) == "t_e_s_t__1234"
  {
    MapUsernameByCodePoint("tEST_1234", true);
    CaseSensitiveFold();
  }

  // ---------------------------------------------------------------------------
  // "test=$?_1234": `=`, `$` and `?` are escaped

  lemma SymbolPieces()
    ensures CodePointPiece('=', false) == "=3d"
    ensures CodePointPiece('$', false) == "=24"
    ensures CodePointPiece('?', false) == "=3f"
  {
  }

  lemma SymbolsParts()
    ensures "test=$?_1234" == "test" + (['='] + (['$'] + (['?'] + "_1234")))
    ensures "test" + ("=3d" + ("=24" + ("=3f" + "_1234"))) == "test=3d=24=3f_1234"
  {
  }

  lemma PrefixFold()
    ensures CodePointFold("test", false) == "test"
  {
    FoldOfPassing("test", false);
  }

  lemma SuffixFold()
    ensures CodePointFold("_1234", false) == "_1234"
  {
    FoldOfPassing("_1234", false);
  }

  lemma SymbolsFold()
    ensures CodePointFold("test=$?_1234", false) == "test=3d=24=3f_1234"
  {
    SymbolsParts();
    CodePointFoldAppend("test", ['='] + (['$'] + (['?'] + "_1234")), false);
    FoldCons('=', ['$'] + (['?'] + "_1234"), false);
    FoldCons('$', ['?'] + "_1234", false);
    FoldCons('?', "_1234", false);
    SymbolPieces();
    PrefixFold();
    SuffixFold();
  }

  lemma SymbolsExample()
    ensures MapUsername("test=$?_1234", false) == "test=3d=24=3f_1234"
  {
    MapUsernameByCodePoint("test=$?_1234", false);
    SymbolsFold();
  }

  // ---------------------------------------------------------------------------
  // "_test_1234": only the leading `_` is escaped

  lemma LeadingUnderscoreParts()
    ensures "_test_1234"[1..] == "test_1234"
    ensures "=5f" + "" + "test_1234" == "=5ftest_1234"
  {
  }

  lemma LeadingUnderscoreExample()
    ensures MapUsername("_test_1234", false) == "=5ftest_1234"
  {
    MapUsernameLeadingUnderscore("_test_1234", false);
    LeadingUnderscoreParts();
    LowerFold();
  }

  // ---------------------------------------------------------------------------
  // "têst": the two UTF-8 bytes of `ê` are escaped

  lemma HexEscapeExample()
    ensures HexEscape([0xC3, 0xAA]) == "=c3=aa"
  {
  }

  lemma NonAsciiPiece()
    ensures CodePointPiece('\U{00EA}', false) == "=c3=aa"
  {
    EncodeCharExample();
    HexEscapeExample();
  }

  lemma NonAsciiParts()
    ensures "t\U{00EA}st" == ['t'] + (['\U{00EA}'] + "st")
    ensures "t" + ("=c3=aa" + "st") == "t=c3=aast"
  {
  }

  lemma TailFold()
    ensures CodePointFold("st", false) == "st"
  {
    FoldOfPassing("st", false);
  }

  lemma NonAsciiFold()
    ensures CodePointFold("t\U{00EA}st", false) == "t=c3=aast"
  {
    NonAsciiParts();
    FoldCons('t', ['\U{00EA}'] + "st", false);
    FoldCons('\U{00EA}', "st", false);
    NonAsciiPiece();
    TailFold();
  }

  lemma NonAsciiEncoding()
    ensures Encode("t\U{00EA}st") == [0x74, 0xC3, 0xAA, 0x73, 0x74]
  {
    NonAsciiParts();
    EncodeAppend(['t'], ['\U{00EA}'] + "st");
    EncodeAppend(['\U{00EA}'], "st");
    EncodeCharExample();
  }

  /** "têst" maps to "t=c3=aast", given as text or as its UTF-8 bytes. */
  lemma NonAsciiExample()
    ensures MapUsername("t\U{00EA}st", false) == "t=c3=aast"
    ensures MapUsernameBytes([0x74, 0xC3, 0xAA, 0x73, 0x74], false) == "t=c3=aast"
  {
    MapUsernameByCodePoint("t\U{00EA}st", false);
    NonAsciiFold();
    NonAsciiEncoding();
  }
}
