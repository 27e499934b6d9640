/** Content repository references `mxc://<server-name>/<media-id>`.

    The server name is everything between the scheme and the first `/`, so it
    may carry a port (`localhost:8448`) or be a bracketed IPv6 literal (`[::1]`);
    only its non-emptiness is checked. The media ID is everything after that
    `/`: it must be non-empty and hold no further `/`. */
module Mxc {
  import opened Results
  import opened Strings

  const Scheme: string := "mxc://"

  /** Why a text is not an mxc URI. */
  datatype MxcError =
    | NoInput           // the input is `None`
    | WrongScheme       // the text does not start with `mxc://`
    | MissingPath       // no `/` after the server name
    | EmptyServerName   // nothing between `mxc://` and the first `/`
    | EmptyMediaId      // nothing after the first `/`
    | ExtraPathSegment  // the media ID holds another `/`

  /** The parts of an mxc URI; `==` compares them. The constructor does not check them. */
  datatype MXCUri = MXCUri(serverName: string, mediaId: string) {

    function ToString(): string {
      Scheme + serverName + "/" + mediaId
    }

    /** The parts `from_str` accepts: both non-empty, neither holding a `/`. */
    predicate WellFormed() {
      |serverName| > 0 && '/' !in serverName && |mediaId| > 0 && '/' !in mediaId
    }

    /** `from_str`, with `None` standing for Python's None. A success is a
        well-formed reference whose text is exactly the input. */
    static function FromStr(input: Option<string>): (r: Result<MXCUri, MxcError>)
      ensures input.None? ==> r == Err(NoInput)
      ensures input.Some? && !HasScheme(input.value) ==> r == Err(WrongScheme)
      ensures r.Ok? ==> r.value.WellFormed() && input == Some(r.value.ToString())
    {
      match input
      case None => Err(NoInput)
      case Some(s) =>
        if !HasScheme(s) then Err(WrongScheme)
        else
          var rest := s[|Scheme|..];
          match IndexOf(rest, '/')
          case None => Err(MissingPath)
          case Some(i) =>
            var serverName, mediaId := rest[..i], rest[i + 1..];
            if |serverName| == 0 then Err(EmptyServerName)
            else if |mediaId| == 0 then Err(EmptyMediaId)
            else if '/' in mediaId then Err(ExtraPathSegment)
            else
              Rejoin(s, i);
              Ok(MXCUri(serverName, mediaId))
    }
  }

  predicate HasScheme(s: string) {
    |s| >= |Scheme| && s[..|Scheme|] == Scheme
  }

  /** A text with the scheme and a `/` at position `i` after it is the scheme, the
      part before that `/`, the `/` and the part after it. */
  lemma Rejoin(s: string, i: nat)
    requires HasScheme(s) && i < |s| - |Scheme| && s[|Scheme|..][i] == '/'
    ensures s == Scheme + s[|Scheme|..][..i] + "/" + s[|Scheme|..][i + 1..]
  {
    var rest := s[|Scheme|..];
    assert s == s[..|Scheme|] + rest;
    assert rest == rest[..i] + [rest[i]] + rest[i + 1..];
  }

  /** `from_str(to_string(u)) == u` exactly for well-formed references. */
  lemma {:induction false} MxcRoundTrip(u: MXCUri)
    ensures MXCUri.FromStr(Some(u.ToString())) == Ok(u) <==> u.WellFormed()
  {
    if u.WellFormed() {
      var s := u.ToString();
      var rest := u.serverName + "/" + u.mediaId;
      assert s[..|Scheme|] == Scheme && s[|Scheme|..] == rest;
      IndexOfJoin(u.serverName, '/', u.mediaId);
      assert rest[..|u.serverName|] == u.serverName;
      assert rest[|u.serverName| + 1..] == u.mediaId;
    }
  }

  /** A text is accepted exactly when it is the text of some well-formed reference,
      and then it is parsed into that reference. */
  lemma {:induction false} MxcAcceptedTexts(s: string)
    ensures MXCUri.FromStr(Some(s)).Ok? <==> exists u: MXCUri :: u.WellFormed() && u.ToString() == s
    ensures forall u: MXCUri :: u.WellFormed() && u.ToString() == s ==> MXCUri.FromStr(Some(s)) == Ok(u)
  {
    forall u: MXCUri | u.WellFormed() && u.ToString() == s
      ensures MXCUri.FromStr(Some(s)) == Ok(u)
    {
      MxcRoundTrip(u);
    }
  }

  /** Formatting is injective on well-formed references. */
  lemma {:induction false} MxcToStringInjective(a: MXCUri, b: MXCUri)
    requires a.WellFormed() && b.WellFormed()
    ensures a.ToString() == b.ToString() <==> a == b
  {
    MxcRoundTrip(a);
    MxcRoundTrip(b);
  }

  /** What `from_str` does with any `mxc://` text that has a path: the server name is
      what precedes the first `/`, and the checks on the two parts decide the outcome. */
  lemma {:induction false} MxcDecompose(serverName: string, mediaId: string)
    requires '/' !in serverName
    ensures MXCUri.FromStr(Some(Scheme + serverName + "/" + mediaId)) ==
            if |serverName| == 0 then Err(EmptyServerName)
            else if |mediaId| == 0 then Err(EmptyMediaId)
            else if '/' in mediaId then Err(ExtraPathSegment)
            else Ok(MXCUri(serverName, mediaId))
  {
    var s := Scheme + serverName + "/" + mediaId;
    var rest := serverName + "/" + mediaId;
    assert s[..|Scheme|] == Scheme && s[|Scheme|..] == rest;
    IndexOfJoin(serverName, '/', mediaId);
    assert rest[..|serverName|] == serverName;
    assert rest[|serverName| + 1..] == mediaId;
  }

  /** An `mxc://` text with no `/` after the scheme has no path. */
  lemma {:induction false} MxcNoPath(serverName: string)
    requires '/' !in serverName
    ensures MXCUri.FromStr(Some(Scheme + serverName)) == Err(MissingPath)
  {
    assert (Scheme + serverName)[|Scheme|..] == serverName;
  }

  // ---------------------------------------------------------------------------
  // The references the test cases format and parse. How the text of each is
  // joined from its parts is a fact about literals, kept in lemmas of its own.

  lemma MxcFormatPrefix1()
    ensures Scheme + "example.com" + "/" == "mxc://example.com/"
  {
  }

  lemma MxcFormatText1()
    ensures "mxc://example.com/" + "84n8493hnfsjkbcu" == "mxc://example.com/84n8493hnfsjkbcu"
  {
  }

  lemma MxcFormatExample1()
    ensures MXCUri("example.com", "84n8493hnfsjkbcu").ToString() == "mxc://example.com/84n8493hnfsjkbcu"
  {
    MxcFormatPrefix1();
    MxcFormatText1();
  }

  lemma MxcFormatPrefix2()
    ensures Scheme + "192.168.1.17:8008" + "/" == "mxc://192.168.1.17:8008/"
  {
  }

  lemma MxcFormatText2()
    ensures "mxc://192.168.1.17:8008/" + "bajkad89h31ausdhoqqasd" == "mxc://192.168.1.17:8008/bajkad89h31ausdhoqqasd"
  {
  }

  lemma MxcFormatExample2()
    ensures MXCUri("192.168.1.17:8008", "bajkad89h31ausdhoqqasd").ToString() == "mxc://192.168.1.17:8008/bajkad89h31ausdhoqqasd"
  {
    MxcFormatPrefix2();
    MxcFormatText2();
  }

  lemma MxcFormatPrefix3()
    ensures Scheme + "123.123.123.123" + "/" == "mxc://123.123.123.123/"
  {
  }

  lemma MxcFormatText3()
    ensures "mxc://123.123.123.123/" + "000000000000" == "mxc://123.123.123.123/000000000000"
  {
  }

  lemma MxcFormatExample3()
    ensures MXCUri("123.123.123.123", "000000000000").ToString() == "mxc://123.123.123.123/000000000000"
  {
    MxcFormatPrefix3();
    MxcFormatText3();
  }

  lemma MxcParseText1()
    ensures "mxc://example.com/" + "g12789g890ajksjk" == "mxc://example.com/g12789g890ajksjk"
  {
  }

  lemma MxcParseParts1()
    ensures '/' !in "example.com" && '/' !in "g12789g890ajksjk"
  {
  }

  lemma MxcParseExample1()
    ensures MXCUri.FromStr(Some("mxc://example.com/g12789g890ajksjk")) == Ok(MXCUri("example.com", "g12789g890ajksjk"))
  {
    MxcFormatPrefix1();
    MxcParseText1();
    MxcParseParts1();
    MxcDecompose("example.com", "g12789g890ajksjk");
  }

  lemma MxcParsePrefix2()
    ensures Scheme + "localhost:8448" + "/" == "mxc://localhost:8448/"
  {
  }

  lemma MxcParseText2()
    ensures "mxc://localhost:8448/" + "abcdefghijklmnopqrstuvwxyz" == "mxc://localhost:8448/abcdefghijklmnopqrstuvwxyz"
  {
  }

  lemma MxcParseParts2()
    ensures '/' !in "localhost:8448" && '/' !in "abcdefghijklmnopqrstuvwxyz"
  {
  }

  lemma MxcParseExample2()
    ensures MXCUri.FromStr(Some("mxc://localhost:8448/abcdefghijklmnopqrstuvwxyz")) == Ok(MXCUri("localhost:8448", "abcdefghijklmnopqrstuvwxyz"))
  {
    MxcParsePrefix2();
    MxcParseText2();
    MxcParseParts2();
    MxcDecompose("localhost:8448", "abcdefghijklmnopqrstuvwxyz");
  }

  lemma MxcParsePrefix3()
    ensures Scheme + "[::1]" + "/" == "mxc://[::1]/"
  {
  }

  lemma MxcParseText3()
    ensures "mxc://[::1]/" + "abcdefghijklmnopqrstuvwxyz" == "mxc://[::1]/abcdefghijklmnopqrstuvwxyz"
  {
  }

  lemma MxcParseParts3()
    ensures '/' !in "[::1]" && '/' !in "abcdefghijklmnopqrstuvwxyz"
  {
  }

  lemma MxcParseExample3()
    ensures MXCUri.FromStr(Some("mxc://[::1]/abcdefghijklmnopqrstuvwxyz")) == Ok(MXCUri("[::1]", "abcdefghijklmnopqrstuvwxyz"))
  {
    MxcParsePrefix3();
    MxcParseText3();
    MxcParseParts3();
    MxcDecompose("[::1]", "abcdefghijklmnopqrstuvwxyz");
  }

  lemma MxcParsePrefix4()
    ensures Scheme + "123.123.123.123:32112" + "/" == "mxc://123.123.123.123:32112/"
  {
  }

  lemma MxcParseText4()
    ensures "mxc://123.123.123.123:32112/" + "12893y81283781023" == "mxc://123.123.123.123:32112/12893y81283781023"
  {
  }

  lemma MxcParseParts4()
    ensures '/' !in "123.123.123.123:32112" && '/' !in "12893y81283781023"
  {
  }

  lemma MxcParseExample4()
    ensures MXCUri.FromStr(Some("mxc://123.123.123.123:32112/12893y81283781023")) == Ok(MXCUri("123.123.123.123:32112", "12893y81283781023"))
  {
    MxcParsePrefix4();
    MxcParseText4();
    MxcParseParts4();
    MxcDecompose("123.123.123.123:32112", "12893y81283781023");
  }

  lemma MxcParsePrefix5()
    ensures Scheme + "domain" + "/" == "mxc://domain/"
  {
  }

  lemma MxcParseText5()
    ensures "mxc://domain/" + "abcdefg" == "mxc://domain/abcdefg"
  {
  }

  lemma MxcParseParts5()
    ensures '/' !in "domain" && '/' !in "abcdefg"
  {
  }

  lemma MxcParseExample5()
    ensures MXCUri.FromStr(Some("mxc://domain/abcdefg")) == Ok(MXCUri("domain", "abcdefg"))
  {
    MxcParsePrefix5();
    MxcParseText5();
    MxcParseParts5();
    MxcDecompose("domain", "abcdefg");
  }

  lemma MxcRejectionExample1()
    ensures MXCUri.FromStr(Some("mxc:///example.com/abcdef")) == Err(EmptyServerName)
  {
    assert "mxc:///example.com/abcdef" == Scheme + "" + "/" + "example.com/abcdef";
    MxcDecompose("", "example.com/abcdef");
  }

  lemma MxcRejectionExample2()
    ensures MXCUri.FromStr(Some("mxc://example.com//abcdef")) == Err(ExtraPathSegment)
  {
    assert "mxc://example.com//abcdef" == Scheme + "example.com" + "/" + "/abcdef";
    assert "/abcdef"[0] == '/';
    MxcDecompose("example.com", "/abcdef");
  }

  lemma MxcRejectionExample3()
    ensures MXCUri.FromStr(Some("mxc://example.com/abcdef/")) == Err(ExtraPathSegment)
  {
    assert "mxc://example.com/abcdef/" == Scheme + "example.com" + "/" + "abcdef/";
    assert "abcdef/"[6] == '/';
    MxcDecompose("example.com", "abcdef/");
  }

  lemma MxcRejectionExample4()
    ensures MXCUri.FromStr(Some("mxc://example.com/abc/abcdef")) == Err(ExtraPathSegment)
  {
    assert "mxc://example.com/abc/abcdef" == Scheme + "example.com" + "/" + "abc/abcdef";
    assert "abc/abcdef"[3] == '/';
    MxcDecompose("example.com", "abc/abcdef");
  }

  lemma MxcRejectionExample5()
    ensures MXCUri.FromStr(Some("mxc:///abcdef")) == Err(EmptyServerName)
  {
    assert "mxc:///abcdef" == Scheme + "" + "/" + "abcdef";
    MxcDecompose("", "abcdef");
  }

  lemma MxcRejectionExample6()
    ensures MXCUri.FromStr(Some("mxc://example.com/")) == Err(EmptyMediaId)
  {
    assert "mxc://example.com/" == Scheme + "example.com" + "/" + "";
    MxcDecompose("example.com", "");
  }

  lemma MxcRejectionExample7()
    ensures MXCUri.FromStr(Some("mxc:///")) == Err(EmptyServerName)
  {
    assert "mxc:///" == Scheme + "" + "/" + "";
    MxcDecompose("", "");
  }

  lemma MxcRejectionExamplesNoPath()
    ensures MXCUri.FromStr(Some("mxc://example.com")) == Err(MissingPath)
  {
    assert "mxc://example.com" == Scheme + "example.com";
    MxcNoPath("example.com");
  }

  lemma MxcRejectionExamplesScheme()
    ensures MXCUri.FromStr(Some("http://example.com/abcdef")) == Err(WrongScheme)
    ensures MXCUri.FromStr(Some("")) == Err(WrongScheme)
    ensures MXCUri.FromStr(None) == Err(NoInput)
  {
    assert "http://example.com/abcdef"[..6][0] == 'h';
  }
}
