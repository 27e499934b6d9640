/** Sigil-prefixed, domain-qualified identifiers: user IDs `@localpart:domain`
    and room aliases `#localpart:domain`.

    Both kinds share one grammar (the Python base class `DomainSpecificString`):
    the text must start with the kind's sigil, and the rest is cut at its FIRST
    `:` into the localpart and the domain. The localpart therefore never holds a
    `:`, while the domain may (a `host:port` server name keeps its port). Parsing
    checks only this structure; an empty localpart or domain still parses. The
    boolean validity check additionally asks that the domain be an acceptable
    server name. */
module Identifiers {
  import opened Results
  import opened Strings

  /** Why a text is not an identifier of the expected kind. */
  datatype IdError =
    | EmptyId            // the text is empty
    | MissingSigil       // the text does not start with the kind's sigil
    | MissingSeparator   // no `:` follows the sigil
    | InvalidServerName  // parsed, but the domain is not an acceptable server name

  const UserSigil: char := '@'
  const RoomAliasSigil: char := '#'
  const Separator: char := ':'

  /** The canonical text form `sigil localpart : domain`. */
  function Format(sigil: char, localpart: string, domain: string): string {
    [sigil] + localpart + [Separator] + domain
  }

  /** The shared `from_string`: checks the sigil, then cuts at the first separator.
      On success the parts format back to exactly the input, so parsing loses nothing. */
  function Split(sigil: char, s: string): (r: Result<(string, string), IdError>)
    ensures r.Ok? <==> |s| > 0 && s[0] == sigil && Separator in s[1..]
    ensures |s| == 0 ==> r == Err(EmptyId)
    ensures |s| > 0 && s[0] != sigil ==> r == Err(MissingSigil)
    ensures |s| > 0 && s[0] == sigil && Separator !in s[1..] ==> r == Err(MissingSeparator)
    ensures r.Ok? ==> Separator !in r.value.0 && Format(sigil, r.value.0, r.value.1) == s
  {
    if |s| == 0 then Err(EmptyId)
    else if s[0] != sigil then Err(MissingSigil)
    else
      var rest := s[1..];
      match IndexOf(rest, Separator)
      case None => Err(MissingSeparator)
      case Some(i) =>
        assert rest == rest[..i] + [Separator] + rest[i + 1..];
        Ok((rest[..i], rest[i + 1..]))
  }

  /** The server-name rule applied by `is_valid`: the domain is non-empty and holds no `,`. */
  predicate ServerNameAcceptable(domain: string) {
    |domain| > 0 && ',' !in domain
  }

  /** Formatting then parsing gives the parts back exactly when the localpart holds no separator. */
  lemma {:induction false} SplitFormat(sigil: char, localpart: string, domain: string)
    ensures Split(sigil, Format(sigil, localpart, domain)) == Ok((localpart, domain))
            <==> Separator !in localpart
  {
    var s := Format(sigil, localpart, domain);
    assert s[1..] == localpart + [Separator] + domain;
    if Separator !in localpart {
      IndexOfJoin(localpart, Separator, domain);
      assert s[1..][..|localpart|] == localpart;
      assert s[1..][|localpart| + 1..] == domain;
    }
  }

  /** Two identifiers of one kind whose localparts hold no separator have the same
      text exactly when they have the same parts. */
  lemma {:induction false} FormatInjective(sigil: char, l1: string, d1: string, l2: string, d2: string)
    requires Separator !in l1 && Separator !in l2
    ensures Format(sigil, l1, d1) == Format(sigil, l2, d2) <==> l1 == l2 && d1 == d2
  {
    SplitFormat(sigil, l1, d1);
    SplitFormat(sigil, l2, d2);
  }

  /** A user identifier `@localpart:domain`; `==` compares the two parts. */
  datatype UserID = UserID(localpart: string, domain: string) {

    function ToString(): string {
      Format(UserSigil, localpart, domain)
    }

    static function FromString(s: string): (r: Result<UserID, IdError>)
      ensures r.Ok? <==> |s| > 0 && s[0] == UserSigil && Separator in s[1..]
      ensures |s| == 0 ==> r == Err(EmptyId)
      ensures |s| > 0 && s[0] != UserSigil ==> r == Err(MissingSigil)
      ensures |s| > 0 && s[0] == UserSigil && Separator !in s[1..] ==> r == Err(MissingSeparator)
      ensures r.Ok? ==> r.value.ToString() == s && Separator !in r.value.localpart
    {
      match Split(UserSigil, s)
      case Ok((l, d)) => Ok(UserID(l, d))
      case Err(e) => Err(e)
    }

    /** `is_valid`: parses, and the domain is an acceptable server name; never fails. */
    static predicate IsValid(s: string) {
      match FromString(s)
      case Ok(u) => ServerNameAcceptable(u.domain)
      case Err(_) => false
    }
  }

  /** A room alias `#localpart:domain`; `==` compares the two parts. */
  datatype RoomAlias = RoomAlias(localpart: string, domain: string) {

    function ToString(): string {
      Format(RoomAliasSigil, localpart, domain)
    }

    static function FromString(s: string): (r: Result<RoomAlias, IdError>)
      ensures r.Ok? <==> |s| > 0 && s[0] == RoomAliasSigil && Separator in s[1..]
      ensures |s| == 0 ==> r == Err(EmptyId)
      ensures |s| > 0 && s[0] != RoomAliasSigil ==> r == Err(MissingSigil)
      ensures |s| > 0 && s[0] == RoomAliasSigil && Separator !in s[1..] ==> r == Err(MissingSeparator)
      ensures r.Ok? ==> r.value.ToString() == s && Separator !in r.value.localpart
    {
      match Split(RoomAliasSigil, s)
      case Ok((l, d)) => Ok(RoomAlias(l, d))
      case Err(e) => Err(e)
    }

    static predicate IsValid(s: string) {
      match FromString(s)
      case Ok(a) => ServerNameAcceptable(a.domain)
      case Err(_) => false
    }
  }

  // ---------------------------------------------------------------------------
  // User identifiers

  /** `from_string(to_string(u)) == u` exactly when the localpart holds no separator. */
  lemma {:induction false} UserIdRoundTrip(u: UserID)
    ensures UserID.FromString(u.ToString()) == Ok(u) <==> Separator !in u.localpart
  {
    SplitFormat(UserSigil, u.localpart, u.domain);
  }

  /** `is_valid` of a formatted user ID holds exactly for a separator-free localpart
      and an acceptable server name. */
  lemma {:induction false} UserIdValidity(u: UserID)
    requires Separator !in u.localpart
    ensures UserID.IsValid(u.ToString()) <==> ServerNameAcceptable(u.domain)
  {
    UserIdRoundTrip(u);
  }

  /** `is_valid` holds exactly for the texts of user IDs with a separator-free
      localpart and an acceptable server name. */
  lemma {:induction false} UserIdValidTexts(s: string)
    ensures UserID.IsValid(s) <==>
            exists u: UserID :: Separator !in u.localpart && ServerNameAcceptable(u.domain) && u.ToString() == s
  {
    if UserID.IsValid(s) {
      var u := UserID.FromString(s).value;
      assert Separator !in u.localpart && ServerNameAcceptable(u.domain) && u.ToString() == s;
    }
    if exists u: UserID :: Separator !in u.localpart && ServerNameAcceptable(u.domain) && u.ToString() == s {
      var u: UserID :| Separator !in u.localpart && ServerNameAcceptable(u.domain) && u.ToString() == s;
      UserIdRoundTrip(u);
    }
  }

  /** Equality of user IDs is the built-in structural equality over (localpart, domain);
      for parsed values it coincides with equality of the texts. */
  lemma {:induction false} UserIdEquality(a: UserID, b: UserID)
    requires Separator !in a.localpart && Separator !in b.localpart
    ensures a == b <==> a.ToString() == b.ToString()
  {
    FormatInjective(UserSigil, a.localpart, a.domain, b.localpart, b.domain);
  }

  lemma UserIdParseExample()
    ensures UserID.FromString("@1234abcd:test") == Ok(UserID("1234abcd", "test"))
  {
    var u := UserID("1234abcd", "test");
    assert u.ToString() == "@1234abcd:test";
    assert Separator !in u.localpart;
    UserIdRoundTrip(u);
  }

  lemma UserIdRejections()
    ensures UserID.FromString("") == Err(EmptyId)
    ensures UserID.FromString("alice:example.com") == Err(MissingSigil)
    ensures UserID.FromString("@alice.example.com") == Err(MissingSeparator)
    ensures !UserID.IsValid("@alice:")
  {
    var missing := "@alice.example.com";
    assert Separator !in missing[1..];
    var u := UserID("alice", "");
    assert u.ToString() == "@alice:";
    assert Separator !in u.localpart;
    UserIdRoundTrip(u);
  }

  lemma UserIdBuildExample()
    ensures UserID("5678efgh", "my.domain").ToString() == "@5678efgh:my.domain"
  {
  }

  lemma UserIdCompareExample()
    ensures UserID.FromString("@userA:my.domain") == UserID.FromString("@userA:my.domain")
    ensures UserID.FromString("@userA:my.domain") != UserID.FromString("@userB:my.domain")
  {
    var a, b := UserID("userA", "my.domain"), UserID("userB", "my.domain");
    assert a.ToString() == "@userA:my.domain" && b.ToString() == "@userB:my.domain";
    assert Separator !in a.localpart && Separator !in b.localpart;
    UserIdRoundTrip(a);
    UserIdRoundTrip(b);
  }

  // ---------------------------------------------------------------------------
  // Room aliases

  lemma {:induction false} RoomAliasRoundTrip(a: RoomAlias)
    ensures RoomAlias.FromString(a.ToString()) == Ok(a) <==> Separator !in a.localpart
  {
    SplitFormat(RoomAliasSigil, a.localpart, a.domain);
  }

  lemma {:induction false} RoomAliasValidity(a: RoomAlias)
    requires Separator !in a.localpart
    ensures RoomAlias.IsValid(a.ToString()) <==> ServerNameAcceptable(a.domain)
  {
    RoomAliasRoundTrip(a);
  }

  /** `is_valid` holds exactly for the texts of room aliases with a separator-free
      localpart and an acceptable server name. */
  lemma {:induction false} RoomAliasValidTexts(s: string)
    ensures RoomAlias.IsValid(s) <==>
            exists a: RoomAlias :: Separator !in a.localpart && ServerNameAcceptable(a.domain) && a.ToString() == s
  {
    if RoomAlias.IsValid(s) {
      var a := RoomAlias.FromString(s).value;
      assert Separator !in a.localpart && ServerNameAcceptable(a.domain) && a.ToString() == s;
    }
    if exists a: RoomAlias :: Separator !in a.localpart && ServerNameAcceptable(a.domain) && a.ToString() == s {
      var a: RoomAlias :| Separator !in a.localpart && ServerNameAcceptable(a.domain) && a.ToString() == s;
      RoomAliasRoundTrip(a);
    }
  }

  lemma RoomAliasParseExample()
    ensures RoomAlias.FromString("#channel:test") == Ok(RoomAlias("channel", "test"))
  {
    var a := RoomAlias("channel", "test");
    assert a.ToString() == "#channel:test";
    assert Separator !in a.localpart;
    RoomAliasRoundTrip(a);
  }

  lemma RoomAliasBuildExample()
    ensures RoomAlias("channel", "my.domain").ToString() == "#channel:my.domain"
  {
  }

  lemma RoomAliasCommaExample()
    ensures !RoomAlias.IsValid("#test:domain,test")
  {
    var a := RoomAlias("test", "domain,test");
    assert a.ToString() == "#test:domain,test";
    assert Separator !in a.localpart;
    assert a.domain[6] == ',';
    RoomAliasValidity(a);
  }
}
