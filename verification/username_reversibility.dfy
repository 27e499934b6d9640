/** With `case_sensitive` set, the username mapping loses nothing: each of its three
    passes has a left inverse, so two different names never map to the same
    localpart. The inverses below are the proof of that; they are not an operation
    of the system (it never decodes a localpart). Without `case_sensitive` the
    mapping is deliberately many-to-one (`MapUsernameIgnoresCase`). */
module UsernameReversibility {
  import opened Utf8
  import opened UsernameMapping

  // ---------------------------------------------------------------------------
  // Undoing pass 1

  function UpperByte(b: byte): byte {
    if 'a' as int <= b <= 'z' as int then b - 0x20 else b
  }

  /** `_x` stands for the upper-case form of `x`, and `__` for `_`. */
  function UnfoldCase(z: seq<byte>): seq<byte>
    decreases |z|
  {
    if |z| == 0 then []
    else if z[0] == Underscore && |z| >= 2 then
      [if z[1] == Underscore then Underscore else UpperByte(z[1])] + UnfoldCase(z[2..])
    else [z[0]] + UnfoldCase(z[1..])
  }

  lemma {:induction false} UnfoldFoldCase(y: seq<byte>)
    ensures UnfoldCase(FoldCase(y, true)) == y
  {
    if |y| > 0 {
      var p, rest := CaseBytes(y[0], true), FoldCase(y[1..], true);
      assert FoldCase(y, true) == p + rest;
      if |p| == 2 {
        assert (p + rest)[2..] == rest;
      } else {
        assert (p + rest)[1..] == rest;
      }
      UnfoldFoldCase(y[1..]);
      assert y == [y[0]] + y[1..];
    }
  }

  // ---------------------------------------------------------------------------
  // Undoing pass 2

  function HexValue(d: byte): int {
    if d <= '9' as int then d - '0' as int else d - 'a' as int + 10
  }

  lemma HexValueDigit(n: int)
    requires 0 <= n < 16
    ensures HexValue(HexDigit(n)) == n
  {
  }

  /** `=xx` stands for the byte with hexadecimal value `xx`. */
  function UnescapeBytes(x: seq<byte>): seq<byte>
    decreases |x|
  {
    if |x| == 0 then []
    else if x[0] == EqualsSign && |x| >= 3 then
      var v := HexValue(x[1]) * 16 + HexValue(x[2]);
      [if 0 <= v < 0x100 then v else 0] + UnescapeBytes(x[3..])
    else [x[0]] + UnescapeBytes(x[1..])
  }

  lemma {:induction false} UnescapeEscapeBytes(y: seq<byte>)
    ensures UnescapeBytes(EscapeBytes(y)) == y
  {
    if |y| > 0 {
      var rest := EscapeBytes(y[1..]);
      if IsPlainByte(y[0]) {
        assert ([y[0]] + rest)[1..] == rest;
      } else {
        var p := EscapeByte(y[0]);
        assert (p + rest)[3..] == rest;
        HexValueDigit(y[0] / 16);
        HexValueDigit(y[0] % 16);
      }
      UnescapeEscapeBytes(y[1..]);
      assert y == [y[0]] + y[1..];
    }
  }

  // ---------------------------------------------------------------------------
  // Undoing pass 3

  function UnescapeLeadingUnderscore(x: seq<byte>): seq<byte> {
    if |x| >= 3 && x[..3] == EscapedUnderscore then [Underscore] + x[3..] else x
  }

  /** The escaping pass never writes `=5f` itself, because `_` is kept, so a leading
      `=5f` can only come from pass 3. */
  lemma {:induction false} EscapedNeverStartsWithEscapedUnderscore(y: seq<byte>)
    ensures var x := EscapeBytes(y); !(|x| >= 3 && x[..3] == EscapedUnderscore)
  {
    var x := EscapeBytes(y);
    if |y| > 0 && |x| >= 3 && x[0] == EqualsSign {
      assert !IsPlainByte(y[0]);
      assert x[..3] == EscapeByte(y[0]) by {
        assert x == EscapeByte(y[0]) + EscapeBytes(y[1..]);
      }
      HexValueDigit(y[0] / 16);
      HexValueDigit(y[0] % 16);
    }
  }

  lemma UnescapeLeadingEscapeBytes(y: seq<byte>)
    ensures var x := EscapeBytes(y); UnescapeLeadingUnderscore(EscapeLeadingUnderscore(x)) == x
  {
    var x := EscapeBytes(y);
    EscapedNeverStartsWithEscapedUnderscore(y);
    if |x| > 0 && x[0] == Underscore {
      assert (EscapedUnderscore + x[1..])[..3] == EscapedUnderscore;
      assert (EscapedUnderscore + x[1..])[3..] == x[1..];
      assert x == [x[0]] + x[1..];
    }
  }

  // ---------------------------------------------------------------------------
  // Injectivity

  lemma AsciiDecodeInjective(p: seq<byte>, q: seq<byte>)
    requires AsciiDecode(p) == AsciiDecode(q)
    ensures p == q
  {
    assert |p| == |q|;
    forall i | 0 <= i < |p| ensures p[i] == q[i] {
      assert AsciiDecode(p)[i] == AsciiDecode(q)[i];
    }
  }

  /** With `case_sensitive`, two byte strings map to the same localpart only if they are equal. */
  lemma {:induction false} MapUsernameBytesInjective(a: seq<byte>, b: seq<byte>)
    ensures MapUsernameBytes(a, true) == MapUsernameBytes(b, true) <==> a == b
  {
    if MapUsernameBytes(a, true) == MapUsernameBytes(b, true) {
      var xa, xb := EscapeBytes(FoldCase(a, true)), EscapeBytes(FoldCase(b, true));
      AsciiDecodeInjective(EscapeLeadingUnderscore(xa), EscapeLeadingUnderscore(xb));
      UnescapeLeadingEscapeBytes(FoldCase(a, true));
      UnescapeLeadingEscapeBytes(FoldCase(b, true));
      UnescapeEscapeBytes(FoldCase(a, true));
      UnescapeEscapeBytes(FoldCase(b, true));
      UnfoldFoldCase(a);
      UnfoldFoldCase(b);
    }
  }

  /** With `case_sensitive`, two names map to the same localpart only if they are equal. */
  lemma {:induction false} MapUsernameInjective(s: string, t: string)
    ensures MapUsername(s, true) == MapUsername(t, true) <==> s == t
  {
    MapUsernameBytesInjective(Encode(s), Encode(t));
    EncodeInjective(s, t);
  }
}
