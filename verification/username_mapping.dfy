/** `map_username_to_mxid_localpart(username, case_sensitive)`: folds an arbitrary
    external user name into the localpart alphabet `[a-z0-9._=/-]`, following the
    mapping from other character sets of the Matrix identifier grammar.

    The operation works on bytes. A text is first encoded as UTF-8 (a byte string is
    taken as it is), then three passes run over the bytes, and the result, which is
    pure ASCII by then, is read back as text:
      1. case: without `case_sensitive`, `A`-`Z` become `a`-`z`; with it, each of
         `A`-`Z` and `_` becomes `_` followed by its lower-case form (so `_` becomes `__`);
      2. escaping: every byte outside `[a-z0-9._/-]` (so `=` too, and every byte of a
         non-ASCII code point) becomes `=` and two lower-case hexadecimal digits;
      3. a `_` at the very start of the result becomes `=5f`.

    Beside this byte pipeline stands `ReferenceMap`, the same mapping described one
    code point at a time; `MapUsernameByCodePoint` proves the two agree. */
module UsernameMapping {
  import opened Utf8

  const Underscore: byte := 0x5F
  const EqualsSign: byte := 0x3D

  predicate IsUpperByte(b: byte) {
    'A' as int <= b <= 'Z' as int
  }

  /** `bytes.lower()` on one byte: only ASCII letters change. */
  function LowerByte(b: byte): byte {
    if IsUpperByte(b) then b + 0x20 else b
  }

  /** The bytes the escaping pass keeps: the localpart alphabet without `=`. */
  predicate IsPlainByte(b: byte) {
    ('a' as int <= b <= 'z' as int) || ('0' as int <= b <= '9' as int)
    || b == '.' as int || b == '_' as int || b == '/' as int || b == '-' as int
  }

  /** The localpart alphabet `[a-z0-9._=/-]`, as bytes. */
  predicate IsLocalpartByte(b: byte) {
    IsPlainByte(b) || b == EqualsSign
  }

  /** The localpart alphabet `[a-z0-9._=/-]`, as characters. */
  predicate IsLocalpartChar(c: char) {
    ('a' <= c <= 'z') || ('0' <= c <= '9') || c == '.' || c == '_' || c == '=' || c == '/' || c == '-'
  }

  // ---------------------------------------------------------------------------
  // Pass 1: upper case

  function CaseBytes(b: byte, caseSensitive: bool): seq<byte> {
    if caseSensitive && (IsUpperByte(b) || b == Underscore) then [Underscore, LowerByte(b)]
    else [LowerByte(b)]
  }

  /** After the case pass no upper-case ASCII letter is left; without
      `case_sensitive` the length is unchanged. */
  function FoldCase(bs: seq<byte>, caseSensitive: bool): (r: seq<byte>)
    ensures forall i :: 0 <= i < |r| ==> !IsUpperByte(r[i])
    ensures !caseSensitive ==> |r| == |bs|
    ensures |bs| <= |r| <= 2 * |bs|
  {
    if |bs| == 0 then [] else CaseBytes(bs[0], caseSensitive) + FoldCase(bs[1..], caseSensitive)
  }

  // ---------------------------------------------------------------------------
  // Pass 2: `=xx` escaping

  /** Lower-case hexadecimal digit, as `%02x` writes it. */
  function HexDigit(n: int): (r: byte)
    requires 0 <= n < 16
    ensures ('0' as int <= r <= '9' as int) || ('a' as int <= r <= 'f' as int)
  {
    if n < 10 then '0' as int + n else 'a' as int + (n - 10)
  }

  function EscapeByte(b: byte): seq<byte> {
    [EqualsSign, HexDigit(b / 16), HexDigit(b % 16)]
  }

  /** After the escaping pass only bytes of the localpart alphabet are left. */
  function EscapeBytes(bs: seq<byte>): (r: seq<byte>)
    ensures forall i :: 0 <= i < |r| ==> IsLocalpartByte(r[i])
    ensures |bs| <= |r| <= 3 * |bs|
  {
    if |bs| == 0 then []
    else (if IsPlainByte(bs[0]) then [bs[0]] else EscapeByte(bs[0])) + EscapeBytes(bs[1..])
  }

  // ---------------------------------------------------------------------------
  // Pass 3: a leading underscore

  const EscapedUnderscore: seq<byte> := [EqualsSign, '5' as int, 'f' as int]

  function EscapeLeadingUnderscore(bs: seq<byte>): seq<byte> {
    if |bs| > 0 && bs[0] == Underscore then EscapedUnderscore + bs[1..] else bs
  }

  /** Reading bytes back as text, one character per byte. */
  function AsciiDecode(bs: seq<byte>): (r: string)
    ensures |r| == |bs|
    ensures forall i :: 0 <= i < |r| ==> r[i] as int == bs[i]
  {
    seq(|bs|, i requires 0 <= i < |bs| => bs[i] as char)
  }

  /** `map_username_to_mxid_localpart` on a byte string. The result lies in the
      localpart alphabet, never starts with `_`, and is at least as long as the input. */
  function MapUsernameBytes(bs: seq<byte>, caseSensitive: bool): (r: string)
    ensures forall i :: 0 <= i < |r| ==> IsLocalpartChar(r[i])
    ensures |r| > 0 ==> r[0] != '_'
    ensures |r| >= |bs|
  {
    var escaped := EscapeBytes(FoldCase(bs, caseSensitive));
    var r := AsciiDecode(EscapeLeadingUnderscore(escaped));
    assert forall i :: 0 <= i < |r| ==> IsLocalpartByte(r[i] as int);
    r
  }

  /** `map_username_to_mxid_localpart` on a text: its UTF-8 encoding is mapped, so a
      text and its UTF-8 bytes give the same result. */
  function MapUsername(name: string, caseSensitive: bool): (r: string)
    ensures forall i :: 0 <= i < |r| ==> IsLocalpartChar(r[i])
    ensures |r| > 0 ==> r[0] != '_'
    ensures |r| >= |name|
  {
    MapUsernameBytes(Encode(name), caseSensitive)
  }

  // ---------------------------------------------------------------------------
  // The same mapping, one code point at a time

  function LowerChar(c: char): char {
    if 'A' <= c <= 'Z' then (c as int + 0x20) as char else c
  }

  const HexChars: string := "0123456789abcdef"

  /** `=xx` for each byte. */
  function HexEscape(bs: seq<byte>): string {
    if |bs| == 0 then "" else ['=', HexChars[bs[0] / 16], HexChars[bs[0] % 16]] + HexEscape(bs[1..])
  }

  /** What one code point contributes before the leading-underscore rule. */
  function CodePointPiece(c: char, caseSensitive: bool): string {
    if 'A' <= c <= 'Z' then (if caseSensitive then ['_', LowerChar(c)] else [LowerChar(c)])
    else if c == '_' then (if caseSensitive then "__" else "_")
    else if ('a' <= c <= 'z') || ('0' <= c <= '9') || c == '.' || c == '/' || c == '-' then [c]
    else HexEscape(EncodeChar(c))
  }

  function CodePointFold(s: string, caseSensitive: bool): string {
    if |s| == 0 then "" else CodePointPiece(s[0], caseSensitive) + CodePointFold(s[1..], caseSensitive)
  }

  /** The code-point description: every piece in order, then `=5f` for a leading `_`. */
  function ReferenceMap(s: string, caseSensitive: bool): string {
    var f := CodePointFold(s, caseSensitive);
    if |f| > 0 && f[0] == '_' then "=5f" + f[1..] else f
  }

  // ---------------------------------------------------------------------------
  // The byte pipeline agrees with the code-point description

  lemma {:induction false} FoldCaseAppend(a: seq<byte>, b: seq<byte>, caseSensitive: bool)
    ensures FoldCase(a + b, caseSensitive) == FoldCase(a, caseSensitive) + FoldCase(b, caseSensitive)
  {
    if |a| == 0 {
      assert a + b == b;
    } else {
      assert (a + b)[1..] == a[1..] + b;
      FoldCaseAppend(a[1..], b, caseSensitive);
    }
  }

  lemma {:induction false} EscapeBytesAppend(a: seq<byte>, b: seq<byte>)
    ensures EscapeBytes(a + b) == EscapeBytes(a) + EscapeBytes(b)
  {
    if |a| == 0 {
      assert a + b == b;
    } else {
      assert (a + b)[1..] == a[1..] + b;
      EscapeBytesAppend(a[1..], b);
    }
  }

  lemma {:induction false} CodePointFoldAppend(a: string, b: string, caseSensitive: bool)
    ensures CodePointFold(a + b, caseSensitive) == CodePointFold(a, caseSensitive) + CodePointFold(b, caseSensitive)
  {
    if |a| == 0 {
      assert a + b == b;
    } else {
      assert (a + b)[1..] == a[1..] + b;
      CodePointFoldAppend(a[1..], b, caseSensitive);
    }
  }

  lemma AsciiDecodeAppend(a: seq<byte>, b: seq<byte>)
    ensures AsciiDecode(a + b) == AsciiDecode(a) + AsciiDecode(b)
  {
  }

  /** Bytes of a multi-byte code point pass the case pass untouched. */
  lemma {:induction false} FoldCaseHigh(bs: seq<byte>, caseSensitive: bool)
    requires forall i :: 0 <= i < |bs| ==> bs[i] >= 0x80
    ensures FoldCase(bs, caseSensitive) == bs
  {
    if |bs| > 0 {
      FoldCaseHigh(bs[1..], caseSensitive);
    }
  }

  lemma HexDigitChar(n: int)
    requires 0 <= n < 16
    ensures HexDigit(n) as char == HexChars[n]
  {
  }

  /** Bytes that are all escaped come out as `HexEscape` of them. */
  lemma {:induction false} EscapeNonPlain(bs: seq<byte>)
    requires forall i :: 0 <= i < |bs| ==> !IsPlainByte(bs[i])
    ensures AsciiDecode(EscapeBytes(bs)) == HexEscape(bs)
  {
    if |bs| > 0 {
      EscapeNonPlain(bs[1..]);
      HexDigitChar(bs[0] / 16);
      HexDigitChar(bs[0] % 16);
      AsciiDecodeAppend(EscapeByte(bs[0]), EscapeBytes(bs[1..]));
    }
  }

  /** The first two passes, read as text. */
  function Passes12(bs: seq<byte>, caseSensitive: bool): string {
    AsciiDecode(EscapeBytes(FoldCase(bs, caseSensitive)))
  }

  lemma Passes12Append(a: seq<byte>, b: seq<byte>, caseSensitive: bool)
    ensures Passes12(a + b, caseSensitive) == Passes12(a, caseSensitive) + Passes12(b, caseSensitive)
  {
    FoldCaseAppend(a, b, caseSensitive);
    EscapeBytesAppend(FoldCase(a, caseSensitive), FoldCase(b, caseSensitive));
    AsciiDecodeAppend(EscapeBytes(FoldCase(a, caseSensitive)), EscapeBytes(FoldCase(b, caseSensitive)));
  }

  /** Bytes that are all kept come out unchanged. */
  lemma {:induction false} EscapePlain(bs: seq<byte>)
    requires forall i :: 0 <= i < |bs| ==> IsPlainByte(bs[i])
    ensures EscapeBytes(bs) == bs
  {
    if |bs| > 0 {
      EscapePlain(bs[1..]);
      assert bs == [bs[0]] + bs[1..];
    }
  }

  /** An ASCII letter, digit, `_`, `.`, `/` or `-` is handled by the case pass alone. */
  lemma {:induction false} PieceOfKeptCodePoint(c: char, caseSensitive: bool)
    requires 'A' <= c <= 'Z' || c == '_' || ('a' <= c <= 'z') || ('0' <= c <= '9') || c == '.' || c == '/' || c == '-'
    ensures Passes12(EncodeChar(c), caseSensitive) == CodePointPiece(c, caseSensitive)
  {
    var n: byte := c as int;
    assert EncodeChar(c) == [n];
    var cb := CaseBytes(n, caseSensitive);
    assert FoldCase([n], caseSensitive) == cb;
    if 'A' <= c <= 'Z' {
      var lower: byte := n + 0x20;
      assert lower as char == LowerChar(c);
      assert cb == if caseSensitive then [Underscore, lower] else [lower];
      EscapePlain(cb);
    } else if c == '_' {
      assert cb == if caseSensitive then [Underscore, Underscore] else [Underscore];
      EscapePlain(cb);
    } else {
      assert cb == [n];
      EscapePlain(cb);
    }
  }

  /** Any other code point is escaped byte by byte, and the case pass leaves those bytes alone. */
  lemma {:induction false} PieceOfEscapedCodePoint(c: char, caseSensitive: bool)
    requires !('A' <= c <= 'Z' || c == '_' || ('a' <= c <= 'z') || ('0' <= c <= '9') || c == '.' || c == '/' || c == '-')
    ensures Passes12(EncodeChar(c), caseSensitive) == CodePointPiece(c, caseSensitive)
  {
    var bs := EncodeChar(c);
    if c as int < 0x80 {
      var n: byte := c as int;
      assert bs == [n];
      assert FoldCase(bs, caseSensitive) == CaseBytes(n, caseSensitive) == bs;
    } else {
      FoldCaseHigh(bs, caseSensitive);
    }
    EscapeNonPlain(bs);
  }

  /** One code point: the bytes of its encoding, through the first two passes, are its piece. */
  lemma {:induction false} PiecePerCodePoint(c: char, caseSensitive: bool)
    ensures Passes12(EncodeChar(c), caseSensitive) == CodePointPiece(c, caseSensitive)
  {
    if 'A' <= c <= 'Z' || c == '_' || ('a' <= c <= 'z') || ('0' <= c <= '9') || c == '.' || c == '/' || c == '-' {
      PieceOfKeptCodePoint(c, caseSensitive);
    } else {
      PieceOfEscapedCodePoint(c, caseSensitive);
    }
  }

  lemma {:induction false} Passes12ByCodePoint(s: string, caseSensitive: bool)
    ensures Passes12(Encode(s), caseSensitive) == CodePointFold(s, caseSensitive)
  {
    if |s| > 0 {
      Passes12Append(EncodeChar(s[0]), Encode(s[1..]), caseSensitive);
      PiecePerCodePoint(s[0], caseSensitive);
      Passes12ByCodePoint(s[1..], caseSensitive);
    }
  }

  /** The byte pipeline on the UTF-8 encoding is the code-point description. */
  lemma {:induction false} MapUsernameByCodePoint(s: string, caseSensitive: bool)
    ensures MapUsername(s, caseSensitive) == ReferenceMap(s, caseSensitive)
  {
    Passes12ByCodePoint(s, caseSensitive);
    var escaped := EscapeBytes(FoldCase(Encode(s), caseSensitive));
    if |escaped| > 0 && escaped[0] == Underscore {
      AsciiDecodeAppend(EscapedUnderscore, escaped[1..]);
      assert AsciiDecode(EscapedUnderscore) == "=5f";
      assert AsciiDecode(escaped[1..]) == AsciiDecode(escaped)[1..];
    }
  }

  // ---------------------------------------------------------------------------
  // Names that pass through unchanged

  /** A character the mapping keeps as it is: `[a-z0-9./-]`, and `_` unless
      `case_sensitive` doubles it. */
  predicate PassesThrough(c: char, caseSensitive: bool) {
    ('a' <= c <= 'z') || ('0' <= c <= '9') || c == '.' || c == '/' || c == '-' || (c == '_' && !caseSensitive)
  }

  lemma {:induction false} HexEscapeLength(bs: seq<byte>)
    ensures |HexEscape(bs)| == 3 * |bs|
  {
    if |bs| > 0 {
      HexEscapeLength(bs[1..]);
    }
  }

  /** Every code point contributes at least one character, and it contributes
      exactly itself precisely when it passes through. */
  lemma {:induction false} PieceShape(c: char, caseSensitive: bool)
    ensures |CodePointPiece(c, caseSensitive)| >= 1
    ensures CodePointPiece(c, caseSensitive) == [c] <==> PassesThrough(c, caseSensitive)
  {
    HexEscapeLength(EncodeChar(c));
  }

  lemma {:induction false} CodePointFoldLength(s: string, caseSensitive: bool)
    ensures |CodePointFold(s, caseSensitive)| >= |s|
  {
    if |s| > 0 {
      PieceShape(s[0], caseSensitive);
      CodePointFoldLength(s[1..], caseSensitive);
    }
  }

  /** The pieces reproduce the text exactly when every character passes through. */
  lemma {:induction false} CodePointFoldIdentity(s: string, caseSensitive: bool)
    ensures CodePointFold(s, caseSensitive) == s <==> forall i :: 0 <= i < |s| ==> PassesThrough(s[i], caseSensitive)
  {
    if |s| > 0 {
      var p, rest := CodePointPiece(s[0], caseSensitive), CodePointFold(s[1..], caseSensitive);
      PieceShape(s[0], caseSensitive);
      CodePointFoldLength(s[1..], caseSensitive);
      CodePointFoldIdentity(s[1..], caseSensitive);
      if p + rest == s {
        assert |p| == 1 && p == s[..1] && rest == s[1..];
      }
      if forall i :: 0 <= i < |s| ==> PassesThrough(s[i], caseSensitive) {
        assert forall i :: 0 <= i < |s[1..]| ==> PassesThrough(s[1..][i], caseSensitive) by {
          forall i | 0 <= i < |s[1..]| ensures PassesThrough(s[1..][i], caseSensitive) {
            assert s[1..][i] == s[i + 1];
          }
        }
        assert s == [s[0]] + s[1..];
      }
    }
  }

  /** A name is left unchanged exactly when each of its characters passes through
      and it does not start with `_`. */
  lemma {:induction false} MapUsernameFixedPoints(s: string, caseSensitive: bool)
    ensures MapUsername(s, caseSensitive) == s
            <==> (forall i :: 0 <= i < |s| ==> PassesThrough(s[i], caseSensitive)) && (|s| == 0 || s[0] != '_')
  {
    MapUsernameByCodePoint(s, caseSensitive);
    CodePointFoldIdentity(s, caseSensitive);
    CodePointFoldLength(s, caseSensitive);
  }

  /** A leading `_` is written `=5f`; with `case_sensitive` it was doubled first, so
      `=5f_` begins the result. The rest is mapped piece by piece, so an inner `_`
      is kept (doubled with `case_sensitive`). */
  lemma {:induction false} MapUsernameLeadingUnderscore(s: string, caseSensitive: bool)
    requires |s| > 0 && s[0] == '_'
    ensures MapUsername(s, caseSensitive)
            == "=5f" + (if caseSensitive then "_" else "") + CodePointFold(s[1..], caseSensitive)
  {
    MapUsernameByCodePoint(s, caseSensitive);
  }

  // ---------------------------------------------------------------------------
  // Case handling

  function LowerAscii(s: string): string {
    seq(|s|, i requires 0 <= i < |s| => LowerChar(s[i]))
  }

  /** Without `case_sensitive`, names that differ only in the case of ASCII letters map alike. */
  lemma {:induction false} MapUsernameIgnoresCase(s: string)
    ensures MapUsername(s, false) == MapUsername(LowerAscii(s), false)
  {
    CaseInsensitiveFold(s);
    MapUsernameByCodePoint(s, false);
    MapUsernameByCodePoint(LowerAscii(s), false);
  }

  lemma {:induction false} CaseInsensitiveFold(s: string)
    ensures CodePointFold(s, false) == CodePointFold(LowerAscii(s), false)
  {
    if |s| > 0 {
      assert LowerAscii(s)[1..] == LowerAscii(s[1..]);
      CaseInsensitiveFold(s[1..]);
    }
  }
}
