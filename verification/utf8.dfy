/** UTF-8, as `str.encode("utf-8")` produces it, for Unicode scalar values (Dafny's
    `char`). Only the encoder is used by the username mapping; the decoder of a
    single code point is its partner, stating that no information is lost. */
module Utf8 {

  type byte = b: int | 0 <= b < 0x100

  /** A continuation byte `10xxxxxx`. */
  predicate IsContinuation(b: byte) {
    0x80 <= b < 0xC0
  }

  /** The UTF-8 encoding of one code point: one byte below U+0080, two below U+0800,
      three below U+10000, four otherwise. The first byte announces the length and
      every other byte is a continuation byte, so a multi-byte encoding holds no
      byte below 0x80. */
  function EncodeChar(c: char): (r: seq<byte>)
    ensures 1 <= |r| <= 4
    ensures |r| == 1 <==> c as int < 0x80
    ensures |r| == 1 ==> r[0] == c as int
    ensures |r| == 2 <==> 0x80 <= c as int < 0x800
    ensures |r| == 2 ==> 0xC2 <= r[0] < 0xE0
    ensures |r| == 3 <==> 0x800 <= c as int < 0x10000
    ensures |r| == 3 ==> 0xE0 <= r[0] < 0xF0
    ensures |r| == 4 ==> 0xF0 <= r[0] < 0xF5
    ensures forall i :: 0 < i < |r| ==> IsContinuation(r[i])
    ensures |r| > 1 ==> forall i :: 0 <= i < |r| ==> r[i] >= 0x80
  {
    var n := c as int;
    if n < 0x80 then [n]
    else if n < 0x800 then [0xC0 + n / 0x40, 0x80 + n % 0x40]
    else if n < 0x10000 then [0xE0 + n / 0x1000, 0x80 + (n / 0x40) % 0x40, 0x80 + n % 0x40]
    else [0xF0 + n / 0x40000, 0x80 + (n / 0x1000) % 0x40, 0x80 + (n / 0x40) % 0x40, 0x80 + n % 0x40]
  }

  /** The code point a one-to-four byte sequence encodes, read off its lead byte. */
  function DecodeScalar(bs: seq<byte>): int
    requires 1 <= |bs| <= 4
  {
    var b: seq<int> := bs;
    if |b| == 1 then b[0]
    else if |b| == 2 then (b[0] - 0xC0) * 0x40 + (b[1] - 0x80)
    else if |b| == 3 then (b[0] - 0xE0) * 0x1000 + (b[1] - 0x80) * 0x40 + (b[2] - 0x80)
    else (b[0] - 0xF0) * 0x40000 + (b[1] - 0x80) * 0x1000 + (b[2] - 0x80) * 0x40 + (b[3] - 0x80)
  }

  /** Decoding undoes encoding, so distinct code points have distinct encodings. */
  lemma {:induction false} DecodeEncodeChar(c: char)
    ensures DecodeScalar(EncodeChar(c)) == c as int
  {
    var n := c as int;
    if n >= 0x10000 {
      assert n == (n / 0x40000) * 0x40000 + ((n / 0x1000) % 0x40) * 0x1000 + ((n / 0x40) % 0x40) * 0x40 + n % 0x40;
    } else if n >= 0x800 {
      assert n == (n / 0x1000) * 0x1000 + ((n / 0x40) % 0x40) * 0x40 + n % 0x40;
    }
  }

  /** The encoding of a text: its code points' encodings, in order. */
  function Encode(s: string): (r: seq<byte>)
    ensures |s| <= |r| <= 4 * |s|
  {
    if |s| == 0 then [] else EncodeChar(s[0]) + Encode(s[1..])
  }

  lemma {:induction false} EncodeAppend(a: string, b: string)
    ensures Encode(a + b) == Encode(a) + Encode(b)
  {
    if |a| > 0 {
      assert (a + b)[1..] == a[1..] + b;
      EncodeAppend(a[1..], b);
    } else {
      assert a + b == b;
    }
  }

  /** The length of an encoding, announced by its first byte. */
  function LeadLength(b: byte): nat {
    if b < 0x80 then 1 else if b < 0xE0 then 2 else if b < 0xF0 then 3 else 4
  }

  /** Decodes a sequence of encodings into code point values, one lead byte at a time. */
  function DecodeScalars(bs: seq<byte>): seq<int>
    decreases |bs|
  {
    if |bs| == 0 then []
    else
      var n := LeadLength(bs[0]);
      if n <= |bs| then [DecodeScalar(bs[..n])] + DecodeScalars(bs[n..]) else []
  }

  function Scalars(s: string): seq<int> {
    seq(|s|, i requires 0 <= i < |s| => s[i] as int)
  }

  /** Decoding a text's encoding gives back its code points. */
  lemma {:induction false} DecodeEncode(s: string)
    ensures DecodeScalars(Encode(s)) == Scalars(s)
  {
    if |s| > 0 {
      var e, rest := EncodeChar(s[0]), Encode(s[1..]);
      assert LeadLength(e[0]) == |e|;
      assert (e + rest)[..|e|] == e && (e + rest)[|e|..] == rest;
      DecodeEncodeChar(s[0]);
      DecodeEncode(s[1..]);
      assert Scalars(s) == [s[0] as int] + Scalars(s[1..]);
    }
  }

  /** Distinct texts have distinct encodings. */
  lemma {:induction false} EncodeInjective(s: string, t: string)
    ensures Encode(s) == Encode(t) <==> s == t
  {
    if Encode(s) == Encode(t) {
      DecodeEncode(s);
      DecodeEncode(t);
      assert |s| == |Scalars(s)| == |Scalars(t)| == |t|;
      forall i | 0 <= i < |s| ensures s[i] == t[i] {
        assert Scalars(s)[i] == Scalars(t)[i];
      }
    }
  }

  /** `"ê".encode()` is `b"\xc3\xaa"`. */
  lemma EncodeCharExample()
    ensures EncodeChar('\U{00EA}') == [0xC3, 0xAA]
  {
  }
}
