/**
 * Base 64 encoding of RFC 4648 (section 4: the standard alphabet and the
 * `=` padding), as produced by the browser's `btoa` over a binary string of
 * bytes. The PKCE challenge is derived from this encoding; the decoder exists
 * to state that the encoding loses nothing.
 */
module Base64 {
  import opened Options

  /** A byte as a number, the way a `Uint8Array` element reads in the source. */
  type byte = x: int | 0 <= x < 256

  /** The character of a 6-bit value, Table 1 of RFC 4648. */
  function Char(k: int): (c: char)
    requires 0 <= k < 64
    ensures IsAlphabet(c)
  {
    if k < 26 then ('A' as int + k) as char
    else if k < 52 then ('a' as int + (k - 26)) as char
    else if k < 62 then ('0' as int + (k - 52)) as char
    else if k == 62 then '+'
    else '/'
  }

  /** The 64 characters of the standard alphabet; `=` is not one of them. */
  predicate IsAlphabet(c: char) {
    ('A' <= c <= 'Z') || ('a' <= c <= 'z') || ('0' <= c <= '9') || c == '+' || c == '/'
  }

  /** The 6-bit value of an alphabet character. */
  function Index(c: char): (k: int)
    requires IsAlphabet(c)
    ensures 0 <= k < 64
  {
    if 'A' <= c <= 'Z' then c as int - 'A' as int
    else if 'a' <= c <= 'z' then c as int - 'a' as int + 26
    else if '0' <= c <= '9' then c as int - '0' as int + 52
    else if c == '+' then 62
    else 63
  }

  /** Index undoes Char: the alphabet is a bijection onto 0..63. */
  lemma IndexOfChar(k: int)
    requires 0 <= k < 64
    ensures Index(Char(k)) == k
  {
  }

  /** The four characters of three bytes: their 24 bits cut into four 6-bit values, most significant first. */
  function Group(b0: byte, b1: byte, b2: byte): (q: string)
    ensures |q| == 4 && IsAlphabet(q[0]) && IsAlphabet(q[1]) && IsAlphabet(q[2]) && IsAlphabet(q[3])
  {
    [Char(b0 / 4), Char(b0 % 4 * 16 + b1 / 16), Char(b1 % 16 * 4 + b2 / 64), Char(b2 % 64)]
  }

  /**
   * The encoding without its padding: every full group of three bytes becomes
   * four characters; a final group of one or two bytes is completed with zero
   * bits and keeps two or three characters (RFC 4648 section 4).
   */
  function EncodeUnpadded(b: seq<byte>): (s: string)
    decreases |b|
  {
    if |b| == 0 then ""
    else if |b| == 1 then Group(b[0], 0, 0)[..2]
    else if |b| == 2 then Group(b[0], b[1], 0)[..3]
    else Group(b[0], b[1], b[2]) + EncodeUnpadded(b[3..])
  }

  /** The `=` characters that complete the last group of `n` encoded bytes. */
  function Padding(n: nat): (p: string) {
    if n % 3 == 1 then "==" else if n % 3 == 2 then "=" else ""
  }

  /** Standard base 64 with padding: the value `btoa` returns for these bytes. */
  function Encode(b: seq<byte>): (s: string) {
    EncodeUnpadded(b) + Padding(|b|)
  }

  /** The unpadded encoding uses only the alphabet and has the length RFC 4648 gives it. */
  lemma {:induction false} EncodeUnpaddedShape(b: seq<byte>)
    ensures forall i :: 0 <= i < |EncodeUnpadded(b)| ==> IsAlphabet(EncodeUnpadded(b)[i])
    ensures |EncodeUnpadded(b)| == 4 * (|b| / 3) + (if |b| % 3 == 0 then 0 else |b| % 3 + 1)
    decreases |b|
  {
    if |b| > 3 {
      EncodeUnpaddedShape(b[3..]);
      var head := Group(b[0], b[1], b[2]);
      assert EncodeUnpadded(b) == head + EncodeUnpadded(b[3..]);
      forall i | 0 <= i < |EncodeUnpadded(b)|
        ensures IsAlphabet(EncodeUnpadded(b)[i])
      {
        if i >= 4 {
          assert EncodeUnpadded(b)[i] == EncodeUnpadded(b[3..])[i - 4];
        }
      }
    }
  }

  /** The bytes of one group of four alphabet characters (three bytes). */
  function DecodeGroup(q: string): (r: seq<byte>)
    requires |q| == 4 && IsAlphabet(q[0]) && IsAlphabet(q[1]) && IsAlphabet(q[2]) && IsAlphabet(q[3])
  {
    var c0, c1, c2, c3 := Index(q[0]), Index(q[1]), Index(q[2]), Index(q[3]);
    [c0 * 4 + c1 / 16, c1 % 16 * 16 + c2 / 4, c2 % 4 * 64 + c3]
  }

  /** The last group of four characters, which may end in one or two `=`. */
  function DecodeLast(q: string): (r: Option<seq<byte>>)
    requires |q| == 4
  {
    if IsAlphabet(q[0]) && IsAlphabet(q[1]) && IsAlphabet(q[2]) && IsAlphabet(q[3]) then
      Some(DecodeGroup(q))
    else if IsAlphabet(q[0]) && IsAlphabet(q[1]) && IsAlphabet(q[2]) && q[3] == '=' then
      Some([Index(q[0]) * 4 + Index(q[1]) / 16, Index(q[1]) % 16 * 16 + Index(q[2]) / 4])
    else if IsAlphabet(q[0]) && IsAlphabet(q[1]) && q[2] == '=' && q[3] == '=' then
      Some([Index(q[0]) * 4 + Index(q[1]) / 16])
    else
      None
  }

  /**
   * Decoding of padded base 64: None for a length that is not a multiple of
   * four, a character outside the alphabet, or `=` anywhere but at the end.
   */
  function Decode(s: string): (r: Option<seq<byte>>)
    decreases |s|
  {
    if |s| == 0 then Some([])
    else if |s| < 4 then None
    else if |s| == 4 then DecodeLast(s)
    else if IsAlphabet(s[0]) && IsAlphabet(s[1]) && IsAlphabet(s[2]) && IsAlphabet(s[3]) then
      match Decode(s[4..])
      case Some(rest) => Some(DecodeGroup(s[..4]) + rest)
      case None => None
    else None
  }

  /** One group of three bytes survives encoding and decoding. */
  lemma GroupRoundTrip(b0: byte, b1: byte, b2: byte)
    ensures DecodeGroup(Group(b0, b1, b2)) == [b0, b1, b2]
  {
    var c0, c1, c2, c3 := b0 / 4, b0 % 4 * 16 + b1 / 16, b1 % 16 * 4 + b2 / 64, b2 % 64;
    IndexOfChar(c0);
    IndexOfChar(c1);
    IndexOfChar(c2);
    IndexOfChar(c3);
    assert c1 / 16 == b0 % 4 && c1 % 16 == b1 / 16;
    assert c2 / 4 == b1 % 16 && c2 % 4 == b2 / 64;
  }

  /** A final group of one byte: two characters and `==`. */
  lemma LastOneRoundTrip(b0: byte)
    ensures DecodeLast(Group(b0, 0, 0)[..2] + "==") == Some([b0])
  {
    IndexOfChar(b0 / 4);
    IndexOfChar(b0 % 4 * 16);
  }

  /** A final group of two bytes: three characters and `=`. */
  lemma LastTwoRoundTrip(b0: byte, b1: byte)
    ensures DecodeLast(Group(b0, b1, 0)[..3] + "=") == Some([b0, b1])
  {
    IndexOfChar(b0 / 4);
    IndexOfChar(b0 % 4 * 16 + b1 / 16);
    IndexOfChar(b1 % 16 * 4);
  }

  /** Inputs of at most one group: the encoding is one padded group or empty. */
  lemma DecodeEncodeShort(b: seq<byte>)
    requires |b| <= 3
    ensures Decode(Encode(b)) == Some(b)
  {
    if |b| == 1 {
      assert Encode(b) == Group(b[0], 0, 0)[..2] + "==";
      LastOneRoundTrip(b[0]);
      assert b == [b[0]];
    } else if |b| == 2 {
      assert Encode(b) == Group(b[0], b[1], 0)[..3] + "=";
      LastTwoRoundTrip(b[0], b[1]);
      assert b == [b[0], b[1]];
    } else if |b| == 3 {
      assert EncodeUnpadded(b[3..]) == "";
      assert Encode(b) == Group(b[0], b[1], b[2]);
      GroupRoundTrip(b[0], b[1], b[2]);
      assert b == [b[0], b[1], b[2]];
    }
  }

  /** The encoding of more than three bytes is the first group's four characters, then the encoding of the rest. */
  lemma EncodeStep(b: seq<byte>)
    requires |b| > 3
    ensures Encode(b) == Group(b[0], b[1], b[2]) + Encode(b[3..]) && |Encode(b[3..])| > 0
  {
    assert Padding(|b|) == Padding(|b[3..]|);
  }

  /** A full group of alphabet characters in front of a non-empty rest is decoded on its own. */
  lemma DecodeFullGroup(q: string, rest: string)
    requires |q| == 4 && IsAlphabet(q[0]) && IsAlphabet(q[1]) && IsAlphabet(q[2]) && IsAlphabet(q[3])
    requires |rest| > 0
    ensures Decode(q + rest) == match Decode(rest) case Some(r) => Some(DecodeGroup(q) + r) case None => None
  {
    var s := q + rest;
    assert s[..4] == q && s[4..] == rest;
  }

  /** A leading full group followed by the encoding of the rest decodes group by group. */
  lemma DecodeEncodeStep(b: seq<byte>)
    requires |b| > 3
    requires Decode(Encode(b[3..])) == Some(b[3..])
    ensures Decode(Encode(b)) == Some(b)
  {
    EncodeStep(b);
    DecodeFullGroup(Group(b[0], b[1], b[2]), Encode(b[3..]));
    GroupRoundTrip(b[0], b[1], b[2]);
    assert b == [b[0], b[1], b[2]] + b[3..];
  }

  /** Decoding a standard encoding gives back exactly the encoded bytes. */
  lemma {:induction false} DecodeEncode(b: seq<byte>)
    ensures Decode(Encode(b)) == Some(b)
    decreases |b|
  {
    if |b| <= 3 {
      DecodeEncodeShort(b);
    } else {
      DecodeEncode(b[3..]);
      DecodeEncodeStep(b);
    }
  }
}
