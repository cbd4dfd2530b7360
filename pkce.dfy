/**
 * The two PKCE helpers of the login manager (RFC 7636): the random string
 * used as code verifier and as `state`, and the S256 code challenge.
 * Randomness and the SHA-256 digest are inputs: the bytes that
 * `crypto.getRandomValues` would fill in, and a function from the verifier to
 * its 32-byte digest.
 */
module Pkce {
  import opened Options
  import opened Base64

  const Lower: string := "abcdefghijklmnopqrstuvwxyz"
  const Upper: string := "ABCDEFGHIJKLMNOPQRSTUVWXYZ"
  const Digits: string := "0123456789"

  /**
   * The characters `#randomString` draws from, in the source's order, written
   * as its four runs (MaskIsSourceLiteral states it equals the one literal).
   */
  const Mask: string := Lower + Upper + Digits + "-._~"

  /** The unreserved characters that RFC 7636 section 4.1 allows in a code verifier. */
  predicate IsUnreserved(c: char) {
    ('A' <= c <= 'Z') || ('a' <= c <= 'z') || ('0' <= c <= '9') || c == '-' || c == '.' || c == '_' || c == '~'
  }

  /** Where an unreserved character stands in the mask. */
  function MaskIndex(c: char): (k: nat)
    requires IsUnreserved(c)
    ensures k < 66
  {
    if 'a' <= c <= 'z' then c as int - 'a' as int
    else if 'A' <= c <= 'Z' then c as int - 'A' as int + 26
    else if '0' <= c <= '9' then c as int - '0' as int + 52
    else if c == '-' then 62
    else if c == '.' then 63
    else if c == '_' then 64
    else 65
  }

  lemma LowerAt(k: int)
    requires 0 <= k < 26
    ensures Lower[k] == ('a' as int + k) as char
  {
  }

  lemma UpperAt(k: int)
    requires 0 <= k < 26
    ensures Upper[k] == ('A' as int + k) as char
  {
  }

  lemma DigitAt(k: int)
    requires 0 <= k < 10
    ensures Digits[k] == ('0' as int + k) as char
  {
  }

  /** The mask character at `k` is unreserved, and MaskIndex finds it at `k`. */
  lemma MaskAt(k: int)
    requires 0 <= k < 66
    ensures |Mask| == 66 && IsUnreserved(Mask[k]) && MaskIndex(Mask[k]) == k
  {
    if k < 26 {
      LowerAt(k);
    } else if k < 52 {
      UpperAt(k - 26);
    } else if k < 62 {
      DigitAt(k - 52);
    }
  }

  /** An unreserved character stands in the mask where MaskIndex says. */
  lemma MaskIndexAt(c: char)
    requires IsUnreserved(c)
    ensures |Mask| == 66 && Mask[MaskIndex(c)] == c
  {
    var k := MaskIndex(c);
    if k < 26 {
      LowerAt(k);
    } else if k < 52 {
      UpperAt(k - 26);
    } else if k < 62 {
      DigitAt(k - 52);
    }
  }

  /** The four runs spell the source's mask literal. */
  lemma MaskIsSourceLiteral()
    ensures Mask == "abcdefghijklmnopqrstuvwxyzABCDEFGHIJKLMNOPQRSTUVWXYZ0123456789-._~"
  {
    assert Lower + Upper == "abcdefghijklmnopqrstuvwxyzABCDEFGHIJKLMNOPQRSTUVWXYZ";
    assert Digits + "-._~" == "0123456789-._~";
  }

  /**
   * The mask is exactly the unreserved set of RFC 7636: 66 characters, each
   * unreserved, each at its own place, and every unreserved character present.
   */
  lemma MaskIsUnreservedSet()
    ensures |Mask| == 66
    ensures forall k :: 0 <= k < |Mask| ==> IsUnreserved(Mask[k]) && MaskIndex(Mask[k]) == k
    ensures forall c :: IsUnreserved(c) ==> c in Mask
  {
    forall k | 0 <= k < |Mask| ensures IsUnreserved(Mask[k]) && MaskIndex(Mask[k]) == k {
      MaskAt(k);
    }
    forall c | IsUnreserved(c) ensures c in Mask {
      MaskIndexAt(c);
    }
  }

  /**
   * The string `#randomString` builds from `random`: character `i` is the mask
   * character at `random[i]` reduced modulo the mask's length.
   */
  function MaskString(random: seq<byte>): (s: string)
    ensures |s| == |random|
    ensures forall i :: 0 <= i < |s| ==> IsUnreserved(s[i])
  {
    MaskIsUnreservedSet();
    seq(|random|, i requires 0 <= i < |random| => Mask[random[i] % |Mask|])
  }

  /**
   * `#randomString(length)`: one random byte per character, appended in a loop.
   * The result is as long as asked and drawn from the unreserved characters only.
   */
  method RandomString(length: nat, random: seq<byte>) returns (result: string)
    requires |random| == length
    ensures result == MaskString(random)
    ensures |result| == length
    ensures forall i :: 0 <= i < length ==> result[i] == Mask[random[i] % 66]
    ensures forall i :: 0 <= i < length ==> IsUnreserved(result[i])
  {
    result := "";
    for i := 0 to length
      invariant |result| == i
      invariant forall k :: 0 <= k < i ==> result[k] == Mask[random[k] % |Mask|]
    {
      var randomIndex := random[i] % |Mask|;
      result := result + [Mask[randomIndex]];
    }
    assert result == MaskString(random);
  }

  /** Every occurrence of `from` replaced by `to`, as a global `String.replace`. */
  function ReplaceAll(s: string, from: char, to: char): (r: string) {
    seq(|s|, i requires 0 <= i < |s| => if s[i] == from then to else s[i])
  }

  /** Every occurrence of `c` removed, as a global `String.replace` with ''. */
  function RemoveAll(s: string, c: char): (r: string)
    decreases |s|
  {
    if |s| == 0 then "" else (if s[0] == c then "" else [s[0]]) + RemoveAll(s[1..], c)
  }

  /** A SHA-256 digest: 32 bytes. */
  type Digest = d: seq<byte> | |d| == 32 witness seq(32, _ => 0)

  /**
   * The chain of `#generateChallenge` after the digest: standard base 64,
   * then `/` to `_`, `+` to `-`, and every `=` dropped.
   */
  function Base64Url(d: seq<byte>): (s: string) {
    RemoveAll(ReplaceAll(ReplaceAll(Encode(d), '/', '_'), '+', '-'), '=')
  }

  /** `#generateChallenge(verifier)`, with SHA-256 over the verifier's UTF-8 bytes given as `sha256`. */
  function GenerateChallenge(verifier: string, sha256: string -> Digest): (challenge: string) {
    Base64Url(sha256(verifier))
  }

  /** The alphabet of base64url (RFC 4648 section 5). */
  predicate IsUrlSafe(c: char) {
    ('A' <= c <= 'Z') || ('a' <= c <= 'z') || ('0' <= c <= '9') || c == '-' || c == '_'
  }

  /** `-` back to `+` and `_` back to `/`. */
  function Unsubstitute(challenge: string): (s: string) {
    ReplaceAll(ReplaceAll(challenge, '-', '+'), '_', '/')
  }

  /** `=` appended up to the next multiple of four characters. */
  function Repad(s: string): (padded: string) {
    s + seq((4 - |s| % 4) % 4, _ => '=')
  }

  /** The inverse path: the substitutions undone, the padding restored, then decoded. */
  function DecodeChallenge(challenge: string): (r: Option<seq<byte>>) {
    Decode(Repad(Unsubstitute(challenge)))
  }

  lemma ReplaceAllAppend(a: string, b: string, from: char, to: char)
    ensures ReplaceAll(a + b, from, to) == ReplaceAll(a, from, to) + ReplaceAll(b, from, to)
  {
  }

  lemma {:induction false} RemoveAllAppend(a: string, b: string, c: char)
    ensures RemoveAll(a + b, c) == RemoveAll(a, c) + RemoveAll(b, c)
    decreases |a|
  {
    if |a| > 0 {
      var h := if a[0] == c then "" else [a[0]];
      assert (a + b)[0] == a[0] && (a + b)[1..] == a[1..] + b;
      calc {
        RemoveAll(a + b, c);
        h + RemoveAll(a[1..] + b, c);
        { RemoveAllAppend(a[1..], b, c); }
        h + (RemoveAll(a[1..], c) + RemoveAll(b, c));
        (h + RemoveAll(a[1..], c)) + RemoveAll(b, c);
        RemoveAll(a, c) + RemoveAll(b, c);
      }
    } else {
      assert a + b == b;
    }
  }

  lemma {:induction false} RemoveAllAbsent(s: string, c: char)
    requires forall i :: 0 <= i < |s| ==> s[i] != c
    ensures RemoveAll(s, c) == s
    decreases |s|
  {
    if |s| > 0 {
      RemoveAllAbsent(s[1..], c);
    }
  }

  lemma {:induction false} RemoveAllOnly(s: string, c: char)
    requires forall i :: 0 <= i < |s| ==> s[i] == c
    ensures RemoveAll(s, c) == ""
    decreases |s|
  {
    if |s| > 0 {
      RemoveAllOnly(s[1..], c);
    }
  }

  /**
   * The challenge is the unpadded base 64 encoding with the two characters of
   * the standard alphabet that are not URL-safe swapped for `-` and `_`.
   */
  lemma Base64UrlIsUnpadded(d: seq<byte>)
    ensures Base64Url(d) == ReplaceAll(ReplaceAll(EncodeUnpadded(d), '/', '_'), '+', '-')
  {
    var u, p := EncodeUnpadded(d), Padding(|d|);
    var v := ReplaceAll(ReplaceAll(u, '/', '_'), '+', '-');
    EncodeUnpaddedShape(d);
    ReplaceAllAppend(u, p, '/', '_');
    ReplaceAllAppend(ReplaceAll(u, '/', '_'), p, '+', '-');
    assert ReplaceAll(p, '/', '_') == p && ReplaceAll(p, '+', '-') == p;
    assert Encode(d) == u + p;
    RemoveAllAppend(v, p, '=');
    RemoveAllAbsent(v, '=');
    RemoveAllOnly(p, '=');
  }

  /**
   * The challenge is URL-safe base64url without padding: no `+`, `/` or `=`,
   * and its length is that of the unpadded encoding (43 for a SHA-256 digest).
   */
  lemma ChallengeIsUrlSafe(d: seq<byte>)
    ensures forall i :: 0 <= i < |Base64Url(d)| ==> IsUrlSafe(Base64Url(d)[i])
    ensures '+' !in Base64Url(d) && '/' !in Base64Url(d) && '=' !in Base64Url(d)
    ensures |Base64Url(d)| == 4 * (|d| / 3) + (if |d| % 3 == 0 then 0 else |d| % 3 + 1)
    ensures |d| == 32 ==> |Base64Url(d)| == 43
  {
    Base64UrlIsUnpadded(d);
    EncodeUnpaddedShape(d);
  }

  /** Swapping `-` and `_` back undoes the substitution on unpadded base 64. */
  lemma UndoSubstitution(d: seq<byte>)
    ensures Unsubstitute(Base64Url(d)) == EncodeUnpadded(d)
  {
    var u := EncodeUnpadded(d);
    Base64UrlIsUnpadded(d);
    EncodeUnpaddedShape(d);
    var s := Unsubstitute(Base64Url(d));
    forall i | 0 <= i < |u| ensures s[i] == u[i] {
      assert IsAlphabet(u[i]);
    }
  }

  /** Undoing the substitutions and the dropped padding gives back the digest. */
  lemma ChallengeRoundTrip(d: seq<byte>)
    ensures DecodeChallenge(Base64Url(d)) == Some(d)
  {
    UndoSubstitution(d);
    EncodeUnpaddedShape(d);
    RepadUnpadded(EncodeUnpadded(d), |d|);
    DecodeEncode(d);
  }

  /**
   * Completing an unpadded encoding of `n` bytes to a multiple of four
   * restores exactly the padding `btoa` emits.
   */
  lemma RepadUnpadded(u: string, n: nat)
    requires |u| == 4 * (n / 3) + (if n % 3 == 0 then 0 else n % 3 + 1)
    ensures Repad(u) == u + Padding(n)
  {
    var r := if n % 3 == 0 then 0 else n % 3 + 1;
    ModFour(n / 3, r);
    var s := seq((4 - r) % 4, _ => '=');
    if n % 3 == 0 {
      assert s == "";
    } else if n % 3 == 1 {
      assert s == "==";
    } else {
      assert s == "=";
    }
  }

  lemma ModFour(k: nat, r: nat)
    requires r < 4
    ensures (4 * k + r) % 4 == r
  {
  }

  /** The S256 challenge of a verifier is 43 characters and decodes back to that verifier's digest. */
  lemma GenerateChallengeRoundTrip(verifier: string, sha256: string -> Digest)
    ensures |GenerateChallenge(verifier, sha256)| == 43
    ensures DecodeChallenge(GenerateChallenge(verifier, sha256)) == Some(sha256(verifier))
  {
    ChallengeIsUrlSafe(sha256(verifier));
    ChallengeRoundTrip(sha256(verifier));
  }
}
