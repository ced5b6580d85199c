/** Hexadecimal text of digests, as published payloads carry it. */
module Hex {
  import opened Common

  function HexDigit(n: nat): char
    requires n < 16
  {
    if n < 10 then '0' + n as char else 'a' + (n - 10) as char
  }

  function HexValue(c: char): Option<nat> {
    if '0' <= c <= '9' then Some((c - '0') as nat)
    else if 'a' <= c <= 'f' then Some((c - 'a') as nat + 10)
    else if 'A' <= c <= 'F' then Some((c - 'A') as nat + 10)
    else None
  }

  /** `hex.EncodeToString`. */
  function EncodeToString(b: seq<byte>): (s: string)
    ensures |s| == 2 * |b|
  {
    if b == [] then ""
    else [HexDigit(b[0] as nat / 16), HexDigit(b[0] as nat % 16)] + EncodeToString(b[1..])
  }

  /** `hex.DecodeString`: fails on an odd length or a character that is not a hex digit. */
  function DecodeString(s: string): (b: Option<seq<byte>>)
    ensures b.Some? ==> |s| == 2 * |b.value|
  {
    if s == "" then Some([])
    else if |s| == 1 || HexValue(s[0]).None? || HexValue(s[1]).None? then None
    else
      match DecodeString(s[2..])
      case None => None
      case Some(rest) =>
        var v := 16 * HexValue(s[0]).value + HexValue(s[1]).value;
        if v < 256 then Some([v as byte] + rest) else None
  }

  /** `trim0x`. */
  function Trim0x(s: string): string {
    if |s| >= 2 && s[0] == '0' && (s[1] == 'x' || s[1] == 'X') then s[2..] else s
  }

  function HexOf(d: Digest): string {
    EncodeToString(d.bytes)
  }

  /** The digest a published key names: `decodeHexBytes`, then the length check. */
  function DigestOfHex(s: string): Option<Digest> {
    match DecodeString(Trim0x(s))
    case None => None
    case Some(b) => if |b| == 32 then Some(Digest(b)) else None
  }

  /** `bytes32`: the first 32 bytes, padded with zeros. */
  function PadTo32(b: seq<byte>): Bytes32 {
    if |b| >= 32 then b[..32] else b + seq(32 - |b|, i => 0 as byte)
  }

  lemma {:induction false} DecodeInverts(b: seq<byte>)
    ensures DecodeString(EncodeToString(b)) == Some(b)
  {
    if b != [] {
      var s := EncodeToString(b);
      assert s[2..] == EncodeToString(b[1..]);
      DecodeInverts(b[1..]);
      assert b == [b[0]] + b[1..];
    }
  }

  /** Encoded text is never taken for a prefixed one, so every digest is read back. */
  lemma HexRoundTrip(d: Digest)
    ensures DigestOfHex(HexOf(d)) == Some(d)
    ensures DecodeString(HexOf(d)) == Some(d.bytes) && PadTo32(d.bytes) == d.bytes
  {
    DecodeInverts(d.bytes);
    assert d.bytes != [];
    assert HexOf(d)[1] != 'x' && HexOf(d)[1] != 'X';
  }

  ghost predicate LowerHexDigit(c: char) {
    '0' <= c <= '9' || 'a' <= c <= 'f'
  }

  /** The encoder writes two lower-case digits a byte, the high half first. */
  lemma {:induction false} EncodedDigits(b: seq<byte>, i: nat)
    requires i < |b|
    ensures LowerHexDigit(EncodeToString(b)[2 * i]) && LowerHexDigit(EncodeToString(b)[2 * i + 1])
    ensures HexValue(EncodeToString(b)[2 * i]) == Some(b[i] as nat / 16)
    ensures HexValue(EncodeToString(b)[2 * i + 1]) == Some(b[i] as nat % 16)
  {
    if i > 0 {
      EncodedDigits(b[1..], i - 1);
    }
  }

  /** Exactly the texts of an even number of hex digits decode. */
  lemma {:induction false} DecodesExactly(s: string)
    ensures DecodeString(s).Some? <==> |s| % 2 == 0 && forall i :: 0 <= i < |s| ==> HexValue(s[i]).Some?
  {
    if |s| >= 2 {
      DecodesExactly(s[2..]);
      assert s == [s[0], s[1]] + s[2..];
    }
  }

  /** The digests a payload may name: sixty-four hex digits, with or without one prefix of either case. */
  lemma DigestTexts(s: string)
    ensures DigestOfHex(s).Some? <==>
              |Trim0x(s)| == 64 && forall i :: 0 <= i < |Trim0x(s)| ==> HexValue(Trim0x(s)[i]).Some?
    ensures Trim0x("0x" + s) == s && Trim0x("0X" + s) == s
    ensures !("0x" <= s) && !("0X" <= s) ==> DigestOfHex("0x" + s) == DigestOfHex(s) == DigestOfHex("0X" + s)
  {
    DecodesExactly(Trim0x(s));
    assert ("0x" + s)[2..] == s && ("0X" + s)[2..] == s;
  }

  /** Letters of either case have the same value. */
  ghost predicate SameButForCase(s: string, t: string) {
    |s| == |t| && forall i :: 0 <= i < |s| ==> s[i] == t[i] || SameLetter(s[i], t[i]) || SameLetter(t[i], s[i])
  }

  ghost predicate SameLetter(upper: char, lower: char) {
    'A' <= upper <= 'F' && lower as int == upper as int + 32
  }

  lemma {:induction false} CaseDoesNotMatter(s: string, t: string)
    requires SameButForCase(s, t)
    ensures DecodeString(s) == DecodeString(t)
  {
    if |s| >= 2 {
      CaseDoesNotMatter(s[2..], t[2..]);
    }
  }

  lemma SampleHex()
    ensures EncodeToString([0x0F, 0x9A]) == "0f9a"
    ensures DecodeString("0F9a") == Some([0x0F, 0x9A])
  {
    assert EncodeToString([0x9A]) == "9a";
    assert [0x0F as byte, 0x9A][1..] == [0x9A];
    DecodeInverts([0x0F, 0x9A]);
    CaseDoesNotMatter("0F9a", "0f9a");
  }

  /** Short keys are filled up with zeros at the end, long ones cut. */
  lemma PaddedKeepsFront(b: seq<byte>, i: nat)
    requires i < 32
    ensures PadTo32(b)[i] == if i < |b| then b[i] else 0
  {
  }

  lemma HexInjective(a: Digest, b: Digest)
    requires HexOf(a) == HexOf(b)
    ensures a == b
  {
    HexRoundTrip(a);
    HexRoundTrip(b);
  }
}
