/**
 * `encodeURIComponent`: characters outside the unreserved set are written
 * as the percent-escaped bytes of their UTF-8 encoding, with upper-case hex
 * digits. The decoder is the partner used to state the round trip.
 */
module Uri {
  import opened Options

  /** Letters, digits and `-_.!~*'()` pass through unescaped. */
  predicate Unreserved(c: char) {
    ('A' <= c <= 'Z') || ('a' <= c <= 'z') || ('0' <= c <= '9')
    || c == '-' || c == '_' || c == '.' || c == '!' || c == '~' || c == '*' || c == '\'' || c == '(' || c == ')'
  }

  /** Characters that cannot end or split a query value (`&`, `#`, `=` and the space are excluded). */
  predicate QuerySafe(c: char) {
    Unreserved(c) || c == '%'
  }

  type Byte = b: int | 0 <= b < 256

  /** The UTF-8 encoding of one Unicode scalar value. */
  function Utf8(c: char): (r: seq<Byte>)
    ensures 1 <= |r| <= 4
    ensures (c as int < 0x80) <==> |r| == 1
    ensures |r| == 1 ==> r[0] == c as int
    ensures |r| > 1 ==> 0xC0 <= r[0] && forall i :: 1 <= i < |r| ==> 0x80 <= r[i] < 0xC0
  {
    var cp := c as int;
    if cp < 0x80 then [cp]
    else if cp < 0x800 then [0xC0 + cp / 64, 0x80 + cp % 64]
    else if cp < 0x1_0000 then [0xE0 + cp / 4096, 0x80 + cp / 64 % 64, 0x80 + cp % 64]
    else [0xF0 + cp / 262144, 0x80 + cp / 4096 % 64, 0x80 + cp / 64 % 64, 0x80 + cp % 64]
  }

  /** The bytes a string's characters stand for. */
  function Bytes(s: string): seq<Byte> {
    if |s| == 0 then [] else Utf8(s[0]) + Bytes(s[1..])
  }

  const HexDigits := "0123456789ABCDEF"

  function Escape(b: Byte): string {
    ['%', HexDigits[b / 16], HexDigits[b % 16]]
  }

  function EscapeAll(bs: seq<Byte>): string {
    if |bs| == 0 then "" else Escape(bs[0]) + EscapeAll(bs[1..])
  }

  function EncodeChar(c: char): string {
    if Unreserved(c) then [c] else EscapeAll(Utf8(c))
  }

  function Encode(s: string): string {
    if |s| == 0 then "" else EncodeChar(s[0]) + Encode(s[1..])
  }

  /** The hex value of a digit as `decodeURIComponent` reads it, in either case. */
  function HexValue(c: char): Option<nat> {
    if '0' <= c <= '9' then Some(c as int - '0' as int)
    else if 'A' <= c <= 'F' then Some(c as int - 'A' as int + 10)
    else if 'a' <= c <= 'f' then Some(c as int - 'a' as int + 10)
    else None
  }

  /**
   * Reads a percent-encoded string back to the bytes it stands for: "%XY"
   * is one byte, any other ASCII character is itself; a malformed escape or
   * a raw non-ASCII character fails.
   */
  function DecodeBytes(s: string): (r: Option<seq<Byte>>)
    decreases |s|
  {
    if |s| == 0 then Some([])
    else if s[0] == '%' then
      if |s| < 3 then None
      else match (HexValue(s[1]), HexValue(s[2]))
        case (Some(hi), Some(lo)) =>
          if hi < 16 && lo < 16 then
            match DecodeBytes(s[3..])
            case None => None
            case Some(rest) => Some([hi * 16 + lo] + rest)
          else None
        case _ => None
    else if s[0] as int < 0x80 then
      match DecodeBytes(s[1..])
      case None => None
      case Some(rest) => Some([s[0] as int] + rest)
    else None
  }

  lemma EscapeDecodes(b: Byte, rest: string)
    ensures DecodeBytes(Escape(b) + rest) ==
      match DecodeBytes(rest) case None => None case Some(r) => Some([b] + r)
  {
    var e := Escape(b) + rest;
    assert e[0] == '%' && e[3..] == rest;
    assert HexValue(e[1]) == Some(b / 16) && HexValue(e[2]) == Some(b % 16);
  }

  lemma {:induction false} EscapeAllDecodes(bs: seq<Byte>, rest: string)
    ensures DecodeBytes(EscapeAll(bs) + rest) ==
      match DecodeBytes(rest) case None => None case Some(r) => Some(bs + r)
  {
    if |bs| > 0 {
      assert EscapeAll(bs) + rest == Escape(bs[0]) + (EscapeAll(bs[1..]) + rest);
      EscapeAllDecodes(bs[1..], rest);
      EscapeDecodes(bs[0], EscapeAll(bs[1..]) + rest);
      if DecodeBytes(rest).Some? {
        var r := DecodeBytes(rest).value;
        assert [bs[0]] + (bs[1..] + r) == bs + r;
      }
    } else {
      assert EscapeAll(bs) + rest == rest;
      if DecodeBytes(rest).Some? {
        assert bs + DecodeBytes(rest).value == DecodeBytes(rest).value;
      }
    }
  }

  /** Decoding an encoded component gives back the UTF-8 bytes of the original string. */
  lemma {:induction false} EncodeRoundTrip(s: string)
    ensures DecodeBytes(Encode(s)) == Some(Bytes(s))
  {
    if |s| == 0 {
    } else {
      EncodeRoundTrip(s[1..]);
      var c := s[0];
      if Unreserved(c) {
        var e := [c] + Encode(s[1..]);
        assert Encode(s) == e;
        assert e[1..] == Encode(s[1..]);
      } else {
        assert Encode(s) == EscapeAll(Utf8(c)) + Encode(s[1..]);
        EscapeAllDecodes(Utf8(c), Encode(s[1..]));
      }
    }
  }

  /** An encoded component holds only unreserved characters and escapes, so it cannot end a query value. */
  lemma {:induction false} EncodeSafe(s: string)
    ensures forall i :: 0 <= i < |Encode(s)| ==> QuerySafe(Encode(s)[i])
    ensures Encode(s) == s <==> forall i :: 0 <= i < |s| ==> Unreserved(s[i])
  {
    EncodeLength(s);
    if |s| > 0 {
      EncodeSafe(s[1..]);
      EscapeAllSafe(Utf8(s[0]));
    }
  }

  /** Escaping only lengthens: every reserved character becomes at least three. */
  lemma {:induction false} EncodeLength(s: string)
    ensures |Encode(s)| >= |s|
    ensures |Encode(s)| == |s| ==> forall i :: 0 <= i < |s| ==> Unreserved(s[i])
    ensures (forall i :: 0 <= i < |s| ==> Unreserved(s[i])) ==> Encode(s) == s
  {
    if |s| > 0 {
      EncodeLength(s[1..]);
      EscapeAllSafe(Utf8(s[0]));
      if (forall i :: 0 <= i < |s| ==> Unreserved(s[i])) {
        assert forall i :: 0 <= i < |s[1..]| ==> Unreserved(s[1..][i]) by {
          forall i | 0 <= i < |s[1..]| ensures Unreserved(s[1..][i]) {
            assert s[1..][i] == s[i + 1];
          }
        }
        assert Encode(s) == [s[0]] + s[1..];
      }
      if |Encode(s)| == |s| {
        assert Unreserved(s[0]);
        forall i | 0 <= i < |s| ensures Unreserved(s[i]) {
          if i > 0 {
            assert s[i] == s[1..][i - 1];
          }
        }
      }
    }
  }

  lemma {:induction false} EscapeAllSafe(bs: seq<Byte>)
    ensures forall i :: 0 <= i < |EscapeAll(bs)| ==> QuerySafe(EscapeAll(bs)[i])
    ensures |bs| > 0 ==> EscapeAll(bs)[0] == '%'
    ensures |EscapeAll(bs)| == 3 * |bs|
  {
    if |bs| > 0 {
      EscapeAllSafe(bs[1..]);
    }
  }
}
