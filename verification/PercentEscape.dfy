/**
  `urlPathEscape`: percent-encoding of one path segment (sections 2.1 and 2.3 of RFC 3986).

  The code walks the runes of a Go string, which may hold arbitrary bytes.  The reference
  it is compared with knows nothing of runes: it escapes one byte at a time.
*/
module PercentEscape {
  import opened Values
  import opened Utf8

  const HEX := "0123456789ABCDEF"

  predicate Unreserved(c: char) {
    'A' <= c <= 'Z' || 'a' <= c <= 'z' || '0' <= c <= '9' || c == '-' || c == '_' || c == '.' || c == '~'
  }

  predicate UnreservedByte(b: byte) {
    b < 0x80 && Unreserved(b as char)
  }

  function EscapeByte(b: byte): string {
    if UnreservedByte(b) then [b as char] else ['%', HEX[b / 16], HEX[b % 16]]
  }

  function EscapeBytes(bs: seq<byte>): string {
    if bs == [] then "" else EscapeByte(bs[0]) + EscapeBytes(bs[1..])
  }

  lemma {:induction false} EscapeBytesAppend(a: seq<byte>, b: seq<byte>)
    ensures EscapeBytes(a + b) == EscapeBytes(a) + EscapeBytes(b)
  {
    if a == [] {
      assert a + b == b;
    } else {
      assert (a + b)[1..] == a[1..] + b;
      EscapeBytesAppend(a[1..], b);
    }
  }

  lemma EscapeOneByte(b: byte)
    ensures EscapeBytes([b]) == EscapeByte(b)
  {
    assert EscapeByte(b) + "" == EscapeByte(b);
  }

  /** The octets of a character are all escaped unless it is a single unreserved one. */
  lemma CharOctets(c: char)
    ensures c as int < 0x80 ==> EncodeChar(c) == [c as int]
    ensures !Unreserved(c) || c as int >= 0x80 ==> forall b | b in EncodeChar(c) :: !UnreservedByte(b)
  {
  }

  /** Escaping a run of octets one after the other. */
  lemma EscapeSnoc(bs: seq<byte>, j: nat)
    requires j < |bs|
    ensures EscapeBytes(bs[..j + 1]) == EscapeBytes(bs[..j]) + EscapeByte(bs[j])
  {
    assert bs[..j + 1] == bs[..j] + [bs[j]];
    EscapeBytesAppend(bs[..j], [bs[j]]);
    EscapeOneByte(bs[j]);
  }

  /** Escaping what is left of the segment at `i`, one rune at a time. */
  lemma EscapeRune(seg: seq<byte>, i: nat)
    requires i < |seg|
    ensures var Rune(r, width) := DecodeFirst(seg[i..]);
            EscapeBytes(Scrub(seg[i..])) == EscapeBytes(EncodeChar(r)) + EscapeBytes(Scrub(seg[i + width..]))
  {
    var Rune(r, width) := DecodeFirst(seg[i..]);
    ScrubStep(seg[i..]);
    assert seg[i..][width..] == seg[i + width..];
    EscapeBytesAppend(EncodeChar(r), Scrub(seg[i + width..]));
  }

  lemma NothingLeft(seg: seq<byte>)
    ensures EscapeBytes(Scrub(seg[|seg|..])) == "" && seg[0..] == seg
  {
  }

  lemma EscapeUnreserved(c: char)
    requires Unreserved(c)
    ensures EscapeBytes(EncodeChar(c)) == [c]
  {
    EscapeOneByte(c as int);
  }

  /** The inner loop: every octet becomes a triplet. */
  method WriteTriplets(bs: seq<byte>) returns (out: string)
    requires forall b | b in bs :: !UnreservedByte(b)
    ensures out == EscapeBytes(bs)
  {
    out := "";
    var j := 0;
    while j < |bs|
      invariant 0 <= j <= |bs|
      invariant out == EscapeBytes(bs[..j])
    {
      EscapeSnoc(bs, j);
      assert bs[j] in bs;
      out := out + ['%', HEX[bs[j] / 16], HEX[bs[j] % 16]];
      j := j + 1;
    }
    assert bs[..j] == bs;
  }

  method UrlPathEscape(seg: seq<byte>) returns (out: string)
    ensures out == EscapeBytes(Scrub(seg))
  {
    hide Scrub, EncodeChar, DecodeFirst, EscapeBytes;
    out := "";
    var i := 0;
    while i < |seg|
      invariant 0 <= i <= |seg|
      invariant EscapeBytes(Scrub(seg)) == out + EscapeBytes(Scrub(seg[i..]))
    {
      var Rune(r, width) := DecodeFirst(seg[i..]);
      EscapeRune(seg, i);
      CharOctets(r);
      var c: byte := 0;
      if r as int < 128 {
        c := r as int;
      }
      if Unreserved(c as char) {
        EscapeUnreserved(r);
        out := out + [c as char];
      } else {
        var triplets := WriteTriplets(EncodeChar(r));
        out := out + triplets;
      }
      i := i + width;
    }
    NothingLeft(seg);
  }

  /** The text `UrlPathEscape` returns for a segment. */
  ghost function Escaped(seg: seq<byte>): string {
    EscapeBytes(Scrub(seg))
  }

  // ---- Percent-decoding ----

  function HexValue(c: char): Option<int> {
    if '0' <= c <= '9' then Some(c as int - '0' as int)
    else if 'A' <= c <= 'F' then Some(c as int - 'A' as int + 10)
    else if 'a' <= c <= 'f' then Some(c as int - 'a' as int + 10)
    else None
  }

  function HexByte(high: char, low: char): Option<byte> {
    match (HexValue(high), HexValue(low))
    case (Some(h), Some(l)) => if 0 <= h < 16 && 0 <= l < 16 then Some(16 * h + l) else None
    case _ => None
  }

  /** The bytes a percent-encoded text stands for; hex digits of either case are read. */
  function PercentDecode(t: string): Option<seq<byte>> {
    if t == "" then Some([])
    else if t[0] == '%' then
      if |t| < 3 then None
      else
        match (HexByte(t[1], t[2]), PercentDecode(t[3..]))
        case (Some(b), Some(bs)) => Some([b] + bs)
        case _ => None
    else if t[0] as int >= 0x80 then None
    else
      match PercentDecode(t[1..])
      case Some(bs) => Some([t[0] as int] + bs)
      case None => None
  }

  predicate UpperHex(c: char) {
    '0' <= c <= '9' || 'A' <= c <= 'F'
  }

  lemma HexDigit(n: int)
    requires 0 <= n < 16
    ensures HexValue(HEX[n]) == Some(n) && UpperHex(HEX[n])
  {
    assert HEX[0] == '0' && HEX[1] == '1' && HEX[2] == '2' && HEX[3] == '3';
    assert HEX[4] == '4' && HEX[5] == '5' && HEX[6] == '6' && HEX[7] == '7';
    assert HEX[8] == '8' && HEX[9] == '9' && HEX[10] == 'A' && HEX[11] == 'B';
    assert HEX[12] == 'C' && HEX[13] == 'D' && HEX[14] == 'E' && HEX[15] == 'F';
  }

  lemma TripletReadsBack(b: byte)
    ensures HexByte(HEX[b / 16], HEX[b % 16]) == Some(b)
  {
    hide HexValue;
    HexDigit(b / 16);
    HexDigit(b % 16);
  }

  lemma DecodeEscapedByte(b: byte, t: string)
    requires PercentDecode(t).Some?
    ensures PercentDecode(EscapeByte(b) + t) == Some([b] + PercentDecode(t).value)
  {
    var u := EscapeByte(b) + t;
    if UnreservedByte(b) {
      assert u[1..] == t;
    } else {
      TripletReadsBack(b);
      hide HexByte;
      assert u[0] == '%' && u[1] == HEX[b / 16] && u[2] == HEX[b % 16];
      hide HEX;
      assert u[3..] == t;
    }
  }

  lemma {:induction false} DecodeInvertsEscapeBytes(bs: seq<byte>)
    ensures PercentDecode(EscapeBytes(bs)) == Some(bs)
  {
    if bs != [] {
      DecodeInvertsEscapeBytes(bs[1..]);
      DecodeEscapedByte(bs[0], EscapeBytes(bs[1..]));
      assert bs == [bs[0]] + bs[1..];
    }
  }

  /** Percent-decoding the escaped segment gives the segment back, with U+FFFD in place
      of each byte that was not UTF-8. */
  lemma {:induction false} EscapeRoundTrip(seg: seq<byte>)
    ensures PercentDecode(Escaped(seg)) == Some(Scrub(seg))
  {
    DecodeInvertsEscapeBytes(Scrub(seg));
  }

  /** The decoder returns the segment itself exactly when the segment was UTF-8. */
  lemma {:induction false} EscapeLossless(seg: seq<byte>)
    ensures PercentDecode(Escaped(seg)) == Some(seg) <==> WellFormed(seg)
  {
    EscapeRoundTrip(seg);
    ScrubFixesExactlyText(seg);
  }

  /** Two segments escape to the same text exactly when they scrub to the same text. */
  lemma {:induction false} EscapeCollides(a: seq<byte>, b: seq<byte>)
    ensures Escaped(a) == Escaped(b) <==> Scrub(a) == Scrub(b)
  {
    EscapeRoundTrip(a);
    EscapeRoundTrip(b);
  }

  /** Two different names that escape alike: neither is UTF-8. */
  lemma EscapeNotInjectiveOnBytes()
    ensures Escaped([0xFF]) == Escaped([0xFE])
  {
    ScrubStep([0xFF]);
    ScrubStep([0xFE]);
  }

  /** On text the escaper is injective, and distributes over concatenation. */
  lemma {:induction false} EscapeText(a: string, b: string)
    ensures Escaped(Encode(a)) == Escaped(Encode(b)) <==> a == b
    ensures Escaped(Encode(a) + Encode(b)) == Escaped(Encode(a)) + Escaped(Encode(b))
  {
    ScrubFixesExactlyText(Encode(a));
    ScrubFixesExactlyText(Encode(b));
    EscapeCollides(Encode(a), Encode(b));
    if Encode(a) == Encode(b) {
      EncodeIsInjective(a, b);
    }
    ScrubAfterText(a, Encode(b));
    EscapeBytesAppend(Encode(a), Encode(b));
  }

  // ---- Alphabet and length ----

  /** The octets of the unreserved characters of section 2.3 of RFC 3986: hyphen, period,
      digits, upper-case letters, underscore, lower-case letters, tilde. */
  predicate Rfc3986Unreserved(o: int) {
    || o == 0x2D || o == 0x2E || 0x30 <= o <= 0x39
    || 0x41 <= o <= 0x5A || o == 0x5F || 0x61 <= o <= 0x7A || o == 0x7E
  }

  /** The characters the code passes through are those of the standard. */
  lemma UnreservedOctets(b: byte)
    ensures UnreservedByte(b) <==> Rfc3986Unreserved(b)
  {
  }

  /** `c` is the upper-case hexadecimal digit for `n`. */
  predicate IsHexDigit(c: char, n: int) {
    || (0 <= n <= 9 && c as int == 0x30 + n)
    || (10 <= n <= 15 && c as int == 0x41 + n - 10)
  }

  lemma HexText(n: int)
    requires 0 <= n < 16
    ensures IsHexDigit(HEX[n], n)
  {
    HexDigit(n);
  }

  lemma LaterTriplet(first: string, rest: string, k: nat)
    requires |first| == 3 && k > 0 && 3 * k <= |rest|
    ensures (first + rest)[3 * k..3 * k + 3] == rest[3 * (k - 1)..3 * (k - 1) + 3]
  {
  }

  /** Octets that are not unreserved become a triplet each, in order. */
  lemma {:induction false} ReservedTriplets(bs: seq<byte>, k: nat)
    requires forall b | b in bs :: !UnreservedByte(b)
    requires k < |bs|
    ensures |EscapeBytes(bs)| == 3 * |bs|
    ensures EscapeBytes(bs)[3 * k..3 * k + 3] == EscapeByte(bs[k])
  {
    assert bs[0] in bs;
    var first, rest := EscapeByte(bs[0]), EscapeBytes(bs[1..]);
    assert |first| == 3 && EscapeBytes(bs) == first + rest;
    hide UnreservedByte, EscapeByte, EscapeBytes;
    if |bs| == 1 {
      EscapeBytesNil();
    } else if k == 0 {
      ReservedTriplets(bs[1..], 0);
    } else {
      ReservedTriplets(bs[1..], k - 1);
      LaterTriplet(first, rest, k);
    }
  }

  lemma TripletAt(t: string, k: nat, b: byte)
    requires 3 * k + 3 <= |t| && t[3 * k..3 * k + 3] == EscapeByte(b) && !UnreservedByte(b)
    ensures t[3 * k] == '%' && IsHexDigit(t[3 * k + 1], b / 16) && IsHexDigit(t[3 * k + 2], b % 16)
  {
    HexText(b / 16);
    HexText(b % 16);
    var u := t[3 * k..3 * k + 3];
    hide IsHexDigit, HEX;
    assert u[0] == t[3 * k] && u[1] == t[3 * k + 1] && u[2] == t[3 * k + 2];
  }

  lemma EscapeBytesNil()
    ensures EscapeBytes([]) == ""
  {
  }

  /** One character by itself: an unreserved one is written as it is, and any other as '%' and
      two upper-case hexadecimal digits for each of its octets. */
  lemma EscapeOneCharacter(c: char)
    ensures var t, bs := Escaped(EncodeChar(c)), EncodeChar(c);
            if Rfc3986Unreserved(c as int) then t == [c]
            else |t| == 3 * |bs| && forall k | 0 <= k < |bs| ::
                   t[3 * k] == '%' && IsHexDigit(t[3 * k + 1], bs[k] / 16) && IsHexDigit(t[3 * k + 2], bs[k] % 16)
  {
    ScrubOfChar(c, []);
    ScrubNil();
    assert EncodeChar(c) + [] == EncodeChar(c);
    CharOctets(c);
    if c as int < 0x80 {
      UnreservedOctets(c as int);
    }
    hide EncodeChar, EscapeByte, EscapeBytes, IsHexDigit, Scrub;
    if Rfc3986Unreserved(c as int) {
      EscapeUnreserved(c);
    } else {
      hide Unreserved, UnreservedByte, Rfc3986Unreserved;
      var bs := EncodeChar(c);
      assert Escaped(bs) == EscapeBytes(bs);
      ReservedTriplets(bs, 0);
      forall k | 0 <= k < |bs|
        ensures EscapeBytes(bs)[3 * k] == '%' && IsHexDigit(EscapeBytes(bs)[3 * k + 1], bs[k] / 16)
             && IsHexDigit(EscapeBytes(bs)[3 * k + 2], bs[k] % 16)
      {
        ReservedTriplets(bs, k);
        TripletAt(EscapeBytes(bs), k, bs[k]);
      }
    }
  }

  lemma {:induction false} EscapeBytesAlphabet(bs: seq<byte>, i: nat)
    requires i < |EscapeBytes(bs)|
    ensures EscapeBytes(bs)[i] == '%' || Rfc3986Unreserved(EscapeBytes(bs)[i] as int)
  {
    var first := EscapeByte(bs[0]);
    if i < |first| {
      HexText(bs[0] / 16);
      HexText(bs[0] % 16);
    } else {
      EscapeBytesAlphabet(bs[1..], i - |first|);
    }
  }

  /** The output has no characters but '%' and the unreserved ones. */
  lemma {:induction false} EscapeAlphabet(seg: seq<byte>)
    ensures forall i | 0 <= i < |Escaped(seg)| ::
              var o := Escaped(seg)[i] as int;
              || Escaped(seg)[i] == '%'
              || o in {0x2D, 0x2E, 0x5F, 0x7E} || 0x30 <= o <= 0x39 || 0x41 <= o <= 0x5A || 0x61 <= o <= 0x7A
  {
    forall i | 0 <= i < |Escaped(seg)| ensures Escaped(seg)[i] == '%' || Rfc3986Unreserved(Escaped(seg)[i] as int) {
      EscapeBytesAlphabet(Scrub(seg), i);
    }
  }

  /** The number of octets that have to be escaped. */
  function Reserved(bs: seq<byte>): nat {
    if bs == [] then 0 else (if Rfc3986Unreserved(bs[0]) then 0 else 1) + Reserved(bs[1..])
  }

  predicate IsAscii(t: string) {
    forall i | 0 <= i < |t| :: t[i] as int < 0x80
  }

  lemma {:induction false} AsciiOctets(t: string)
    requires IsAscii(t)
    ensures |Encode(t)| == |t|
  {
    if t != "" {
      AsciiOctets(t[1..]);
    }
  }

  lemma HexIsAscii(n: int)
    requires 0 <= n < 16
    ensures HEX[n] as int < 0x80
  {
    HexDigit(n);
  }

  lemma {:induction false} EscapeBytesLength(bs: seq<byte>)
    ensures |EscapeBytes(bs)| == |bs| + 2 * Reserved(bs)
    ensures IsAscii(EscapeBytes(bs))
  {
    if bs != [] {
      HexIsAscii(bs[0] / 16);
      HexIsAscii(bs[0] % 16);
      UnreservedOctets(bs[0]);
      EscapeBytesLength(bs[1..]);
    }
  }

  /** The length of the escaped segment: three characters for each octet that is not
      unreserved, and nine for each byte that is not UTF-8. */
  lemma {:induction false} EscapedLength(seg: seq<byte>)
    ensures |Escaped(seg)| == |seg| + 2 * Broken(seg) + 2 * Reserved(Scrub(seg))
    ensures WellFormed(seg) ==> |Escaped(seg)| == |seg| + 2 * Reserved(seg)
  {
    EscapeBytesLength(Scrub(seg));
    ScrubLength(seg);
    ScrubFixesExactlyText(seg);
  }

  lemma {:induction false} UnreservedPassesThrough(bs: seq<byte>)
    requires Reserved(bs) == 0
    ensures Encode(EscapeBytes(bs)) == bs
    ensures forall b | b in bs :: Rfc3986Unreserved(b)
  {
    if bs != [] {
      UnreservedOctets(bs[0]);
      UnreservedPassesThrough(bs[1..]);
      EncodePrepend(bs[0] as char, EscapeBytes(bs[1..]));
      assert bs == [bs[0]] + bs[1..];
    }
  }

  lemma {:induction false} UnreservedIsText(bs: seq<byte>)
    requires forall b | b in bs :: Rfc3986Unreserved(b)
    ensures Scrub(bs) == bs && Reserved(bs) == 0
  {
    if bs != [] {
      assert bs[0] in bs;
      UnreservedIsText(bs[1..]);
      ScrubOfChar(bs[0] as char, bs[1..]);
      assert bs == EncodeChar(bs[0] as char) + bs[1..];
    }
  }

  /** The escaper changes nothing exactly when every octet is unreserved. */
  lemma {:induction false} EscapeIdentity(seg: seq<byte>)
    ensures Encode(Escaped(seg)) == seg <==>
            forall o | o in seg ::
              o in {0x2D, 0x2E, 0x5F, 0x7E} || 0x30 <= o <= 0x39 || 0x41 <= o <= 0x5A || 0x61 <= o <= 0x7A
  {
    if forall o | o in seg :: Rfc3986Unreserved(o) {
      UnreservedIsText(seg);
      UnreservedPassesThrough(seg);
    }
    if Encode(Escaped(seg)) == seg {
      EscapeBytesLength(Scrub(seg));
      AsciiOctets(Escaped(seg));
      ScrubLength(seg);
      ScrubUnbroken(seg);
      UnreservedPassesThrough(seg);
    }
  }

  /** Unreserved characters, and triplets of '%' and two upper-case hex digits for the bytes
      that are not unreserved. */
  predicate Canonical(t: string) {
    t == "" ||
    if t[0] == '%' then
      && |t| >= 3 && UpperHex(t[1]) && UpperHex(t[2])
      && HexByte(t[1], t[2]).Some? && !Rfc3986Unreserved(HexByte(t[1], t[2]).value)
      && Canonical(t[3..])
    else Rfc3986Unreserved(t[0] as int) && Canonical(t[1..])
  }

  lemma {:induction false} EscapeBytesIsCanonical(bs: seq<byte>)
    ensures Canonical(EscapeBytes(bs))
  {
    if bs != [] {
      var t, rest := EscapeBytes(bs), EscapeBytes(bs[1..]);
      EscapeBytesIsCanonical(bs[1..]);
      UnreservedOctets(bs[0]);
      if UnreservedByte(bs[0]) {
        assert t[1..] == rest;
      } else {
        HexDigit(bs[0] / 16);
        HexDigit(bs[0] % 16);
        assert t[3..] == rest;
      }
    }
  }

  lemma UpperHexUnique(c: char, n: int)
    requires UpperHex(c) && HexValue(c) == Some(n)
    ensures 0 <= n < 16 && HEX[n] == c
  {
    HexDigit(n);
  }

  lemma TripletIsEscape(t: string)
    requires |t| >= 3 && t[0] == '%' && UpperHex(t[1]) && UpperHex(t[2])
    requires HexByte(t[1], t[2]).Some? && !Rfc3986Unreserved(HexByte(t[1], t[2]).value)
    ensures EscapeByte(HexByte(t[1], t[2]).value) == t[..3]
  {
    UnreservedOctets(HexByte(t[1], t[2]).value);
    hide HexValue, UpperHex, UnreservedByte, Rfc3986Unreserved;
    var high, low := HexValue(t[1]).value, HexValue(t[2]).value;
    UpperHexUnique(t[1], high);
    UpperHexUnique(t[2], low);
    var b := HexByte(t[1], t[2]).value;
    assert b / 16 == high && b % 16 == low;
    assert EscapeByte(b) == ['%', HEX[high], HEX[low]];
    hide HEX;
    assert t[..3] == [t[0], t[1], t[2]];
  }

  lemma EscapeBytesPrepend(b: byte, bs: seq<byte>)
    ensures EscapeBytes([b] + bs) == EscapeByte(b) + EscapeBytes(bs)
  {
    assert ([b] + bs)[1..] == bs;
  }

  lemma {:induction false} CanonicalIsEscaped(t: string)
    requires Canonical(t)
    ensures PercentDecode(t).Some? && EscapeBytes(PercentDecode(t).value) == t
    decreases |t|
  {
    if t != "" {
      var n := if t[0] == '%' then 3 else 1;
      var b := if t[0] == '%' then HexByte(t[1], t[2]).value else t[0] as int;
      CanonicalIsEscaped(t[n..]);
      EscapeBytesPrepend(b, PercentDecode(t[n..]).value);
      UnreservedOctets(b);
      if t[0] == '%' {
        TripletIsEscape(t);
      }
      assert EscapeByte(b) == t[..n];
      assert t == t[..n] + t[n..];
    }
  }

  /** Exactly the canonical texts that decode to UTF-8 are outputs of the escaper, and each
      is the output for what it decodes to. */
  lemma EscapedTextsAreCanonical(t: string, seg: seq<byte>)
    requires WellFormed(seg)
    ensures t == Escaped(seg) <==> Canonical(t) && PercentDecode(t) == Some(seg)
  {
    ScrubFixesExactlyText(seg);
    EscapeBytesIsCanonical(seg);
    DecodeInvertsEscapeBytes(seg);
    if Canonical(t) {
      CanonicalIsEscaped(t);
    }
  }

  /** No escaped segment contains a slash, so a name cannot add a path segment. */
  lemma {:induction false} NoSlash(bs: seq<byte>)
    ensures '/' !in EscapeBytes(bs)
  {
    if bs != [] {
      NoSlash(bs[1..]);
      HexDigit(bs[0] / 16);
      HexDigit(bs[0] % 16);
    }
  }
}
