/**
  UTF-8 (section 3 of RFC 3629), as a Go `range` over a string decodes it and as the
  conversion of a rune to a string encodes it.
*/
module Utf8 {
  import opened Values

  const REPLACEMENT: char := 0xFFFD as char

  /** The octets of one character. */
  function EncodeChar(c: char): (bs: seq<byte>)
    ensures 1 <= |bs| <= 4
  {
    var r := c as int;
    if r < 0x80 then [r]
    else if r < 0x800 then [0xC0 + r / 0x40, 0x80 + r % 0x40]
    else if r < 0x1_0000 then [0xE0 + r / 0x1000, 0x80 + r / 0x40 % 0x40, 0x80 + r % 0x40]
    else [0xF0 + r / 0x4_0000, 0x80 + r / 0x1000 % 0x40, 0x80 + r / 0x40 % 0x40, 0x80 + r % 0x40]
  }

  function Encode(text: string): seq<byte> {
    if text == "" then [] else EncodeChar(text[0]) + Encode(text[1..])
  }

  /** One step of a `range` over a string: the rune found and the number of bytes it took. */
  datatype Rune = Rune(c: char, width: nat)

  const INVALID := Rune(REPLACEMENT, 1)

  /** How many bytes a leading byte announces, and which second bytes it accepts. */
  datatype Lead = Lead(size: nat, lo: byte, hi: byte)

  function LeadOf(b: byte): Option<Lead> {
    if b < 0x80 then Some(Lead(1, 0, 0))
    else if b < 0xC2 then None
    else if b < 0xE0 then Some(Lead(2, 0x80, 0xBF))
    else if b == 0xE0 then Some(Lead(3, 0xA0, 0xBF))
    else if b == 0xED then Some(Lead(3, 0x80, 0x9F))
    else if b < 0xF0 then Some(Lead(3, 0x80, 0xBF))
    else if b == 0xF0 then Some(Lead(4, 0x90, 0xBF))
    else if b < 0xF4 then Some(Lead(4, 0x80, 0xBF))
    else if b == 0xF4 then Some(Lead(4, 0x80, 0x8F))
    else None
  }

  predicate IsTail(b: byte) {
    0x80 <= b <= 0xBF
  }

  /** The code point that two, three or four octets carry. */
  function Join2(b0: int, b1: int): int {
    (b0 - 0xC0) * 0x40 + (b1 - 0x80)
  }

  function Join3(b0: int, b1: int, b2: int): int {
    (b0 - 0xE0) * 0x1000 + (b1 - 0x80) * 0x40 + (b2 - 0x80)
  }

  function Join4(b0: int, b1: int, b2: int, b3: int): int {
    (b0 - 0xF0) * 0x4_0000 + (b1 - 0x80) * 0x1000 + (b2 - 0x80) * 0x40 + (b3 - 0x80)
  }

  function DecodeFirst(s: seq<byte>): (r: Rune)
    requires s != []
    ensures 1 <= r.width <= |s|
  {
    match LeadOf(s[0])
    case None => INVALID
    case Some(Lead(size, lo, hi)) =>
      if size == 1 then Rune(s[0] as char, 1)
      else if |s| < size || !(lo <= s[1] <= hi) then INVALID
      else if size == 2 then Rune(Join2(s[0], s[1]) as char, 2)
      else if !IsTail(s[2]) then INVALID
      else if size == 3 then Rune(Join3(s[0], s[1], s[2]) as char, 3)
      else if !IsTail(s[3]) then INVALID
      else Rune(Join4(s[0], s[1], s[2], s[3]) as char, 4)
  }

  /** `s` begins with the octets of some character. */
  ghost predicate StartsWithChar(s: seq<byte>) {
    exists c: char :: EncodeChar(c) <= s
  }

  /** Shifting by twelve or eighteen bits is shifting by six bits twice or three times. */
  lemma Shifts(r: int)
    ensures r / 0x1000 == r / 0x40 / 0x40
    ensures r / 0x4_0000 == r / 0x40 / 0x40 / 0x40
  {
  }

  lemma SixBits(r: int, high: int, low: int)
    requires 0 <= low < 0x40
    ensures r == high * 0x40 + low <==> high == r / 0x40 && low == r % 0x40
  {
  }

  lemma Join2Inverts(r: int, b0: int, b1: int)
    requires 0x80 <= b1 <= 0xBF
    ensures r == Join2(b0, b1) <==> b0 == 0xC0 + r / 0x40 && b1 == 0x80 + r % 0x40
  {
    SixBits(r, b0 - 0xC0, b1 - 0x80);
  }

  lemma Join3Inverts(r: int, b0: int, b1: int, b2: int)
    requires 0x80 <= b1 <= 0xBF && 0x80 <= b2 <= 0xBF
    ensures r == Join3(b0, b1, b2)
       <==> b0 == 0xE0 + r / 0x1000 && b1 == 0x80 + r / 0x40 % 0x40 && b2 == 0x80 + r % 0x40
  {
    Shifts(r);
    SixBits(r, Join2(b0 - 0xE0 + 0xC0, b1), b2 - 0x80);
    SixBits(r / 0x40, b0 - 0xE0, b1 - 0x80);
  }

  lemma Join4Inverts(r: int, b0: int, b1: int, b2: int, b3: int)
    requires 0x80 <= b1 <= 0xBF && 0x80 <= b2 <= 0xBF && 0x80 <= b3 <= 0xBF
    ensures r == Join4(b0, b1, b2, b3)
       <==> b0 == 0xF0 + r / 0x4_0000 && b1 == 0x80 + r / 0x1000 % 0x40
            && b2 == 0x80 + r / 0x40 % 0x40 && b3 == 0x80 + r % 0x40
  {
    Shifts(r);
    var high := Join3(b0 - 0xF0 + 0xE0, b1, b2);
    SixBits(r, high, b3 - 0x80);
    Join3Inverts(r / 0x40, b0 - 0xF0 + 0xE0, b1, b2);
    Shifts(r / 0x40);
  }

  /** The table of section 3 of RFC 3629: how many octets a character has, and which. */
  lemma {:induction false} OctetTable(c: char)
    ensures var r, bs := c as int, EncodeChar(c);
            && |bs| == (if r <= 0x7F then 1 else if r <= 0x7FF then 2 else if r <= 0xFFFF then 3 else 4)
            && (forall i | 1 <= i < |bs| :: 0x80 <= bs[i] <= 0xBF)
            && (|bs| == 1 ==> bs[0] == r)
            && (|bs| == 2 ==> 0xC0 <= bs[0] <= 0xDF &&
                              r == (bs[0] as int - 0xC0) * 64 + (bs[1] as int - 0x80))
            && (|bs| == 3 ==> 0xE0 <= bs[0] <= 0xEF &&
                              r == (bs[0] as int - 0xE0) * 4096 + (bs[1] as int - 0x80) * 64 + (bs[2] as int - 0x80))
            && (|bs| == 4 ==> 0xF0 <= bs[0] <= 0xF7 &&
                              r == (bs[0] as int - 0xF0) * 262144 + (bs[1] as int - 0x80) * 4096 + (bs[2] as int - 0x80) * 64
                                   + (bs[3] as int - 0x80))
  {
    var r, bs := c as int, EncodeChar(c);
    if |bs| == 2 {
      Join2Inverts(r, bs[0], bs[1]);
    } else if |bs| == 3 {
      Join3Inverts(r, bs[0], bs[1], bs[2]);
    } else if |bs| == 4 {
      Join4Inverts(r, bs[0], bs[1], bs[2], bs[3]);
    }
  }

  /** Decoding undoes encoding, whatever bytes follow. */
  lemma {:induction false} DecodeOfEncode(c: char, rest: seq<byte>)
    ensures DecodeFirst(EncodeChar(c) + rest) == Rune(c, |EncodeChar(c)|)
  {
    var r, s := c as int, EncodeChar(c) + rest;
    if r < 0x80 {
    } else if r < 0x800 {
      Join2Inverts(r, s[0], s[1]);
    } else if r < 0x1_0000 {
      Join3Inverts(r, s[0], s[1], s[2]);
    } else {
      Join4Inverts(r, s[0], s[1], s[2], s[3]);
    }
  }

  /** What decodes without error is exactly what a character encodes to. */
  lemma EncodeOfDecode(s: seq<byte>)
    requires s != [] && DecodeFirst(s) != INVALID
    ensures EncodeChar(DecodeFirst(s).c) == s[..DecodeFirst(s).width]
  {
    var Rune(c, width) := DecodeFirst(s);
    if width == 2 {
      Join2Inverts(c as int, s[0], s[1]);
    } else if width == 3 {
      Join3Inverts(c as int, s[0], s[1], s[2]);
    } else if width == 4 {
      Join4Inverts(c as int, s[0], s[1], s[2], s[3]);
    }
  }

  /** The decoder fails exactly on the inputs that begin with no character at all. */
  lemma {:induction false} DecodeFirstMeaning(s: seq<byte>)
    requires s != []
    ensures DecodeFirst(s) != INVALID <==> StartsWithChar(s)
    ensures StartsWithChar(s) ==> EncodeChar(DecodeFirst(s).c) == s[..DecodeFirst(s).width]
  {
    if DecodeFirst(s) != INVALID {
      EncodeOfDecode(s);
      assert EncodeChar(DecodeFirst(s).c) <= s;
    }
    if c: char :| EncodeChar(c) <= s {
      assert s == EncodeChar(c) + s[|EncodeChar(c)|..];
      DecodeOfEncode(c, s[|EncodeChar(c)|..]);
      assert EncodeChar(REPLACEMENT) == [0xEF, 0xBF, 0xBD];
    }
  }

  // ---- Well-formed strings, and what becomes of the others ----

  ghost predicate WellFormed(s: seq<byte>) {
    exists text: string :: s == Encode(text)
  }

  /** `s` with every byte that starts no character replaced by the octets of U+FFFD. */
  ghost function Scrub(s: seq<byte>): seq<byte> {
    if s == [] then []
    else if c: char :| EncodeChar(c) <= s then EncodeChar(c) + Scrub(s[|EncodeChar(c)|..])
    else EncodeChar(REPLACEMENT) + Scrub(s[1..])
  }

  /** The number of bytes `Scrub` replaces. */
  ghost function Broken(s: seq<byte>): nat {
    if s == [] then 0
    else (if StartsWithChar(s) then 0 else 1) + Broken(s[DecodeFirst(s).width..])
  }

  /** `Scrub` follows the decoder step by step. */
  lemma ScrubStep(s: seq<byte>)
    requires s != []
    ensures Scrub(s) == EncodeChar(DecodeFirst(s).c) + Scrub(s[DecodeFirst(s).width..])
    ensures StartsWithChar(s) ==> EncodeChar(DecodeFirst(s).c) == s[..DecodeFirst(s).width]
    ensures !StartsWithChar(s) ==> DecodeFirst(s) == INVALID
  {
    DecodeFirstMeaning(s);
    forall c: char | EncodeChar(c) <= s ensures Rune(c, |EncodeChar(c)|) == DecodeFirst(s) {
      assert s == EncodeChar(c) + s[|EncodeChar(c)|..];
      DecodeOfEncode(c, s[|EncodeChar(c)|..]);
    }
  }

  /** A byte that starts no character becomes the three octets of U+FFFD. */
  lemma ScrubReplaces(s: seq<byte>)
    requires s != [] && !StartsWithChar(s)
    ensures Scrub(s) == [0xEF, 0xBF, 0xBD] + Scrub(s[1..])
  {
    ScrubStep(s);
    assert EncodeChar(REPLACEMENT) == [0xEF, 0xBF, 0xBD];
  }

  lemma ScrubOfChar(c: char, rest: seq<byte>)
    ensures Scrub(EncodeChar(c) + rest) == EncodeChar(c) + Scrub(rest)
  {
    var s := EncodeChar(c) + rest;
    DecodeOfEncode(c, rest);
    ScrubStep(s);
    assert s[|EncodeChar(c)|..] == rest;
  }

  lemma ScrubOfCharAnd(c: char, mid: seq<byte>, rest: seq<byte>)
    requires Scrub(mid + rest) == mid + Scrub(rest)
    ensures Scrub(EncodeChar(c) + mid + rest) == EncodeChar(c) + mid + Scrub(rest)
  {
    assert EncodeChar(c) + mid + rest == EncodeChar(c) + (mid + rest);
    ScrubOfChar(c, mid + rest);
  }

  /** Well-formed text at the front is left alone, and the rest is scrubbed on its own. */
  lemma {:induction false} ScrubAfterText(text: string, rest: seq<byte>)
    ensures Scrub(Encode(text) + rest) == Encode(text) + Scrub(rest)
  {
    if text == "" {
      assert Encode(text) + rest == rest;
    } else {
      ScrubAfterText(text[1..], rest);
      ScrubOfCharAnd(text[0], Encode(text[1..]), rest);
    }
  }

  lemma EncodePrepend(c: char, text: string)
    ensures Encode([c] + text) == EncodeChar(c) + Encode(text)
  {
    assert ([c] + text)[1..] == text;
  }

  /** Scrubbing always yields well-formed text. */
  lemma {:induction false} ScrubYieldsText(s: seq<byte>)
    ensures WellFormed(Scrub(s))
    decreases |s|
  {
    if s == [] {
      assert Scrub(s) == Encode("");
    } else {
      var Rune(c, width) := DecodeFirst(s);
      ScrubStep(s);
      ScrubYieldsText(s[width..]);
      var text :| Scrub(s[width..]) == Encode(text);
      EncodePrepend(c, text);
    }
  }

  lemma ScrubStepLength(s: seq<byte>)
    requires s != []
    ensures |Scrub(s)| == |Scrub(s[DecodeFirst(s).width..])| + DecodeFirst(s).width + if StartsWithChar(s) then 0 else 2
  {
    ScrubStep(s);
    assert |EncodeChar(REPLACEMENT)| == 3;
  }

  /** Each replacement makes the string two bytes longer. */
  lemma {:induction false} ScrubLength(s: seq<byte>)
    ensures |Scrub(s)| == |s| + 2 * Broken(s)
    decreases |s|
  {
    if s != [] {
      ScrubLength(s[DecodeFirst(s).width..]);
      ScrubStepLength(s);
    }
  }

  lemma ScrubStepKeeps(s: seq<byte>)
    requires s != [] && StartsWithChar(s)
    ensures Scrub(s) == s[..DecodeFirst(s).width] + Scrub(s[DecodeFirst(s).width..])
  {
    ScrubStep(s);
  }

  lemma UnbrokenStep(s: seq<byte>)
    requires s != [] && Broken(s) == 0
    ensures StartsWithChar(s) && Broken(s[DecodeFirst(s).width..]) == 0
  {
  }

  lemma ScrubNil()
    ensures Scrub([]) == []
  {
  }

  /** Where nothing is replaced, nothing changes. */
  lemma {:induction false} ScrubUnbroken(s: seq<byte>)
    requires Broken(s) == 0
    ensures Scrub(s) == s
    decreases |s|
  {
    hide Broken, Scrub, DecodeFirst;
    if s == [] {
      ScrubNil();
    } else {
      var width := DecodeFirst(s).width;
      UnbrokenStep(s);
      ScrubUnbroken(s[width..]);
      ScrubStepKeeps(s);
      assert s == s[..width] + s[width..];
    }
  }

  /** `Scrub` is the identity exactly on well-formed strings. */
  lemma ScrubFixesExactlyText(s: seq<byte>)
    ensures Scrub(s) == s <==> WellFormed(s)
  {
    ScrubYieldsText(s);
    if WellFormed(s) {
      var text :| s == Encode(text);
      ScrubAfterText(text, []);
      assert Encode(text) + [] == s;
    }
  }

  /** Different texts have different octets. */
  lemma {:induction false} EncodeIsInjective(a: string, b: string)
    requires Encode(a) == Encode(b)
    ensures a == b
  {
    if a != "" && b != "" {
      DecodeOfEncode(a[0], Encode(a[1..]));
      DecodeOfEncode(b[0], Encode(b[1..]));
      assert Encode(a[1..]) == Encode(a)[|EncodeChar(a[0])|..];
      assert Encode(b[1..]) == Encode(b)[|EncodeChar(b[0])|..];
      EncodeIsInjective(a[1..], b[1..]);
      assert a == [a[0]] + a[1..] && b == [b[0]] + b[1..];
    }
  }
}
