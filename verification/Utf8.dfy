/** UTF-8: `wcrtomb` and `wcsrtombs` of src/ansi/wchar.cpp, `mbrtoc32` of src/ansi/uchar.cpp and `mbsnrtowcs` of
    src/internal/string.cpp. Bytes and wide characters are bit vectors; wchar_t is the signed 32-bit type. */
module Utf8 {
  import opened Options
  import opened Words

  type WChar = bv32

  // ---------------------------------------------------------------------------------------------------
  // One character

  predicate Negative(wc: WChar) {
    wc >= 0x8000_0000
  }

  /** `wcrtomb`: None is EILSEQ. A negative wchar_t compares below 0x7F and yields its low byte. */
  function Wcrtomb(wc: WChar): (r: Option<seq<Byte>>)
    ensures r.None? <==> 0x10FFFF < wc < 0x8000_0000
    ensures r.Some? ==> 1 <= |r.value| <= 4
  {
    if Negative(wc) || wc <= 0x7F then
      Some([(wc & 0xFF) as bv8])
    else if wc <= 0x7FF then
      Some([(0xC0 | (wc >> 6)) as bv8, (0x80 | (wc & 0x3F)) as bv8])
    else if wc <= 0xFFFF then
      Some([(0xE0 | (wc >> 12)) as bv8, (0x80 | ((wc >> 6) & 0x3F)) as bv8, (0x80 | (wc & 0x3F)) as bv8])
    else if wc <= 0x10FFFF then
      Some([(0xF0 | (wc >> 18)) as bv8, (0x80 | ((wc >> 12) & 0x3F)) as bv8, (0x80 | ((wc >> 6) & 0x3F)) as bv8,
            (0x80 | (wc & 0x3F)) as bv8])
    else
      None
  }

  /** The results of `mbrtoc32`: (size_t)-2, (size_t)-1, or a character and the bytes it took. A NUL byte reports no
      bytes used. */
  datatype Decoded = Incomplete | Illegal | Char(c: WChar, used: nat)

  predicate Continuation(b: Byte) {
    b & 0xC0 == 0x80
  }

  function Low6(b: Byte): bv32 {
    (b & 0x3F) as bv32
  }

  /** The payload bits of a two-, three- and four-byte sequence put together. */
  function Join2(a: Byte, b: Byte): WChar {
    Low6(b) | ((a & 0x1F) as bv32 << 6)
  }

  function Join3(a: Byte, b: Byte, c: Byte): WChar {
    Low6(c) | (Low6(b) << 6) | ((a & 0x0F) as bv32 << 12)
  }

  function Join4(a: Byte, b: Byte, c: Byte, d: Byte): WChar {
    Low6(d) | (Low6(c) << 6) | (Low6(b) << 12) | ((a & 0x07) as bv32 << 18)
  }

  /** Bytes may be read up to the count n; a NUL byte stops the decoder before it leaves the string. */
  predicate Readable(str: seq<Byte>, n: nat) {
    n <= |str| || 0 in str
  }

  /** `mbrtoc32` with a non-null string. */
  function Mbrtoc32(str: seq<Byte>, n: nat): Decoded
    requires Readable(str, n)
  {
    if n == 0 then Incomplete
    else
      var first := str[0];
      if first & 0x80 == 0 then Char(first as bv32, if first == 0 then 0 else 1)
      else if first & 0xE0 == 0xC0 then
        if n == 1 then Incomplete
        else if !Continuation(str[1]) then Illegal
        else Char(Join2(first, str[1]), 2)
      else if first & 0xF0 == 0xE0 then
        if n == 1 then Incomplete
        else if !Continuation(str[1]) then Illegal
        else if n == 2 then Incomplete
        else if !Continuation(str[2]) then Illegal
        else Char(Join3(first, str[1], str[2]), 3)
      else if first & 0xF8 == 0xF0 then
        if n == 1 then Incomplete
        else if !Continuation(str[1]) then Illegal
        else if n == 2 then Incomplete
        else if !Continuation(str[2]) then Illegal
        else if n == 3 then Incomplete
        else if !Continuation(str[3]) then Illegal
        else Char(Join4(first, str[1], str[2], str[3]), 4)
      else Illegal
  }

  /** The non-null characters the code has an encoding for: those of section 3 of RFC 3629, and the surrogates, which
      that section forbids. */
  predicate Encodable(wc: WChar) {
    0 < wc <= 0x10FFFF
  }

  /** Lead and continuation bytes, where the payload bits go, and how they come back: one lemma per length. */
  lemma TwoByteBits(wc: WChar)
    requires 0x7F < wc <= 0x7FF
    ensures var a, b := (0xC0 | (wc >> 6)) as bv8, (0x80 | (wc & 0x3F)) as bv8;
            && a & 0x80 != 0 && a & 0xE0 == 0xC0 && Continuation(b)
            && Join2(a, b) == wc
  {}

  lemma ThreeByteBits(wc: WChar)
    requires 0x7FF < wc <= 0xFFFF
    ensures var a, b, c := (0xE0 | (wc >> 12)) as bv8, (0x80 | ((wc >> 6) & 0x3F)) as bv8, (0x80 | (wc & 0x3F)) as bv8;
            && a & 0x80 != 0 && a & 0xE0 != 0xC0 && a & 0xF0 == 0xE0 && Continuation(b) && Continuation(c)
            && Join3(a, b, c) == wc
  {}

  lemma FourByteBits(wc: WChar)
    requires 0xFFFF < wc <= 0x10FFFF
    ensures var a, b := (0xF0 | (wc >> 18)) as bv8, (0x80 | ((wc >> 12) & 0x3F)) as bv8;
            var c, d := (0x80 | ((wc >> 6) & 0x3F)) as bv8, (0x80 | (wc & 0x3F)) as bv8;
            && a & 0x80 != 0 && a & 0xE0 != 0xC0 && a & 0xF0 != 0xE0 && a & 0xF8 == 0xF0
            && Continuation(b) && Continuation(c) && Continuation(d)
            && Join4(a, b, c, d) == wc
  {}

  lemma OneByteBits(wc: WChar)
    requires wc <= 0x7F
    ensures (wc & 0xFF) as bv8 & 0x80 == 0 && (wc & 0xFF) as bv8 as bv32 == wc
    ensures (wc & 0xFF) as bv8 == 0 <==> wc == 0
  {}

  lemma OneByteDecode(wc: WChar, str: seq<Byte>, n: nat)
    requires 0 < wc <= 0x7F && 1 <= n && Readable(str, n) && |str| >= 1 && str[0] == (wc & 0xFF) as bv8
    ensures Mbrtoc32(str, n) == Char(wc, 1)
  {
    OneByteBits(wc);
  }

  lemma TwoByteDecode(wc: WChar, str: seq<Byte>, n: nat)
    requires 0x7F < wc <= 0x7FF && 2 <= n && Readable(str, n) && |str| >= 2
    requires str[0] == (0xC0 | (wc >> 6)) as bv8 && str[1] == (0x80 | (wc & 0x3F)) as bv8
    ensures Mbrtoc32(str, n) == Char(wc, 2)
  {
    TwoByteBits(wc);
  }

  lemma ThreeByteDecode(wc: WChar, str: seq<Byte>, n: nat)
    requires 0x7FF < wc <= 0xFFFF && 3 <= n && Readable(str, n) && |str| >= 3
    requires str[0] == (0xE0 | (wc >> 12)) as bv8 && str[1] == (0x80 | ((wc >> 6) & 0x3F)) as bv8
    requires str[2] == (0x80 | (wc & 0x3F)) as bv8
    ensures Mbrtoc32(str, n) == Char(wc, 3)
  {
    ThreeByteBits(wc);
  }

  lemma FourByteDecode(wc: WChar, str: seq<Byte>, n: nat)
    requires 0xFFFF < wc <= 0x10FFFF && 4 <= n && Readable(str, n) && |str| >= 4
    requires str[0] == (0xF0 | (wc >> 18)) as bv8 && str[1] == (0x80 | ((wc >> 12) & 0x3F)) as bv8
    requires str[2] == (0x80 | ((wc >> 6) & 0x3F)) as bv8 && str[3] == (0x80 | (wc & 0x3F)) as bv8
    ensures Mbrtoc32(str, n) == Char(wc, 4)
  {
    FourByteBits(wc);
  }

  /** Decoding a string that starts with an encoded character gives it back with the bytes it took. */
  lemma CharRoundTrip(wc: WChar, str: seq<Byte>, n: nat)
    requires Encodable(wc) && Wcrtomb(wc).value <= str
    requires |Wcrtomb(wc).value| <= n && Readable(str, n)
    ensures Mbrtoc32(str, n) == Char(wc, |Wcrtomb(wc).value|)
  {
    if wc <= 0x7F {
      OneByteDecode(wc, str, n);
    } else if wc <= 0x7FF {
      TwoByteDecode(wc, str, n);
    } else if wc <= 0xFFFF {
      ThreeByteDecode(wc, str, n);
    } else {
      FourByteDecode(wc, str, n);
    }
  }

  /** A proper prefix of an encoding is incomplete: never a character, never an error. */
  lemma PrefixIncomplete(wc: WChar, n: nat)
    requires Encodable(wc) && n < |Wcrtomb(wc).value|
    ensures Mbrtoc32(Wcrtomb(wc).value[..n], n) == Incomplete
  {
    if 0x7F < wc <= 0x7FF {
      TwoByteBits(wc);
    } else if 0x7FF < wc <= 0xFFFF {
      ThreeByteBits(wc);
    } else if 0xFFFF < wc {
      FourByteBits(wc);
    }
  }

  /** A result never claims more bytes than were offered, and only a NUL byte claims none. */
  lemma UsedWithinCount(str: seq<Byte>, n: nat)
    requires Readable(str, n) && Mbrtoc32(str, n).Char?
    ensures var d := Mbrtoc32(str, n);
            && d.used <= n && d.used <= |str| && (d.used == 0 <==> d.c == 0 && str[0] == 0)
  {
    hide Join2, Join3, Join4;
    OneByteValue(str[0]);
  }

  lemma OneByteValue(b: Byte)
    ensures b as bv32 == 0 <==> b == 0
  {}

  /** The first bytes section 4 of RFC 3629 allows a sequence of their length to start with, surrogates aside: no C0 or
      C1, A0 or more after E0, 90 or more after F0, less than 90 after F4, nothing above F4. */
  predicate Canonical(str: seq<Byte>) {
    if str == [] || (str[0] >= 0xE0 && |str| < 2) then false
    else if str[0] < 0xE0 then str[0] < 0x80 || str[0] >= 0xC2
    else if str[0] < 0xF0 then str[0] > 0xE0 || str[1] >= 0xA0
    else (str[0] > 0xF0 || str[1] >= 0x90) && (str[0] < 0xF4 || (str[0] == 0xF4 && str[1] < 0x90))
  }

  lemma OneByteBack(a: Byte)
    requires a & 0x80 == 0
    ensures var c := a as bv32; c <= 0x7F && (c & 0xFF) as bv8 == a
  {}

  lemma TwoBytesBack(a: Byte, b: Byte)
    requires a & 0xE0 == 0xC0 && Continuation(b)
    ensures var c := Join2(a, b);
            c <= 0x7FF && (0xC0 | (c >> 6)) as bv8 == a && (0x80 | (c & 0x3F)) as bv8 == b
  {}

  lemma ThreeBytesBack(a: Byte, b: Byte, c: Byte)
    requires a & 0xF0 == 0xE0 && Continuation(b) && Continuation(c)
    ensures var w := Join3(a, b, c);
            && w <= 0xFFFF && (0xE0 | (w >> 12)) as bv8 == a
            && (0x80 | ((w >> 6) & 0x3F)) as bv8 == b && (0x80 | (w & 0x3F)) as bv8 == c
  {}

  lemma FourBytesBack(a: Byte, b: Byte, c: Byte, d: Byte)
    requires a & 0xF8 == 0xF0 && Continuation(b) && Continuation(c) && Continuation(d)
    ensures var w := Join4(a, b, c, d);
            && w <= 0x1F_FFFF && (0xF0 | (w >> 18)) as bv8 == a && (0x80 | ((w >> 12) & 0x3F)) as bv8 == b
            && (0x80 | ((w >> 6) & 0x3F)) as bv8 == c && (0x80 | (w & 0x3F)) as bv8 == d
  {}

  /** How many bytes a character gets. */
  lemma EncodingLength(c: WChar)
    requires c <= 0x1F_FFFF
    ensures c <= 0x7F ==> Wcrtomb(c) == Some([(c & 0xFF) as bv8])
    ensures 0x7F < c <= 0x7FF ==> Wcrtomb(c).Some? && |Wcrtomb(c).value| == 2
    ensures 0x7FF < c <= 0xFFFF ==> Wcrtomb(c).Some? && |Wcrtomb(c).value| == 3
    ensures 0xFFFF < c <= 0x10_FFFF ==> Wcrtomb(c).Some? && |Wcrtomb(c).value| == 4
    ensures 0x10_FFFF < c ==> Wcrtomb(c).None?
  {}

  /** The byte conditions in terms of the joined value. */
  lemma CanonicalTwo(a: Byte, b: Byte)
    requires a & 0xE0 == 0xC0 && Continuation(b)
    ensures 0x80 <= a < 0xE0 && (a >= 0xC2 <==> Join2(a, b) >= 0x80)
  {}

  lemma CanonicalThree(a: Byte, b: Byte, c: Byte)
    requires a & 0xF0 == 0xE0 && Continuation(b) && Continuation(c)
    ensures 0xE0 <= a < 0xF0 && (a > 0xE0 || b >= 0xA0 <==> Join3(a, b, c) >= 0x800)
  {}

  lemma CanonicalFour(a: Byte, b: Byte, c: Byte, d: Byte)
    requires a & 0xF8 == 0xF0 && Continuation(b) && Continuation(c) && Continuation(d)
    ensures 0xF0 <= a
    ensures a > 0xF0 || b >= 0x90 <==> Join4(a, b, c, d) >= 0x1_0000
    ensures a < 0xF4 || (a == 0xF4 && b < 0x90) <==> Join4(a, b, c, d) <= 0x10_FFFF
  {}

  lemma ReencodeOne(str: seq<Byte>)
    requires |str| >= 1 && str[0] & 0x80 == 0
    ensures str[0] < 0xE0 && Canonical(str) && Wcrtomb(str[0] as bv32) == Some(str[..1])
  {
    OneByteBack(str[0]);
    EncodingLength(str[0] as bv32);
    assert str[..1] == [str[0]];
  }

  lemma ReencodeTwo(str: seq<Byte>)
    requires |str| >= 2 && str[0] & 0xE0 == 0xC0 && Continuation(str[1])
    ensures Wcrtomb(Join2(str[0], str[1])) == Some(str[..2]) <==> Canonical(str)
    ensures var e := Wcrtomb(Join2(str[0], str[1])); !Canonical(str) && e.Some? ==> |e.value| < 2
  {
    var c := Join2(str[0], str[1]);
    CanonicalTwo(str[0], str[1]);
    TwoBytesBack(str[0], str[1]);
    hide Join2, Continuation;
    assert str[..2] == [str[0], str[1]];
    if c < 0x80 {
      EncodingLength(c);
    }
  }

  lemma ReencodeThree(str: seq<Byte>)
    requires |str| >= 3 && str[0] & 0xF0 == 0xE0 && Continuation(str[1]) && Continuation(str[2])
    ensures Wcrtomb(Join3(str[0], str[1], str[2])) == Some(str[..3]) <==> Canonical(str)
    ensures var e := Wcrtomb(Join3(str[0], str[1], str[2])); !Canonical(str) && e.Some? ==> |e.value| < 3
  {
    hide Join3, Continuation, Wcrtomb;
    var w := Join3(str[0], str[1], str[2]);
    CanonicalThree(str[0], str[1], str[2]);
    ThreeBytesBack(str[0], str[1], str[2]);
    EncodingLength(w);
    assert str[..3] == [str[0], str[1], str[2]];
    if w >= 0x800 {
      EncodingOfThree(w);
    }
  }

  lemma EncodingOfThree(w: WChar)
    requires 0x7FF < w <= 0xFFFF
    ensures Wcrtomb(w) == Some([(0xE0 | (w >> 12)) as bv8, (0x80 | ((w >> 6) & 0x3F)) as bv8,
                                (0x80 | (w & 0x3F)) as bv8])
  {}

  lemma ReencodeFour(str: seq<Byte>)
    requires |str| >= 4 && str[0] & 0xF8 == 0xF0
    requires Continuation(str[1]) && Continuation(str[2]) && Continuation(str[3])
    ensures Wcrtomb(Join4(str[0], str[1], str[2], str[3])) == Some(str[..4]) <==> Canonical(str)
    ensures var e := Wcrtomb(Join4(str[0], str[1], str[2], str[3])); !Canonical(str) && e.Some? ==> |e.value| < 4
  {
    hide Join4, Continuation, Wcrtomb, Canonical;
    var w := Join4(str[0], str[1], str[2], str[3]);
    CanonicalStart(str);
    FourBytesBelow(str[0], str[1], str[2], str[3]);
    EncodingLength(w);
    assert str[..4] == [str[0], str[1], str[2], str[3]];
    if 0x1_0000 <= w <= 0x10_FFFF {
      EncodingOfFour(str[0], str[1], str[2], str[3]);
    }
  }

  lemma CanonicalStart(str: seq<Byte>)
    requires |str| >= 4 && str[0] & 0xF8 == 0xF0
    requires Continuation(str[1]) && Continuation(str[2]) && Continuation(str[3])
    ensures Canonical(str) <==> 0x1_0000 <= Join4(str[0], str[1], str[2], str[3]) <= 0x10_FFFF
  {
    hide Join4, Continuation;
    CanonicalFour(str[0], str[1], str[2], str[3]);
  }

  lemma EncodingOfFour(a: Byte, b: Byte, c: Byte, d: Byte)
    requires a & 0xF8 == 0xF0 && Continuation(b) && Continuation(c) && Continuation(d)
    requires 0x1_0000 <= Join4(a, b, c, d) <= 0x10_FFFF
    ensures Wcrtomb(Join4(a, b, c, d)) == Some([a, b, c, d])
  {
    FourBytesBack(a, b, c, d);
    hide Join4, Continuation;
  }

  /** The bytes a decoded character stands for; the decoder reports none for a NUL byte. */
  function Taken(d: Decoded): nat
    requires d.Char?
  {
    if d.used == 0 then 1 else d.used
  }

  /** The other direction, exactly and for every character decoded, the NUL and its overlong forms included: encoding it
      gives its bytes back when the sequence starts as section 4 of RFC 3629 demands, and not otherwise. */
  lemma ReencodeIff(str: seq<Byte>, n: nat)
    requires Readable(str, n) && Mbrtoc32(str, n).Char?
    ensures var d := Mbrtoc32(str, n);
            && 1 <= Taken(d) <= |str|
            && (Wcrtomb(d.c) == Some(str[..Taken(d)]) <==> Canonical(str))
            && (Wcrtomb(d.c).Some? && !Canonical(str) ==> |Wcrtomb(d.c).value| < Taken(d))
  {
    hide Wcrtomb, Join2, Join3, Join4, Continuation, Canonical;
    UsedWithinCount(str, n);
    var d := Mbrtoc32(str, n);
    if d.used <= 1 {
      ReencodeOne(str);
    } else if d.used == 2 {
      ReencodeTwo(str);
    } else if d.used == 3 {
      ReencodeThree(str);
    } else {
      ReencodeFour(str);
    }
  }

  // ---------------------------------------------------------------------------------------------------
  // The grammar of RFC 3629

  predicate Tail(b: Byte) {
    0x80 <= b <= 0xBF
  }

  /** UTF8-char of section 4 of RFC 3629. */
  predicate RfcSequence(s: seq<Byte>) {
    if |s| == 1 then s[0] <= 0x7F
    else if |s| == 2 then 0xC2 <= s[0] <= 0xDF && Tail(s[1])
    else if |s| == 3 then
      && Tail(s[2])
      && (|| (s[0] == 0xE0 && 0xA0 <= s[1] <= 0xBF) || (0xE1 <= s[0] <= 0xEC && Tail(s[1]))
          || (s[0] == 0xED && 0x80 <= s[1] <= 0x9F) || (0xEE <= s[0] <= 0xEF && Tail(s[1])))
    else if |s| == 4 then
      && Tail(s[2]) && Tail(s[3])
      && (|| (s[0] == 0xF0 && 0x90 <= s[1] <= 0xBF) || (0xF1 <= s[0] <= 0xF3 && Tail(s[1]))
          || (s[0] == 0xF4 && 0x80 <= s[1] <= 0x8F))
    else false
  }

  predicate Surrogate(c: WChar) {
    0xD800 <= c <= 0xDFFF
  }

  predicate SurrogateStart(str: seq<Byte>) {
    |str| >= 2 && str[0] == 0xED && str[1] >= 0xA0
  }

  lemma TailIsContinuation(b: Byte)
    ensures Tail(b) <==> Continuation(b)
  {}

  lemma LeadMasks(a: Byte)
    ensures a & 0x80 == 0 <==> a <= 0x7F
    ensures a & 0xE0 == 0xC0 <==> 0xC0 <= a <= 0xDF
    ensures a & 0xF0 == 0xE0 <==> 0xE0 <= a <= 0xEF
    ensures a & 0xF8 == 0xF0 <==> 0xF0 <= a <= 0xF7
  {}

  /** A sequence the decoder accepts is one RFC 3629 allows exactly when its start is canonical and not that of a
      surrogate. */
  lemma AcceptedRfcIff(str: seq<Byte>, n: nat)
    requires Readable(str, n) && Mbrtoc32(str, n).Char?
    ensures var k := Taken(Mbrtoc32(str, n));
            1 <= k <= |str| && (RfcSequence(str[..k]) <==> Canonical(str) && !SurrogateStart(str))
  {
    hide Join2, Join3, Join4, Continuation;
    UsedWithinCount(str, n);
    var k := Taken(Mbrtoc32(str, n));
    LeadMasks(str[0]);
    if k > 1 {
      TailIsContinuation(str[1]);
    }
    if k > 2 {
      TailIsContinuation(str[2]);
    }
    if k > 3 {
      TailIsContinuation(str[3]);
    }
  }

  /** Conversely the decoder accepts every sequence RFC 3629 allows, as one character. */
  lemma RfcAccepted(s: seq<Byte>)
    requires RfcSequence(s)
    ensures Mbrtoc32(s, |s|).Char? && Taken(Mbrtoc32(s, |s|)) == |s|
  {
    hide Join2, Join3, Join4, Continuation;
    LeadMasks(s[0]);
    if |s| > 1 {
      TailIsContinuation(s[1]);
    }
    if |s| > 2 {
      TailIsContinuation(s[2]);
    }
    if |s| > 3 {
      TailIsContinuation(s[3]);
    }
  }

  lemma ThreeByteSurrogates(a: Byte, b: Byte, c: Byte)
    requires a & 0xF0 == 0xE0 && Continuation(b) && Continuation(c)
    ensures Surrogate(Join3(a, b, c)) <==> a == 0xED && b >= 0xA0
  {}

  /** Among canonical sequences those that start as a surrogate are the ones that decode to one. */
  lemma SurrogateForm(str: seq<Byte>, n: nat)
    requires Readable(str, n) && Mbrtoc32(str, n).Char? && Canonical(str)
    ensures SurrogateStart(str) <==> Surrogate(Mbrtoc32(str, n).c)
  {
    hide Join2, Join3, Join4, Continuation, Wcrtomb;
    UsedWithinCount(str, n);
    ReencodeIff(str, n);
    LeadMasks(str[0]);
    CharBelow(str, n);
    var d := Mbrtoc32(str, n);
    EncodingLength(d.c);
    if d.used == 3 {
      ThreeByteSurrogates(str[0], str[1], str[2]);
    }
  }

  /** The encoder writes a sequence RFC 3629 allows exactly when the character is not a surrogate; for a negative
      wchar_t it writes the low byte, so exactly when that one is ASCII. */
  lemma EncodedRfcIff(wc: WChar)
    requires Wcrtomb(wc).Some?
    ensures RfcSequence(Wcrtomb(wc).value) <==> if Negative(wc) then wc & 0x80 == 0 else !Surrogate(wc)
  {
    if Negative(wc) || wc <= 0x7F {
      LowByte(wc);
    } else {
      hide Wcrtomb;
      var e := Wcrtomb(wc).value;
      CharRoundTrip(wc, e, |e|);
      ReencodeIff(e, |e|);
      assert e[..|e|] == e;
      AcceptedRfcIff(e, |e|);
      SurrogateForm(e, |e|);
    }
  }

  /** A negative wchar_t is not reported: a byte is written that the decoder then rejects. */
  lemma NegativeWitness()
    ensures Wcrtomb(0xFFFF_FFFF) == Some([0xFF]) && Mbrtoc32([0xFF], 1) == Illegal
  {}

  lemma LowByte(wc: WChar)
    ensures (wc & 0xFF) as bv8 <= 0x7F <==> wc & 0x80 == 0
    ensures wc <= 0x7F ==> wc & 0x80 == 0
  {}

  /** Sequences RFC 3629 excludes and the decoder accepts: an overlong slash, the overlong NUL, the value after
      0x10FFFF, and a surrogate, which the encoder writes too. */
  lemma ExcludedForms()
    ensures Mbrtoc32([0xC0, 0xAF], 2) == Char(0x2F, 2) && !RfcSequence([0xC0, 0xAF])
    ensures Mbrtoc32([0xC0, 0x80], 2) == Char(0, 2) && !RfcSequence([0xC0, 0x80])
    ensures Mbrtoc32([0xF4, 0x90, 0x80, 0x80], 4) == Char(0x11_0000, 4) && !RfcSequence([0xF4, 0x90, 0x80, 0x80])
    ensures Mbrtoc32([0xED, 0xA0, 0x80], 3) == Char(0xD800, 3) && !RfcSequence([0xED, 0xA0, 0x80])
    ensures Wcrtomb(0xD800) == Some([0xED, 0xA0, 0x80])
  {}

  // ---------------------------------------------------------------------------------------------------
  // Encoding strings

  const SIZE_MAX: nat := 0xFFFF_FFFF_FFFF_FFFF

  /** Characters before the terminator, all of which have an encoding. */
  predicate Legal(ws: seq<WChar>) {
    forall i | 0 <= i < |ws| :: ws[i] != 0 && Wcrtomb(ws[i]).Some?
  }

  function Encoded(ws: seq<WChar>): seq<Byte>
    requires Legal(ws)
  {
    if ws == [] then [] else Encoded(ws[..|ws| - 1]) + Wcrtomb(ws[|ws| - 1]).value
  }

  lemma {:induction false} EncodedAppend(a: seq<WChar>, b: seq<WChar>)
    requires Legal(a) && Legal(b)
    ensures Legal(a + b) && Encoded(a + b) == Encoded(a) + Encoded(b)
  {
    hide Wcrtomb;
    LegalAppend(a, b);
    if b == [] {
      assert a + b == a;
    } else {
      var m := b[..|b| - 1];
      EncodedAppend(a, m);
      var ab := a + b;
      assert ab[..|ab| - 1] == a + m && ab[|ab| - 1] == b[|b| - 1];
    }
  }

  lemma LegalAppend(a: seq<WChar>, b: seq<WChar>)
    requires Legal(a) && Legal(b)
    ensures Legal(a + b)
  {
    hide Wcrtomb;
  }

  lemma EncodedStep(src: seq<WChar>, pos: nat, ptr: nat)
    requires pos <= ptr < |src| && Legal(src[pos..ptr]) && src[ptr] != 0 && Wcrtomb(src[ptr]).Some?
    ensures Legal(src[pos..ptr + 1])
    ensures Encoded(src[pos..ptr + 1]) == Encoded(src[pos..ptr]) + Wcrtomb(src[ptr]).value
  {
    hide Wcrtomb;
    var ws := src[pos..ptr + 1];
    assert ws[..|ws| - 1] == src[pos..ptr];
  }

  /** How a call of `wcsrtombs` ends: (size_t)-1 with *src at the bad character; *src at the first character that does
      not fit; or *src null after the terminator has been written. */
  datatype Conversion = Error(at: nat) | Stopped(size: nat, next: nat) | Finished(size: nat)

  /** The contract of one call: `out` is a whole number of characters from `pos` on, as many as fit. */
  ghost predicate Converts(src: seq<WChar>, pos: nat, limit: nat, out: seq<Byte>, r: Conversion) {
    && |out| <= limit
    && match r
       case Error(at) =>
         && pos <= at < |src| && Legal(src[pos..at]) && out == Encoded(src[pos..at])
         && Wcrtomb(src[at]).None?
       case Stopped(size, next) =>
         && pos <= next < |src| && Legal(src[pos..next]) && out == Encoded(src[pos..next]) && size == |out|
         && Wcrtomb(src[next]).Some? && |out| + |Wcrtomb(src[next]).value| > limit
       case Finished(size) =>
         && size + 1 == |out|
         && exists end | pos <= end < |src| ::
              src[end] == 0 && Legal(src[pos..end]) && out == Encoded(src[pos..end]) + [0]
  }

  /** `wcsrtombs` */
  method Wcsrtombs(dest: array?<Byte>, src: seq<WChar>, pos: nat, limit: nat)
    returns (r: Conversion, ghost out: seq<Byte>)
    requires pos <= |src| && 0 in src[pos..]
    requires dest != null ==> limit <= dest.Length
    modifies dest
    ensures Converts(src, pos, if dest == null then SIZE_MAX else limit, out, r)
    ensures dest != null ==> dest[..|out|] == out && dest[|out|..] == old(dest[|out|..])
  {
    hide Wcrtomb;
    var len: nat := limit;
    if dest == null {
      len := SIZE_MAX;
    }
    ghost var room := len;
    var ptr: nat, size: nat := pos, 0;
    out := [];
    assert src[pos..pos] == [];
    while true
      invariant pos <= ptr < |src| && 0 in src[ptr..]
      invariant Legal(src[pos..ptr]) && out == Encoded(src[pos..ptr])
      invariant size == |out| && size + len == room
      invariant dest != null ==> room == limit && dest[..size] == out && dest[size..] == old(dest[size..])
      decreases |src| - ptr
    {
      var buf := Wcrtomb(src[ptr]);
      if buf.None? {
        return Error(ptr), out;
      } else if |buf.value| > len {
        return Stopped(size, ptr), out;
      }
      if dest != null {
        ghost var k := size + |buf.value|;
        assert dest[k..] == dest[size..][|buf.value|..] == old(dest[size..])[|buf.value|..] == old(dest[k..]);
        CopyBytes(dest, size, buf.value);
        assert dest[..k] == dest[..size] + dest[size..k];
      }
      out := out + buf.value;
      size := size + |buf.value|;
      len := len - |buf.value|;
      if src[ptr] == 0 {
        NulEncoding();
        return Finished(size - 1), out;
      }
      EncodedStep(src, pos, ptr);
      ptr := ptr + 1;
    }
  }

  lemma NulEncoding()
    ensures Wcrtomb(0) == Some([0])
  {}

  /** memcpy into the destination. */
  method CopyBytes(dest: array<Byte>, at: nat, bytes: seq<Byte>)
    requires at + |bytes| <= dest.Length
    modifies dest
    ensures dest[..at] == old(dest[..at]) && dest[at..at + |bytes|] == bytes
    ensures dest[at + |bytes|..] == old(dest[at + |bytes|..])
  {
    forall i | 0 <= i < |bytes| {
      dest[at + i] := bytes[i];
    }
  }

  /** One of several calls that share the work of converting a string. */
  datatype Chunk = Chunk(limit: nat, out: seq<Byte>, r: Conversion)

  /** Each call resumes where the one before stopped. */
  ghost predicate Resumed(src: seq<WChar>, pos: nat, chunks: seq<Chunk>)
    decreases |chunks|
  {
    && chunks != []
    && Converts(src, pos, chunks[0].limit, chunks[0].out, chunks[0].r)
    && (|chunks| > 1 ==> chunks[0].r.Stopped? && Resumed(src, chunks[0].r.next, chunks[1..]))
  }

  function Joined(chunks: seq<Chunk>): seq<Byte> {
    if chunks == [] then [] else chunks[0].out + Joined(chunks[1..])
  }

  /** A conversion from pos has ended at `end`, the first character that is the terminator or has no encoding. */
  ghost predicate EndsAt(src: seq<WChar>, pos: nat, end: nat, out: seq<Byte>, r: Conversion) {
    && pos <= end < |src| && Legal(src[pos..end])
    && match r
       case Error(at) => at == end && Wcrtomb(src[end]).None? && out == Encoded(src[pos..end])
       case Stopped(_, _) => false
       case Finished(_) => src[end] == 0 && out == Encoded(src[pos..end]) + [0]
  }

  lemma ConversionEnds(src: seq<WChar>, pos: nat, limit: nat, out: seq<Byte>, r: Conversion) returns (end: nat)
    requires Converts(src, pos, limit, out, r) && !r.Stopped?
    ensures EndsAt(src, pos, end, out, r)
  {
    hide Wcrtomb, Legal, Encoded;
    if r.Error? {
      end := r.at;
    } else {
      end :| pos <= end < |src| && src[end] == 0 && Legal(src[pos..end]) && out == Encoded(src[pos..end]) + [0];
    }
  }

  lemma {:induction false} JoinedIsEncoding(src: seq<WChar>, pos: nat, chunks: seq<Chunk>) returns (end: nat)
    requires Resumed(src, pos, chunks) && !chunks[|chunks| - 1].r.Stopped?
    ensures EndsAt(src, pos, end, Joined(chunks), chunks[|chunks| - 1].r)
    decreases |chunks|
  {
    hide Wcrtomb, Legal, EndsAt;
    if |chunks| == 1 {
      assert Joined(chunks[1..]) == [];
      assert Joined(chunks) == chunks[0].out;
      end := ConversionEnds(src, pos, chunks[0].limit, chunks[0].out, chunks[0].r);
    } else {
      var next := chunks[0].r.next;
      end := JoinedIsEncoding(src, next, chunks[1..]);
      EndsAtEarlier(src, pos, next, end, chunks[0].out, Joined(chunks[1..]), chunks[|chunks| - 1].r);
    }
  }

  lemma EndsAtEarlier(src: seq<WChar>, pos: nat, next: nat, end: nat, first: seq<Byte>, rest: seq<Byte>, r: Conversion)
    requires pos <= next < |src| && Legal(src[pos..next]) && first == Encoded(src[pos..next])
    requires EndsAt(src, next, end, rest, r)
    ensures EndsAt(src, pos, end, first + rest, r)
  {
    hide Wcrtomb, Legal, Encoded;
    assert src[pos..end] == src[pos..next] + src[next..end];
    EncodedAppend(src[pos..next], src[next..end]);
    assert first + (Encoded(src[next..end]) + [0]) == (first + Encoded(src[next..end])) + [0];
  }

  /** Any series of resumed calls that comes to an end, at the terminator or at a character without an encoding, writes
      all together exactly what one call with enough room writes, and ends the same way at the same place. */
  lemma ChunksJoin(src: seq<WChar>, pos: nat, chunks: seq<Chunk>, limit: nat, out: seq<Byte>, r: Conversion)
    requires Resumed(src, pos, chunks) && !chunks[|chunks| - 1].r.Stopped?
    requires Converts(src, pos, limit, out, r) && !r.Stopped?
    ensures Joined(chunks) == out
    ensures var last := chunks[|chunks| - 1].r;
            (last.Finished? <==> r.Finished?) && (r.Error? ==> last == r)
  {
    hide Wcrtomb, Encoded, Converts, Resumed;
    var a := JoinedIsEncoding(src, pos, chunks);
    var b := ConversionEnds(src, pos, limit, out, r);
    if a < b {
      LegalBefore(src, pos, b, a);
    } else if b < a {
      LegalBefore(src, pos, a, b);
    }
    NulHasEncoding();
  }

  lemma LegalBefore(src: seq<WChar>, pos: nat, end: nat, i: nat)
    requires pos <= i < end <= |src| && Legal(src[pos..end])
    ensures src[i] != 0 && Wcrtomb(src[i]).Some?
  {
    hide Wcrtomb;
    assert src[pos..end][i - pos] == src[i];
  }

  lemma NulHasEncoding()
    ensures Wcrtomb(0).Some?
  {}

  /** With buffers of four bytes or more every call moves on, so a series that keeps stopping is no longer than the rest
      of the string. */
  lemma {:induction false} SeriesEnds(src: seq<WChar>, pos: nat, chunks: seq<Chunk>)
    requires Resumed(src, pos, chunks) && chunks[|chunks| - 1].r.Stopped?
    requires forall k | 0 <= k < |chunks| :: chunks[k].limit >= 4
    ensures pos + |chunks| <= chunks[|chunks| - 1].r.next < |src|
    decreases |chunks|
  {
    hide Converts, Wcrtomb;
    ResumeProgress(src, pos, chunks[0].limit, chunks[0].out, chunks[0].r);
    if |chunks| > 1 {
      SeriesEnds(src, chunks[0].r.next, chunks[1..]);
    } else {
      StopsInside(src, pos, chunks[0].limit, chunks[0].out, chunks[0].r);
    }
  }

  lemma StopsInside(src: seq<WChar>, pos: nat, limit: nat, out: seq<Byte>, r: Conversion)
    requires Converts(src, pos, limit, out, r) && r.Stopped?
    ensures r.next < |src|
  {
    hide Wcrtomb, Legal, Encoded;
  }

  /** A call that stops has moved on exactly when its buffer could hold the first character; four bytes always can. */
  lemma ResumeProgress(src: seq<WChar>, pos: nat, limit: nat, out: seq<Byte>, r: Conversion)
    requires Converts(src, pos, limit, out, r) && r.Stopped?
    ensures Wcrtomb(src[pos]).Some? && (r.next > pos <==> |Wcrtomb(src[pos]).value| <= limit)
    ensures limit >= 4 ==> r.next > pos
  {
    if r.next > pos {
      assert src[pos..r.next][0] == src[pos];
      FirstFits(src[pos..r.next]);
    }
  }

  lemma {:induction false} FirstFits(ws: seq<WChar>)
    requires Legal(ws) && ws != []
    ensures |Wcrtomb(ws[0]).value| <= |Encoded(ws)|
  {
    hide Wcrtomb;
    if |ws| > 1 {
      FirstFits(ws[..|ws| - 1]);
    }
  }

  // ---------------------------------------------------------------------------------------------------
  // Decoding strings

  /** Why decoding stopped. */
  datatype End = AtNul | AtIllegal | AtIncomplete | AtCount

  /** The characters found, the bytes they took, and what came after them. */
  datatype Text = Text(chars: seq<WChar>, consumed: nat, end: End)

  /** None of the bytes of a non-NUL character is a NUL byte. */
  lemma NoNulInside(str: seq<Byte>, n: nat)
    requires Readable(str, n) && Mbrtoc32(str, n).Char? && Mbrtoc32(str, n).c != 0
    ensures 0 < Mbrtoc32(str, n).used <= n && Mbrtoc32(str, n).used <= |str|
    ensures forall i | 0 <= i < Mbrtoc32(str, n).used :: str[i] != 0
  {
    hide Join2, Join3, Join4;
    UsedWithinCount(str, n);
    OneByteValue(str[0]);
  }

  lemma AdvanceReadable(str: seq<Byte>, n: nat, used: nat)
    requires Readable(str, n) && used <= n && used <= |str| && forall i | 0 <= i < used :: str[i] != 0
    ensures Readable(str[used..], n - used)
  {
    if n > |str| {
      var z :| 0 <= z < |str| && str[z] == 0;
      assert str[used..][z - used] == 0;
    }
  }

  /** One decoding step, with what the string driver needs to know about it. */
  function NextChar(str: seq<Byte>, n: nat): (d: Decoded)
    requires Readable(str, n)
    ensures d == Mbrtoc32(str, n)
    ensures d.Char? && d.c != 0 ==> 0 < d.used <= n && d.used <= |str| && Readable(str[d.used..], n - d.used)
  {
    var d := Mbrtoc32(str, n);
    if d.Char? && d.c != 0 then
      NoNulInside(str, n);
      AdvanceReadable(str, n, d.used);
      d
    else d
  }

  /** The characters in the first n bytes, up to a NUL, an error or the count. */
  function DecodeAll(str: seq<Byte>, n: nat): Text
    requires Readable(str, n)
    decreases n
  {
    if n == 0 then Text([], 0, AtCount)
    else
      match NextChar(str, n)
      case Illegal => Text([], 0, AtIllegal)
      case Incomplete => Text([], 0, AtIncomplete)
      case Char(c, used) =>
        if c == 0 then Text([], 0, AtNul)
        else
          var rest := DecodeAll(str[used..], n - used);
          Text([c] + rest.chars, used + rest.consumed, rest.end)
  }

  lemma DecodeFirst(c: WChar, e: seq<Byte>, rest: seq<Byte>, n: nat)
    requires n > |e| && Readable(e + rest, n) && Readable(rest, n - |e|)
    requires c != 0 && Mbrtoc32(e + rest, n) == Char(c, |e|)
    ensures DecodeAll(e + rest, n) == var t := DecodeAll(rest, n - |e|); Text([c] + t.chars, |e| + t.consumed, t.end)
  {
    hide Mbrtoc32;
    assert (e + rest)[|e|..] == rest;
  }

  /** What a call of `mbsnrtowcs` leaves behind: its return value, None for (size_t)-1, and *src, None for null. */
  datatype Wide = Wide(ret: Option<nat>, next: Option<nat>)

  /** The decoding still to do from byte i on, when `written` characters of t are done. */
  ghost predicate Remaining(src: seq<Byte>, num: nat, t: Text, i: nat, written: nat)
  {
    && i <= |src| && i <= num && Readable(src[i..], num - i)
    && written <= |t.chars| && i <= t.consumed
    && DecodeAll(src[i..], num - i) == Text(t.chars[written..], t.consumed - i, t.end)
  }

  lemma DecodeStep(str: seq<Byte>, n: nat)
    requires Readable(str, n) && n > 0 && Mbrtoc32(str, n).Char? && Mbrtoc32(str, n).c != 0
    ensures var d := NextChar(str, n);
            var rest := DecodeAll(str[d.used..], n - d.used);
            DecodeAll(str, n) == Text([d.c] + rest.chars, d.used + rest.consumed, rest.end)
  {
    hide Mbrtoc32;
  }

  lemma RemainingStep(src: seq<Byte>, num: nat, t: Text, i: nat, written: nat)
    requires Remaining(src, num, t, i, written) && i < num
    requires var d := Mbrtoc32(src[i..], num - i); d.Char? && d.c != 0
    ensures var d := Mbrtoc32(src[i..], num - i);
            && d.used > 0 && Remaining(src, num, t, i + d.used, written + 1) && t.chars[written] == d.c
  {
    hide Mbrtoc32, DecodeAll;
    var d := NextChar(src[i..], num - i);
    assert src[i..][d.used..] == src[i + d.used..];
    DecodeStep(src[i..], num - i);
    var rest := DecodeAll(src[i + d.used..], num - i - d.used);
    SuffixHead(t.chars, written, d.c, rest.chars);
  }

  lemma SuffixHead(s: seq<WChar>, w: nat, c: WChar, rest: seq<WChar>)
    requires w <= |s| && s[w..] == [c] + rest
    ensures w < |s| && s[w] == c && s[w + 1..] == rest
  {
    assert s[w..][0] == c;
    assert s[w..][1..] == rest;
  }

  lemma RemainingEnd(src: seq<Byte>, num: nat, t: Text, i: nat, written: nat)
    requires Remaining(src, num, t, i, written)
    requires i == num || !Mbrtoc32(src[i..], num - i).Char? || Mbrtoc32(src[i..], num - i).c == 0
    ensures |t.chars| == written && t.consumed == i
    ensures i == num ==> t.end == AtCount
    ensures i < num ==> t.end == match Mbrtoc32(src[i..], num - i)
                                 case Illegal => AtIllegal
                                 case Incomplete => AtIncomplete
                                 case Char(_, _) => AtNul
  {
    hide Mbrtoc32;
    assert NextChar(src[i..], num - i) == Mbrtoc32(src[i..], num - i);
    assert t.chars[written..] == [];
  }

  /** The number of characters of t that end up in a destination of `len` (all of them when there is none). */
  function Stored(dest: array?<WChar>, t: Text, len: nat): nat {
    if dest == null || |t.chars| <= len then |t.chars| else len
  }

  /** The terminator is reached and there is room for it: it is stored and *src becomes null. */
  predicate Terminated(dest: array?<WChar>, t: Text, len: nat) {
    t.end == AtNul && (dest == null || |t.chars| < len)
  }

  /** The decoder met an illegal sequence before the destination was more than full. */
  predicate Rejected(dest: array?<WChar>, t: Text, len: nat) {
    t.end == AtIllegal && (dest == null || |t.chars| <= len)
  }

  method StoreChar(dest: array<WChar>, at: nat, c: WChar)
    requires at < dest.Length
    modifies dest
    ensures dest[at] == c && dest[..at] == old(dest[..at]) && dest[at + 1..] == old(dest[at..])[1..]
    ensures dest[..at + 1] == old(dest[..at]) + [c]
  {
    dest[at] := c;
  }

  /** `mbsnrtowcs` */
  method Mbsnrtowcs(dest: array?<WChar>, src: seq<Byte>, num: nat, len: nat) returns (r: Wide)
    requires Readable(src, num) && (dest != null ==> len <= dest.Length)
    modifies dest
    ensures var t := DecodeAll(src, num);
            && r.ret == (if Rejected(dest, t, len) then None else Some(Stored(dest, t, len)))
            && (r.next.None? <==> Terminated(dest, t, len))
            && (r.next.Some? ==> Remaining(src, num, t, r.next.value, Stored(dest, t, len)))
    ensures dest != null ==>
              var t := DecodeAll(src, num);
              var s := Stored(dest, t, len);
              && dest[..s] == t.chars[..s]
              && if Terminated(dest, t, len)
                 then dest[s] == 0 && dest[s + 1..] == old(dest[s + 1..])
                 else dest[s..] == old(dest[s..])
  {
    hide Mbrtoc32, DecodeAll;
    ghost var t := DecodeAll(src, num);
    var written: nat, i: nat := 0, 0;
    assert src[0..] == src && t.chars[0..] == t.chars;
    while i < num
      invariant Remaining(src, num, t, i, written)
      invariant dest != null ==> written <= len && dest[..written] == t.chars[..written]
                                 && dest[written..] == old(dest[written..])
    {
      var d := Mbrtoc32(src[i..], num - i);
      if d.Char? && d.c != 0 {
        RemainingStep(src, num, t, i, written);
      } else {
        RemainingEnd(src, num, t, i, written);
      }
      if d.Illegal? {
        return Wide(None, Some(i));
      } else if d.Incomplete? {
        break;
      }
      if dest != null {
        if written + 1 > len {
          return Wide(Some(written), Some(i));
        }
        StoreChar(dest, written, d.c);
        assert old(dest[written + 1..]) == old(dest[written..])[1..];
      }
      if d.c == 0 {
        return Wide(Some(written), None);
      }
      i := i + d.used;
      written := written + 1;
    }
    if i == num {
      RemainingEnd(src, num, t, i, written);
    }
    return Wide(Some(written), Some(i));
  }

  lemma EncodedFirst(ws: seq<WChar>)
    requires Legal(ws) && ws != []
    ensures Legal(ws[1..]) && Encoded(ws) == Wcrtomb(ws[0]).value + Encoded(ws[1..])
  {
    hide Wcrtomb, Encoded;
    assert ws == [ws[0]] + ws[1..];
    EncodedOne(ws[0]);
    EncodedAppend([ws[0]], ws[1..]);
  }

  lemma EncodedOne(c: WChar)
    requires c != 0 && Wcrtomb(c).Some?
    ensures Legal([c]) && Encoded([c]) == Wcrtomb(c).value
  {
    hide Wcrtomb;
    assert [c][..0] == [];
  }

  /** The round trip: decoding what encoding produced gives the wide string back, for any byte count that reaches the
      terminator (`mbsrtowcs` passes SIZE_MAX). */
  lemma {:induction false} StringRoundTrip(ws: seq<WChar>, n: nat)
    requires Legal(ws) && forall k | 0 <= k < |ws| :: Encodable(ws[k])
    requires n > |Encoded(ws)|
    ensures Readable(Encoded(ws) + [0], n)
    ensures DecodeAll(Encoded(ws) + [0], n) == Text(ws, |Encoded(ws)|, AtNul)
    decreases |ws|
  {
    hide Wcrtomb, Mbrtoc32, DecodeAll, Encoded;
    var str := Encoded(ws) + [0];
    assert str[|str| - 1] == 0;
    if ws == [] {
      EmptyRoundTrip(n);
    } else {
      var e := Wcrtomb(ws[0]).value;
      EncodedFirst(ws);
      var rest := Encoded(ws[1..]) + [0];
      assert str == e + rest;
      CharRoundTrip(ws[0], str, n);
      StringRoundTrip(ws[1..], n - |e|);
      DecodeFirst(ws[0], e, rest, n);
    }
  }

  lemma EmptyRoundTrip(n: nat)
    requires n > 0
    ensures Encoded([]) == [] && DecodeAll([] + [0], n) == Text([], 0, AtNul)
  {
    var str: seq<Byte> := [] + [0];
    assert str[0] == 0 && Mbrtoc32(str, n) == Char(0, 0);
  }

  /** Splitting a text by its bytes alone: the length a lead byte announces, 0 if it is none. */
  function LeadLength(b: Byte): nat {
    if b <= 0x7F then 1
    else if 0xC0 <= b <= 0xDF then 2
    else if 0xE0 <= b <= 0xEF then 3
    else if 0xF0 <= b <= 0xF7 then 4
    else 0
  }

  /** The length of the sequence at the start, 0 if its tail is cut off or broken. */
  function SequenceLength(str: seq<Byte>, n: nat): (k: nat)
    ensures k <= n && k <= |str| && k <= 4
  {
    if str == [] then 0
    else
      var k := LeadLength(str[0]);
      if k <= n && k <= |str| && forall i | 1 <= i < k :: Tail(str[i]) then k else 0
  }

  /** A NUL, in its own byte or overlong. */
  predicate NulForm(str: seq<Byte>) {
    || [0] <= str || [0xC0, 0x80] <= str || [0xE0, 0x80, 0x80] <= str || [0xF0, 0x80, 0x80, 0x80] <= str
  }

  /** Every sequence up to the first NUL, break or cut starts as section 4 of RFC 3629 demands, surrogates aside. */
  predicate CanonicalText(str: seq<Byte>, n: nat)
    decreases n
  {
    var k := SequenceLength(str, n);
    k > 0 && !NulForm(str) ==> Canonical(str) && CanonicalText(str[k..], n - k)
  }

  /** Every sequence up to there is one RFC 3629 allows. */
  predicate RfcText(str: seq<Byte>, n: nat)
    decreases n
  {
    var k := SequenceLength(str, n);
    k > 0 && !NulForm(str) ==> RfcSequence(str[..k]) && RfcText(str[k..], n - k)
  }

  lemma NulOfTwo(a: Byte, b: Byte)
    requires a & 0xE0 == 0xC0 && Continuation(b)
    ensures Join2(a, b) == 0 <==> a == 0xC0 && b == 0x80
  {}

  lemma NulOfThree(a: Byte, b: Byte, c: Byte)
    requires a & 0xF0 == 0xE0 && Continuation(b) && Continuation(c)
    ensures Join3(a, b, c) == 0 <==> a == 0xE0 && b == 0x80 && c == 0x80
  {}

  lemma NulOfFour(a: Byte, b: Byte, c: Byte, d: Byte)
    requires a & 0xF8 == 0xF0 && Continuation(b) && Continuation(c) && Continuation(d)
    ensures Join4(a, b, c, d) == 0 <==> a == 0xF0 && b == 0x80 && c == 0x80 && d == 0x80
  {}

  /** The decoder takes a character exactly where the bytes hold a sequence, of the same length, and null for null. */
  lemma DecodesSequence(str: seq<Byte>, n: nat)
    requires Readable(str, n) && n > 0
    ensures var d, k := Mbrtoc32(str, n), SequenceLength(str, n);
            && (d.Char? <==> k > 0)
            && (d.Char? ==> Taken(d) == k && (d.c == 0 <==> NulForm(str)))
  {
    SequenceOfDecoder(str, n);
    if Mbrtoc32(str, n).Char? {
      NulOfDecoder(str, n);
    }
  }

  lemma SequenceOfDecoder(str: seq<Byte>, n: nat)
    requires Readable(str, n) && n > 0
    ensures var d, k := Mbrtoc32(str, n), SequenceLength(str, n);
            (d.Char? <==> k > 0) && (d.Char? ==> Taken(d) == k)
  {
    hide Join2, Join3, Join4, Continuation;
    LeadMasks(str[0]);
    forall i | 0 <= i < |str| ensures Tail(str[i]) <==> Continuation(str[i]) {
      TailIsContinuation(str[i]);
    }
    TailIsContinuation(0);
    assert !Tail(0);
  }

  lemma NulOfDecoder(str: seq<Byte>, n: nat)
    requires Readable(str, n) && Mbrtoc32(str, n).Char?
    ensures Mbrtoc32(str, n).c == 0 <==> NulForm(str)
  {
    hide Join2, Join3, Join4, Continuation;
    UsedWithinCount(str, n);
    LeadMasks(str[0]);
    OneByteValue(str[0]);
    var d := Mbrtoc32(str, n);
    if d.used == 2 {
      NulOfTwo(str[0], str[1]);
    } else if d.used == 3 {
      NulOfThree(str[0], str[1], str[2]);
    } else if d.used == 4 {
      NulOfFour(str[0], str[1], str[2], str[3]);
    }
  }

  lemma CanonicalTextStep(str: seq<Byte>, n: nat)
    requires Readable(str, n)
    ensures var d := NextChar(str, n);
            if n > 0 && d.Char? && d.c != 0
            then CanonicalText(str, n) <==> Canonical(str) && CanonicalText(str[d.used..], n - d.used)
            else CanonicalText(str, n)
  {
    hide Mbrtoc32, Canonical, SequenceLength, NulForm;
    if n > 0 {
      DecodesSequence(str, n);
    }
  }

  lemma RfcTextStep(str: seq<Byte>, n: nat)
    requires Readable(str, n)
    ensures var d := NextChar(str, n);
            if n > 0 && d.Char? && d.c != 0
            then RfcText(str, n) <==>
                 Canonical(str) && !Surrogate(d.c) && RfcText(str[d.used..], n - d.used)
            else RfcText(str, n)
  {
    hide Mbrtoc32, Canonical, SequenceLength, NulForm, RfcSequence, Surrogate, SurrogateStart;
    if n > 0 {
      DecodesSequence(str, n);
      var d := NextChar(str, n);
      if d.Char? && d.c != 0 {
        AcceptedRfcIff(str, n);
        if Canonical(str) {
          SurrogateForm(str, n);
        }
      }
    }
  }

  /** Encoding what was decoded never takes more bytes than the text had, and as many exactly for canonical text. */
  lemma {:induction false} ReencodedLength(str: seq<Byte>, n: nat)
    requires Readable(str, n) && Legal(DecodeAll(str, n).chars)
    ensures var t := DecodeAll(str, n);
            |Encoded(t.chars)| <= t.consumed && (|Encoded(t.chars)| == t.consumed ==> CanonicalText(str, n))
    decreases n
  {
    hide Mbrtoc32, Wcrtomb, Canonical, CanonicalText, Encoded;
    var t := DecodeAll(str, n);
    CanonicalTextStep(str, n);
    if t.chars == [] {
      EncodedNone();
    } else {
      var d := NextChar(str, n);
      ReencodeIff(str, n);
      EncodedFirst(t.chars);
      assert t.chars[1..] == DecodeAll(str[d.used..], n - d.used).chars;
      ReencodedLength(str[d.used..], n - d.used);
    }
  }

  lemma EncodedNone()
    ensures Legal([]) && Encoded([]) == []
  {}

  lemma {:induction false} CanonicalReencodes(str: seq<Byte>, n: nat)
    requires Readable(str, n) && CanonicalText(str, n)
    ensures var t := DecodeAll(str, n);
            t.consumed <= |str| && Legal(t.chars) && Encoded(t.chars) == str[..t.consumed]
    decreases n
  {
    hide Mbrtoc32, Wcrtomb, Canonical, CanonicalText, Encoded, Legal;
    if DecodeAll(str, n).chars == [] {
      EncodedNone();
    } else {
      var d := NextChar(str, n);
      CanonicalTextStep(str, n);
      ReencodeIff(str, n);
      CanonicalReencodes(str[d.used..], n - d.used);
      hide DecodeAll;
      DecodeStep(str, n);
      CanonicalStep(str, d, DecodeAll(str[d.used..], n - d.used));
    }
  }

  lemma CanonicalStep(str: seq<Byte>, d: Decoded, rest: Text)
    requires d.Char? && d.c != 0 && d.used <= |str| && Wcrtomb(d.c) == Some(str[..d.used])
    requires rest.consumed <= |str| - d.used && Legal(rest.chars)
    requires Encoded(rest.chars) == str[d.used..][..rest.consumed]
    ensures Legal([d.c] + rest.chars) && Encoded([d.c] + rest.chars) == str[..d.used + rest.consumed]
  {
    hide Wcrtomb, Encoded;
    var chars := [d.c] + rest.chars;
    assert chars[1..] == rest.chars;
    FirstLegal(chars);
    EncodedFirst(chars);
    assert str[..d.used + rest.consumed] == str[..d.used] + str[d.used..][..rest.consumed];
  }

  lemma FirstLegal(ws: seq<WChar>)
    requires ws != [] && ws[0] != 0 && Wcrtomb(ws[0]).Some? && Legal(ws[1..])
    ensures Legal(ws)
  {
    hide Wcrtomb;
    assert forall i | 1 <= i < |ws| :: ws[i] == ws[1..][i - 1];
  }

  /** The round trip from the bytes: `wcsrtombs` of what `mbsnrtowcs` decoded gives the bytes back exactly for text that
      RFC 3629 accepts, surrogates aside. */
  lemma TextReencodeIff(str: seq<Byte>, n: nat)
    requires Readable(str, n)
    ensures var t := DecodeAll(str, n);
            && t.consumed <= |str|
            && (Legal(t.chars) && Encoded(t.chars) == str[..t.consumed] <==> CanonicalText(str, n))
  {
    hide Mbrtoc32, Wcrtomb, Canonical, Encoded, DecodeAll, CanonicalText;
    ConsumedWithin(str, n);
    var t := DecodeAll(str, n);
    if CanonicalText(str, n) {
      CanonicalReencodes(str, n);
    } else if Legal(t.chars) {
      ReencodedLength(str, n);
    }
  }

  predicate NoSurrogates(ws: seq<WChar>) {
    forall k | 0 <= k < |ws| :: !Surrogate(ws[k])
  }

  lemma NoSurrogatesFirst(c: WChar, rest: seq<WChar>)
    ensures NoSurrogates([c] + rest) <==> !Surrogate(c) && NoSurrogates(rest)
  {
    hide Surrogate;
    var ws := [c] + rest;
    assert ws[0] == c;
    assert forall k | 0 <= k < |rest| :: ws[k + 1] == rest[k];
  }

  lemma {:induction false} RfcTextSplit(str: seq<Byte>, n: nat)
    requires Readable(str, n)
    ensures RfcText(str, n) <==> CanonicalText(str, n) && NoSurrogates(DecodeAll(str, n).chars)
    decreases n
  {
    hide Mbrtoc32, Canonical, CanonicalText, RfcText, NoSurrogates, Surrogate;
    RfcTextStep(str, n);
    CanonicalTextStep(str, n);
    var d := NextChar(str, n);
    if n > 0 && d.Char? && d.c != 0 {
      RfcTextSplit(str[d.used..], n - d.used);
      DecodeStep(str, n);
      NoSurrogatesFirst(d.c, DecodeAll(str[d.used..], n - d.used).chars);
    } else {
      NoneSurrogate();
    }
  }

  lemma NoneSurrogate()
    ensures NoSurrogates([])
  {}

  /** What `mbsnrtowcs` decodes is text RFC 3629 allows exactly when `wcsrtombs` gives its bytes back and no character
      is a surrogate. */
  lemma DecodedRfcIff(str: seq<Byte>, n: nat)
    requires Readable(str, n)
    ensures var t := DecodeAll(str, n);
            && t.consumed <= |str|
            && (RfcText(str, n) <==> Legal(t.chars) && Encoded(t.chars) == str[..t.consumed] && NoSurrogates(t.chars))
  {
    hide *;
    TextReencodeIff(str, n);
    RfcTextSplit(str, n);
  }

  /** What `wcsrtombs` writes is text RFC 3629 allows exactly when the wide string holds no surrogate, as long as it
      holds no negative wchar_t either. */
  lemma EncodedTextRfcIff(ws: seq<WChar>, n: nat)
    requires Legal(ws) && forall k | 0 <= k < |ws| :: Encodable(ws[k])
    requires n > |Encoded(ws)|
    ensures RfcText(Encoded(ws) + [0], n) <==> NoSurrogates(ws)
  {
    hide Wcrtomb, Encoded, DecodeAll, RfcText, NoSurrogates, Mbrtoc32, CanonicalText;
    StringRoundTrip(ws, n);
    var str := Encoded(ws) + [0];
    assert str[..|Encoded(ws)|] == Encoded(ws);
    DecodedRfcIff(str, n);
  }

  lemma {:induction false} ConsumedWithin(str: seq<Byte>, n: nat)
    requires Readable(str, n)
    ensures DecodeAll(str, n).consumed <= |str|
    decreases n
  {
    hide Mbrtoc32;
    if n > 0 {
      var d := NextChar(str, n);
      if d.Char? && d.c != 0 {
        ConsumedWithin(str[d.used..], n - d.used);
      }
    }
  }

  /** The string decoder takes an overlong NUL for the terminator. */
  lemma OverlongNulEnds(rest: seq<Byte>, n: nat)
    requires n >= 2 && Readable([0xC0, 0x80] + rest, n)
    ensures DecodeAll([0xC0, 0x80] + rest, n) == Text([], 0, AtNul)
  {
    var str := [0xC0, 0x80] + rest;
    assert str[0] == 0xC0 && str[1] == 0x80;
    assert Mbrtoc32(str, n) == Char(0, 2);
  }

  /** The decoder's arithmetic yields at most 21 bits. */
  lemma CharBelow(str: seq<Byte>, n: nat)
    requires Readable(str, n) && Mbrtoc32(str, n).Char?
    ensures Mbrtoc32(str, n).c <= 0x1F_FFFF
  {
    var first := str[0];
    if first & 0x80 != 0 {
      if first & 0xE0 == 0xC0 {
        TwoBytesBelow(first, str[1]);
      } else if first & 0xF0 == 0xE0 {
        ThreeBytesBelow(first, str[1], str[2]);
      } else {
        FourBytesBelow(first, str[1], str[2], str[3]);
      }
    }
  }

  lemma TwoBytesBelow(a: Byte, b: Byte)
    ensures Join2(a, b) <= 0x1F_FFFF
  {}

  lemma ThreeBytesBelow(a: Byte, b: Byte, c: Byte)
    ensures Join3(a, b, c) <= 0x1F_FFFF
  {}

  lemma FourBytesBelow(a: Byte, b: Byte, c: Byte, d: Byte)
    ensures Join4(a, b, c, d) <= 0x1F_FFFF
  {}

  lemma {:induction false} DecodedBelow(str: seq<Byte>, n: nat)
    requires Readable(str, n)
    ensures forall k | 0 <= k < |DecodeAll(str, n).chars| :: DecodeAll(str, n).chars[k] <= 0x1F_FFFF
    decreases n
  {
    hide Mbrtoc32;
    if n > 0 {
      var d := NextChar(str, n);
      if d.Char? && d.c != 0 {
        CharBelow(str, n);
        DecodedBelow(str[d.used..], n - d.used);
      }
    }
  }

  /** Exactly which strings `wcsrtombs` accepts survive the trip there and back: those without a negative wchar_t, for
      which `wcrtomb` writes a byte instead of reporting EILSEQ. */
  lemma RoundTripIff(src: seq<WChar>, pos: nat, end: nat, n: nat)
    requires pos <= end < |src| && src[end] == 0 && Legal(src[pos..end]) && n > |Encoded(src[pos..end])|
    ensures Readable(Encoded(src[pos..end]) + [0], n)
    ensures DecodeAll(Encoded(src[pos..end]) + [0], n) == Text(src[pos..end], |Encoded(src[pos..end])|, AtNul)
            <==> forall k | pos <= k < end :: !Negative(src[k])
  {
    hide Mbrtoc32, Encoded, DecodeAll;
    var ws := src[pos..end];
    var bytes := Encoded(ws) + [0];
    assert bytes[|bytes| - 1] == 0;
    assert forall k | pos <= k < end :: src[k] == ws[k - pos];
    if forall k | pos <= k < end :: !Negative(src[k]) {
      assert forall k | 0 <= k < |ws| :: ws[k] == src[k + pos];
      StringRoundTrip(ws, n);
    } else {
      DecodedBelow(bytes, n);
    }
  }
}
