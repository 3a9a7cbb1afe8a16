/**
 Percent-escaping in place (section 2.1 of RFC 3986): the server's encoder in src/server/http.c and the
 decoder in src/common/hex.c.
 */
module Percent {
  import opened Bytes
  import opened ChunkWriter
  import opened Memory

  const PERCENT: byte := 37
  const DOT: byte := 46
  const SLASH: byte := 47
  const UP: seq<byte> := [SLASH, DOT, DOT]

  /** `isalnum` in the C locale, and the slash that the encoder lets through as well. */
  predicate IsPlain(b: byte) { 48 <= b <= 57 || 65 <= b <= 90 || 97 <= b <= 122 || b == SLASH }

  /** AsciiToHex: `%%%x` prints one digit only for the bytes below 0x10. */
  function EscapeByte(b: byte): (out: cstring)
    ensures if IsPlain(b) then out == [b] else 2 <= |out| <= 3 && out[0] == PERCENT
  {
    if IsPlain(b) then [b]
    else
      assert |Hex(b)| <= 2;
      [PERCENT] + Hex(b)
  }

  function Escape(p: seq<byte>): seq<byte> {
    if p == [] then [] else EscapeByte(p[0]) + Escape(p[1..])
  }

  function Nibble(ch: byte): (v: nat)
    ensures v < 16
  {
    if 48 <= ch <= 57 then ch - 48
    else if 97 <= ch <= 102 then ch - 87
    else if 65 <= ch <= 70 then ch - 55
    else ch % 16
  }

  function HexPair(a: byte, b: byte): byte { 16 * Nibble(a) + Nibble(b) }

  /** The two hex digits of `b`, each in either case. */
  predicate DigitsOf(b: byte, high: byte, low: byte) {
    SameLetter(high, DIGITS[b / 16] as int) && SameLetter(low, DIGITS[b % 16] as int)
  }

  /** They make that byte again. */
  lemma HexPairReads(b: byte, high: byte, low: byte)
    requires DigitsOf(b, high, low)
    ensures HexPair(high, low) == b
  {
    NibbleReads(high, b / 16);
    NibbleReads(low, b % 16);
  }

  lemma NibbleReads(c: byte, d: nat)
    requires d < 16 && SameLetter(c, DIGITS[d] as int)
    ensures Nibble(c) == d
  {
    DigitsAre(d);
    Letters();
  }

  /** Of a byte that is no digit the decoder takes the four low bits. */
  lemma NibbleOfOthers(c: byte)
    ensures (exists d: nat | d < 16 :: SameLetter(c, DIGITS[d] as int)) || Nibble(c) == (c as bv8 & 0xF) as nat
  {
    forall d: nat | d < 16
      ensures DIGITS[d] as int == if d < 10 then 48 + d else 87 + d
    {
      DigitsAre(d);
    }
    Letters();
    if 48 <= c <= 57 {
      assert SameLetter(c, DIGITS[c - 48] as int);
    } else if 97 <= c <= 102 {
      assert SameLetter(c, DIGITS[c - 87] as int);
    } else if 65 <= c <= 70 {
      assert BIG[c - 65] as int == c && SMALL[c - 65] as int == DIGITS[c - 55] as int;
      assert SameLetter(c, DIGITS[c - 55] as int);
    }
    LowBits(c);
  }

  lemma LowBits(c: byte)
    ensures (c as bv8 & 0xF) as nat == c % 16
  {
    var v := c as bv8;
    assert v & 0xF == v % 16;
  }

  /** What the first loop of the decoder does: an escape needs two more bytes, of whatever kind. */
  function Unescape(s: seq<byte>): (r: seq<byte>)
    ensures |r| <= |s|
  {
    if s == [] then []
    else if s[0] == PERCENT && |s| >= 3 then [HexPair(s[1], s[2])] + Unescape(s[3..])
    else [s[0]] + Unescape(s[1..])
  }

  lemma {:induction false} UnescapeFront(front: seq<byte>, s: seq<byte>)
    requires '%' as int !in front
    ensures Unescape(front + s) == front + Unescape(s)
  {
    if front == [] {
      assert [] + s == s && [] + Unescape(s) == Unescape(s);
    } else {
      var tail := front[1..];
      UnescapeFront(tail, s);
      assert front[0] in front;
      assert (front + s)[0] == front[0] && (front + s)[1..] == tail + s;
      UnescapeStep(front + s);
      hide Unescape;
      Behind(front, Unescape(s));
    }
  }

  lemma Behind(front: seq<byte>, back: seq<byte>)
    requires front != []
    ensures [front[0]] + (front[1..] + back) == front + back
  {
  }

  lemma UnescapeEscape(b: byte, high: byte, low: byte, rest: seq<byte>)
    requires DigitsOf(b, high, low)
    ensures Unescape(['%' as int, high, low] + rest) == [b] + Unescape(rest)
  {
    HexPairReads(b, high, low);
    hide HexPair, DigitsOf, Unescape;
    var s: seq<byte> := ['%' as int, high, low] + rest;
    UnescapeStep(s);
    assert s[0] == PERCENT && s[1] == high && s[2] == low && s[3..] == rest;
  }

  /** A byte as it stands, or as an escape with two hex digits, each in either case. */
  datatype Piece = Raw(b: byte) | Escaped(b: byte, high: byte, low: byte)
  {
    predicate Good() { if Raw? then b != '%' as int else DigitsOf(b, high, low) }

    function Text(): seq<byte> { if Raw? then [b] else ['%' as int, high, low] }
  }

  /** The text that the pieces are written as, and the bytes that it spells. */
  function Spell(ps: seq<Piece>): seq<byte> { if ps == [] then [] else ps[0].Text() + Spell(ps[1..]) }

  function Meant(ps: seq<Piece>): (bytes: seq<byte>)
    ensures |bytes| == |ps| && forall i :: 0 <= i < |ps| ==> bytes[i] == ps[i].b
  {
    if ps == [] then [] else [ps[0].b] + Meant(ps[1..])
  }

  predicate AllGood(ps: seq<Piece>) { forall p :: p in ps ==> p.Good() }

  /**
   A text is decoded to the bytes that it spells, however it spells them; a percent sign with less than two
   bytes behind it stays.
   */
  lemma {:induction false} SpellingReads(ps: seq<Piece>, rest: seq<byte>)
    requires AllGood(ps) && |rest| <= 2
    ensures Unescape(Spell(ps) + rest) == Meant(ps) + rest
  {
    if ps != [] {
      hide Unescape, DigitsOf;
      assert ps[0] in ps;
      SpellingReads(ps[1..], rest);
      OnePiece(ps[0], Spell(ps[1..]) + rest);
      Grouped(ps[0].Text(), Spell(ps[1..]), rest);
      Grouped([ps[0].b], Meant(ps[1..]), rest);
    } else {
      Grouped([], [], rest);
      TooShort(rest);
    }
  }

  lemma Grouped(a: seq<byte>, b: seq<byte>, c: seq<byte>)
    ensures a + b + c == a + (b + c) && [] + [] + c == c && [] + c == c
  {
  }

  lemma TooShort(s: seq<byte>)
    requires |s| <= 2
    ensures Unescape(s) == s
  {
    if s != [] {
      UnescapeStep(s);
      TooShort(s[1..]);
      assert s == [s[0]] + s[1..];
    }
  }

  lemma OnePiece(p: Piece, rest: seq<byte>)
    requires p.Good()
    ensures Unescape(p.Text() + rest) == [p.b] + Unescape(rest)
  {
    hide Unescape, DigitsOf;
    if p.Raw? {
      UnescapeFront([p.b], rest);
    } else {
      UnescapeEscape(p.b, p.high, p.low, rest);
    }
  }

  /** What the second loop does: the two dots behind a slash go, from the front, until there are none. */
  function StripDots(s: cstring): (r: cstring)
    ensures |r| <= |s|
    decreases |s|
  {
    var t := StrStr(s, UP, 0);
    if t < 0 then s else StripDots(s[..t + 1] + s[t + 3..])
  }

  predicate AllAtLeast16(s: seq<byte>) { forall i :: 0 <= i < |s| ==> s[i] >= 16 }

  ghost predicate HasUp(s: seq<byte>) { exists i: nat :: At(s, UP, i) }

  function NonDots(s: seq<byte>): seq<byte> {
    if s == [] then []
    else if s[0] == DOT then NonDots(s[1..])
    else [s[0]] + NonDots(s[1..])
  }

  lemma {:induction false} NonDotsAppend(a: seq<byte>, b: seq<byte>)
    ensures NonDots(a + b) == NonDots(a) + NonDots(b)
  {
    if a == [] {
      assert a + b == b;
    } else {
      NonDotsAppend(a[1..], b);
      assert (a + b)[1..] == a[1..] + b && (a + b)[0] == a[0];
      var (x, y) := (NonDots(a[1..]), NonDots(b));
      assert [a[0]] + (x + y) == [a[0]] + x + y;
    }
  }

  lemma UpIs()
    ensures UP == Ascii("/..")
  {
  }

  lemma UpOrNot(s: cstring)
    ensures StrStr(s, UP, 0) < 0 <==> !HasUp(s)
  {
  }

  lemma TwoDotsGone(front: seq<byte>, back: seq<byte>)
    ensures NonDots(front + [DOT, DOT] + back) == NonDots(front + back)
  {
    assert [DOT, DOT][1..] == [DOT] && [DOT][1..] == [];
    assert NonDots([DOT]) == [];
    NonDotsAppend(front + [DOT, DOT], back);
    NonDotsAppend(front, [DOT, DOT]);
    NonDotsAppend(front, back);
    assert NonDots(front) + [] == NonDots(front);
  }

  lemma CutUp(s: cstring, t: nat)
    requires At(s, UP, t)
    ensures s == s[..t + 1] + [DOT, DOT] + s[t + 3..] && NulFree(s[..t + 1] + s[t + 3..])
  {
    var up := s[t..t + 3];
    assert up[1] == s[t + 1] && up[2] == s[t + 2];
    assert s[t + 1..t + 3] == [DOT, DOT];
    assert s == s[..t + 1] + s[t + 1..t + 3] + s[t + 3..];
  }

  /** No way up is left, only dots are taken, and nothing is taken from a path without a way up. */
  lemma {:induction false} StripDotsKeeps(s: cstring)
    ensures forall i: nat :: !At(StripDots(s), Ascii("/.."), i)
    ensures !HasUp(StripDots(s)) && NonDots(StripDots(s)) == NonDots(s)
    ensures StripDots(s) == s <==> !HasUp(s)
    decreases |s|
  {
    var t := StrStr(s, UP, 0);
    UpOrNot(s);
    UpIs();
    if t >= 0 {
      var front, back := s[..t + 1], s[t + 3..];
      CutUp(s, t);
      hide NonDots, HasUp, At;
      StripDotsKeeps(front + back);
      TwoDotsGone(front, back);
    }
  }

  lemma HexOfByte(b: byte)
    ensures b < 16 ==> Hex(b) == [HexChar(b)]
    ensures b >= 16 ==> Hex(b) == [HexChar(b / 16), HexChar(b % 16)]
    ensures forall d: nat :: d < 16 ==> Nibble(HexChar(d)) == d
  {
  }

  /** Every byte of an escaped path is printable, and no escape in it starts with a zero digit. */
  predicate WellEscaped(s: seq<byte>) {
    && AllAtLeast16(s)
    && forall i :: 0 < i < |s| && s[i - 1] == PERCENT ==> Nibble(s[i]) > 0
  }

  lemma WellEscapedAppend(a: seq<byte>, b: seq<byte>)
    requires WellEscaped(a) && WellEscaped(b) && (a == [] || a[|a| - 1] != PERCENT)
    ensures WellEscaped(a + b)
  {
    var s := a + b;
    assert forall i :: 0 <= i < |a| ==> s[i] == a[i];
    assert forall i :: |a| <= i < |s| ==> s[i] == b[i - |a|];
  }

  lemma EscapeByteIsWell(b: byte)
    requires b != NUL
    ensures var out := EscapeByte(b); WellEscaped(out) && out[|out| - 1] != PERCENT
  {
    HexOfByte(b);
  }

  lemma {:induction false} EscapeIsWell(p: cstring)
    ensures WellEscaped(Escape(p))
  {
    if p != [] {
      hide EscapeByte, WellEscaped;
      EscapeIsWell(p[1..]);
      EscapeByteIsWell(p[0]);
      WellEscapedAppend(EscapeByte(p[0]), Escape(p[1..]));
    } else {
      assert Escape(p) == [];
    }
  }

  /** Wherever the decoder finds an escape in such a path, it never makes a byte below 0x10 of it. */
  lemma {:induction false} TidyDecodesHigh(s: seq<byte>)
    requires WellEscaped(s)
    ensures AllAtLeast16(Unescape(s))
  {
    if s != [] {
      if s[0] == PERCENT && |s| >= 3 {
        assert Nibble(s[1]) > 0;
        var rest := s[3..];
        assert forall i :: 0 <= i < |rest| ==> rest[i] == s[i + 3];
        TidyDecodesHigh(rest);
      } else {
        var rest := s[1..];
        assert forall i :: 0 <= i < |rest| ==> rest[i] == s[i + 1];
        TidyDecodesHigh(rest);
      }
    }
  }

  lemma {:induction false} UnescapeOfEscape(p: seq<byte>)
    requires AllAtLeast16(p)
    ensures Unescape(Escape(p)) == p
  {
    if p != [] {
      UnescapeOfEscape(p[1..]);
      HexOfByte(p[0]);
      var out: seq<byte>, rest: seq<byte> := EscapeByte(p[0]), Escape(p[1..]);
      assert p == [p[0]] + p[1..];
      if IsPlain(p[0]) {
        assert out + rest == [p[0]] + rest && (out + rest)[1..] == rest;
      } else {
        var s := out + rest;
        assert s[0] == PERCENT && s[1] == out[1] && s[2] == out[2] && s[3..] == rest;
      }
    }
  }

  /** Decoding undoes encoding exactly on the paths without bytes below 0x10, which print as one digit. */
  lemma EscapeRoundTrip(p: cstring)
    ensures Unescape(Escape(p)) == p <==> AllAtLeast16(p)
  {
    EscapeIsWell(p);
    TidyDecodesHigh(Escape(p));
    if AllAtLeast16(p) {
      UnescapeOfEscape(p);
    }
  }

  lemma HighHead(b: byte, s: seq<byte>)
    ensures AllAtLeast16([b] + s) <==> b >= 16 && AllAtLeast16(s)
  {
    var all := [b] + s;
    assert all[0] == b && forall i :: 0 <= i < |s| ==> s[i] == all[i + 1];
  }

  lemma {:induction false} HighIsNonDots(a: seq<byte>)
    ensures AllAtLeast16(a) <==> AllAtLeast16(NonDots(a))
  {
    if a != [] {
      var rest := NonDots(a[1..]);
      HighIsNonDots(a[1..]);
      HighHead(a[0], a[1..]);
      HighHead(a[0], rest);
      assert a == [a[0]] + a[1..];
    }
  }

  lemma HighIsNulFree(s: seq<byte>)
    requires AllAtLeast16(s)
    ensures NulFree(s)
  {
  }

  /**
   The whole decoder undoes the encoder exactly on the paths that have no byte below 0x10 and no way up.
   Every encoded path, of any bytes, is one that the decoder accepts.
   */
  lemma PathRoundTrip(p: cstring)
    ensures NulFree(Unescape(Escape(p)))
    ensures StripDots(Unescape(Escape(p))) == p <==> AllAtLeast16(p) && !HasUp(p)
  {
    EscapeRoundTrip(p);
    EscapeIsWell(p);
    TidyDecodesHigh(Escape(p));
    var d := Unescape(Escape(p));
    HighIsNulFree(d);
    StripDotsKeeps(d);
    StripDotsKeeps(p);
    HighIsNonDots(d);
    HighIsNonDots(p);
  }

  /** HexToAscii */
  method HexToAscii(hex: seq<byte>) returns (value: byte)
    requires |hex| == 2
    ensures value == HexPair(hex[0], hex[1])
  {
    value := 0;
    for i := 0 to 2
      invariant value == if i == 0 then 0 else if i == 1 then Nibble(hex[0]) else HexPair(hex[0], hex[1])
    {
      var digit := DigitOf(hex[i]);
      hide Nibble;
      value := (16 * value + digit) % 256;
    }
  }

  /** What `value << 4 | (ch & 0xF)` takes from one character. */
  method DigitOf(hex: byte) returns (digit: nat)
    ensures digit == Nibble(hex)
  {
    var ch := hex;
    if 48 <= ch <= 57 {
      ch := ch - 48;
    } else if 97 <= ch <= 102 {
      ch := ch - 97 + 10;
    } else if 65 <= ch <= 70 {
      ch := ch - 65 + 10;
    }
    digit := ch % 16;
  }

  /** The C string in the buffer is `done` and then `rest`; the loops have come to the end of `done`. */
  ghost predicate Halfway(s: seq<byte>, done: seq<byte>, rest: seq<byte>) {
    Holds(s, done + rest)
  }

  lemma HalfwayAt(s: seq<byte>, done: seq<byte>, rest: seq<byte>)
    requires Halfway(s, done, rest)
    ensures NulFree(done) && NulFree(rest) && |done| + |rest| < |s| && s[|done| + |rest|] == NUL
    ensures forall m :: 0 <= m < |rest| ==> s[|done| + m] == rest[m]
    ensures rest == [] <==> s[|done|] == NUL
  {
    var text := done + rest;
    assert forall m :: 0 <= m < |rest| ==> text[|done| + m] == rest[m];
    assert forall m :: 0 <= m < |text| ==> s[..|text|][m] == text[m];
    forall b | b in done
      ensures b != NUL
    {
      assert b in text;
    }
    forall b | b in rest
      ensures b != NUL
    {
      assert b in text;
    }
  }

  lemma HoldsUpdate(s: seq<byte>, text: seq<byte>, i: nat, d: byte)
    requires Holds(s, text) && i < |text| && d != NUL
    ensures Holds(s[i := d], text[i := d])
  {
    assert s[i := d][..|text|] == s[..|text|][i := d];
  }

  /** Both loops close up the two bytes behind `i` with `memmove(&i[1], &i[3], strlen(i) - 2)`. */
  method CloseUp(url: array<byte>, i: nat, ghost text: seq<byte>)
    requires Holds(url[..], text) && i + 3 <= |text|
    modifies url
    ensures Holds(url[..], text[..i + 1] + text[i + 3..])
  {
    ghost var s := url[..];
    var n := StrLen(url, i, text);
    assert |text| < |s|;
    hide Holds;
    MemMove(url, i + 1, i + 3, n - 2);
    Replaced(s, url[..], text, i + 1, 2, []);
    assert text[..i + 1] + [] + text[i + 3..] == text[..i + 1] + text[i + 3..];
  }

  /** One escape: its first byte becomes the decoded one, and the two digits are closed up. */
  method DecodeEscape(url: array<byte>, i: nat, ghost done: seq<byte>, ghost rest: seq<byte>)
    requires i == |done| && |rest| >= 3 && Halfway(url[..], done, rest) && HexPair(rest[1], rest[2]) != NUL
    modifies url
    ensures Halfway(url[..], done + [HexPair(rest[1], rest[2])], rest[3..])
  {
    hide Holds, HexPair;
    ghost var (text, s) := (done + rest, url[..]);
    HalfwayAt(s, done, rest);
    var d := HexToAscii([url[i + 1], url[i + 2]]);
    url[i] := d;
    assert url[..] == s[i := d];
    HoldsUpdate(s, text, i, d);
    CloseUp(url, i, text[i := d]);
    assert text[i := d][..i + 1] + text[i := d][i + 3..] == done + [d] + rest[3..];
  }

  lemma UnescapeStep(s: seq<byte>)
    requires s != []
    ensures var escaped := s[0] == PERCENT && |s| >= 3;
      Unescape(s) == if escaped then [HexPair(s[1], s[2])] + Unescape(s[3..]) else [s[0]] + Unescape(s[1..])
  {
  }

  /** Taking one decoded byte over from what is still to be decoded. */
  lemma TakeOver(done: seq<byte>, d: byte, rest: seq<byte>, all: seq<byte>)
    requires done + ([d] + rest) == all
    ensures done + [d] + rest == all && (NulFree(all) ==> d != NUL)
  {
    assert all[|done|] == d;
  }

  /** hexConvertStringToAscii, on the string `text` in the buffer. */
  method ConvertStringToAscii(url: array<byte>, ghost text: seq<byte>)
    requires Holds(url[..], text) && NulFree(Unescape(text))
    modifies url
    ensures Holds(url[..], StripDots(Unescape(text)))
    ensures forall ps, tail: seq<byte> :: text == Spell(ps) + tail && AllGood(ps) && |tail| <= 2 ==>
              NulFree(Meant(ps) + tail) && Holds(url[..], StripDots(Meant(ps) + tail))
    ensures |StripDots(Unescape(text))| <= |text| && !HasUp(StripDots(Unescape(text)))
  {
    hide HasUp, Holds, StripDots, Unescape, HexPair;
    var i := 0;
    ghost var (done, rest, all) := ([], text, Unescape(text));
    assert [] + text == text && [] + all == all;
    HoldsFits(url[..], text);
    while url[i] != NUL
      invariant i == |done| && Halfway(url[..], done, rest) && i < url.Length
      invariant done + Unescape(rest) == all
      decreases |rest|
    {
      HalfwayAt(url[..], done, rest);
      assert url[i] == rest[0];
      UnescapeStep(rest);
      if url[i] == PERCENT && url[i + 1] != NUL && url[i + 2] != NUL {
        assert url[i + 1] != NUL ==> |rest| >= 2;
        assert |rest| >= 3;
        TakeOver(done, HexPair(rest[1], rest[2]), Unescape(rest[3..]), all);
        DecodeEscape(url, i, done, rest);
        done, rest := done + [HexPair(rest[1], rest[2])], rest[3..];
      } else {
        TakeOver(done, rest[0], Unescape(rest[1..]), all);
        assert done + rest == done + [rest[0]] + rest[1..];
        done, rest := done + [rest[0]], rest[1..];
      }
      HalfwayAt(url[..], done, rest);
      i := i + 1;
    }
    HalfwayAt(url[..], done, rest);
    UnescapeNothing(rest);
    assert done + rest == all && done + [] == done;
    StripUps(url, all);
    forall ps, tail: seq<byte> | text == Spell(ps) + tail && AllGood(ps) && |tail| <= 2
      ensures Meant(ps) + tail == all
    {
      SpellingReads(ps, tail);
    }
  }

  lemma UnescapeNothing(s: seq<byte>)
    requires s == []
    ensures Unescape(s) == []
  {
  }

  lemma AtInText(s: seq<byte>, text: cstring, token: cstring, i: nat)
    requires Holds(s, text) && i <= |text|
    ensures At(s, token, i) <==> At(text, token, i)
  {
    assert forall m :: 0 <= m < |text| ==> s[m] == s[..|text|][m] == text[m];
    if i + |token| <= |text| {
      assert s[i..i + |token|] == text[i..i + |token|];
    } else if i + |token| <= |s| {
      var window := s[i..i + |token|];
      assert window[|text| - i] == NUL;
    }
  }

  /** A token without NUL is found in the buffer where it is found in the string. */
  lemma {:induction false} StrStrOfText(s: seq<byte>, text: cstring, token: cstring, i: nat)
    requires Holds(s, text) && i <= |text| && token != []
    ensures StrStr(s, token, i) == StrStr(text, token, i)
    decreases |text| - i
  {
    AtInText(s, text, token, i);
    assert i < |text| ==> s[i] == s[..|text|][i] == text[i];
    hide At, Holds;
    if i < |text| {
      StrStrOfText(s, text, token, i + 1);
    }
  }

  /** The loop that keeps a path from going up. */
  method StripUps(url: array<byte>, ghost text: cstring)
    requires Holds(url[..], text)
    modifies url
    ensures Holds(url[..], StripDots(text))
    ensures |StripDots(text)| <= |text| && !HasUp(StripDots(text))
  {
    StripDotsKeeps(text);
    hide Holds, HasUp, NonDots;
    ghost var now: cstring := text;
    StrStrOfText(url[..], now, UP, 0);
    var t := StrStr(url[..], UP, 0);
    while t >= 0
      invariant Holds(url[..], now) && StripDots(now) == StripDots(text)
      invariant t == StrStr(now, UP, 0)
      decreases |now|
    {
      CloseUp(url, t, now);
      now := now[..t + 1] + now[t + 3..];
      StrStrOfText(url[..], now, UP, 0);
      t := StrStr(url[..], UP, 0);
    }
  }

  lemma HoldsFits(s: seq<byte>, text: seq<byte>)
    requires Holds(s, text)
    ensures |text| < |s|
  {
  }

  lemma {:induction false} EscapeAppend(a: seq<byte>, b: seq<byte>)
    ensures Escape(a + b) == Escape(a) + Escape(b)
  {
    hide EscapeByte;
    if a == [] {
      assert a + b == b && [] + Escape(b) == Escape(b);
    } else {
      EscapeAppend(a[1..], b);
      var head: seq<byte>, x, y := EscapeByte(a[0]), Escape(a[1..]), Escape(b);
      assert (a + b)[1..] == a[1..] + b && (a + b)[0] == a[0];
      assert head + (x + y) == head + x + y;
    }
  }

  lemma {:induction false} EscapeGrows(p: seq<byte>)
    ensures |Escape(p)| >= |p|
    ensures Escape(p) == p <==> forall i :: 0 <= i < |p| ==> IsPlain(p[i])
    ensures Escape(p) == p <==> |Escape(p)| == |p|
  {
    if p != [] {
      EscapeGrows(p[1..]);
      assert p == [p[0]] + p[1..];
      if !IsPlain(p[0]) {
        assert |EscapeByte(p[0])| >= 2;
      }
    }
  }

  /** The bytes that the encoder lets through. */
  const PLAIN: string := SMALL + BIG + "0123456789/"

  lemma PlainIs(b: byte)
    ensures IsPlain(b) <==> exists i :: 0 <= i < |PLAIN| && b == PLAIN[i] as int
  {
    Letters();
    forall i | 52 <= i < 62
      ensures PLAIN[i] as int == i - 4
    {
    }
    assert PLAIN[62] as int == 47;
    forall i | 0 <= i < 26
      ensures PLAIN[i] == SMALL[i] && PLAIN[26 + i] == BIG[i]
    {
    }
    if 48 <= b <= 57 {
      assert PLAIN[52 + (b - 48)] as int == b;
    } else if 97 <= b <= 122 {
      assert PLAIN[b - 97] as int == b;
    } else if 65 <= b <= 90 {
      assert PLAIN[26 + (b - 65)] as int == b;
    }
  }

  predicate InPlain(b: byte) { exists i :: 0 <= i < |PLAIN| && b == PLAIN[i] as int }

  /** Nothing but letters, digits, slashes and escapes is left in an escaped path. */
  lemma EscapedIsPlain(p: cstring)
    ensures forall b :: b in Escape(p) ==> b == '%' as int || InPlain(b)
    ensures Escape(p) == p <==> forall i :: 0 <= i < |p| ==> InPlain(p[i])
  {
    forall b: byte
      ensures IsPlain(b) <==> InPlain(b)
    {
      PlainIs(b);
    }
    hide IsPlain, InPlain;
    EscapedBytes(p);
    EscapeGrows(p);
  }

  lemma {:induction false} EscapedBytes(p: cstring)
    ensures forall b :: b in Escape(p) ==> b == PERCENT || IsPlain(b)
  {
    if p != [] {
      EscapedBytes(p[1..]);
      HexOfByte(p[0]);
      assert forall b :: b in EscapeByte(p[0]) ==> b == PERCENT || IsPlain(b);
    }
  }

  /** The encoder has come to `k`: what is in front of it is escaped, the rest is as it was. */
  function Partly(p: seq<byte>, k: nat): (s: seq<byte>)
    requires k <= |p|
  {
    Escape(p[..k]) + p[k..]
  }

  lemma EscapeOne(b: byte)
    ensures Escape([b]) == EscapeByte(b)
  {
    hide EscapeByte;
    assert Escape([b]) == EscapeByte(b) + [];
  }

  lemma EscapeNext(p: seq<byte>, k: nat)
    requires k < |p|
    ensures Escape(p[..k + 1]) == Escape(p[..k]) + EscapeByte(p[k])
  {
    var front, b := p[..k], p[k];
    assert p[..k + 1] == front + [b];
    hide Escape, EscapeByte;
    EscapeOne(b);
    EscapeAppend(front, [b]);
  }

  lemma EscapeSplit(p: seq<byte>, k: nat)
    requires k < |p|
    ensures Escape(p) == Escape(p[..k + 1]) + Escape(p[k + 1..])
  {
    var front, back := p[..k + 1], p[k + 1..];
    assert p == front + back;
    hide Escape;
    EscapeAppend(front, back);
  }

  lemma Spliced(done: seq<byte>, b: byte, rest: seq<byte>, out: seq<byte>)
    ensures var s := done + ([b] + rest);
      && s[..|done|] + out + s[|done| + 1..] == done + out + rest
      && (out == [b] ==> done + out + rest == s)
  {
    var s := done + ([b] + rest);
    assert s[..|done|] == done && s[|done| + 1..] == rest;
  }

  /** One step of the encoder, and how it brings the string nearer to the whole escaped path. */
  lemma PartlyStep(p: seq<byte>, k: nat)
    requires k < |p|
    ensures var (i, out) := (|Escape(p[..k])|, EscapeByte(p[k]));
      && i < |Partly(p, k)| && Partly(p, k)[..i] + out + Partly(p, k)[i + 1..] == Partly(p, k + 1)
      && |Escape(p[..k + 1])| == i + |out|
    ensures IsPlain(p[k]) ==> Partly(p, k + 1) == Partly(p, k)
  {
    EscapeNext(p, k);
    hide Escape, EscapeByte;
    var done: seq<byte>, out: seq<byte>, b, rest := Escape(p[..k]), EscapeByte(p[k]), p[k], p[k + 1..];
    assert p[k..] == [b] + rest;
    assert Partly(p, k) == done + ([b] + rest) && Partly(p, k + 1) == done + out + rest;
    hide Partly;
    Spliced(done, b, rest, out);
  }

  lemma PartlyGrows(p: seq<byte>, k: nat)
    requires k < |p|
    ensures Escape(p[..k]) == p[..k] && IsPlain(p[k]) ==> Escape(p[..k + 1]) == p[..k + 1]
    ensures |Escape(p)| >= |Partly(p, k + 1)|
    ensures !IsPlain(p[k]) ==> Escape(p) != p
  {
    EscapeNext(p, k);
    EscapeSplit(p, k);
    hide Escape;
    assert p[..k + 1] == p[..k] + [p[k]];
    EscapeGrows(p[k + 1..]);
    EscapeGrows(p);
  }

  /** What the encoder reads in the buffer at the end of what it has escaped. */
  lemma PartlyAt(s: seq<byte>, p: cstring, k: nat)
    requires k <= |p| && Holds(s, Partly(p, k))
    ensures var i := |Escape(p[..k])|;
      i < |s| && |Partly(p, k)| < |s| && (if k < |p| then s[i] == p[k] && s[i] != NUL else s[i] == NUL)
  {
    var i := |Escape(p[..k])|;
    HalfwayAt(s, Escape(p[..k]), p[k..]);
    hide Holds;
    assert k < |p| ==> p[k..][0] == p[k] && s[i + 0] == p[k];
  }

  /** The rest of the string and its terminator move up by `memmove`, and the escape goes into the gap. */
  method EscapeAt(path: array<byte>, i: nat, out: cstring, ghost text: seq<byte>)
    requires Holds(path[..], text) && i < |text| && |out| >= 2 && |text| + |out| < path.Length
    modifies path
    ensures Holds(path[..], text[..i] + out + text[i + 1..])
  {
    hide Holds;
    ghost var s := path[..];
    var n := StrLen(path, i, text);
    OpenGap(path, i, |out|, n);
    MemCpy(path, i, out);
    Replaced(s, path[..], text, i, 1, out);
  }

  /** `memmove(&path[i + width], &path[i + 1], n + 1)` */
  method OpenGap(path: array<byte>, i: nat, width: nat, n: nat)
    requires width >= 2 && i + width + n + 1 <= path.Length
    modifies path
    ensures forall m :: 0 <= m < i ==> path[m] == old(path[m])
    ensures forall m :: i + width <= m <= i + width + n ==> path[m] == old(path[m + 1 - width])
  {
    MemMove(path, i + width, i + 1, n + 1);
  }

  /**
   convertPathToUrl. It succeeds exactly if there is nothing to escape or the escaped path leaves one
   byte of `max` to spare beside its terminator; if it fails, the string is escaped up to the byte that
   did not fit.
   */
  method ConvertPathToUrl(path: array<byte>, max: nat, ghost text: cstring) returns (ok: bool, ghost kept: nat)
    requires Holds(path[..], text) && |text| < max <= path.Length
    modifies path
    ensures kept <= |text| && Holds(path[..], Partly(text, kept)) && (ok ==> Holds(path[..], Escape(text)))
    ensures ok <==> Escape(text) == text || |Escape(text)| + 2 <= max
    ensures !ok ==> kept < |text| && !IsPlain(text[kept]) && |Partly(text, kept)| + |EscapeByte(text[kept])| >= max
  {
    hide Holds, Escape, EscapeByte, Partly;
    var i := 0;
    kept := 0;
    PartlyEnds(text);
    PartlyAt(path[..], text, 0);
    while path[i] != NUL
      invariant kept <= |text| && i == |Escape(text[..kept])| && i < path.Length
      invariant Holds(path[..], Partly(text, kept))
      invariant Escape(text[..kept]) == text[..kept] || |Partly(text, kept)| + 2 <= max
      decreases |text| - kept
    {
      PartlyAt(path[..], text, kept);
      PartlyStep(text, kept);
      PartlyGrows(text, kept);
      if !IsPlain(path[i]) {
        var out := EscapeByte(path[i]);
        var length := StrLen(path, 0, Partly(text, kept));
        if length + |out| > max - 1 {
          return false, kept;
        }
        EscapeAt(path, i, out, Partly(text, kept));
        i := i + |out| - 1;
      }
      i, kept := i + 1, kept + 1;
      PartlyAt(path[..], text, kept);
    }
    PartlyAt(path[..], text, kept);
    assert text[..kept] == text;
    ok := true;
  }

  lemma PartlyEnds(p: seq<byte>)
    ensures Escape(p[..0]) == [] == p[..0] && Partly(p, 0) == p && Partly(p, |p|) == Escape(p)
  {
    assert p[..0] == [] && p[0..] == p && p[..|p|] == p && p[|p|..] == [];
  }
}
