/** What the server writes in the chunked coding, the reference decoder reads back. */
module RoundTrip {
  import opened Bytes
  import opened SendBuffers
  import opened ChunkWriter
  import opened ChunkDecoder
  import opened Routines
  import ChunkStrip

  /** The longest chunk whose size line is still within the decoder's window. */
  predicate FitsPeek(text: seq<byte>) { |text| < Power16(MAX_DIGITS) }

  /** Printing a number in hex and reading it back. */
  lemma {:induction false} HexReads(n: nat)
    ensures AllHex(Hex(n)) && HexFrom(0, Hex(n)) == n
  {
    if n < 16 {
      assert Hex(n)[1..] == [];
    } else {
      HexReads(n / 16);
      HexFromAppend(0, Hex(n / 16), HexChar(n % 16));
    }
  }

  /** A size line in either case is read as the number that is printed in small letters. */
  lemma EitherCaseReads(n: nat, hex: seq<byte>)
    requires |hex| == |Hex(n)| <= 15 && forall i :: 0 <= i < |hex| ==> SameLetter(hex[i], Hex(n)[i])
    ensures AllHex(hex) && HexFrom(0, hex) == n
    ensures After(START, hex + [13, 10]) == if n == 0 then Done else Data(n)
  {
    SameNumber(0, hex, Hex(n));
    HexReads(n);
    SizeLineRead(hex);
    assert CRLF == [13, 10];
  }

  lemma {:induction false} SameNumber(v: nat, a: seq<byte>, b: seq<byte>)
    requires |a| == |b| && AllHex(b) && forall i :: 0 <= i < |a| ==> SameLetter(a[i], b[i])
    ensures AllHex(a) && HexFrom(v, a) == HexFrom(v, b)
    decreases |a|
  {
    hide Digit, SameLetter;
    if a != [] {
      SameDigit(a[0], b[0]);
      SameNumber(16 * v + Digit(b[0]), a[1..], b[1..]);
      assert a == [a[0]] + a[1..];
    }
  }

  lemma SameDigit(a: byte, b: byte)
    requires IsHex(b) && SameLetter(a, b)
    ensures IsHex(a) && Digit(a) == Digit(b)
  {
    Letters();
  }

  lemma {:induction false} HexShort(n: nat, k: nat)
    requires n < Power16(k) && k > 0
    ensures |Hex(n)| <= k
  {
    if n >= 16 {
      HexShort(n / 16, k - 1);
    }
  }

  /** hexGetStringLength counts the digits that printing takes. */
  method HexGetStringLength(number: nat) returns (r: nat)
    ensures r == |Hex(number)|
  {
    if number == 0 {
      return 1;
    }
    r := 0;
    var n := number;
    while n != 0
      invariant n != 0 ==> r + |Hex(n)| == |Hex(number)|
      invariant n == 0 ==> r == |Hex(number)|
    {
      n, r := n / 16, r + 1;
    }
  }

  /** A chunk of at least one byte is read as exactly its text, and the decoder is back at a size line. */
  lemma ChunkDecodes(text: seq<byte>)
    requires text != [] && FitsPeek(text)
    ensures After(START, Chunk(text)) == START && Out(START, Chunk(text)) == text
  {
    var n := |text|;
    HexReads(n);
    HexShort(n, MAX_DIGITS);
    SizeLineRead(Hex(n));
    DataBlock(n, text);
    hide Hex, Out, After;
    Concat(START, SizeLine(n), text);
    Concat(START, SizeLine(n) + text, CRLF);
    assert After(START, SizeLine(n) + text) == Data(0);
    EndOfChunk();
  }

  lemma EndOfChunk()
    ensures After(Data(0), CRLF) == START && Out(Data(0), CRLF) == []
  {
    LineEnd(CRLF);
    assert CRLF[2..] == [];
  }

  lemma LastDecodes(tail: seq<byte>)
    ensures After(START, LAST_CHUNK + tail) == Done && Out(START, LAST_CHUNK + tail) == []
  {
    var zero: seq<byte> := [48];
    assert HexFrom(0, zero) == 0 && AllHex(zero) by {
      assert zero[1..] == [];
    }
    SizeLineRead(zero);
    var rest := CRLF + tail;
    assert LAST_CHUNK + tail == (zero + CRLF) + rest;
    Concat(START, zero + CRLF, rest);
    DoneStays(rest);
  }

  function Body(texts: seq<seq<byte>>): seq<byte> {
    if texts == [] then [] else Chunk(texts[0]) + Body(texts[1..])
  }

  /** No text behind an empty one, which the coding takes for the end of the body. */
  predicate NothingLost(texts: seq<seq<byte>>) {
    texts == [] || (if texts[0] == [] then Flat(texts[1..]) == [] else NothingLost(texts[1..]))
  }

  lemma EmptyChunkEnds(rest: seq<byte>)
    ensures After(START, Chunk([]) + rest) == Done && Out(START, Chunk([]) + rest) == []
  {
    LastDecodes(rest);
    assert Chunk([]) == LAST_CHUNK by {
      assert Hex(0) == [48];
      assert Chunk([]) == [48] + CRLF + [] + CRLF;
    }
  }

  /**
   Encoding and decoding: any body of chunks that fit the window is decoded to the concatenation of
   its texts, however they are cut into chunks, if and only if no text follows an empty chunk.
   */
  lemma {:induction false} EncodeDecode(texts: seq<seq<byte>>, tail: seq<byte>)
    requires forall i :: 0 <= i < |texts| ==> FitsPeek(texts[i])
    ensures After(START, Body(texts) + LAST_CHUNK + tail) == Done
    ensures Out(START, Body(texts) + LAST_CHUNK + tail) == Flat(texts) <==> NothingLost(texts)
    decreases |texts|
  {
    var s := Body(texts) + LAST_CHUNK + tail;
    if texts == [] {
      LastDecodes(tail);
      assert s == LAST_CHUNK + tail;
    } else {
      var (text, rest) := (texts[0], Body(texts[1..]) + LAST_CHUNK + tail);
      assert s == Chunk(text) + rest;
      if text == [] {
        EmptyChunkEnds(rest);
      } else {
        ChunkDecodes(text);
        Concat(START, Chunk(text), rest);
        EncodeDecode(texts[1..], tail);
        SameFront(text, Out(START, rest), Flat(texts[1..]));
      }
    }
  }

  lemma SameFront(a: seq<byte>, b: seq<byte>, c: seq<byte>)
    ensures a + b == a + c <==> b == c
  {
    assert (a + b)[|a|..] == b && (a + c)[|a|..] == c;
  }

  /** The text of nonempty chunks has been put out when the line end of the last of them is still to come. */
  lemma {:induction false} BodyFront(texts: seq<seq<byte>>) returns (front: seq<byte>)
    requires texts != [] && forall i :: 0 <= i < |texts| ==> texts[i] != [] && FitsPeek(texts[i])
    ensures Body(texts) == front + CRLF && After(START, front) == Data(0) && Out(START, front) == Flat(texts)
    decreases |texts|
  {
    var text := texts[0];
    hide After, Out;
    if |texts| == 1 {
      front := SizeLine(|text|) + text;
      ChunkFront(text);
      assert texts[1..] == [] && Body(texts[1..]) == [] && Flat(texts[1..]) == [];
      assert Chunk(text) + [] == Chunk(text) && text + [] == text;
    } else {
      var more := BodyFront(texts[1..]);
      front := Chunk(text) + more;
      ChunkDecodes(text);
      Concat(START, Chunk(text), more);
    }
  }

  lemma ChunkFront(text: seq<byte>)
    requires text != [] && FitsPeek(text)
    ensures After(START, SizeLine(|text|) + text) == Data(0) && Out(START, SizeLine(|text|) + text) == text
  {
    HexReads(|text|);
    HexShort(|text|, MAX_DIGITS);
    SizeLineRead(Hex(|text|));
    DataBlock(|text|, text);
    hide Hex, Out, After;
    Concat(START, SizeLine(|text|), text);
  }

  /** The in-place strip of a body that the server wrote leaves the line end of its last text behind. */
  lemma StrippedServerBody(texts: seq<seq<byte>>, now: seq<byte>, max: nat, len: int, verdict: ChunkStrip.Verdict,
                           kept: nat)
    requires texts != [] && forall i :: 0 <= i < |texts| ==> texts[i] != [] && FitsPeek(texts[i])
    requires ChunkStrip.Stripped(START, Body(texts) + LAST_CHUNK, now, max, len, verdict, kept)
    ensures len == -1 && now[..max] == Flat(texts) + CRLF
  {
    hide ChunkStrip.Stripped, After, Out, Body, Flat;
    var front := BodyFront(texts);
    var last := ChunkStrip.LAST_LINE;
    assert LAST_CHUNK == last + CRLF;
    assert Body(texts) + LAST_CHUNK == front + (CRLF + last + CRLF);
    ChunkStrip.ClosingLineStays(front, now, max, len, verdict, kept);
  }

  // ---- through the send buffer

  /** httpBodyWriteChunk for each text, then httpBodyWriteChunkEnding. */
  function WriteBody(s: SendState, texts: seq<cstring>): SendState
    requires s.Valid()
    decreases |texts|
  {
    if texts == [] then EndingOf(s)
    else
      ChunkKeeps(s, texts[0]);
      WriteBody(ChunkOf(s, texts[0]).0, texts[1..])
  }

  lemma {:induction false} WriteBodyAccepts(s: SendState, texts: seq<cstring>)
    requires s.Valid()
    ensures var t := WriteBody(s, texts);
      Onward(s, t) && (t.failed || t.Accepted() == s.Accepted() + (Body(texts) + LAST_CHUNK))
    decreases |texts|
  {
    hide SendState.Accepted, SendState.Valid, ChunkOf, EndingOf, WriteOf, Follows, Onward, Chunk, ChunkTaken;
    if texts == [] {
      EndingKeeps(s);
      FollowsOnward(s, EndingOf(s), EndingTaken(s));
      assert Body(texts) + LAST_CHUNK == LAST_CHUNK;
    } else {
      var t := ChunkOf(s, texts[0]).0;
      ChunkKeeps(s, texts[0]);
      FollowsOnward(s, t, ChunkTaken(s, texts[0]));
      WriteBodyAccepts(t, texts[1..]);
      var u := WriteBody(t, texts[1..]);
      OnwardTrans(s, t, u);
      OnwardFacts(t, u);
      var (a, b) := (Chunk(texts[0]), Body(texts[1..]));
      assert s.Accepted() + a + (b + LAST_CHUNK) == s.Accepted() + (a + b + LAST_CHUNK);
    }
  }

  /**
   End to end: whatever `send` does short of failing hard, the bytes the send buffer accepts for a
   body of nonempty chunks decode to the body.
   */
  lemma BodyArrives(s: SendState, texts: seq<cstring>)
    requires s.Valid() && !WriteBody(s, texts).failed
    requires forall i :: 0 <= i < |texts| ==> texts[i] != [] && FitsPeek(texts[i])
    ensures var t := WriteBody(s, texts);
      && s.Accepted() <= t.Accepted()
      && After(START, t.Accepted()[|s.Accepted()|..]) == Done
      && Out(START, t.Accepted()[|s.Accepted()|..]) == Flat(texts)
  {
    WriteBodyAccepts(s, texts);
    hide WriteBody, SendState.Accepted, Onward;
    var t := WriteBody(s, texts);
    var sent := Body(texts) + LAST_CHUNK;
    assert t.Accepted() == s.Accepted() + sent && t.Accepted()[|s.Accepted()|..] == sent;
    assert sent + [] == sent;
    AllKept(texts);
    EncodeDecode(texts, []);
  }

  /**
   From the server to the client: what the send buffer accepts for a body, read from a socket by any
   schedule of appends, is delivered as a front part of the body, and whole when the reader completes.
   */
  lemma BodyReachesClient(s: SendState, texts: seq<cstring>, points: seq<Point>)
    requires s.Valid() && !WriteBody(s, texts).failed
    requires forall i :: 0 <= i < |texts| ==> texts[i] != [] && FitsPeek(texts[i])
    requires points != [] && Schedule(points) && points[0].st == START && points[0].contents == []
    requires s.Accepted() + points[0].unread == WriteBody(s, texts).Accepted()
    ensures points[|points| - 1].contents <= Flat(texts)
    ensures points[|points| - 1].st == Done ==> points[|points| - 1].contents == Flat(texts)
  {
    BodyArrives(s, texts);
    hide WriteBody, SendState.Accepted, Schedule, After, Out;
    assert (s.Accepted() + points[0].unread)[|s.Accepted()|..] == points[0].unread;
    EverySchedule(points);
  }

  lemma {:induction false} AllKept(texts: seq<seq<byte>>)
    requires forall i :: 0 <= i < |texts| ==> texts[i] != []
    ensures NothingLost(texts)
  {
    if texts != [] {
      AllKept(texts[1..]);
    }
  }

  // ---- directory pages

  /** The text of a page tail: one list item per visible entry whose path fits, in directory order. */
  function ItemTexts(listing: seq<Entry>, at: nat): seq<byte>
    requires at <= |listing|
  {
    if at == 0 then []
    else
      var e := listing[at - 1];
      ItemTexts(listing, at - 1) + (if e.hidden || !e.fits then [] else e.link)
  }

  /** A list item is never empty, and its size line fits. */
  predicate ItemsPrint(listing: seq<Entry>) {
    forall e :: e in listing && !e.hidden && e.fits ==> e.link != [] && FitsPeek(e.link)
  }

  lemma {:induction false} ItemsDecode(listing: seq<Entry>, at: nat)
    requires at <= |listing| && ItemsPrint(listing)
    ensures After(START, Items(listing, at)) == START && Out(START, Items(listing, at)) == ItemTexts(listing, at)
  {
    hide Chunk;
    if at > 0 {
      ItemsDecode(listing, at - 1);
      var (e, items) := (listing[at - 1], Items(listing, at - 1));
      if e.hidden || !e.fits {
        assert items + [] == items;
      } else {
        ChunkDecodes(e.link);
        Concat(START, items, Chunk(e.link));
      }
    }
  }

  lemma ClosingFits(count: nat)
    ensures Closing(count) != [] && FitsPeek(Closing(count))
  {
    assert 0 < |Closing(count)| <= |EMPTY_ITEM| + |LIST_END| + |FOOTER| < 100;
    assert Power16(MAX_DIGITS) >= Power16(2) == 256 by {
      PowerGrows(2, MAX_DIGITS);
    }
  }

  /** A directory page that was accepted whole decodes to its items, in order, and the footer. */
  lemma DirTailDecodes(listing: seq<Entry>)
    requires ItemsPrint(listing)
    ensures After(START, DirTail(listing)) == Done
    ensures Out(START, DirTail(listing)) ==
      ItemTexts(listing, |listing|) + Closing(CountItems(listing, |listing|))
  {
    var (items, text) := (Items(listing, |listing|), Closing(CountItems(listing, |listing|)));
    ClosingFits(CountItems(listing, |listing|));
    hide Chunk, Closing, Items, CountItems, ItemTexts, After, Out;
    ItemsDecode(listing, |listing|);
    ChunkDecodes(text);
    LastDecodes([]);
    assert LAST_CHUNK + [] == LAST_CHUNK;
    Concat(START, items, Chunk(text));
    Concat(START, items + Chunk(text), LAST_CHUNK);
    assert DirTail(listing) == items + Chunk(text) + LAST_CHUNK;
  }
}
