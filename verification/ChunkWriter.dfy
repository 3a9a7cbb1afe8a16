/** Writing an HTTP body in the chunked coding (section 7.1 of RFC 9112; src/server/http.c). */
module ChunkWriter {
  import opened Bytes
  import opened SendBuffers

  const LAST_CHUNK: seq<byte> := [48] + CRLF + CRLF

  function HexChar(d: nat): byte
    requires d < 16
  {
    if d < 10 then 48 + d else 87 + d
  }

  /** Small letters, as `%lx` prints them. */
  lemma HexPrints(d: nat)
    requires d < 16
    ensures HexChar(d) == DIGITS[d] as int
  {
    DigitsAre(d);
  }

  /** `sprintf("%lx")` */
  function Hex(n: nat): (s: cstring)
    ensures |s| > 0
  {
    if n < 16 then [HexChar(n)] else Hex(n / 16) + [HexChar(n % 16)]
  }

  function SizeLine(n: nat): seq<byte> { Hex(n) + CRLF }

  function Chunk(text: seq<byte>): (chunk: seq<byte>)
    ensures |chunk| > 0
  {
    SizeLine(|text|) + text + CRLF
  }

  /** The coding in bytes (section 7.1 of RFC 9112). */
  lemma CodingIs(text: seq<byte>)
    ensures Chunk(text) == Hex(|text|) + [13, 10] + text + [13, 10]
    ensures LAST_CHUNK == Ascii("0\r\n\r\n")
  {
    var last := Ascii("0\r\n\r\n");
    assert |last| == 5 && last[0] == 48 && last[1] == 13 && last[2] == 10 && last[3] == 13 && last[4] == 10;
  }

  function ChunkOf(s: SendState, text: cstring): (SendState, nat) {
    var (s1, n1) := WriteOf(s, SizeLine(|text|));
    var (s2, n2) := WriteOf(s1, text);
    var (s3, n3) := WriteOf(s2, CRLF);
    (s3, n1 + n2 + n3)
  }

  function EndingOf(s: SendState): SendState
    requires s.Valid()
  {
    var (t, n) := WriteOf(s, LAST_CHUNK);
    WriteKeeps(s, LAST_CHUNK);
    if n == 0 then t else FlushOf(t).0
  }

  /** What the three writes of a chunk take, in order. */
  ghost function ChunkTaken(s: SendState, text: cstring): (taken: seq<byte>)
    requires s.Valid()
    ensures |taken| == ChunkOf(s, text).1
  {
    var (s1, n1) := WriteOf(s, SizeLine(|text|));
    var (s2, n2) := WriteOf(s1, text);
    var (s3, n3) := WriteOf(s2, CRLF);
    WriteKeeps(s, SizeLine(|text|));
    WriteKeeps(s1, text);
    WriteKeeps(s2, CRLF);
    SizeLine(|text|)[..n1] + text[..n2] + CRLF[..n3]
  }

  /** A chunk goes out whole and in order unless one of its three writes fails hard. */
  lemma ChunkKeeps(s: SendState, text: cstring)
    requires s.Valid()
    ensures ChunkOf(s, text).0.Valid()
    ensures Follows(s, ChunkOf(s, text).0, ChunkTaken(s, text))
    ensures ChunkOf(s, text).0.failed || ChunkTaken(s, text) == Chunk(text)
  {
    hide WriteOf, Follows, Onward, SendState.Valid, SendState.Accepted, Hex;
    var (s1, n1) := WriteOf(s, SizeLine(|text|));
    var (s2, n2) := WriteOf(s1, text);
    var (s3, n3) := WriteOf(s2, CRLF);
    var (a, b, c) := (SizeLine(|text|), text, CRLF);
    WriteKeeps(s, a);
    FollowsOnward(s, s1, a[..n1]);
    WriteKeeps(s1, b);
    FollowsOnward(s1, s2, b[..n2]);
    OnwardFacts(s1, s2);
    WriteKeeps(s2, c);
    FollowsOnward(s2, s3, c[..n3]);
    OnwardFacts(s2, s3);
    FollowsTrans(s, s1, s2, a[..n1], b[..n2]);
    FollowsTrans(s, s2, s3, a[..n1] + b[..n2], c[..n3]);
  }

  ghost function EndingTaken(s: SendState): (taken: seq<byte>)
    requires s.Valid()
    ensures taken <= LAST_CHUNK
  {
    WriteKeeps(s, LAST_CHUNK);
    LAST_CHUNK[..WriteOf(s, LAST_CHUNK).1]
  }

  lemma EndingKeeps(s: SendState)
    requires s.Valid()
    ensures EndingOf(s).Valid()
    ensures Follows(s, EndingOf(s), EndingTaken(s))
    ensures EndingOf(s).failed || EndingTaken(s) == LAST_CHUNK
    ensures s.peer.Roomy() ==> EndingOf(s).buffer.None?
  {
    var (t, n) := WriteOf(s, LAST_CHUNK);
    WriteKeeps(s, LAST_CHUNK);
    if s.peer.Roomy() {
      RoomyFlush(s, t);
    }
    if n > 0 {
      FlushKeeps(t);
      FollowsTrans(s, t, FlushOf(t).0, LAST_CHUNK, []);
      assert LAST_CHUNK + [] == LAST_CHUNK == LAST_CHUNK[..n];
    }
  }

  /** httpBodyWriteChunk */
  method BodyWriteChunk(socketBuffer: SendBuffer, text: cstring) returns (r: nat)
    requires socketBuffer.Valid()
    modifies socketBuffer, socketBuffer.clientSocket
    ensures socketBuffer.Valid()
    ensures socketBuffer.Model() == ChunkOf(old(socketBuffer.Model()), text).0
    ensures r == ChunkOf(old(socketBuffer.Model()), text).1
  {
    var size := SizeLine(|text|);
    r := socketBuffer.WriteData(size);
    var body := socketBuffer.WriteData(text);
    var eol := socketBuffer.WriteData(CRLF);
    r := r + body + eol;
  }

  /** httpBodyWriteChunkEnding */
  method BodyWriteChunkEnding(socketBuffer: SendBuffer) returns (r: nat)
    requires socketBuffer.Valid()
    modifies socketBuffer, socketBuffer.clientSocket
    ensures socketBuffer.Valid()
    ensures socketBuffer.Model() == EndingOf(old(socketBuffer.Model()))
    ensures var (t, n) := WriteOf(old(socketBuffer.Model()), LAST_CHUNK);
      t.Valid() && r == if n == 0 then 0 else FlushOf(t).1
  {
    WriteKeeps(socketBuffer.Model(), LAST_CHUNK);
    r := socketBuffer.WriteData(LAST_CHUNK);
    if r != 0 {
      r := socketBuffer.Flush();
    }
  }
}
