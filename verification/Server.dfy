/**
 Serving a file: the requested range, the announced length and the routine that delivers the body
 (handleFile in src/server/server.c, httpHeaderReadRange in src/server/http.c).
 */
module Servers {
  import opened Bytes
  import opened Decimals
  import opened Provenance
  import opened SendBuffers
  import opened Routines
  import opened Ticks
  import opened RoutineArrays

  const DASH: byte := 45
  const EQU: byte := 61
  const RANGE: seq<byte> := [82, 97, 110, 103, 101]
  const BYTES_PARAMETER: seq<byte> := [98, 121, 116, 101, 115, 61]
  const MAX_RANGE_STR_BUF: nat := 128

  /** What a request asks for; a part is half-open, and its numbers are whatever the request says. */
  datatype Range = Whole | Part(start: int, finish: int)

  predicate IsGap(b: byte) { b == 32 || b == 58 || b == 9 }

  /** Behind the blanks and colons at the front. */
  function SkipGap(s: seq<byte>): (r: seq<byte>)
    ensures NulFree(s) ==> NulFree(r)
  {
    if s != [] && IsGap(s[0]) then SkipGap(s[1..]) else s
  }

  /** The value of a header field, up to the end of its line; empty if the line does not end. */
  function FieldValue(s: seq<byte>): (r: seq<byte>)
    ensures NulFree(s) ==> NulFree(r)
  {
    var d := SkipGap(s);
    var r, n := StrChr(d, CR), StrChr(d, LF);
    if d != [] && (d[0] == CR || d[0] == LF) then []
    else if r >= 0 then d[..r]
    else if n >= 0 then d[..n]
    else []
  }

  predicate IsSpace(b: byte) { b == 32 || 9 <= b <= 13 }

  function SkipSpace(s: seq<byte>): seq<byte> {
    if s != [] && IsSpace(s[0]) then SkipSpace(s[1..]) else s
  }

  function LeadingDigits(r: nat, s: seq<byte>): nat
    decreases |s|
  {
    if s != [] && IsDigit(s[0]) then LeadingDigits(10 * r + (s[0] - 48), s[1..]) else r
  }

  /** `atol`, without a limit on the number. */
  function Atol(s: seq<byte>): int {
    var d := SkipSpace(s);
    if d != [] && d[0] == DASH then 0 - LeadingDigits(0, d[1..])
    else if d != [] && d[0] == 43 then LeadingDigits(0, d[1..])
    else LeadingDigits(0, d)
  }

  /** From `i` up to `stop`, which has been overwritten by a NUL, if that lies ahead. */
  function UpTo(s: seq<byte>, i: nat, stop: nat): seq<byte>
    requires i <= |s| && stop < |s|
  {
    if i <= stop then s[i..stop] else s[i..]
  }

  /** httpHeaderReadRange behind the field name: the first `=` and the first dash of the value are its cuts. */
  function ValueRange(value: seq<byte>, max: int): Range {
    if |value| >= MAX_RANGE_STR_BUF - 1 || StrStr(value, BYTES_PARAMETER, 0) < 0 then Whole
    else
      var equ, dash := StrChr(value, EQU), StrChr(value, DASH);
      if equ < 0 || dash < 0 then Whole
      else
        var start := if equ + 1 != dash then Atol(UpTo(value, equ + 1, dash)) else 0;
        var last := UpTo(value, dash + 1, equ);
        var finish := if last != [] then Atol(last) else 0;
        Part(start, if finish == 0 then max else finish)
  }

  function RequestRange(request: cstring, max: int): Range {
    var t := StrStr(request, RANGE, 0);
    if t < 0 then Whole else ValueRange(FieldValue(request[t + 5..]), max)
  }

  /** httpHeaderDataClamp */
  method DataClamp(s: seq<byte>) returns (data: seq<byte>, length: nat)
    requires NulFree(s)
    ensures length <= |data| && data[..length] == FieldValue(s)
  {
    data := s;
    while data != []
      invariant SkipGap(data) == SkipGap(s)
      decreases |data|
    {
      if IsGap(data[0]) {
        data := data[1..];
        continue;
      }
      if data[0] == CR || data[0] == LF {
        return data, 0;
      }
      break;
    }
    assert SkipGap(data) == data;
    var end := StrChr(data, CR);
    if end < 0 {
      end := StrChr(data, LF);
      if end < 0 {
        return data, 0;
      }
    }
    length := end;
  }

  lemma BehindRange(request: cstring, t: nat)
    requires At(request, RANGE, t)
    ensures t + 5 <= |request| && NulFree(request[t + 5..])
  {
  }

  /** httpHeaderReadRange, with both numbers 0 before the call: it fails on anything that is not a range. */
  method HeaderReadRange(request: cstring, max: int) returns (failed: bool, start: int, end: int)
    ensures failed <==> RequestRange(request, max) == Whole
    ensures if failed then start == end == 0 else RequestRange(request, max) == Part(start, end)
  {
    hide FieldValue, StrStr, StrChr, Atol, UpTo, At;
    start, end := 0, 0;
    var t := StrStr(request, RANGE, 0);
    if t >= 0 {
      BehindRange(request, t);
      var data, strLength := DataClamp(request[t + 5..]);
      if strLength >= MAX_RANGE_STR_BUF - 1 {
        return true, start, end;
      }
      var range := data[..strLength];
      if StrStr(range, BYTES_PARAMETER, 0) < 0 {
        return true, start, end;
      }
      var equ, dash := StrChr(range, EQU), StrChr(range, DASH);
      if equ < 0 || dash < 0 {
        return true, start, end;
      }
      if equ + 1 != dash {
        start := Atol(UpTo(range, equ + 1, dash));
      }
      if UpTo(range, dash + 1, equ) != [] {
        end := Atol(UpTo(range, dash + 1, equ));
      }
      if end == 0 {
        end := max;
      }
      return false, start, end;
    }
    failed := true;
  }

  lemma {:induction false} DigitsLead(r: nat, s: seq<byte>)
    requires AllDigits(s)
    ensures LeadingDigits(r, s) == DecimalFrom(r, s)
    decreases |s|
  {
    if s != [] {
      DigitsLead(10 * r + (s[0] - 48), s[1..]);
    }
  }

  lemma {:induction false} DigitsThen(r: nat, s: seq<byte>, tail: seq<byte>)
    requires AllDigits(s) && (tail == [] || !('0' as int <= tail[0] <= '9' as int))
    ensures LeadingDigits(r, s + tail) == DecimalFrom(r, s)
    decreases |s|
  {
    if s == [] {
      assert s + tail == tail;
    } else {
      assert (s + tail)[0] == s[0] && (s + tail)[1..] == s[1..] + tail;
      DigitsThen(10 * r + (s[0] - 48), s[1..], tail);
    }
  }

  lemma {:induction false} SpaceSkipped(space: seq<byte>, s: seq<byte>)
    requires forall i :: 0 <= i < |space| ==> space[i] == ' ' as int || '\t' as int <= space[i] <= '\r' as int
    requires s != [] ==> s[0] != ' ' as int && !('\t' as int <= s[0] <= '\r' as int)
    ensures SkipSpace(space + s) == s
  {
    if space == [] {
      assert space + s == s;
    } else {
      assert (space + s)[0] == space[0] && (space + s)[1..] == space[1..] + s;
      SpaceSkipped(space[1..], s);
    }
  }

  /**
   White space in front is skipped, a sign is heeded, and the number ends where its digits do; it is 0 if there
   are none.
   */
  lemma AtolIs(space: seq<byte>, sign: string, digits: seq<byte>, tail: seq<byte>)
    requires forall i :: 0 <= i < |space| ==> space[i] == ' ' as int || '\t' as int <= space[i] <= '\r' as int
    requires AllDigits(digits) && (tail == [] || !('0' as int <= tail[0] <= '9' as int))
    requires sign == "" || sign == "+" || sign == "-"
    requires sign == "" && digits == [] && tail != [] ==>
      tail[0] !in Ascii(" +-") && !('\t' as int <= tail[0] <= '\r' as int)
    ensures Atol(space + (Ascii(sign) + (digits + tail))) ==
            if sign == "-" then 0 - DecimalFrom(0, digits) else DecimalFrom(0, digits)
  {
    var number := digits + tail;
    var signed := Ascii(sign) + number;
    assert digits != [] ==> IsDigit(digits[0]) && number[0] == digits[0];
    assert digits == [] ==> number == tail;
    assert sign == "" ==> signed == number;
    assert sign != "" ==> signed[1..] == number && signed[0] == sign[0] as int;
    Signs();
    SpaceSkipped(space, signed);
    DigitsThen(0, digits, tail);
    hide SkipSpace, LeadingDigits, DecimalFrom;
  }

  lemma Signs()
    ensures ' ' as int in Ascii(" +-") && '+' as int in Ascii(" +-") && '-' as int in Ascii(" +-")
  {
    assert Ascii(" +-")[0] == 32 && Ascii(" +-")[1] == 43 && Ascii(" +-")[2] == 45;
  }

  lemma AtolReads(s: seq<byte>)
    requires AllDigits(s)
    ensures Atol(s) == DecimalFrom(0, s)
  {
    AtolIs([], "", s, []);
    assert [] + (Ascii("") + (s + [])) == s;
  }

  /** A range as a client writes it: `bytes=a-b`, or `bytes=a-` when `last` is empty. */
  function RangeText(a: nat, last: seq<byte>): seq<byte> {
    Ascii("bytes=") + (Decimal(a) + (Ascii("-") + last))
  }

  lemma NotInRange(a: nat, last: seq<byte>, c: byte)
    requires AllDigits(last) && !IsDigit(c) && c != DASH && c !in BYTES_PARAMETER
    ensures c !in RangeText(a, last)
  {
    BytesText();
  }

  lemma BytesText()
    ensures Ascii("bytes=") == BYTES_PARAMETER && Ascii("-") == [DASH] && Ascii("Range") == RANGE
  {
  }

  lemma RangeTextStarts(a: nat, last: seq<byte>)
    ensures RangeText(a, last) != [] && RangeText(a, last)[0] == 98
  {
  }

  lemma Cuts(a: seq<byte>, b: seq<byte>, c: byte, d: seq<byte>)
    ensures var (s, i) := (a + (b + ([c] + d)), |a| + |b|);
      s[..i] == a + b && s[|a|..i] == b && s[i] == c && s[i + 1..] == d
  {
    var s := a + (b + ([c] + d));
    assert s == a + b + [c] + d;
  }

  /** The cuts of such a value fall where they should. */
  lemma ValueReads(a: nat, last: seq<byte>, max: int)
    requires AllDigits(last) && |RangeText(a, last)| <= 126
    ensures var finish := if last == [] then 0 else Atol(last);
      ValueRange(RangeText(a, last), max) == Part(a, if finish == 0 then max else finish)
  {
    var value, digits := RangeText(a, last), Decimal(a);
    var dash := 6 + |digits|;
    DecimalReads(a);
    AtolReads(digits);
    BytesText();
    assert BYTES_PARAMETER == [98, 121, 116, 101, 115, 61];
    assert value[0..6] == BYTES_PARAMETER && At(value, BYTES_PARAMETER, 0);
    assert value[..5] == [98, 121, 116, 101, 115] && value[5] == EQU;
    StrChrIs(value, EQU, 5);
    Cuts(BYTES_PARAMETER, digits, DASH, last);
    StrChrIs(value, DASH, dash);
  }

  /** A value that is too long, or has no "bytes=" or no dash in it, is as good as none, and no other is. */
  lemma NoRange(value: cstring, max: int)
    ensures ValueRange(value, max) == Whole <==>
      |value| > 126 || (forall i: nat :: !At(value, Ascii("bytes="), i)) || '-' as int !in value
  {
    BytesText();
    var t := StrStr(value, BYTES_PARAMETER, 0);
    if t >= 0 {
      assert value[t..t + 6] == BYTES_PARAMETER && value[t + 5] == BYTES_PARAMETER[5] == EQU;
    }
    hide At, StrStr, StrChr, Atol, UpTo;
  }

  /** Any other value is cut at its first `=` and its first dash, in whichever order they come. */
  lemma ValueCuts(value: cstring, max: int, e: nat, d: nat)
    requires |value| <= 126 && exists i: nat :: At(value, Ascii("bytes="), i)
    requires e < |value| && value[e] == '=' as int && '=' as int !in value[..e]
    requires d < |value| && value[d] == '-' as int && '-' as int !in value[..d]
    ensures var (first, last) :=
        if e < d then (value[e + 1..d], value[d + 1..]) else (value[e + 1..], value[d + 1..e]);
      ValueRange(value, max) == Part(Atol(first), if Atol(last) == 0 then max else Atol(last))
  {
    BytesText();
    StrChrIs(value, EQU, e);
    StrChrIs(value, DASH, d);
    AtolReads([]);
    var t := StrStr(value, BYTES_PARAMETER, 0);
    hide At, StrStr, StrChr, Atol;
  }

  /** A suffix range, the last bytes of the file by section 14.1.2 of RFC 9110, is taken for the first ones. */
  lemma SuffixReads(last: seq<byte>, max: int)
    requires AllDigits(last) && last != [] && |last| <= 119
    ensures var value, finish := Ascii("bytes=-") + last, DecimalFrom(0, last);
      NulFree(value) && ValueRange(value, max) == Part(0, if finish == 0 then max else finish)
  {
    var value := Ascii("bytes=-") + last;
    SuffixText(last);
    AtolReads(last);
    AtolReads([]);
    hide *;
    assert value[6..6] == [];
    ValueCuts(value, max, 5, 6);
  }

  lemma SuffixText(last: seq<byte>)
    requires AllDigits(last)
    ensures var value := Ascii("bytes=-") + last;
      && |value| == 7 + |last| && value[7..] == last && NulFree(value) && At(value, Ascii("bytes="), 0)
      && value[5] == '=' as int && '=' as int !in value[..5] && value[6] == '-' as int && '-' as int !in value[..6]
  {
    var text, value := Ascii("bytes=-"), Ascii("bytes=-") + last;
    assert text == [98, 121, 116, 101, 115, 61, 45];
    assert value[0..6] == text[..6] == Ascii("bytes=");
    assert value[..5] == text[..5] && value[..6] == text[..6];
  }

  lemma {:induction false} GapSkipped(gap: seq<byte>, s: seq<byte>)
    requires forall i :: 0 <= i < |gap| ==> gap[i] == ' ' as int || gap[i] == ':' as int || gap[i] == '\t' as int
    requires s != [] ==> s[0] != ' ' as int && s[0] != ':' as int && s[0] != '\t' as int
    ensures SkipGap(gap + s) == s
  {
    if gap == [] {
      assert gap + s == s;
    } else {
      assert (gap + s)[0] == gap[0] && (gap + s)[1..] == gap[1..] + s;
      GapSkipped(gap[1..], s);
    }
  }

  /** Behind any number of colons, blanks and tabs comes the value of a field, up to the end of the line. */
  lemma FieldReads(gap: seq<byte>, value: seq<byte>, rest: seq<byte>)
    requires forall i :: 0 <= i < |gap| ==> gap[i] == ' ' as int || gap[i] == ':' as int || gap[i] == '\t' as int
    requires value != [] && value[0] != ' ' as int && value[0] != ':' as int && value[0] != '\t' as int
    requires 13 !in value && 10 !in value && EndsLine(rest)
    ensures FieldValue(gap + (value + rest)) == value
  {
    var d := value + rest;
    assert d[0] == value[0] && value[0] in value;
    GapSkipped(gap, d);
    assert d[..|value|] == value && d[|value|] == rest[0];
    hide SkipGap;
    if rest[0] == 13 {
      StrChrIs(d, CR, |value|);
    } else {
      StrChrNone(d, CR);
      StrChrIs(d, LF, |value|);
    }
  }

  /** A field with nothing in front of its line end, or with no line end at all, has an empty value. */
  lemma FieldEmpty(gap: seq<byte>, rest: seq<byte>)
    requires forall i :: 0 <= i < |gap| ==> gap[i] == ' ' as int || gap[i] == ':' as int || gap[i] == '\t' as int
    requires rest == [] || rest[0] == 13 || rest[0] == 10
             || (13 !in rest && 10 !in rest && rest[0] !in Ascii(" :\t"))
    ensures FieldValue(gap + rest) == []
  {
    assert Ascii(" :\t")[0] == 32 && Ascii(" :\t")[1] == 58 && Ascii(" :\t")[2] == 9;
    GapSkipped(gap, rest);
    hide SkipGap;
  }

  /** A carriage return, or a line feed if there is no carriage return anywhere behind it. */
  predicate EndsLine(rest: seq<byte>) {
    rest != [] && (rest[0] == 13 || (rest[0] == 10 && 13 !in rest))
  }

  /** Behind `front` the request has its first "Range", a gap, the range `a` up to `last`, and a line end. */
  ghost predicate AsksAt(request: cstring, a: nat, last: seq<byte>, front: seq<byte>, gap: seq<byte>,
                         rest: seq<byte>) {
    && request == front + (Ascii("Range") + (gap + (RangeText(a, last) + rest))) && EndsLine(rest)
    && (forall i :: 0 <= i < |gap| ==> gap[i] == ' ' as int || gap[i] == ':' as int || gap[i] == '\t' as int)
    && (forall i: nat :: i < |front| ==> !At(request, Ascii("Range"), i))
  }

  /** A request for `a` up to `last`, or up to the end of the file if that is empty. */
  ghost predicate AsksFor(request: cstring, a: nat, last: seq<byte>) {
    AllDigits(last) && |RangeText(a, last)| <= 126
    && exists front: seq<byte>, gap: seq<byte>, rest: seq<byte> :: AsksAt(request, a, last, front, gap, rest)
  }

  lemma FieldFound(request: cstring, front: seq<byte>, field: seq<byte>)
    requires request == front + (Ascii("Range") + field)
    requires forall i: nat :: i < |front| ==> !At(request, Ascii("Range"), i)
    ensures StrStr(request, RANGE, 0) == |front| && request[|front| + 5..] == field
  {
    BytesText();
    assert request[|front|..|front| + 5] == RANGE && At(request, RANGE, |front|);
  }

  /**
   A client's range is read as it was written: `Range: bytes=a-b` asks for `a` up to `b`, and without
   a `b`, or with 0 for it, up to the end of the file.
   */
  lemma RangeReads(request: cstring, a: nat, last: seq<byte>, max: int)
    requires AsksFor(request, a, last)
    ensures var finish := if last == [] then 0 else DecimalFrom(0, last);
      RequestRange(request, max) == Part(a, if finish == 0 then max else finish)
  {
    FieldIsFound(request, a, last);
    FieldDecides(request, RangeText(a, last), max);
    AtolReads(last);
    ValueReads(a, last, max);
    hide *;
  }

  lemma FieldIsFound(request: cstring, a: nat, last: seq<byte>)
    requires AsksFor(request, a, last)
    ensures var t := StrStr(request, RANGE, 0);
      0 <= t <= |request| - 5 && FieldValue(request[t + 5..]) == RangeText(a, last)
  {
    hide AsksAt, RangeText;
    var front: seq<byte>, gap: seq<byte>, rest: seq<byte> :| AsksAt(request, a, last, front, gap, rest);
    FieldIsAt(request, a, last, front, gap, rest);
  }

  lemma FieldDecides(request: cstring, value: seq<byte>, max: int)
    requires var t := StrStr(request, RANGE, 0); 0 <= t <= |request| - 5 && FieldValue(request[t + 5..]) == value
    ensures NulFree(value) && RequestRange(request, max) == ValueRange(value, max)
  {
    hide FieldValue, StrStr, ValueRange;
  }

  lemma FieldIsAt(request: cstring, a: nat, last: seq<byte>, front: seq<byte>, gap: seq<byte>, rest: seq<byte>)
    requires AllDigits(last) && AsksAt(request, a, last, front, gap, rest)
    ensures var t := StrStr(request, RANGE, 0);
      0 <= t <= |request| - 5 && FieldValue(request[t + 5..]) == RangeText(a, last)
  {
    NotInRange(a, last, CR);
    NotInRange(a, last, LF);
    RangeTextStarts(a, last);
    hide RangeText, FieldValue, StrStr, At, Ascii;
    FieldReads(gap, RangeText(a, last), rest);
    FieldFound(request, front, gap + (RangeText(a, last) + rest));
  }

  /** A request without a range asks for the whole file. */
  lemma NoRangeAsked(request: cstring, max: int)
    requires forall i: nat :: !At(request, Ascii("Range"), i)
    ensures RequestRange(request, max) == Whole
  {
    BytesText();
  }

  // ---- handleFile

  /** The half-open part of the file that the routine gets, and the length that the header announces. */
  datatype Plan = Plan(start: int, end: int, announced: int)

  function PlanOf(range: Range, size: nat): Plan {
    match range
    case Whole => Plan(0, size, size)
    case Part(start, finish) =>
      var end := if finish >= size || finish == 0 then size else finish;
      Plan(start, end, end - start)
  }

  /**
   The planned part is the one the client asked for: from `a` up to `b`, or to the end of the file if there
   is no `b` or the file ends before it.
   */
  lemma ClientGetsItsRange(request: cstring, a: nat, last: seq<byte>, content: seq<byte>)
    requires AsksFor(request, a, last)
    requires var b := if last == [] then 0 else DecimalFrom(0, last); a <= |content| && (b == 0 || a <= b)
    ensures var (plan, b) :=
      (PlanOf(RequestRange(request, |content|), |content|), if last == [] then 0 else DecimalFrom(0, last));
      && 0 <= plan.start <= plan.end <= |content|
      && content[plan.start..plan.end] == Slice(content, a, if b == 0 then |content| else b)
  {
    RangeReads(request, a, last, |content|);
    hide RequestRange, AsksFor;
  }

  /** And a client that asks for no range gets the whole file. */
  lemma ClientGetsItAll(request: cstring, content: seq<byte>)
    requires forall i: nat :: !At(request, Ascii("Range"), i)
    ensures var plan := PlanOf(RequestRange(request, |content|), |content|);
      0 <= plan.start <= plan.end <= |content| && content[plan.start..plan.end] == content
  {
    NoRangeAsked(request, |content|);
    hide RequestRange;
  }

  /** A client's range makes the source announce a negative length exactly if it starts behind where it ends. */
  lemma NegativeLength(request: cstring, a: nat, last: seq<byte>, size: nat)
    requires AsksFor(request, a, last)
    ensures var b := if last == [] then 0 else DecimalFrom(0, last);
      PlanOf(RequestRange(request, size), size).announced < 0 <==> a > (if b == 0 then size else Min(b, size))
  {
    RangeReads(request, a, last, size);
    hide RequestRange, AsksFor;
  }

  // ---- the header

  /** The header lines that depend on the build, the clock and the file's name, each as one text. */
  datatype HeadTexts = HeadTexts(connection: seq<cstring>, date: cstring, fileName: cstring, lastModified: cstring)

  /** `%ld` */
  function Printed(n: int): (s: seq<byte>) { if n >= 0 then Decimal(n) else [DASH] + Decimal(-n) }

  /** A sign, if there is one, and digits that have the number as their value. */
  lemma PrintedIs(n: nat)
    ensures AllDigits(Printed(n)) && DecimalFrom(0, Printed(n)) == n
    ensures n > 0 ==> Printed(0 - n) == Ascii("-") + Printed(n)
  {
    DecimalReads(n);
  }

  function StatusLine(range: Range): seq<byte> {
    Ascii(if range.Whole? then "HTTP/1.1 200 OK" else "HTTP/1.1 206 Partial Content") + CRLF
  }

  function LengthLine(n: int): seq<byte> { Ascii("Content-Length: ") + Printed(n) + CRLF }

  /** The last position is printed as the source has it: one less than the end only at the end of the file. */
  function LastPosition(plan: Plan, size: nat): int { if plan.end == size then plan.end - 1 else plan.end }

  function RangeLine(plan: Plan, size: nat): seq<byte> {
    Ascii("Content-Range: bytes ") + Printed(plan.start) + Ascii("-") + Printed(LastPosition(plan, size)) + Ascii("/")
    + Decimal(size) + CRLF
  }

  /** The header of a response, one text for each write. */
  function Head(texts: HeadTexts, range: Range, size: nat): seq<seq<byte>> {
    var plan := PlanOf(range, size);
    [StatusLine(range)] + texts.connection
    + [texts.date, texts.fileName, texts.lastModified, ACCEPT_RANGES, LengthLine(plan.announced)]
    + (if range.Part? then [RangeLine(plan, size)] else []) + [CRLF]
  }

  lemma {:induction false} FlatAppend(a: seq<seq<byte>>, b: seq<seq<byte>>)
    ensures Flat(a + b) == Flat(a) + Flat(b)
  {
    if a == [] {
      assert a + b == b && Flat(a) + Flat(b) == Flat(b);
    } else {
      FlatAppend(a[1..], b);
      assert (a + b)[0] == a[0] && (a + b)[1..] == a[1..] + b;
      assert a[0] + (Flat(a[1..]) + Flat(b)) == a[0] + Flat(a[1..]) + Flat(b);
    }
  }

  /** In a line of its own the header has `field`, then the digits of `n`. */
  ghost predicate Says(head: seq<byte>, field: string, n: nat) {
    exists front: seq<byte>, value: seq<byte>, back: seq<byte> ::
      && head == front + ([13, 10] + Ascii(field) + value + [13, 10] + back)
      && AllDigits(value) && DecimalFrom(0, value) == n
  }

  /** The header is over where an empty line comes. */
  predicate EndsBlank(head: seq<byte>) { |head| >= 4 && head[|head| - 4..] == [13, 10, 13, 10] }

  const ACCEPT_RANGES: cstring := Ascii("Accept-Ranges: bytes\r\n")

  lemma FlatOne(a: seq<byte>, texts: seq<seq<byte>>)
    ensures Flat([a] + texts) == a + Flat(texts)
  {
    assert ([a] + texts)[1..] == texts;
  }

  lemma FlatTail(a: seq<byte>, b: seq<byte>, c: seq<seq<byte>>, d: seq<byte>)
    requires |c| <= 1
    ensures Flat([a, b] + c + [d]) == a + (b + ((if c == [] then [] else c[0]) + d))
  {
    hide Flat;
    FlatOne(a, [b] + (c + [d]));
    FlatOne(b, c + [d]);
    FlatOne(d, []);
    FlatNone();
    assert [a, b] + c + [d] == [a] + ([b] + (c + [d])) && [d] + [] == [d] && d + [] == d;
    if c == [] {
      assert c + [d] == [d] && [] + d == d;
    } else {
      FlatOne(c[0], [d]);
      assert c + [d] == [c[0]] + [d];
    }
  }

  lemma FlatNone()
    ensures Flat([]) == []
  {
  }

  /** The header is what comes before the length, the length's line, the range's if there is one, and an empty one. */
  lemma HeadIs(texts: HeadTexts, range: Range, size: nat) returns (front: seq<byte>, more: seq<byte>)
    ensures var plan := PlanOf(range, size);
      && Flat(Head(texts, range, size)) == front + (ACCEPT_RANGES + (LengthLine(plan.announced) + (more + CRLF)))
      && StatusLine(range) <= front
      && more == if range.Part? then RangeLine(plan, size) else []
  {
    var plan := PlanOf(range, size);
    var before := [StatusLine(range)] + texts.connection + [texts.date, texts.fileName, texts.lastModified];
    var last := if range.Part? then [RangeLine(plan, size)] else [];
    front, more := Flat(before), if range.Part? then RangeLine(plan, size) else [];
    hide RangeLine, LengthLine, StatusLine, Flat;
    assert Head(texts, range, size) == before + ([ACCEPT_RANGES, LengthLine(plan.announced)] + last + [CRLF]);
    FlatAppend(before, [ACCEPT_RANGES, LengthLine(plan.announced)] + last + [CRLF]);
    FlatTail(ACCEPT_RANGES, LengthLine(plan.announced), last, CRLF);
    FlatStarts(before);
  }

  lemma FlatStarts(texts: seq<seq<byte>>)
    requires texts != []
    ensures texts[0] <= Flat(texts)
  {
  }

  /** What is printed, in literals. */
  lemma LinesAre(n: nat, plan: Plan, size: nat)
    ensures LengthLine(n) == Ascii("Content-Length: ") + Decimal(n) + [13, 10]
    ensures LengthLine(n)[|LengthLine(n)| - 2..] == [13, 10]
    ensures ACCEPT_RANGES == Ascii("Accept-Ranges: bytes") + [13, 10]
    ensures |RangeLine(plan, size)| >= 2 && RangeLine(plan, size)[|RangeLine(plan, size)| - 2..] == [13, 10]
    ensures CRLF == [13, 10]
  {
    var a, b := ACCEPT_RANGES, Ascii("Accept-Ranges: bytes") + [13, 10];
    assert |a| == |b| && forall i :: 0 <= i < |a| ==> a[i] == b[i];
  }

  lemma LastFour(front: seq<byte>, line: seq<byte>)
    requires |line| >= 2 && line[|line| - 2..] == [13, 10]
    ensures EndsBlank(front + (line + [13, 10]))
  {
    var head := front + (line + [13, 10]);
    var four := head[|head| - 4..];
    assert four[0] == line[|line| - 2..][0] && four[1] == line[|line| - 2..][1] && four[2] == 13 && four[3] == 10;
  }

  /**
   The header in bytes: its status line, the length that it announces as a decimal number in a line of its
   own, and an empty line at its end.
   */
  lemma HeaderReads(texts: HeadTexts, range: Range, size: nat)
    requires PlanOf(range, size).announced >= 0
    ensures var head := Flat(Head(texts, range, size));
      && Ascii(if range == Whole then "HTTP/1.1 200 OK" else "HTTP/1.1 206 Partial Content") <= head
      && Says(head, "Content-Length: ", PlanOf(range, size).announced) && EndsBlank(head)
  {
    var (plan, head) := (PlanOf(range, size), Flat(Head(texts, range, size)));
    var front: seq<byte>, more: seq<byte> := HeadIs(texts, range, size);
    StatusIs(range);
    LinesAre(plan.announced, plan, size);
    hide Head, Flat, RangeLine, LengthLine, PlanOf, StatusLine, Says, EndsBlank;
    LengthSaid(front, Ascii("Accept-Ranges: bytes"), plan.announced, more + CRLF);
    HeadEnds(front, LengthLine(plan.announced), more);
  }

  lemma StatusIs(range: Range)
    ensures Ascii(if range == Whole then "HTTP/1.1 200 OK" else "HTTP/1.1 206 Partial Content") <= StatusLine(range)
  {
  }

  lemma LengthSaid(front: seq<byte>, accepts: seq<byte>, n: nat, back: seq<byte>)
    ensures Says(front + (accepts + [13, 10] + (Ascii("Content-Length: ") + Decimal(n) + [13, 10] + back)),
                 "Content-Length: ", n)
  {
    DecimalReads(n);
    hide Decimal, DecimalFrom, Ascii;
    var value: seq<byte>, text: seq<byte> := Decimal(n), Ascii("Content-Length: ");
    Regroup(front, accepts, text, value, back);
    assert Says(front + accepts + ([13, 10] + text + value + [13, 10] + back), "Content-Length: ", n);
  }

  lemma Regroup(front: seq<byte>, accepts: seq<byte>, text: seq<byte>, value: seq<byte>, back: seq<byte>)
    ensures front + (accepts + [13, 10] + (text + value + [13, 10] + back))
         == front + accepts + ([13, 10] + text + value + [13, 10] + back)
  {
  }

  lemma HeadEnds(front: seq<byte>, line: seq<byte>, more: seq<byte>)
    requires |line| >= 2 && line[|line| - 2..] == [13, 10]
    requires more == [] || (|more| >= 2 && more[|more| - 2..] == [13, 10])
    ensures EndsBlank(front + (ACCEPT_RANGES + (line + (more + [13, 10]))))
  {
    hide EndsBlank;
    var all := front + (ACCEPT_RANGES + (line + (more + [13, 10])));
    if more == [] {
      LastFour(front + ACCEPT_RANGES, line);
      assert all == front + ACCEPT_RANGES + (line + [13, 10]);
    } else {
      LastFour(front + ACCEPT_RANGES + line, more);
      assert all == front + ACCEPT_RANGES + line + (more + [13, 10]);
    }
  }

  /** The two positions of a Content-Range, both of which a client takes as included (section 14.4 of RFC 9110). */
  predicate RangeSays(line: seq<byte>, first: nat, last: nat, size: nat) {
    line == Ascii("Content-Range: bytes ") + Decimal(first) + Ascii("-") + Decimal(last) + Ascii("/") + Decimal(size)
            + [13, 10]
  }

  /**
   The positions printed are as many bytes as the length that is announced if and only if the part goes to the
   end of the file; otherwise they are one more.
   */
  lemma ContentRangeAgrees(start: nat, finish: nat, size: nat)
    requires var plan := PlanOf(Part(start, finish), size); plan.start < plan.end
    ensures var plan := PlanOf(Part(start, finish), size);
      exists last: nat :: RangeSays(RangeLine(plan, size), start, last, size)
        && last - start + 1 == plan.announced + (if plan.end == size then 0 else 1)
  {
    var plan := PlanOf(Part(start, finish), size);
    var last: nat := LastPosition(plan, size);
    assert RangeSays(RangeLine(plan, size), start, last, size);
  }

  function Writes(texts: seq<seq<byte>>): (calls: seq<Call>)
    ensures |calls| == |texts| && forall i :: 0 <= i < |texts| ==> calls[i] == WriteCall(texts[i])
  {
    if texts == [] then [] else [WriteCall(texts[0])] + Writes(texts[1..])
  }

  /** A header of which no write failed has been accepted whole. */
  lemma {:induction false} HeadAccepted(s: SendState, texts: seq<seq<byte>>)
    requires s.Valid() && !RunCalls(s, Writes(texts)).0.failed
    ensures RunCalls(s, Writes(texts)).1 == Flat(texts)
    decreases |texts|
  {
    if texts != [] {
      WriteKeeps(s, texts[0]);
      var (t, n) := WriteOf(s, texts[0]);
      assert Writes(texts)[1..] == Writes(texts[1..]);
      hide WriteOf;
      RunCallsFollow(t, Writes(texts[1..]));
      HeadAccepted(t, texts[1..]);
      assert texts[0][..|texts[0]|] == texts[0];
    }
  }

  /** The header's writes, one after the other; that one fails does not keep the next from being tried. */
  method WriteTexts(sb: SendBuffer, texts: seq<seq<byte>>)
    requires sb.Valid()
    modifies sb, sb.clientSocket
    ensures sb.Valid() && sb.Model() == RunCalls(old(sb.Model()), Writes(texts)).0
  {
    ghost var goal := RunCalls(sb.Model(), Writes(texts)).0;
    assert texts[0..] == texts;
    for i := 0 to |texts|
      invariant sb.Valid() && RunCalls(sb.Model(), Writes(texts[i..])).0 == goal
    {
      WritesNext(sb.Model(), texts[i..]);
      assert texts[i..][1..] == texts[i + 1..];
      var n := sb.WriteData(texts[i]);
    }
    assert texts[|texts|..] == [];
  }

  lemma WritesNext(s: SendState, texts: seq<seq<byte>>)
    requires s.Valid() && texts != []
    ensures WriteOf(s, texts[0]).0.Valid()
    ensures RunCalls(s, Writes(texts)).0 == RunCalls(WriteOf(s, texts[0]).0, Writes(texts[1..])).0
  {
    WriteKeeps(s, texts[0]);
    hide WriteOf;
    assert Writes(texts)[1..] == Writes(texts[1..]);
  }

  /** The send buffer behind a header, on a connection that had got as far as `peer`. */
  ghost function HeadSent(peer: Peer, texts: seq<seq<byte>>): SendState {
    RunCalls(SendState(0, None, false, peer), Writes(texts)).0
  }

  ghost function FileRoutine(peer: Peer, texts: seq<seq<byte>>, content: seq<byte>, start: nat,
                             end: nat): RoutineState {
    var sb := HeadSent(peer, texts);
    RoutineState(Phase.Flush, sb, FileJob(content, start, start, end), sb.Accepted())
  }

  /** The headers part of handleFile: the range is clamped to the file, and announced. */
  method WriteHead(clientSocket: Socket, request: cstring, size: nat, texts: HeadTexts)
    returns (socketBuffer: SendBuffer, start: int, end: int)
    modifies clientSocket
    ensures var range := RequestRange(request, size);
      var plan := PlanOf(range, size);
      && fresh(socketBuffer) && socketBuffer.Valid() && socketBuffer.clientSocket == clientSocket
      && start == plan.start && end == plan.end
      && socketBuffer.Model() == HeadSent(old(clientSocket.Model()), Head(texts, range, size))
  {
    hide RequestRange, Head, RunCalls;
    socketBuffer := new SendBuffer(clientSocket);
    var failed, finish;
    failed, start, finish := HeaderReadRange(request, size);
    if failed {
      WriteTexts(socketBuffer, Head(texts, Whole, size));
    } else {
      var range := Part(start, finish);
      if finish >= size || finish == 0 {
        finish := size;
      }
      WriteTexts(socketBuffer, Head(texts, range, size));
    }
    end := if failed then size else finish;
  }

  /**
   handleFile, on a descriptor on which `wire` has been sent, whatever other routines there are on it.
   `content` is the file, if it opens, and `texts` are the header lines that go with a range. A HEAD
   request gets the header only; otherwise a file routine for the planned part joins the array. `seen` is
   what the sends of this response have made of the descriptor.
   */
  method HandleFile(routines: RoutineArray, clientSocket: nat, kernel: nat -> Answer, ghost wire: seq<byte>,
                    request: cstring, isHead: bool, size: nat, content: Option<seq<byte>>,
                    texts: HeadTexts, ghost ms: seq<RoutineState>)
    returns (code: nat, ghost seen: Peer)
    requires routines.Shows(ms)
    requires var plan := PlanOf(RequestRange(request, size), size);
      content.Some? && !isHead ==> 0 <= plan.start <= plan.end
    modifies routines
    ensures code == if content.Some? then 0 else 1
    ensures var range := RequestRange(request, size);
      var (peer, plan) := (Peer(clientSocket, kernel, 0, wire), PlanOf(range, size));
      var header := Head(texts, range, size);
      && seen == (if content.None? then peer else HeadSent(peer, header).peer)
      && routines.Shows(
           if content.None? || isHead then ms
           else ms + [FileRoutine(peer, header, content.value, plan.start, plan.end)])
  {
    hide RequestRange, Head, HeadSent, PlanOf, RoutineArray.Shows, SendBuffer.Model, SendBuffer.Valid;
    seen := Peer(clientSocket, kernel, 0, wire);
    if content.None? {
      return 1, seen;
    }
    code := 0;
    var socket := new Socket(clientSocket, kernel, wire);
    assert forall r :: r in routines.slots[..] ==> socket !in r.Footprint();
    var socketBuffer, start, end := WriteHead(socket, request, size, texts);
    seen := socketBuffer.Model().peer;
    if !isHead {
      HandOver(routines, socketBuffer, content.value, start, end, ms);
    }
  }

  /** RoutineArrayAdd of a FileRoutineNew. */
  method HandOver(routines: RoutineArray, socketBuffer: SendBuffer, content: seq<byte>, start: nat, end: nat,
                  ghost ms: seq<RoutineState>)
    requires routines.Shows(ms) && socketBuffer.Valid() && start <= end
    requires forall r :: r in routines.slots[..] ==>
      socketBuffer !in r.Footprint() && socketBuffer.clientSocket !in r.Footprint()
    modifies routines
    ensures var sb := socketBuffer.Model();
      routines.Shows(ms + [RoutineState(Phase.Flush, sb, FileJob(content, start, start, end), sb.Accepted())])
  {
    hide RoutineArray.Shows, SendBuffer.Model, SendBuffer.Valid;
    assert routines.size <= routines.slots.Length by {
      ShowsFits(routines, ms);
    }
    var routine := new Routine(socketBuffer, FileJob(content, start, start, end));
    assert forall i :: 0 <= i < routines.size ==> routines.slots[i] in routines.slots[..];
    routines.Add(routine, ms);
  }

  lemma ShowsFits(routines: RoutineArray, ms: seq<RoutineState>)
    requires routines.Shows(ms)
    ensures routines.size <= routines.slots.Length
  {
  }

  // ---- what is announced is delivered

  /** `r0` is what handleFile hands over for some request, whether or not a write of its header failed. */
  ghost predicate HandledAs(r0: RoutineState, peer: Peer, range: Range, content: seq<byte>, texts: HeadTexts) {
    var plan := PlanOf(range, |content|);
    var header := Head(texts, range, |content|);
    0 <= plan.start <= plan.end
    && r0 == FileRoutine(peer, header, content, plan.start, plan.end)
  }

  /**
   `wire` ends in the whole response: its header, which says how many bytes follow it, and these bytes, which
   are the announced part of the file.
   */
  ghost predicate Answered(wire: seq<byte>, peer: Peer, range: Range, content: seq<byte>, texts: HeadTexts) {
    var (plan, head) := (PlanOf(range, |content|), Flat(Head(texts, range, |content|)));
    0 <= plan.start <= plan.end <= |content|
    && var body := content[plan.start..plan.end];
       wire == peer.wire + head + body && Says(head, "Content-Length: ", |body|) && EndsBlank(head)
  }

  lemma HeaderIs(peer: Peer, texts: seq<seq<byte>>)
    requires !HeadSent(peer, texts).failed
    ensures HeadSent(peer, texts).Accepted() == peer.wire + Flat(texts)
  {
    var s := SendState(0, None, false, peer);
    HeadAccepted(s, texts);
    RunCallsFollow(s, Writes(texts));
    hide RunCalls;
    assert s.Accepted() == peer.wire;
  }

  /**
   In every run from an idle server, whatever else arrives and fails in it: a file routine that comes from
   handleFile and reaches FINISH has put on its socket its whole header and exactly the part that it
   announced, with nothing left over. One whose header had a failed write never gets there.
   */
  lemma AnnouncedIsDelivered(events: seq<Event>, r: RoutineState)
    requires LegalRun(IDLE, events) && r in Run(IDLE, events).routines
    requires r.job.FileJob? && r.phase == Finish
    requires forall r0 :: Arrive(r0) in events && Later(r0, r) ==>
               exists peer, range, content, texts :: HandledAs(r0, peer, range, content, texts)
    ensures r.sb.Pending() == []
    ensures exists r0, peer, range, texts ::
              Arrive(r0) in events && Later(r0, r) && !r0.sb.failed
              && HandledAs(r0, peer, range, r.job.content, texts)
              && Answered(r.sb.peer.wire, peer, range, r.job.content, texts)
  {
    hide Head, HeadSent, LegalRun, Run, Says, EndsBlank, Flat;
    EveryRoutineDescends(IDLE, events, r);
    var r0 :| ComesFrom(r0, IDLE, events) && Later(r0, r);
    assert r0.job.FileJob? && Arrive(r0) in events;
    EveryRunIsSound(IDLE, events);
    assert Ok(r) && !r.sb.failed && !r0.sb.failed;
    var peer, range, content, texts :| HandledAs(r0, peer, range, content, texts);
    var plan := PlanOf(range, |content|);
    HeaderIs(peer, Head(texts, range, |content|));
    EveryFileRoutine(events, r);
    HeaderReads(texts, range, |content|);
    assert content == r.job.content;
    assert Answered(r.sb.peer.wire, peer, range, content, texts);
  }
}
