/** Taking URIs apart and printing them (section 3 of RFC 3986; src/client/uri.c). */
module Uri {
  import opened Bytes
  import opened Decimals

  const COLON: byte := 58
  const SLASH: byte := 47
  const QUESTION: byte := 63
  const SCHEME_END: seq<byte> := [COLON, SLASH, SLASH]
  const USHRT_MAX: nat := 65535

  datatype UriDetails = UriDetails(scheme: Option<seq<byte>>, host: Option<seq<byte>>, port: Option<seq<byte>>,
                                   path: Option<seq<byte>>, query: Option<seq<byte>>)

  /** What comes behind the scheme, and the scheme. */
  function SplitScheme(uri: seq<byte>): (Option<seq<byte>>, seq<byte>) {
    var p := StrStr(uri, SCHEME_END, 0);
    if p < 0 then (None, uri) else (Some(uri[..p]), uri[p + 3..])
  }

  /** The path and the query, from the first slash on. */
  function SplitQuery(s: seq<byte>): (Option<seq<byte>>, Option<seq<byte>>) {
    var q := StrChr(s, QUESTION);
    if q < 0 then (Some(s), None) else (Some(s[..q]), Some(s[q + 1..]))
  }

  /** The host, the port, the path and the query, in the four ways in which a slash and a colon may be there. */
  function SplitRest(scheme: Option<seq<byte>>, q: seq<byte>): UriDetails {
    var p, i := StrChr(q, SLASH), StrChr(q, COLON);
    if p >= 0 && i >= 0 then
      var (path, query) := SplitQuery(q[p..]);
      if i < p then UriDetails(scheme, Some(q[..i]), Some(q[i + 1..p]), path, query)
      else UriDetails(scheme, Some(q[..p]), None, path, query)
    else if p >= 0 then
      var (path, query) := SplitQuery(q[p..]);
      UriDetails(scheme, Some(q[..p]), None, path, query)
    else if i >= 0 then
      UriDetails(scheme, Some(q[..i]), Some(q[i + 1..]), None, None)
    else
      UriDetails(scheme, if q == [] then None else Some(q), None, None, None)
  }

  /** uriDetailsNewFrom */
  function NewFrom(uri: Option<cstring>): UriDetails {
    if uri.None? then UriDetails(None, None, None, None, None)
    else
      var (scheme, q) := SplitScheme(uri.value);
      SplitRest(scheme, q)
  }

  function Prefixed(c: byte, part: Option<seq<byte>>): seq<byte> {
    if part.Some? then [c] + part.value else []
  }

  predicate Printable(d: UriDetails) { d.scheme.Some? && d.host.Some? && d.path.Some? }

  function PrintRest(d: UriDetails): seq<byte>
    requires d.host.Some? && d.path.Some?
  {
    d.host.value + Prefixed(COLON, d.port) + (d.path.value + Prefixed(QUESTION, d.query))
  }

  /** uriDetailsCreateString */
  function CreateString(d: UriDetails): Option<seq<byte>> {
    if !Printable(d) then None
    else
      Some(d.scheme.value + SCHEME_END + PrintRest(d))
  }

  /** There is a scheme, and a path behind it. */
  predicate IsAbsolute(uri: seq<byte>) {
    var p := StrStr(uri, SCHEME_END, 0);
    p >= 0 && SLASH in uri[p + 3..]
  }

  lemma SplitQueryPrints(s: seq<byte>)
    ensures var (path, query) := SplitQuery(s);
      path.Some? && path.value + Prefixed(QUESTION, query) == s
  {
  }

  lemma HostAndPort(q: seq<byte>, p: nat, i: int)
    requires p <= |q|
    ensures q[..p] + q[p..] == q && q[..p] + [] == q[..p]
    ensures 0 <= i < p && q[i] == COLON ==> q[..i] + ([COLON] + q[i + 1..p]) == q[..p]
  {
  }

  lemma SplitRestPrints(scheme: Option<seq<byte>>, q: seq<byte>)
    ensures var d := SplitRest(scheme, q);
      d.scheme == scheme && if SLASH !in q then d.path.None? else
        d.host.Some? && d.path.Some? && (scheme.Some? ==> PrintRest(d) == q)
  {
    var p, i := StrChr(q, SLASH), StrChr(q, COLON);
    var d := SplitRest(scheme, q);
    if p >= 0 {
      SplitQueryPrints(q[p..]);
      HostAndPort(q, p, i);
      hide SplitQuery, StrChr;
      assert d.host.value + Prefixed(COLON, d.port) == q[..p];
      assert d.path.value + Prefixed(QUESTION, d.query) == q[p..];
    }
  }

  /** Parsing and printing a URI gives it back, character by character, or nothing if it is not absolute. */
  lemma ParsePrint(uri: cstring)
    ensures CreateString(NewFrom(Some(uri))) == if IsAbsolute(uri) then Some(uri) else None
  {
    var (scheme, q) := SplitScheme(uri);
    SplitSchemePrints(uri);
    SplitRestPrints(scheme, q);
    hide SplitScheme, SplitRest, PrintRest, IsAbsolute;
  }

  lemma SplitSchemePrints(uri: seq<byte>)
    ensures var (scheme, q) := SplitScheme(uri);
      && (IsAbsolute(uri) <==> scheme.Some? && SLASH in q)
      && (scheme.Some? ==> scheme.value + SCHEME_END + q == uri)
  {
    var t := StrStr(uri, SCHEME_END, 0);
    hide StrStr;
    if t >= 0 {
      assert uri[t..t + 3] == SCHEME_END;
      assert uri == uri[..t] + uri[t..t + 3] + uri[t + 3..];
    }
  }

  /** The parts that parsing can give, and that printing keeps apart. */
  predicate Canonical(d: UriDetails)
    requires Printable(d)
  {
    StrStr(d.scheme.value, SCHEME_END, 0) < 0 && CanonicalRest(d)
  }

  predicate CanonicalRest(d: UriDetails)
    requires d.host.Some? && d.path.Some?
  {
    && COLON !in d.host.value && SLASH !in d.host.value
    && (d.port.Some? ==> SLASH !in d.port.value)
    && d.path.value != [] && d.path.value[0] == SLASH && QUESTION !in d.path.value
  }

  predicate AllNulFree(d: UriDetails)
    requires Printable(d)
  {
    && NulFree(d.scheme.value) && NulFree(d.host.value) && NulFree(d.path.value)
    && (d.port.Some? ==> NulFree(d.port.value)) && (d.query.Some? ==> NulFree(d.query.value))
  }

  lemma NotAcross(scheme: seq<byte>, rest: seq<byte>, r: nat)
    requires r < |scheme|
    ensures At(scheme + SCHEME_END + rest, SCHEME_END, r) ==> At(scheme, SCHEME_END, r)
  {
    var uri, n := scheme + SCHEME_END + rest, |scheme|;
    var window := uri[r..r + 3];
    if r + 3 <= n {
      assert window == scheme[r..r + 3];
    } else {
      assert window[n - r] == uri[n] == COLON;
    }
  }

  /** The separator cannot begin in the scheme and end behind it, so only one inside the scheme comes first. */
  lemma SchemeFound(scheme: cstring, rest: seq<byte>)
    requires StrStr(scheme, SCHEME_END, 0) < 0
    ensures StrStr(scheme + SCHEME_END + rest, SCHEME_END, 0) == |scheme|
  {
    var uri, n := scheme + SCHEME_END + rest, |scheme|;
    assert At(uri, SCHEME_END, n) by {
      assert uri[n..n + 3] == SCHEME_END;
    }
    assert uri[0..n] == scheme;
    forall r: nat | r < n
      ensures !At(uri, SCHEME_END, r)
    {
      NotAcross(scheme, rest, r);
    }
  }

  lemma SplitQueryParses(path: seq<byte>, query: Option<seq<byte>>)
    requires QUESTION !in path
    ensures SplitQuery(path + Prefixed(QUESTION, query)).0 == Some(path)
    ensures SplitQuery(path + Prefixed(QUESTION, query)).1 == query
  {
    var s := path + Prefixed(QUESTION, query);
    if query.Some? {
      assert s[..|path|] == path && s[|path| + 1..] == query.value;
      StrChrIs(s, QUESTION, |path|);
    } else {
      assert s == path;
      StrChrNone(s, QUESTION);
    }
  }

  lemma SplitRestParses(d: UriDetails)
    requires d.host.Some? && d.path.Some? && CanonicalRest(d)
    ensures SplitRest(d.scheme, PrintRest(d)) == d
  {
    var front, back := d.host.value + Prefixed(COLON, d.port), d.path.value + Prefixed(QUESTION, d.query);
    var q, p := front + back, |front|;
    assert SLASH !in front && back[0] == SLASH;
    assert q[..p] == front && q[p..] == back && q[p] == SLASH;
    StrChrIs(q, SLASH, p);
    SplitQueryParses(d.path.value, d.query);
    var i := StrChr(q, COLON);
    if d.port.Some? {
      var h := |d.host.value|;
      assert q[..h] == d.host.value && q[h] == COLON && q[h + 1..p] == d.port.value;
      StrChrIs(q, COLON, h);
    } else {
      assert front == d.host.value;
    }
  }

  /** Parsing only ever gives parts that printing keeps apart. */
  lemma ParsedIsCanonical(uri: cstring)
    ensures Printable(NewFrom(Some(uri))) ==> Canonical(NewFrom(Some(uri)))
  {
    var (scheme, q) := SplitScheme(uri);
    SchemeHasNoEnd(uri);
    RestIsCanonical(scheme, q);
    hide SplitScheme, SplitRest, StrStr;
  }

  lemma SchemeHasNoEnd(uri: seq<byte>)
    ensures SplitScheme(uri).0.Some? ==> StrStr(SplitScheme(uri).0.value, SCHEME_END, 0) < 0
  {
    var t := StrStr(uri, SCHEME_END, 0);
    if t >= 0 {
      var r := StrStr(uri[..t], SCHEME_END, 0);
      assert 0 <= r ==> uri[..t][r..r + 3] == uri[r..r + 3];
      assert r < 0 || At(uri, SCHEME_END, r);
    }
  }

  lemma RestIsCanonical(scheme: Option<seq<byte>>, q: seq<byte>)
    ensures var d := SplitRest(scheme, q);
      d.scheme == scheme
      && (d.host.Some? && d.path.Some? ==>
            && COLON !in d.host.value && SLASH !in d.host.value
            && (d.port.Some? ==> SLASH !in d.port.value)
            && d.path.value != [] && d.path.value[0] == SLASH && QUESTION !in d.path.value)
  {
    var p := StrChr(q, SLASH);
    if p >= 0 {
      assert q[p..][0] == SLASH;
      assert StrChr(q[p..], QUESTION) != 0;
    }
  }

  /**
   Printing and parsing gives the same parts back exactly if the scheme has no "://" in it, the host has
   no colon or slash, the port no slash, and the path starts with a slash and has no question mark.
   */
  lemma PrintParse(d: UriDetails)
    requires Printable(d) && AllNulFree(d)
    ensures NulFree(CreateString(d).value)
    ensures NewFrom(CreateString(d)) == d <==> Canonical(d)
  {
    var uri := CreateString(d).value;
    ParsedIsCanonical(uri);
    if Canonical(d) {
      var rest := PrintRest(d);
      assert uri == d.scheme.value + SCHEME_END + rest;
      SchemeFound(d.scheme.value, rest);
      assert uri[..|d.scheme.value|] == d.scheme.value && uri[|d.scheme.value| + 3..] == rest;
      SplitRestParses(d);
    }
  }

  /** A URI in text: any of its parts may be missing, but there is no query without a path. */
  function TextOf(d: UriDetails): seq<byte>
    requires d.host.Some?
  {
    (if d.scheme.Some? then d.scheme.value + Ascii("://") else []) + d.host.value
    + (if d.port.Some? then Ascii(":") + d.port.value else [])
    + (if d.path.Some? then d.path.value + if d.query.Some? then Ascii("?") + d.query.value else [] else [])
  }

  /** No part holds the text that would end it, and there is something behind the scheme. */
  ghost predicate Clear(d: UriDetails)
    requires d.host.Some?
  {
    && ':' as int !in d.host.value && '/' as int !in d.host.value
    && (d.port.Some? ==> '/' as int !in d.port.value)
    && (if d.path.Some? then
          d.path.value != [] && d.path.value[0] == '/' as int && '?' as int !in d.path.value
        else d.query.None? && (d.host.value != [] || d.port.Some?))
    && (if d.scheme.Some? then forall i: nat :: !At(d.scheme.value, Ascii("://"), i)
        else forall i: nat :: !At(TextOf(d), Ascii("://"), i))
  }

  lemma SeparatorsAre()
    ensures Ascii("://") == SCHEME_END && Ascii(":") == [COLON] && Ascii("?") == [QUESTION]
    ensures ':' as int == COLON && '/' as int == SLASH && '?' as int == QUESTION
  {
    var end := Ascii("://");
    assert |end| == 3 && end[0] == 58 && end[1] == 47 && end[2] == 47;
  }

  /** The text behind the scheme. */
  function RestText(d: UriDetails): seq<byte>
    requires d.host.Some?
  {
    d.host.value + Prefixed(COLON, d.port)
    + if d.path.Some? then d.path.value + Prefixed(QUESTION, d.query) else []
  }

  lemma TextIs(d: UriDetails)
    requires d.host.Some?
    ensures TextOf(d) == (if d.scheme.Some? then d.scheme.value + SCHEME_END else []) + RestText(d)
  {
    SeparatorsAre();
  }

  lemma NoPathParses(d: UriDetails)
    requires d.host.Some? && d.path.None? && d.query.None? && (d.host.value != [] || d.port.Some?)
    requires COLON !in d.host.value && SLASH !in d.host.value && (d.port.Some? ==> SLASH !in d.port.value)
    ensures SplitRest(d.scheme, RestText(d)) == d
  {
    var q := RestText(d);
    assert q == d.host.value + Prefixed(COLON, d.port);
    StrChrNone(q, SLASH);
    if d.port.Some? {
      var h := |d.host.value|;
      assert q[..h] == d.host.value && q[h] == COLON && q[h + 1..] == d.port.value;
      StrChrIs(q, COLON, h);
    } else {
      assert q == d.host.value;
      StrChrNone(q, COLON);
    }
  }

  lemma SchemeSplit(d: UriDetails)
    requires d.host.Some? && Clear(d) && NulFree(TextOf(d))
    ensures SplitScheme(TextOf(d)) == (d.scheme, RestText(d))
  {
    TextIs(d);
    SeparatorsAre();
    hide RestText, TextOf;
    var uri, rest := TextOf(d), RestText(d);
    if d.scheme.Some? {
      var scheme := d.scheme.value;
      NulFreeFront(scheme, SCHEME_END + rest);
      assert scheme + SCHEME_END + rest == scheme + (SCHEME_END + rest);
      SchemeFound(scheme, rest);
      assert uri[..|scheme|] == scheme && uri[|scheme| + 3..] == rest;
    } else {
      assert uri == rest;
    }
  }

  lemma NulFreeFront(a: seq<byte>, b: seq<byte>)
    requires NulFree(a + b)
    ensures NulFree(a)
  {
    assert forall x :: x in a ==> x in a + b;
  }

  /**
   A URI is taken apart into the parts that it was put together from, with or without a scheme, a port, a
   path and a query.
   */
  lemma PartsParse(d: UriDetails)
    requires d.host.Some? && NulFree(TextOf(d)) && Clear(d)
    ensures NewFrom(Some(TextOf(d))) == d
  {
    SchemeSplit(d);
    SeparatorsAre();
    hide SplitScheme, SplitRest, TextOf;
    if d.path.Some? {
      SplitRestParses(d);
      assert RestText(d) == PrintRest(d);
    } else {
      NoPathParses(d);
    }
  }

  /** And nothing behind the scheme, or nothing at all, is no host. */
  lemma NoHost(scheme: cstring)
    requires forall i: nat :: !At(scheme, Ascii("://"), i)
    ensures NewFrom(Some(scheme + Ascii("://"))) == UriDetails(Some(scheme), None, None, None, None)
    ensures NewFrom(Some([])) == UriDetails(None, None, None, None, None)
  {
    SeparatorsAre();
    SchemeFound(scheme, []);
    var uri := scheme + SCHEME_END;
    assert uri + [] == uri && uri[..|scheme|] == scheme && uri[|scheme| + 3..] == [];
  }

  datatype UriScheme = Unknown | File | Ftp | Http | Https | Ftps

  /** The enumeration's values are the schemes' ports. */
  function PortOf(scheme: UriScheme): nat {
    match scheme
    case Unknown => 0
    case File => 1
    case Ftp => 21
    case Http => 80
    case Https => 443
    case Ftps => 990
  }

  /** uriDetailsGetScheme, with the cases that fall through to the next one. */
  function GetScheme(d: UriDetails): UriScheme {
    if d.scheme.None? then Unknown
    else
      var s := d.scheme.value;
      if |s| == 3 then
        if Upper(s[0]) == 'F' as int && Upper(s[1]) == 'T' as int && Upper(s[2]) == 'P' as int then Ftp else Unknown
      else if |s| == 4 then
        var (a, b, c, e) := (Upper(s[0]), Upper(s[1]), Upper(s[2]), Upper(s[3]));
        if a == 'F' as int && b == 'I' as int && c == 'L' as int && e == 'E' as int then File
        else if a == 'F' as int && (b == 'I' as int || b == 'T' as int) && c == 'P' as int && e == 'S' as int then Ftps
        else if (a == 'F' as int || a == 'H' as int) && b == 'T' as int && c == 'T' as int && e == 'P' as int then Http
        else Unknown
      else if |s| == 5 then
        if Upper(s[0]) == 'H' as int && Upper(s[1]) == 'T' as int && Upper(s[2]) == 'T' as int
           && Upper(s[3]) == 'P' as int && Upper(s[4]) == 'S' as int then Https else Unknown
      else Unknown
  }

  /** The names that a scheme goes by, in either case; "FIPS" and "FTTP" are two that the code lets in. */
  function Names(scheme: UriScheme): set<string> {
    match scheme
    case Unknown => {}
    case File => {"FILE"}
    case Ftp => {"FTP"}
    case Http => {"HTTP", "FTTP"}
    case Https => {"HTTPS"}
    case Ftps => {"FTPS", "FIPS"}
  }

  /** The ports that the schemes stand for when a URI has none. */
  lemma DefaultPorts(d: UriDetails)
    requires d.scheme.Some?
    ensures Spells(d.scheme.value, "HTTP") ==> PortOf(GetScheme(d)) == 80
    ensures Spells(d.scheme.value, "HTTPS") ==> PortOf(GetScheme(d)) == 443
    ensures Spells(d.scheme.value, "FTP") ==> PortOf(GetScheme(d)) == 21
    ensures Spells(d.scheme.value, "FTPS") ==> PortOf(GetScheme(d)) == 990
    ensures Spells(d.scheme.value, "FILE") ==> PortOf(GetScheme(d)) == 1
    ensures GetScheme(d) == Unknown ==> PortOf(GetScheme(d)) == 0
  {
    SchemeNames(d, File);
    SchemeNames(d, Ftp);
    SchemeNames(d, Http);
    SchemeNames(d, Https);
    SchemeNames(d, Ftps);
    hide GetScheme, Spells;
  }

  predicate Spells(s: seq<byte>, name: string) {
    |s| == |name| && forall i :: 0 <= i < |s| ==> name[i] as int < 256 && SameLetter(s[i], name[i] as int)
  }

  lemma SpellsUpper(s: seq<byte>, name: string)
    requires forall i :: 0 <= i < |name| ==> 65 <= name[i] as int <= 90
    ensures Spells(s, name) <==> |s| == |name| && forall i :: 0 <= i < |s| ==> Upper(s[i]) == name[i] as int
  {
    if |s| == |name| {
      forall i | 0 <= i < |s|
        ensures SameLetter(s[i], name[i] as int) <==> Upper(s[i]) == name[i] as int
      {
        UpperIs(s[i], name[i] as int);
      }
    }
  }

  /** The names of each scheme, in either case, with those that only the fall through of the cases lets in. */
  lemma SchemeNames(d: UriDetails, scheme: UriScheme)
    requires d.scheme.Some? && scheme != Unknown
    ensures GetScheme(d) == scheme <==> exists name :: name in Names(scheme) && Spells(d.scheme.value, name)
  {
    var s := d.scheme.value;
    if |s| == 3 {
      ThreeLetters(d);
    } else if |s| == 4 {
      FourLetters(d);
    } else if |s| == 5 {
      FiveLetters(d);
    }
    SpellsLength(s);
    hide Spells;
  }

  lemma SpellsLength(s: seq<byte>)
    ensures forall name :: Spells(s, name) ==> |name| == |s|
  {
  }

  lemma ThreeLetters(d: UriDetails)
    requires d.scheme.Some? && |d.scheme.value| == 3
    ensures GetScheme(d) == (if Spells(d.scheme.value, "FTP") then Ftp else Unknown)
  {
    SpellsUpper(d.scheme.value, "FTP");
    hide Spells, Upper;
  }

  lemma FourLetters(d: UriDetails)
    requires d.scheme.Some? && |d.scheme.value| == 4
    ensures var s := d.scheme.value;
      && (GetScheme(d) == File <==> Spells(s, "FILE"))
      && (GetScheme(d) == Http <==> Spells(s, "HTTP") || Spells(s, "FTTP"))
      && (GetScheme(d) == Ftps <==> Spells(s, "FTPS") || Spells(s, "FIPS"))
      && GetScheme(d) in {File, Http, Ftps, Unknown}
  {
    var s := d.scheme.value;
    SpellsFour(s, "FILE");
    SpellsFour(s, "HTTP");
    SpellsFour(s, "FTTP");
    SpellsFour(s, "FTPS");
    SpellsFour(s, "FIPS");
    hide Spells, Upper;
  }

  lemma SpellsFour(s: seq<byte>, name: string)
    requires |s| == |name| == 4 && forall i :: 0 <= i < |name| ==> 65 <= name[i] as int <= 90
    ensures Spells(s, name) <==>
      Upper(s[0]) == name[0] as int && Upper(s[1]) == name[1] as int && Upper(s[2]) == name[2] as int
      && Upper(s[3]) == name[3] as int
  {
    SpellsUpper(s, name);
    hide Spells, Upper;
  }

  lemma FiveLetters(d: UriDetails)
    requires d.scheme.Some? && |d.scheme.value| == 5
    ensures GetScheme(d) == (if Spells(d.scheme.value, "HTTPS") then Https else Unknown)
  {
    SpellsUpper(d.scheme.value, "HTTPS");
    hide Spells, Upper;
  }

  lemma DigitAhead(s: seq<byte>, i: nat, r: nat)
    requires i < |s| && IsDigit(s[i])
    ensures AllDigits(s[..i]) ==> AllDigits(s[..i + 1])
    ensures AllDigits(s[i..]) <==> AllDigits(s[i + 1..])
    ensures AllDigits(s[i..]) ==> DecimalFrom(r, s[i..]) == DecimalFrom(r * 10 + (s[i] - 48), s[i + 1..])
  {
    assert s[i..] == [s[i]] + s[i + 1..] && s[i..][1..] == s[i + 1..];
    assert s[..i + 1] == s[..i] + [s[i]];
  }

  /**
   uriDetailsGetPort: the number, if the port is all digits and at most 65535, and otherwise 0. The loop
   stops at the first digit that makes the number too big, which later digits cannot make smaller.
   */
  method GetPort(d: UriDetails) returns (port: nat)
    ensures port <= 65535
    ensures d.port.None? ==> port == PortOf(GetScheme(d))
    ensures d.port.Some? ==>
      port == if AllDigits(d.port.value) && DecimalFrom(0, d.port.value) <= 65535
              then DecimalFrom(0, d.port.value) else 0
  {
    if d.port.None? {
      return PortOf(GetScheme(d));
    }
    var s := d.port.value;
    var r: nat := 0;
    for i := 0 to |s|
      invariant AllDigits(s[..i]) && r <= USHRT_MAX
      invariant AllDigits(s[i..]) ==> AllDigits(s) && DecimalFrom(r, s[i..]) == DecimalFrom(0, s)
    {
      if !IsDigit(s[i]) {
        return 0;
      }
      DigitAhead(s, i, r);
      r := r * 10 + (s[i] - 48);
      if r > USHRT_MAX {
        if AllDigits(s) {
          assert AllDigits(s[i + 1..]);
        }
        return 0;
      }
    }
    port := r;
    assert s[..|s|] == s && s[|s|..] == [];
  }
}
