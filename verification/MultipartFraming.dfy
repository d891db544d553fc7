/**
  The bytes of a multipart form: delimiters per section 5.1.1 of RFC 2046, header lines, and the reader that
  takes them apart again.
 */
module MultipartFraming {
  import opened Bits
  import opened Options

  type Bytes = seq<byte>

  const CR: byte := 13
  const LF: byte := 10
  const CRLF: Bytes := [CR, LF]
  const DASHES: Bytes := [45, 45]
  const COLON: Bytes := [58, 32]

  datatype Header = Header(name: Bytes, value: Bytes)

  datatype Part = Part(headers: seq<Header>, body: Bytes)

  // ----- Writing -----

  datatype BoundaryType = Initial | Encapsulated | Final

  function BoundaryData(kind: BoundaryType, boundary: Bytes): Bytes {
    match kind
    case Initial => DASHES + boundary + CRLF
    case Encapsulated => CRLF + DASHES + boundary + CRLF
    case Final => CRLF + DASHES + boundary + DASHES + CRLF
  }

  function HeaderLine(h: Header): Bytes {
    h.name + COLON + h.value
  }

  function HeaderLines(hs: seq<Header>): Bytes {
    if hs == [] then [] else HeaderLine(hs[0]) + CRLF + HeaderLines(hs[1..])
  }

  function EncodeHeaders(hs: seq<Header>): Bytes {
    HeaderLines(hs) + CRLF
  }

  function Payload(p: Part): Bytes {
    EncodeHeaders(p.headers) + p.body
  }

  /** One part as it is written, given which of its boundaries are flagged. */
  function Framed(boundary: Bytes, payload: Bytes, initial: bool, final: bool): Bytes {
    BoundaryData(if initial then Initial else Encapsulated, boundary) + payload
    + (if final then BoundaryData(Final, boundary) else [])
  }

  /** A form whose first part alone is flagged initial, and last part alone final. */
  function Framing(boundary: Bytes, payloads: seq<Bytes>): Bytes {
    FramesFrom(boundary, payloads, true)
  }

  function FramesFrom(boundary: Bytes, payloads: seq<Bytes>, first: bool): Bytes {
    if payloads == [] then []
    else Framed(boundary, payloads[0], first, |payloads| == 1) + FramesFrom(boundary, payloads[1..], false)
  }

  function Payloads(parts: seq<Part>): (ps: seq<Bytes>)
    ensures |ps| == |parts|
  {
    seq(|parts|, i requires 0 <= i < |parts| => Payload(parts[i]))
  }

  function Encoding(boundary: Bytes, parts: seq<Part>): Bytes {
    Framing(boundary, Payloads(parts))
  }

  // ----- The bytes themselves -----

  /** Boundaries: two dashes and the boundary on a line of their own, with two more dashes behind the last one. */
  lemma BoundaryBytes(b: Bytes)
    ensures BoundaryData(Initial, b) == [45, 45] + b + [13, 10]
    ensures BoundaryData(Encapsulated, b) == [13, 10, 45, 45] + b + [13, 10]
    ensures BoundaryData(Final, b) == [13, 10, 45, 45] + b + [45, 45, 13, 10]
  {
    assert CRLF + DASHES == [13, 10, 45, 45] && DASHES + CRLF == [45, 45, 13, 10];
    assert [13, 10, 45, 45] + b + [45, 45] + [13, 10] == [13, 10, 45, 45] + b + [45, 45, 13, 10];
  }

  /** Header lines, each a name, a colon, a space, a value and a line end; and an empty line. */
  function HeaderBytes(hs: seq<Header>): Bytes {
    if hs == [] then [13, 10] else hs[0].name + [58, 32] + hs[0].value + [13, 10] + HeaderBytes(hs[1..])
  }

  lemma {:induction false} HeadersLiterally(hs: seq<Header>)
    ensures EncodeHeaders(hs) == HeaderBytes(hs)
  {
    if hs != [] {
      HeadersLiterally(hs[1..]);
      var line, more := HeaderLine(hs[0]) + CRLF, HeaderLines(hs[1..]);
      assert (line + more) + CRLF == line + (more + CRLF);
    }
  }

  /** The parts of a form with what stands between them. */
  function PartsBytes(b: Bytes, parts: seq<Part>): Bytes
    requires parts != []
  {
    HeaderBytes(parts[0].headers) + parts[0].body
    + if |parts| == 1 then [] else [13, 10, 45, 45] + b + [13, 10] + PartsBytes(b, parts[1..])
  }

  /** A form byte by byte, with nothing left to a name. */
  lemma FormLiterally(b: Bytes, parts: seq<Part>)
    requires parts != []
    ensures Encoding(b, parts) == [45, 45] + b + [13, 10] + PartsBytes(b, parts) + [13, 10, 45, 45] + b + [45, 45, 13, 10]
    ensures Encoding(b, []) == []
  {
    FramesLiterally(b, parts, true);
    var ps := PartsBytes(b, parts);
    assert Payloads([]) == [];
    hide PartsBytes, BoundaryData, Payloads;
    BoundaryBytes(b);
    var last := [13, 10, 45, 45] + b + [45, 45, 13, 10];
    assert BoundaryData(Initial, b) + ps + last == [45, 45] + b + [13, 10] + ps + [13, 10, 45, 45] + b + [45, 45, 13, 10];
  }

  lemma {:induction false} FramesLiterally(b: Bytes, parts: seq<Part>, first: bool)
    requires parts != []
    ensures FramesFrom(b, Payloads(parts), first) ==
            BoundaryData(if first then Initial else Encapsulated, b) + PartsBytes(b, parts) + BoundaryData(Final, b)
    decreases |parts|
  {
    var ps := Payloads(parts);
    HeadersLiterally(parts[0].headers);
    var open, payload, last := BoundaryData(if first then Initial else Encapsulated, b), Payload(parts[0]), BoundaryData(Final, b);
    assert ps[0] == payload;
    if |parts| == 1 {
      assert FramesFrom(b, ps[1..], false) == [];
      hide BoundaryData, Payload;
      assert PartsBytes(b, parts) == payload + [];
      assert open + payload + last + [] == open + (payload + []) + last;
    } else {
      var rest := parts[1..];
      assert ps[1..] == Payloads(rest);
      FramesLiterally(b, rest, false);
      BoundaryBytes(b);
      var between, more := BoundaryData(Encapsulated, b), PartsBytes(b, rest);
      assert PartsBytes(b, parts) == payload + (between + more);
      hide BoundaryData, PartsBytes, Payload, Payloads;
      assert open + payload + [] + (between + more + last) == open + (payload + (between + more)) + last;
    }
  }

  // ----- Searching -----

  predicate At(s: Bytes, d: Bytes, i: nat) {
    i + |d| <= |s| && s[i..i + |d|] == d
  }

  predicate Contains(s: Bytes, d: Bytes) {
    exists i :: 0 <= i <= |s| && At(s, d, i)
  }

  /** The first place where `d` occurs in `s`. */
  function Find(s: Bytes, d: Bytes): (r: Option<nat>)
    ensures r.Some? ==> At(s, d, r.value) && forall j :: 0 <= j < r.value ==> !At(s, d, j)
    ensures r.None? ==> forall j :: 0 <= j <= |s| ==> !At(s, d, j)
    decreases |s|
  {
    FindSteps(s, d);
    if d <= s then Some(0)
    else if s == [] then None
    else
      match Find(s[1..], d)
      case None => None
      case Some(i) => Some(i + 1)
  }

  lemma FindSteps(s: Bytes, d: Bytes)
    ensures At(s, d, 0) <==> d <= s
    ensures s != [] ==> forall i :: 1 <= i <= |s| ==> (At(s, d, i) <==> At(s[1..], d, i - 1))
  {
    if s != [] {
      forall i | 1 <= i <= |s| ensures At(s, d, i) <==> At(s[1..], d, i - 1) {
        if i + |d| <= |s| {
          assert s[i..i + |d|] == s[1..][i - 1..i - 1 + |d|];
        }
      }
    }
  }

  /** A delimiter whose first byte does not come again in it cannot overlap itself. */
  predicate Delimits(d: Bytes) {
    d != [] && d[0] !in d[1..]
  }

  /** Up to a delimiter, the first occurrence is the delimiter's own, unless there is one wholly before it. */
  lemma FirstDelimiter(x: Bytes, d: Bytes, rest: Bytes)
    requires Delimits(d)
    ensures Find(x + d + rest, d) == if Find(x, d).Some? then Find(x, d) else Some(|x|)
  {
    var s := x + d + rest;
    assert At(s, d, |x|);
    forall j | 0 <= j < |x| ensures At(s, d, j) <==> At(x, d, j) {
      OccurrenceBefore(x, d, rest, j);
    }
    if Find(x, d).Some? {
      NotAtEnd(x, d, Find(x, d).value);
    }
  }

  lemma NotAtEnd(x: Bytes, d: Bytes, i: nat)
    requires d != [] && At(x, d, i)
    ensures i < |x|
  {
  }

  /** An occurrence that starts before the delimiter ends before it. */
  lemma OccurrenceBefore(x: Bytes, d: Bytes, rest: Bytes, j: nat)
    requires Delimits(d) && j < |x|
    ensures At(x + d + rest, d, j) <==> At(x, d, j)
  {
    var s := x + d + rest;
    if j + |d| <= |x| {
      assert s[j..j + |d|] == x[j..j + |d|];
    } else {
      var k := |x| - j;
      assert d[k] == d[1..][k - 1];
      assert s[|x|] == d[0];
      if j + |d| <= |s| {
        assert s[j..j + |d|][k] == d[0];
      }
    }
  }

  // ----- Splitting at the delimiters -----

  function Delimiter(boundary: Bytes): Bytes {
    CRLF + DASHES + boundary
  }

  /** What comes after a delimiter: the end of the form, or a line end, a part, and the next delimiter. */
  function SplitRest(boundary: Bytes, s: Bytes): Option<seq<Bytes>>
    decreases |s|
  {
    if DASHES <= s then Some([])
    else if !(CRLF <= s) then None
    else
      match Find(s, Delimiter(boundary))
      case None => None
      case Some(i) =>
        match SplitRest(boundary, s[i + |Delimiter(boundary)|..])
        case None => None
        case Some(more) => Some([if i < 2 then [] else s[2..i]] + more)
  }

  /** The parts of a form; the line before it counts as ended. */
  function Split(boundary: Bytes, s: Bytes): Option<seq<Bytes>> {
    if s == [] then Some([])
    else if Delimiter(boundary) <= CRLF + s then SplitRest(boundary, (CRLF + s)[|Delimiter(boundary)|..])
    else None
  }

  /** The same form, read from behind its first delimiter. */
  function AfterDelimiter(boundary: Bytes, payloads: seq<Bytes>): Bytes {
    if payloads == [] then DASHES + CRLF
    else CRLF + payloads[0] + Delimiter(boundary) + AfterDelimiter(boundary, payloads[1..])
  }

  lemma Regroup(open: Bytes, b: Bytes, p: Bytes, f: Bytes, d: Bytes, c: Bytes, t: Bytes)
    requires open + b == d + c && f == d + t
    ensures open + (b + p + f) == d + (c + p + d + t)
  {
    assert open + (b + p + f) == (open + b) + p + f;
    assert d + c + p + f == d + (c + p + d + t);
  }

  lemma OpeningBoundary(boundary: Bytes, first: bool)
    ensures (if first then CRLF else []) + BoundaryData(if first then Initial else Encapsulated, boundary)
            == Delimiter(boundary) + CRLF
    ensures BoundaryData(Final, boundary) == Delimiter(boundary) + (DASHES + CRLF)
  {
  }

  /** The first part's bytes, and what follows them. */
  lemma FramesUnfold(boundary: Bytes, payloads: seq<Bytes>, first: bool)
    requires payloads != []
    ensures FramesFrom(boundary, payloads, first)
            == BoundaryData(if first then Initial else Encapsulated, boundary) + payloads[0]
               + (if |payloads| == 1 then BoundaryData(Final, boundary) else FramesFrom(boundary, payloads[1..], false))
  {
    hide BoundaryData;
    var b := BoundaryData(if first then Initial else Encapsulated, boundary) + payloads[0];
    if |payloads| == 1 {
      assert b + BoundaryData(Final, boundary) + [] == b + BoundaryData(Final, boundary);
    } else {
      assert b + [] == b;
    }
  }

  lemma {:induction false} FramesAfterDelimiter(boundary: Bytes, payloads: seq<Bytes>, first: bool)
    requires payloads != []
    ensures (if first then CRLF else []) + FramesFrom(boundary, payloads, first)
            == Delimiter(boundary) + AfterDelimiter(boundary, payloads)
    decreases |payloads|
  {
    var rest, t := payloads[1..], AfterDelimiter(boundary, payloads[1..]);
    var f := if |payloads| == 1 then BoundaryData(Final, boundary) else FramesFrom(boundary, rest, false);
    OpeningBoundary(boundary, first);
    FramesUnfold(boundary, payloads, first);
    assert f == Delimiter(boundary) + t by {
      if |payloads| == 1 {
        assert t == DASHES + CRLF;
      } else {
        FramesAfterDelimiter(boundary, rest, false);
        assert [] + f == f;
      }
      hide FramesFrom, BoundaryData, Delimiter;
    }
    hide BoundaryData, Delimiter, FramesFrom;
    Regroup(if first then CRLF else [], BoundaryData(if first then Initial else Encapsulated, boundary), payloads[0], f,
            Delimiter(boundary), CRLF, t);
  }

  lemma DelimiterDelimits(boundary: Bytes)
    requires CR !in boundary
    ensures Delimits(Delimiter(boundary))
  {
    var d := Delimiter(boundary);
    assert d[1..] == [LF] + DASHES + boundary;
  }

  predicate HoldsNoDelimiter(boundary: Bytes, payload: Bytes) {
    !Contains(CRLF + payload, Delimiter(boundary))
  }

  /** The first part read back is the first payload, or a shorter one. */
  lemma FirstPart(boundary: Bytes, p: Bytes, rest: Bytes)
    requires CR !in boundary
    ensures var d := Delimiter(boundary); var s := CRLF + p + d + rest;
            HoldsNoDelimiter(boundary, p) ==>
              SplitRest(boundary, s) == match SplitRest(boundary, rest) case None => None case Some(more) => Some([p] + more)
    ensures var d := Delimiter(boundary); var s := CRLF + p + d + rest;
            !HoldsNoDelimiter(boundary, p) ==>
              SplitRest(boundary, s).Some? ==> SplitRest(boundary, s).value != [] && |SplitRest(boundary, s).value[0]| < |p|
  {
    var x, d := CRLF + p, Delimiter(boundary);
    var s := x + d + rest;
    DelimiterDelimits(boundary);
    FirstDelimiter(x, d, rest);
    assert !(DASHES <= s) && CRLF <= s;
    hide Delimiter, Find;
    if Find(x, d).None? {
      assert s[2..|x|] == p;
      assert s[|x| + |d|..] == rest;
    } else {
      NotAtEnd(x, d, Find(x, d).value);
      assert At(x, d, Find(x, d).value);
      hide At;
    }
  }

  lemma AllOf(boundary: Bytes, payloads: seq<Bytes>)
    requires payloads != []
    ensures (forall p <- payloads :: HoldsNoDelimiter(boundary, p))
            <==> HoldsNoDelimiter(boundary, payloads[0]) && forall p <- payloads[1..] :: HoldsNoDelimiter(boundary, p)
  {
    assert payloads == [payloads[0]] + payloads[1..];
    hide HoldsNoDelimiter;
  }

  lemma SplitFirst(boundary: Bytes, payloads: seq<Bytes>)
    requires CR !in boundary && payloads != []
    ensures SplitRest(boundary, AfterDelimiter(boundary, payloads)) == Some(payloads)
            <==> HoldsNoDelimiter(boundary, payloads[0])
                 && SplitRest(boundary, AfterDelimiter(boundary, payloads[1..])) == Some(payloads[1..])
  {
    FirstPart(boundary, payloads[0], AfterDelimiter(boundary, payloads[1..]));
    assert payloads == [payloads[0]] + payloads[1..];
    hide SplitRest, HoldsNoDelimiter, Delimiter;
  }

  /** Splitting finds the payloads exactly when none of them holds a delimiter. */
  lemma {:induction false} SplitFinds(boundary: Bytes, payloads: seq<Bytes>)
    requires CR !in boundary
    ensures SplitRest(boundary, AfterDelimiter(boundary, payloads)) == Some(payloads)
            <==> forall p <- payloads :: HoldsNoDelimiter(boundary, p)
    decreases |payloads|
  {
    if payloads == [] {
      hide Find;
    } else {
      SplitFinds(boundary, payloads[1..]);
      SplitFirst(boundary, payloads);
      AllOf(boundary, payloads);
      hide SplitRest, HoldsNoDelimiter, AfterDelimiter;
    }
  }

  lemma SplitFraming(boundary: Bytes, payloads: seq<Bytes>)
    requires CR !in boundary
    ensures Split(boundary, Framing(boundary, payloads)) == Some(payloads)
            <==> forall p <- payloads :: HoldsNoDelimiter(boundary, p)
  {
    if payloads != [] {
      var s, d, t := Framing(boundary, payloads), Delimiter(boundary), AfterDelimiter(boundary, payloads);
      FramesAfterDelimiter(boundary, payloads, true);
      SplitFinds(boundary, payloads);
      assert (CRLF + s)[|d|..] == t;
      NotEmpty(boundary, payloads);
      hide AfterDelimiter, SplitRest, HoldsNoDelimiter, Delimiter, FramesFrom;
    }
  }

  lemma NotEmpty(boundary: Bytes, payloads: seq<Bytes>)
    requires payloads != []
    ensures Framing(boundary, payloads) != []
  {
  }

  // ----- Reading the headers -----

  /** The header lines up to the empty one, each cut at its first colon and space, and the body behind them. */
  function ParsePart(s: Bytes): Option<Part>
    decreases |s|
  {
    match Find(s, CRLF)
    case None => None
    case Some(i) =>
      if i == 0 then Some(Part([], s[2..]))
      else
        match Find(s[..i], COLON)
        case None => None
        case Some(k) =>
          match ParsePart(s[i + 2..])
          case None => None
          case Some(p) => Some(Part([Header(s[..k], s[k + 2..i])] + p.headers, p.body))
  }

  predicate CleanHeader(h: Header) {
    !Contains(h.name, COLON) && !Contains(h.name, CRLF) && !Contains(h.value, CRLF)
  }

  predicate CleanHeaders(p: Part) {
    forall h <- p.headers :: CleanHeader(h)
  }

  /** Cut at an occurrence. */
  lemma CutAt(s: Bytes, d: Bytes, i: nat)
    requires At(s, d, i)
    ensures s == s[..i] + d + s[i + |d|..]
  {
    assert s == s[..i] + s[i..i + |d|] + s[i + |d|..];
  }

  lemma PayloadUnfold(h: Header, p: Part)
    ensures Payload(Part([h] + p.headers, p.body)) == HeaderLine(h) + CRLF + Payload(p)
  {
    assert ([h] + p.headers)[1..] == p.headers;
    hide HeaderLine;
    var line, more := HeaderLine(h) + CRLF, HeaderLines(p.headers);
    assert (line + more) + CRLF + p.body == line + (more + CRLF + p.body);
  }

  /** What is read from some bytes writes the same bytes again. */
  lemma {:induction false} ParsedWritesBack(s: Bytes)
    ensures ParsePart(s).Some? ==> Payload(ParsePart(s).value) == s
    decreases |s|
  {
    if ParsePart(s).Some? {
      var i := Find(s, CRLF).value;
      CutAt(s, CRLF, i);
      if i == 0 {
        assert HeaderLines([]) + CRLF + s[2..] == s;
      } else {
        var k := Find(s[..i], COLON).value;
        CutAt(s[..i], COLON, k);
        ParsedWritesBack(s[i + 2..]);
        HeaderWritesBack(s, i, k);
        PayloadUnfold(Header(s[..k], s[k + 2..i]), ParsePart(s[i + 2..]).value);
        hide Find, Payload, HeaderLine;
      }
    }
  }

  lemma HeaderWritesBack(s: Bytes, i: nat, k: nat)
    requires k + 2 <= i <= |s| && s[..i] == s[..i][..k] + COLON + s[..i][k + 2..]
    ensures HeaderLine(Header(s[..k], s[k + 2..i])) == s[..i]
  {
    assert s[..i][..k] == s[..k];
    assert s[..i][k + 2..] == s[k + 2..i];
  }

  /** An occurrence in a piece is one in the whole. */
  lemma ContainedIn(before: Bytes, s: Bytes, after: Bytes, d: Bytes)
    requires Contains(s, d)
    ensures Contains(before + s + after, d)
  {
    var i :| 0 <= i <= |s| && At(s, d, i);
    var whole, k := before + s + after, |before| + i;
    assert whole[k..k + |d|] == s[i..i + |d|];
    assert At(whole, d, k);
  }

  lemma BreakInPiece(h: Header, i: nat)
    requires At(HeaderLine(h), CRLF, i)
    ensures Contains(h.name, CRLF) || Contains(h.value, CRLF)
  {
    var line, n := HeaderLine(h), |h.name|;
    assert line[i..i + 2][0] == line[i] && line[i..i + 2][1] == line[i + 1];
    assert line[n] == 58 && line[n + 1] == 32;
    if i + 2 <= n {
      assert h.name[i..i + 2] == line[i..i + 2];
      assert At(h.name, CRLF, i);
    } else {
      var k := i - n - 2;
      assert h.value[k..k + 2] == line[i..i + 2];
      assert At(h.value, CRLF, k);
    }
  }

  /** A header line holds a line break only inside its name or its value. */
  lemma LineBreaks(h: Header)
    ensures Contains(HeaderLine(h), CRLF) <==> Contains(h.name, CRLF) || Contains(h.value, CRLF)
  {
    if Contains(h.name, CRLF) {
      ContainedIn([], h.name, COLON + h.value, CRLF);
      assert [] + h.name + (COLON + h.value) == HeaderLine(h);
    }
    if Contains(h.value, CRLF) {
      ContainedIn(h.name + COLON, h.value, [], CRLF);
      assert h.name + COLON + h.value + [] == HeaderLine(h);
    }
    if Contains(HeaderLine(h), CRLF) {
      var i :| 0 <= i <= |HeaderLine(h)| && At(HeaderLine(h), CRLF, i);
      BreakInPiece(h, i);
    }
    hide At, HeaderLine;
  }

  predicate FirstHeaderIs(s: Bytes, h: Header) {
    ParsePart(s).Some? && ParsePart(s).value.headers != [] && ParsePart(s).value.headers[0] == h
  }

  /** A header with a clean line is cut where it was joined, or its name holds a colon and space. */
  lemma CleanLine(h: Header, rest: Bytes)
    requires !Contains(HeaderLine(h), CRLF)
    ensures var s := HeaderLine(h) + CRLF + rest;
            && (!Contains(h.name, COLON) ==>
                  ParsePart(s) == match ParsePart(rest) case None => None case Some(p) => Some(Part([h] + p.headers, p.body)))
            && (Contains(h.name, COLON) ==> !FirstHeaderIs(s, h))
  {
    var line := HeaderLine(h);
    var s := line + CRLF + rest;
    FirstDelimiter(line, CRLF, rest);
    FirstDelimiter(h.name, COLON, h.value);
    assert s[..|line|] == line && s[|line| + 2..] == rest;
    if Contains(h.name, COLON) {
      NotAtEnd(h.name, COLON, Find(h.name, COLON).value);
    } else {
      assert s[..|h.name|] == h.name && s[|h.name| + 2..|line|] == h.value;
    }
  }

  lemma BrokenLine(h: Header, rest: Bytes)
    requires Contains(HeaderLine(h), CRLF)
    ensures !FirstHeaderIs(HeaderLine(h) + CRLF + rest, h)
  {
    var line := HeaderLine(h);
    var s := line + CRLF + rest;
    FirstDelimiter(line, CRLF, rest);
    var i := Find(line, CRLF).value;
    NotAtEnd(line, CRLF, i);
    if i > 0 && Find(s[..i], COLON).Some? {
      var k := Find(s[..i], COLON).value;
      CutAt(s[..i], COLON, k);
      HeaderWritesBack(s, i, k);
      hide HeaderLine;
    }
  }

  lemma HeadersSplit(p: Part)
    requires p.headers != []
    ensures CleanHeaders(p) <==> CleanHeader(p.headers[0]) && CleanHeaders(Part(p.headers[1..], p.body))
  {
    assert p.headers == [p.headers[0]] + p.headers[1..];
    hide CleanHeader;
  }

  /** A part is read back exactly when each name and value keeps to its place on the line. */
  lemma {:induction false} ParsePayload(p: Part)
    ensures ParsePart(Payload(p)) == Some(p) <==> CleanHeaders(p)
    decreases |p.headers|
  {
    if p.headers == [] {
      var s := Payload(p);
      assert s == CRLF + p.body;
      FindSteps(s, CRLF);
      assert s[2..] == p.body;
    } else {
      var h, rest := p.headers[0], Part(p.headers[1..], p.body);
      var s := Payload(p);
      PayloadUnfold(h, rest);
      assert p.headers == [h] + rest.headers;
      LineBreaks(h);
      HeadersSplit(p);
      ParsePayload(rest);
      if Contains(HeaderLine(h), CRLF) {
        BrokenLine(h, Payload(rest));
      } else {
        CleanLine(h, Payload(rest));
      }
      hide ParsePart, Payload, HeaderLine, Contains, CleanHeaders;
    }
  }

  // ----- The form -----

  predicate CleanPart(boundary: Bytes, p: Part) {
    HoldsNoDelimiter(boundary, Payload(p)) && CleanHeaders(p)
  }

  function ParseAll(payloads: seq<Bytes>): Option<seq<Part>> {
    if payloads == [] then Some([])
    else
      match (ParsePart(payloads[0]), ParseAll(payloads[1..]))
      case (Some(p), Some(more)) => Some([p] + more)
      case _ => None
  }

  /** The form that some bytes stand for. */
  function Decode(boundary: Bytes, s: Bytes): Option<seq<Part>> {
    match Split(boundary, s)
    case None => None
    case Some(payloads) => ParseAll(payloads)
  }

  lemma {:induction false} ParsedAllWriteBack(payloads: seq<Bytes>)
    ensures ParseAll(payloads).Some? ==> Payloads(ParseAll(payloads).value) == payloads
  {
    if payloads != [] && ParseAll(payloads).Some? {
      ParsedWritesBack(payloads[0]);
      ParsedAllWriteBack(payloads[1..]);
      hide ParsePart, Payload;
      assert payloads == [payloads[0]] + payloads[1..];
    }
  }

  lemma {:induction false} ParseAllPayloads(parts: seq<Part>)
    ensures ParseAll(Payloads(parts)) == Some(parts) <==> forall p <- parts :: CleanHeaders(p)
  {
    if parts != [] {
      hide ParsePart, Payload, CleanHeaders;
      var p, rest := parts[0], parts[1..];
      assert Payloads(parts)[1..] == Payloads(rest) && Payloads(parts)[0] == Payload(p);
      hide Payloads, ParseAll;
      ParsePayload(p);
      ParseAllPayloads(rest);
      ParseAllFirst(Payloads(parts), p, rest);
      FirstClean(p, rest);
      assert parts == [p] + rest;
    }
  }

  lemma ParseAllFirst(payloads: seq<Bytes>, p: Part, rest: seq<Part>)
    requires payloads != []
    ensures ParseAll(payloads) == Some([p] + rest) <==> ParsePart(payloads[0]) == Some(p) && ParseAll(payloads[1..]) == Some(rest)
  {
    hide ParsePart;
    assert ([p] + rest)[0] == p && ([p] + rest)[1..] == rest;
    var q, more := ParsePart(payloads[0]), ParseAll(payloads[1..]);
    if q.Some? && more.Some? {
      assert ([q.value] + more.value)[0] == q.value && ([q.value] + more.value)[1..] == more.value;
    }
  }

  lemma FirstClean(p: Part, rest: seq<Part>)
    ensures (forall q <- [p] + rest :: CleanHeaders(q)) <==> CleanHeaders(p) && forall q <- rest :: CleanHeaders(q)
  {
    hide CleanHeaders;
  }

  lemma CleanParts(boundary: Bytes, parts: seq<Part>)
    ensures (forall p <- parts :: CleanPart(boundary, p))
            <==> (forall q <- Payloads(parts) :: HoldsNoDelimiter(boundary, q))
                 && (forall p <- parts :: CleanHeaders(p))
  {
    hide HoldsNoDelimiter, CleanHeaders, Payload;
    var ps := Payloads(parts);
    if forall p <- parts :: CleanPart(boundary, p) {
      forall i | 0 <= i < |ps| ensures HoldsNoDelimiter(boundary, ps[i]) {
        assert parts[i] in parts;
      }
    }
    if forall q <- ps :: HoldsNoDelimiter(boundary, q) {
      forall i | 0 <= i < |parts| ensures HoldsNoDelimiter(boundary, Payload(parts[i])) {
        assert ps[i] in ps;
      }
    }
  }

  /**
    A form encoded once is read back as the same headers and bodies exactly when each part is clean: no payload
    with its line before it holds a delimiter, and each header can be told apart from its neighbours.
   */
  lemma FormRecovered(boundary: Bytes, parts: seq<Part>)
    requires CR !in boundary
    ensures Decode(boundary, Encoding(boundary, parts)) == Some(parts) <==> forall p <- parts :: CleanPart(boundary, p)
  {
    var ps := Payloads(parts);
    SplitFraming(boundary, ps);
    ParseAllPayloads(parts);
    CleanParts(boundary, parts);
    if Decode(boundary, Encoding(boundary, parts)) == Some(parts) {
      ParsedAllWriteBack(Split(boundary, Framing(boundary, ps)).value);
    }
    hide Split, Framing, ParseAll, Payloads, CleanPart, HoldsNoDelimiter, CleanHeaders;
  }

  /** Clean forms with the same bytes are the same form. */
  lemma EncodingInjective(boundary: Bytes, ps: seq<Part>, qs: seq<Part>)
    requires CR !in boundary
    requires (forall p <- ps :: CleanPart(boundary, p)) && (forall q <- qs :: CleanPart(boundary, q))
    requires Encoding(boundary, ps) == Encoding(boundary, qs)
    ensures ps == qs
  {
    hide CleanPart, Encoding, Decode;
    FormRecovered(boundary, ps);
    FormRecovered(boundary, qs);
  }

  lemma Reassociate(a: Bytes, b: Bytes, c: Bytes, d: Bytes, e: Bytes)
    ensures a + (b + c + d) + e == a + b + (c + d + e)
  {
    var x := c + d;
    assert b + c + d == b + x;
    assert a + (b + x) + e == a + b + (x + e);
  }

  /** A body that holds a delimiter line reads as two parts: both forms have the same bytes. */
  lemma DelimiterInBody(boundary: Bytes, before: Bytes, after: Bytes)
    ensures Framing(boundary, [before + (Delimiter(boundary) + CRLF) + after]) == Framing(boundary, [before, after])
  {
    FramesUnfold(boundary, [before + (Delimiter(boundary) + CRLF) + after], true);
    FramesUnfold(boundary, [before, after], true);
    FramesUnfold(boundary, [after], false);
    assert [before, after][1..] == [after];
    assert BoundaryData(Encapsulated, boundary) == Delimiter(boundary) + CRLF;
    hide BoundaryData, FramesFrom, Delimiter;
    Reassociate(BoundaryData(Initial, boundary), before, Delimiter(boundary) + CRLF, after, BoundaryData(Final, boundary));
  }

  /** A name that holds a colon and space can be read as a shorter name with a longer value. */
  lemma ColonInName(name: Bytes, middle: Bytes, value: Bytes)
    ensures HeaderLine(Header(name + COLON + middle, value)) == HeaderLine(Header(name, middle + COLON + value))
  {
    assert (name + COLON + middle) + COLON + value == name + COLON + (middle + COLON + value);
  }
}
