/** The pipelined HTTP request parser: one request is parsed off the front of a buffer by moving two indices,
    and the codec answers every complete request of a read. Texts are sequences of bytes, one `char` a byte. */
module HttpPipeline {

  import opened Text
  import opened Wrappers

  const CONTENT_LENGTH := "Content-Length:"

  // ----- the declared body length -----

  predicate IsSpace(c: char) { c == ' ' || '\t' <= c <= '\r' }

  function TrimLeft(s: string): string
  {
    if s != "" && IsSpace(s[0]) then TrimLeft(s[1..]) else s
  }

  function TrimRight(s: string): string
  {
    if s != "" && IsSpace(s[|s| - 1]) then TrimRight(s[..|s| - 1]) else s
  }

  function TrimSpace(s: string): string { TrimRight(TrimLeft(s)) }

  const MAX_INT64 := 0x7fff_ffff_ffff_ffff

  /** A decimal 64-bit number with an optional sign, or nothing when the text is no number or out of range. */
  function ParseInt(s: string): Option<int>
  {
    var signed := s != "" && (s[0] == '+' || s[0] == '-');
    var digits := if signed then s[1..] else s;
    if digits == "" || !AllDigits(digits) then None
    else
      var n: int := if signed && s[0] == '-' then 0 - Value(digits) else Value(digits);
      if -MAX_INT64 - 1 <= n <= MAX_INT64 then Some(n) else None
  }

  /** The body length in force after one more header line. */
  function LengthAfter(line: string, clen: int): int
  {
    if CONTENT_LENGTH <= line then
      match ParseInt(TrimSpace(line[|CONTENT_LENGTH|..]))
      case Some(n) => n
      case None => clen
    else clen
  }

  function Declared(headers: seq<string>, clen: int): int
  {
    if headers == [] then clen else Declared(headers[1..], LengthAfter(headers[0], clen))
  }

  // ----- messages and their printed form -----

  datatype Message = Message(verb: string, target: string, version: string, headers: seq<string>, body: string)

  function PrintHeaders(headers: seq<string>): (s: string)
    ensures |s| >= 2
  {
    if headers == [] then CRLF else headers[0] + CRLF + PrintHeaders(headers[1..])
  }

  function PrintLine(m: Message): (s: string)
    ensures s != ""
  {
    m.verb + " " + (m.target + " " + (m.version + CRLF))
  }

  function Print(m: Message): (s: string)
    ensures s != ""
  {
    PrintLine(m) + (PrintHeaders(m.headers) + m.body)
  }

  predicate HeaderLines(headers: seq<string>)
  {
    forall h | h in headers :: h != "" && Separable(h, CRLF)
  }

  function BodyLength(clen: int): nat { if clen > 0 then clen else 0 }

  /** A request with no query, whose lines end where they should and whose body has the declared length. */
  predicate WellFormed(m: Message)
  {
    && Separable(m.verb, " ")
    && Separable(m.target, " ")
    && '?' !in m.target
    && Separable(m.version, CRLF)
    && HeaderLines(m.headers)
    && |m.body| == BodyLength(Declared(m.headers, 0))
  }

  // ----- what one call of the parser does -----

  /** The fields of the request record, which outlives the call. */
  datatype Fields = Fields(verb: string, path: string, query: string, proto: string, head: string, body: string)

  datatype Outcome = Leftover(rest: string) | Malformed | Panicked

  datatype Scan = NoEnd | End(rest: string, clen: int)

  /** Header lines up to the blank one. */
  function HeaderEnd(s: string, clen: int): (e: Scan)
    ensures e.End? ==> |e.rest| + 2 <= |s|
    decreases |s|
  {
    var k := Index(s, CRLF);
    if k == |s| then NoEnd
    else if k == 0 then End(s[2..], clen)
    else HeaderEnd(s[k + 2..], LengthAfter(s[..k], clen))
  }

  /** Outcome when the data runs out: a record that has never seen a protocol reports an error. */
  function NotReady(data: string, f: Fields): Outcome
  {
    if f.proto == "" then Malformed else Leftover(data)
  }

  /** Where the request line ends, with the fields it fills. */
  datatype Line = Broken(f: Fields) | Complete(end: nat, f: Fields) | OutOfRange(f: Fields)

  function RequestLine(data: string, was: Fields): (l: Line)
    ensures l.Complete? ==> l.end <= |data| && l.f.proto != ""
  {
    var m := Index(data, " ");
    if m == |data| then Broken(was)
    else Target(data, m + 1, was.(verb := data[..m]))
  }

  function Target(data: string, s: nat, f: Fields): (l: Line)
    requires s <= |data|
    ensures l.Complete? ==> l.end <= |data| && l.f.proto != ""
  {
    var t := data[s..];
    var e := Index(t, " ");
    if e == |t| then Broken(f)
    else if '?' in t[..e] then
      var q := Index(t, "?");
      OutOfRange(if s <= q then f.(path := data[s..q]) else f)
    else Version(data, s + e + 1, f.(path := t[..e]))
  }

  function Version(data: string, s: nat, f: Fields): (l: Line)
    requires s <= |data|
    ensures l.Complete? ==> l.end <= |data| && l.f.proto != ""
  {
    var v := data[s..];
    var k := Index(v, CRLF);
    if k == |v| then Broken(f) else Complete(s + k + 2, f.(proto := v[..k + 1]))
  }

  /** The headers and the body behind a complete request line. */
  function AfterLine(data: string, s: nat, f: Fields): (Outcome, Fields)
    requires s <= |data|
  {
    match HeaderEnd(data[s..], 0)
    case NoEnd => (Leftover(data), f)
    case End(rest, clen) => Body(data, s, rest, clen, f)
  }

  function Body(data: string, s: nat, rest: string, clen: int, f: Fields): (Outcome, Fields)
    requires s + 2 + |rest| <= |data|
  {
    var g := f.(head := data[s + 2..|data| - |rest|]);
    if clen <= 0 then (Leftover(rest), g)
    else if |rest| < clen then (Leftover(data), g)
    else (Leftover(rest[clen..]), g.(body := rest[..clen]))
  }

  function Parse(data: string, was: Fields): (Outcome, Fields)
  {
    match RequestLine(data, was)
    case Broken(f) => (NotReady(data, f), f)
    case OutOfRange(f) => (Panicked, f)
    case Complete(s, f) => AfterLine(data, s, f)
  }

  // ----- the code -----

  lemma IndexOfChar(s: string, c: char, k: nat)
    requires k <= |s| && (k < |s| ==> s[k] == c)
    requires forall j: nat | j < k :: s[j] != c
    ensures Index(s, [c]) == k
  {
    forall j: nat | j < k ensures !OccursAt(s, [c], j) {
      assert s[j..j + 1][0] == s[j];
    }
    if k < |s| {
      assert s[k..k + 1] == [c];
    }
    IndexIs(s, [c], k);
  }

  /** The two bytes before position `i` and at it end a line. */
  predicate CrlfAt(s: string, i: nat)
  {
    1 <= i < |s| && s[i] == '\n' && s[i - 1] == '\r'
  }

  lemma IndexOfCrlf(data: string, s: nat, i: nat)
    requires s <= i <= |data| && (i < |data| ==> s < i && CrlfAt(data, i))
    requires forall j: nat | s < j < i :: !CrlfAt(data, j)
    ensures Index(data[s..], CRLF) == (if i < |data| then i - 1 - s else |data| - s)
  {
    var t, k := data[s..], if i < |data| then i - 1 - s else |data| - s;
    forall j: nat | j < k ensures !OccursAt(t, CRLF, j) {
      if j + 2 <= |t| {
        assert !CrlfAt(data, s + j + 1);
        assert t[j..j + 2] == [data[s + j], data[s + j + 1]];
      }
    }
    if i < |data| {
      assert t[k..k + 2] == [data[i - 1], data[i]];
    }
    IndexIs(t, CRLF, k);
  }

  class Request {
    var verb: string
    var path: string
    var query: string
    var proto: string
    var head: string
    var body: string

    constructor ()
      ensures Value() == Fields("", "", "", "", "", "")
    {
      verb, path, query, proto, head, body := "", "", "", "", "", "";
    }

    function Value(): Fields
      reads this
    {
      Fields(verb, path, query, proto, head, body)
    }
  }

  /** The first loop of the parser: method, path and protocol. */
  method ScanLine(data: string, req: Request) returns (i: nat, s: nat, panicked: bool)
    modifies req
    ensures s <= |data| && (i < |data| && !panicked ==> 0 < s && data[s - 1] == '\n')
    ensures match RequestLine(data, old(req.Value()))
            case Broken(f) => !panicked && i == |data| && req.Value() == f
            case OutOfRange(f) => panicked && req.Value() == f
            case Complete(end, f) => !panicked && i == s == end && req.Value() == f
  {
    i, s, panicked := 0, 0, false;
    while i < |data|
      invariant i <= |data| && s == 0
      invariant forall j | 0 <= j < i :: data[j] != ' '
      invariant req.Value() == old(req.Value())
    {
      if data[i] == ' ' {
        IndexOfChar(data, ' ', i);
        req.verb := data[s..i];
        i, s := i + 1, i + 1;
        i, s, panicked := ScanTarget(data, s, req);
        return;
      }
      i := i + 1;
    }
    IndexOfChar(data, ' ', |data|);
  }

  method ScanTarget(data: string, start: nat, req: Request) returns (i: nat, s: nat, panicked: bool)
    requires start <= |data|
    modifies req
    ensures s <= |data| && (i < |data| && !panicked ==> 0 < s && data[s - 1] == '\n')
    ensures match Target(data, start, old(req.Value()))
            case Broken(f) => !panicked && i == |data| && req.Value() == f
            case OutOfRange(f) => panicked && req.Value() == f
            case Complete(end, f) => !panicked && i == s == end && req.Value() == f
  {
    i, s, panicked := start, start, false;
    var q := -1;
    ghost var t := data[start..];
    while i < |data|
      invariant start == s <= i <= |data|
      invariant forall j | 0 <= j < i - s :: t[j] != ' '
      invariant q == -1 ==> forall j | 0 <= j < i - s :: t[j] != '?'
      invariant q != -1 ==> 0 <= q < i - s && t[q] == '?' && forall j | 0 <= j < q :: t[j] != '?'
      invariant req.Value() == old(req.Value())
    {
      if data[i] == '?' && q == -1 {
        q := i - s;
      } else if data[i] == ' ' {
        IndexOfChar(t, ' ', i - s);
        assert t[..i - s] == data[s..i];
        if q != -1 {
          IndexOfChar(t, '?', q);
          assert t[..i - s][q] == '?';
          // `q` counts from `s`, so the source's slice from `s` to `q` may already be out of range ...
          if s <= q {
            req.path := data[s..q];
            // ... and the slice of the path that should give the query always is.
            assert |req.path| < q + 1;
          }
          panicked := true;
          return;
        }
        req.path := data[s..i];
        assert '?' !in t[..i - s];
        i, s := i + 1, i + 1;
        i, s := ScanVersion(data, s, req);
        return;
      }
      i := i + 1;
    }
    IndexOfChar(t, ' ', |t|);
  }

  method ScanVersion(data: string, start: nat, req: Request) returns (i: nat, s: nat)
    requires 0 < start <= |data| && data[start - 1] == ' '
    modifies req
    ensures s <= |data| && (i < |data| ==> 0 < s && data[s - 1] == '\n')
    ensures match Version(data, start, old(req.Value()))
            case Broken(f) => i == |data| && req.Value() == f
            case OutOfRange(f) => false
            case Complete(end, f) => i == s == end && req.Value() == f
  {
    i, s := start, start;
    while i < |data|
      invariant start == s <= i <= |data|
      invariant forall j: nat | s < j < i :: !CrlfAt(data, j)
      invariant req.Value() == old(req.Value())
    {
      if data[i] == '\n' && data[i - 1] == '\r' {
        IndexOfCrlf(data, s, i);
        assert data[s..i] == data[s..][..i - s];
        req.proto := data[s..i];
        i, s := i + 1, i + 1;
        return;
      }
      i := i + 1;
    }
    IndexOfCrlf(data, s, |data|);
  }

  /** One call of the parser. */
  method ParseReq(data: string, req: Request) returns (r: Outcome)
    modifies req
    ensures (r, req.Value()) == Parse(data, old(req.Value()))
  {
    var i, s, panicked := ScanLine(data, req);
    if panicked {
      return Panicked;
    }
    if req.proto == "" {
      return Malformed;
    }
    r := ScanHeaders(data, i, s, req);
  }

  /** Keeps the last length that a header line declares. */
  method ReadLength(line: string, was: int) returns (clen: int)
    ensures clen == LengthAfter(line, was)
  {
    clen := was;
    if CONTENT_LENGTH <= line {
      var n := ParseInt(TrimSpace(line[|CONTENT_LENGTH|..]));
      if n.Some? {
        clen := n.value;
      }
    }
  }

  /** The blank line ends the headers; the body follows, if all of it has arrived. */
  method TakeBody(data: string, start: nat, at: nat, clen: int, req: Request) returns (r: Outcome)
    requires start + 2 <= at <= |data|
    modifies req
    ensures (r, req.Value()) == Body(data, start, data[at..], clen, old(req.Value()))
  {
    ghost var rest := data[at..];
    var i := at;
    req.head := data[start + 2..i];
    if clen > 0 {
      if |data[i..]| < clen {
        return Leftover(data);
      }
      req.body := data[i..i + clen];
      assert rest[..clen] == data[i..i + clen] && rest[clen..] == data[i + clen..];
      i := i + clen;
    }
    return Leftover(data[i..]);
  }

  /** The second loop of the parser: header lines up to the blank one, then the body. */
  method ScanHeaders(data: string, from: nat, start: nat, req: Request) returns (r: Outcome)
    requires start <= |data|
    requires from == |data| || (from == start && start > 0 && data[start - 1] == '\n')
    modifies req
    ensures from < |data| || from == start ==> (r, req.Value()) == AfterLine(data, start, old(req.Value()))
    ensures from == |data| ==> r == Leftover(data) && req.Value() == old(req.Value())
  {
    hide Text.Index;
    hide Text.OccursAt;
    hide LengthAfter;
    hide Body;
    var i, s, clen := from, start, 0;
    var head := data[..s];
    ghost var all := HeaderEnd(data[start..], 0);
    while i < |data|
      invariant from <= i <= |data|
      invariant from < |data| ==> 0 < start <= s <= i && data[s - 1] == '\n'
      invariant from == |data| ==> i == from && s == start
      invariant HeaderEnd(data[s..], clen) == all
      invariant from < |data| ==> forall j: nat | s < j < i :: !CrlfAt(data, j)
      invariant req.Value() == old(req.Value())
    {
      if i > 1 && data[i] == '\n' && data[i - 1] == '\r' {
        ghost var tail := data[s..];
        IndexOfCrlf(data, s, i);
        var line := data[s..i - 1];
        assert line == tail[..i - 1 - s] && data[i + 1..] == tail[i + 1 - s..];
        s := i + 1;
        if line == "" {
          r := TakeBody(data, |head|, i + 1, clen, req);
          return;
        }
        clen := ReadLength(line, clen);
      }
      i := i + 1;
    }
    if from < |data| {
      IndexOfCrlf(data, s, |data|);
    }
    return Leftover(data);
  }

  /** A response with the given status, headers and body; `date` is the clock's text. */
  function Response(status: string, date: string, head: string, body: string): string
  {
    "HTTP/1.1 " + status + CRLF + "Server: gnet\r\n" + "Date: " + date + CRLF
    + (if body != "" then "Content-Length: " + Dec(|body|) + CRLF else "") + head + CRLF + body
  }

  /** `n` copies of the answer, one behind the other. */
  function Repeat(answer: string, n: nat): string
  {
    if n == 0 then "" else Repeat(answer, n - 1) + answer
  }

  /** What draining a buffer gives: the number of answers, whether the parser stopped in order, and the record. */
  datatype Drained = Drained(answers: nat, end: Outcome, f: Fields)

  function Drain(buf: string, was: Fields, answers: nat): (d: Drained)
    decreases |buf|
  {
    var (r, f) := Parse(buf, was);
    if r.Leftover? && |r.rest| < |buf| then Drain(r.rest, f, answers + 1) else Drained(answers, r, f)
  }

  datatype Reply = Out(bytes: string) | Error | Crash

  function ReplyOf(d: Drained, answer: string): Reply
  {
    match d.end
    case Leftover(_) => Out(Repeat(answer, d.answers))
    case Malformed => Error
    case Panicked => Crash
  }

  class HttpCodec {
    const req: Request
    var inbound: string
    var failed: bool

    constructor ()
      ensures fresh(req) && req.Value() == Fields("", "", "", "", "", "") && inbound == "" && !failed
    {
      req := new Request();
      inbound, failed := "", false;
    }

    /** Answers every complete request at the front of the inbound buffer, which is emptied first. */
    method Decode(res: string, date: string) returns (reply: Reply)
      modifies this, req
      ensures inbound == ""
      ensures var d := Drain(old(inbound), old(req.Value()), 0);
              && req.Value() == d.f
              && reply == ReplyOf(d, Response("200 OK", date, "", res))
              && failed == (old(failed) || d.end.Malformed?)
    {
      hide Parse;
      hide Response;
      var buf := inbound;
      inbound := "";
      var out := "";
      ghost var n := 0;
      while true
        invariant out == Repeat(Response("200 OK", date, "", res), n)
        invariant Drain(buf, req.Value(), n) == Drain(old(inbound), old(req.Value()), 0)
        invariant inbound == "" && failed == old(failed)
        decreases |buf|
      {
        ghost var was := req.Value();
        var r := ParseReq(buf, req);
        match r {
          case Panicked => return Crash;
          case Malformed =>
            failed := true;
            return Error;
          case Leftover(leftover) =>
            LeftoverIsSuffix(buf, was);
            if |leftover| == |buf| {
              return Out(out);
            }
            out := out + Response("200 OK", date, "", res);
            n := n + 1;
            buf := leftover;
        }
      }
    }
  }

  // ----- properties -----

  lemma {:induction false} HeaderEndIsSuffix(s: string, clen: int)
    requires HeaderEnd(s, clen).End?
    ensures var rest := HeaderEnd(s, clen).rest; |rest| <= |s| && rest == s[|s| - |rest|..]
    decreases |s|
  {
    var k := Index(s, CRLF);
    if k > 0 {
      HeaderEndIsSuffix(s[k + 2..], LengthAfter(s[..k], clen));
    }
  }

  /** Whatever the bytes, what is left over is all of them or a strictly shorter suffix: the pipeline loop ends. */
  lemma LeftoverIsSuffix(data: string, was: Fields)
    requires Parse(data, was).0.Leftover?
    ensures var rest := Parse(data, was).0.rest;
            rest == data || (|rest| < |data| && rest == data[|data| - |rest|..])
  {
    hide HeaderEnd;
    hide RequestLine;
    match RequestLine(data, was)
    case Broken(_) =>
    case Complete(s, _) =>
      if HeaderEnd(data[s..], 0).End? {
        HeaderEndIsSuffix(data[s..], 0);
      }
  }

  // A printed request is read back, whatever follows it.

  lemma {:induction false} HeadersPrinted(headers: seq<string>, rest: string, clen: int)
    requires HeaderLines(headers)
    ensures HeaderEnd(PrintHeaders(headers) + rest, clen) == End(rest, Declared(headers, clen))
    decreases |headers|
  {
    if headers == [] {
      assert Separable("", CRLF) by { FreeOfFirst("", CRLF); }
      IndexHead("", rest, CRLF);
      assert "" + CRLF + rest == PrintHeaders(headers) + rest;
    } else {
      var h, tail := headers[0], PrintHeaders(headers[1..]) + rest;
      var s := h + CRLF + tail;
      assert PrintHeaders(headers) + rest == s;
      IndexHead(h, tail, CRLF);
      assert s[..|h|] == h && s[|h| + 2..] == tail;
      HeadersPrinted(headers[1..], rest, LengthAfter(h, clen));
    }
  }

  /** The record after a complete request. */
  function Filled(m: Message, was: Fields): Fields
  {
    Fields(m.verb, m.target, was.query, m.version + "\r", PrintHeaders(m.headers)[2..],
           if m.body != "" then m.body else was.body)
  }

  lemma LinePrinted(m: Message, rest: string, was: Fields)
    requires Separable(m.verb, " ") && Separable(m.target, " ") && '?' !in m.target && Separable(m.version, CRLF)
    ensures var line := PrintLine(m);
            RequestLine(line + rest, was) ==
            Complete(|line|, was.(verb := m.verb, path := m.target, proto := m.version + "\r"))
  {
    hide Text.Index;
    hide Separable;
    var line := PrintLine(m);
    var data := line + rest;
    var v := m.version + CRLF + rest;
    var t := m.target + " " + v;
    assert data == m.verb + " " + t;
    IndexHead(m.verb, t, " ");
    assert data[..|m.verb|] == m.verb;
    var s := |m.verb| + 1;
    assert data[s..] == t;
    IndexHead(m.target, v, " ");
    assert t[..|m.target|] == m.target;
    assert data[s + |m.target| + 1..] == v;
    IndexHead(m.version, rest, CRLF);
    assert v[..|m.version| + 1] == m.version + "\r";
  }

  /** Parsing undoes printing: a well-formed request in front of any bytes is taken off whole. */
  lemma ParsePrinted(m: Message, rest: string, was: Fields)
    requires WellFormed(m)
    ensures Parse(Print(m) + rest, was) == (Leftover(rest), Filled(m, was))
  {
    hide Text.Index;
    hide Text.OccursAt;
    hide HeaderEnd;
    hide RequestLine;
    hide Declared;
    hide PrintHeaders;
    var line := PrintLine(m);
    var head := PrintHeaders(m.headers);
    var data := Print(m) + rest;
    assert data == line + (head + (m.body + rest));
    LinePrinted(m, head + (m.body + rest), was);
    assert data[|line|..] == head + (m.body + rest);
    HeadersPrinted(m.headers, m.body + rest, 0);
    assert data[|line| + 2..|data| - |m.body + rest|] == head[2..];
    var clen := Declared(m.headers, 0);
    assert (m.body + rest)[|m.body|..] == rest && (m.body + rest)[..|m.body|] == m.body;
  }

  // Only printed requests are taken off.

  lemma {:induction false} HeadersRead(s: string, clen: int) returns (headers: seq<string>)
    requires HeaderEnd(s, clen).End?
    ensures HeaderLines(headers)
    ensures HeaderEnd(s, clen) == End(HeaderEnd(s, clen).rest, Declared(headers, clen))
    ensures s == PrintHeaders(headers) + HeaderEnd(s, clen).rest
    decreases |s|
  {
    hide Text.Index;
    hide Separable;
    hide LengthAfter;
    var k := Index(s, CRLF);
    HeadSeparable(s, CRLF);
    if k == 0 {
      headers := [];
    } else {
      var more := HeadersRead(s[k + 2..], LengthAfter(s[..k], clen));
      headers := [s[..k]] + more;
      assert headers[1..] == more;
    }
  }

  lemma VersionRead(data: string, s: nat, f: Fields) returns (version: string)
    requires s <= |data| && Version(data, s, f).Complete?
    ensures Separable(version, CRLF) && data[s..] == version + CRLF + data[Version(data, s, f).end..]
  {
    hide Text.Index;
    hide Separable;
    var v := data[s..];
    HeadSeparable(v, CRLF);
    version := v[..Index(v, CRLF)];
    assert data[Version(data, s, f).end..] == v[Index(v, CRLF) + 2..];
  }

  lemma TargetRead(data: string, s: nat, f: Fields) returns (target: string, version: string)
    requires s <= |data| && Target(data, s, f).Complete?
    ensures Separable(target, " ") && '?' !in target && Separable(version, CRLF)
    ensures data[s..] == target + " " + (version + CRLF + data[Target(data, s, f).end..])
  {
    hide Text.Index;
    hide Separable;
    hide Version;
    var t := data[s..];
    HeadSeparable(t, " ");
    var e := Index(t, " ");
    target := t[..e];
    assert data[s + e + 1..] == t[e + 1..];
    version := VersionRead(data, s + e + 1, f.(path := t[..e]));
  }

  lemma LineRead(data: string, was: Fields) returns (m: Message)
    requires RequestLine(data, was).Complete?
    ensures Separable(m.verb, " ") && Separable(m.target, " ") && '?' !in m.target && Separable(m.version, CRLF)
    ensures data == PrintLine(m) + data[RequestLine(data, was).end..]
  {
    hide Text.Index;
    hide Separable;
    hide Target;
    HeadSeparable(data, " ");
    var a := Index(data, " ");
    var target, version := TargetRead(data, a + 1, was.(verb := data[..a]));
    m := Message(data[..a], target, version, [], "");
  }

  /** Printing undoes parsing: whatever is taken off the front of a buffer is a well-formed printed request. */
  lemma ParseOnlyPrinted(data: string, was: Fields) returns (m: Message)
    requires Parse(data, was).0.Leftover? && |Parse(data, was).0.rest| < |data|
    ensures WellFormed(m) && data == Print(m) + Parse(data, was).0.rest
  {
    hide Text.Index;
    hide Separable;
    hide LengthAfter;
    hide Declared;
    hide PrintHeaders;
    hide HeaderEnd;
    hide RequestLine;
    var end := RequestLine(data, was).end;
    var line := LineRead(data, was);
    var e := HeaderEnd(data[end..], 0);
    var headers := HeadersRead(data[end..], 0);
    var n := BodyLength(e.clen);
    m := Message(line.verb, line.target, line.version, headers, e.rest[..n]);
    var rest := Parse(data, was).0.rest;
    assert e.rest == m.body + rest;
    hide Parse;
    hide PrintLine;
    SameLine(line, m);
    hide Print;
    InFront(m, data, data[end..], rest);
  }

  lemma SameLine(line: Message, m: Message)
    requires line.verb == m.verb && line.target == m.target && line.version == m.version
    ensures PrintLine(line) == PrintLine(m)
  {
  }

  lemma InFront(m: Message, data: string, behind: string, rest: string)
    requires data == PrintLine(m) + behind && behind == PrintHeaders(m.headers) + (m.body + rest)
    ensures data == Print(m) + rest
  {
    hide PrintLine;
    hide PrintHeaders;
  }

  /** `data` starts with a verb and a complete target, and the target has a question mark. */
  ghost predicate StartsWithQuery(data: string)
  {
    exists verb, target, after :: IsQuery(data, verb, target, after)
  }

  predicate IsQuery(data: string, verb: string, target: string, after: string)
  {
    && Separable(verb, " ") && Separable(target, " ") && '?' in target
    && data == verb + " " + (target + " " + after)
  }

  lemma QueryIsOutOfRange(data: string, verb: string, target: string, after: string, was: Fields)
    requires IsQuery(data, verb, target, after)
    ensures Parse(data, was).0 == Panicked
  {
    var t := target + " " + after;
    IndexHead(verb, t, " ");
    assert data[|verb| + 1..] == t;
    IndexHead(target, after, " ");
    assert t[..|target|] == target;
  }

  /** What the record keeps of such a request: the verb, and as much of the target as the miscounted slice before the
      question mark leaves, if that is in range. */
  lemma QueryRecord(data: string, verb: string, target: string, after: string, q: nat, was: Fields)
    requires IsQuery(data, verb, target, after)
    requires q < |target| && target[q] == '?' && '?' !in target[..q]
    ensures Parse(data, was).1 ==
            was.(verb := verb, path := if |verb| + 1 <= q then target[..q - |verb| - 1] else was.path)
  {
    var t := target + " " + after;
    IndexHead(verb, t, " ");
    assert data[..|verb|] == verb && data[|verb| + 1..] == t;
    IndexHead(target, after, " ");
    assert t[..|target|] == target;
    assert forall j: nat | j < q :: t[j] == target[..q][j];
    IndexOfChar(t, '?', q);
    assert |verb| + 1 <= q ==> data[|verb| + 1..q] == target[..q - |verb| - 1];
  }

  lemma OutOfRangeIsQuery(data: string, was: Fields)
    requires RequestLine(data, was).OutOfRange?
    ensures StartsWithQuery(data)
  {
    hide Text.Index;
    hide Separable;
    var a := Index(data, " ");
    HeadSeparable(data, " ");
    var t := data[a + 1..];
    var b := Index(t, " ");
    HeadSeparable(t, " ");
    assert data == data[..a] + " " + t && t == t[..b] + " " + t[b + 1..];
    assert '?' in t[..b];
    assert IsQuery(data, data[..a], t[..b], t[b + 1..]);
  }

  /** The parser slices out of range if and only if the request it meets has a query; the record does not matter. */
  lemma QueryPanics(data: string, was: Fields)
    ensures Parse(data, was).0 == Panicked <==> StartsWithQuery(data)
  {
    hide RequestLine;
    if StartsWithQuery(data) {
      var verb, target, after :| IsQuery(data, verb, target, after);
      QueryIsOutOfRange(data, verb, target, after, was);
    }
    if Parse(data, was).0 == Panicked {
      OutOfRangeIsQuery(data, was);
    }
  }

  /** `data` starts with a complete request line without a query. */
  ghost predicate StartsWithLine(data: string)
  {
    exists m, after :: IsLine(data, m, after)
  }

  predicate IsLine(data: string, m: Message, after: string)
  {
    && Separable(m.verb, " ") && Separable(m.target, " ") && '?' !in m.target && Separable(m.version, CRLF)
    && data == PrintLine(m) + after
  }

  lemma LineCompleteExactly(data: string, was: Fields)
    ensures RequestLine(data, was).Complete? <==> StartsWithLine(data)
  {
    if StartsWithLine(data) {
      var m, after :| IsLine(data, m, after);
      LinePrinted(m, after, was);
    }
    if RequestLine(data, was).Complete? {
      var m := LineRead(data, was);
      assert IsLine(data, m, data[RequestLine(data, was).end..]);
    }
  }

  /** The error of a malformed request means: no request line has ever been read, and none is complete in the data. A
      record that has seen one keeps quiet about the same data. */
  lemma MalformedExactly(data: string, was: Fields)
    ensures Parse(data, was).0 == Malformed <==> was.proto == "" && !StartsWithLine(data) && !StartsWithQuery(data)
    ensures was.proto != "" && !StartsWithLine(data) && !StartsWithQuery(data) ==> Parse(data, was).0 == Leftover(data)
  {
    LineCompleteExactly(data, was);
    QueryPanics(data, was);
    BrokenKeepsProto(data, was);
    hide RequestLine;
    hide HeaderEnd;
    hide StartsWithLine;
    hide StartsWithQuery;
  }

  lemma BrokenKeepsProto(data: string, was: Fields)
    ensures RequestLine(data, was).Broken? ==> RequestLine(data, was).f.proto == was.proto
  {
  }

  // Pipelines.

  function PrintAll(ms: seq<Message>): string
  {
    if ms == [] then "" else Print(ms[0]) + PrintAll(ms[1..])
  }

  function FilledAll(ms: seq<Message>, was: Fields): Fields
  {
    if ms == [] then was else FilledAll(ms[1..], Filled(ms[0], was))
  }

  /** Well-formed requests in front of any bytes are answered one each, and the bytes behind them are then drained. */
  lemma {:induction false} DrainPrinted(ms: seq<Message>, tail: string, was: Fields, answers: nat)
    requires forall m | m in ms :: WellFormed(m)
    ensures Drain(PrintAll(ms) + tail, was, answers) == Drain(tail, FilledAll(ms, was), answers + |ms|)
    decreases |ms|
  {
    hide Parse;
    hide Print;
    hide WellFormed;
    hide Filled;
    if ms == [] {
      assert PrintAll(ms) + tail == tail;
    } else {
      var m, rest := ms[0], PrintAll(ms[1..]) + tail;
      assert PrintAll(ms) + tail == Print(m) + rest;
      ParsePrinted(m, rest, was);
      DrainPrinted(ms[1..], tail, Filled(m, was), answers + 1);
    }
  }

  lemma {:induction false} FilledProto(ms: seq<Message>, was: Fields)
    ensures FilledAll(ms, was).proto == "" <==> ms == [] && was.proto == ""
    decreases |ms|
  {
    if ms != [] {
      FilledProto(ms[1..], Filled(ms[0], was));
    }
  }

  /** A buffer of complete requests back to back is answered exactly once each, and nothing is left. */
  lemma PipelineAnswersAll(ms: seq<Message>, was: Fields)
    requires ms != [] && forall m | m in ms :: WellFormed(m)
    ensures Drain(PrintAll(ms), was, 0) == Drained(|ms|, Leftover(""), FilledAll(ms, was))
  {
    assert PrintAll(ms) + "" == PrintAll(ms);
    DrainPrinted(ms, "", was, 0);
    FilledProto(ms, was);
  }

  /** In general the answers are as many as there are well-formed requests at the front of the buffer, and
      what stops the pipeline starts with none. */
  lemma {:induction false} AnswersAreRequests(buf: string, was: Fields, answers: nat)
    returns (ms: seq<Message>, tail: string)
    ensures forall m | m in ms :: WellFormed(m)
    ensures buf == PrintAll(ms) + tail
    ensures var d := Drain(buf, was, answers);
            d.answers == answers + |ms| && (d.end.Leftover? ==> d.end == Leftover(tail))
    ensures forall m, rest | WellFormed(m) :: tail != Print(m) + rest
    decreases |buf|
  {
    hide Parse;
    hide Print;
    hide WellFormed;
    hide Filled;
    var (r, f) := Parse(buf, was);
    if r.Leftover? && |r.rest| < |buf| {
      var m := ParseOnlyPrinted(buf, was);
      var more;
      more, tail := AnswersAreRequests(r.rest, f, answers + 1);
      ms := [m] + more;
      assert ms[1..] == more;
    } else {
      ms, tail := [], buf;
      forall m, rest | WellFormed(m) ensures tail != Print(m) + rest {
        if tail == Print(m) + rest {
          ParsePrinted(m, rest, was);
        }
      }
      if r.Leftover? {
        LeftoverIsSuffix(buf, was);
      }
    }
  }

  /** How the pipeline ends: with a panic exactly when a query is at the front of what is left; with an error exactly
      when nothing was answered, no request line was ever read and none is there; otherwise in order. */
  lemma DrainEnds(ms: seq<Message>, tail: string, was: Fields, answers: nat)
    requires forall m | m in ms :: WellFormed(m)
    requires forall m, rest | WellFormed(m) :: tail != Print(m) + rest
    ensures var end := Drain(PrintAll(ms) + tail, was, answers).end;
            && (end == Panicked <==> StartsWithQuery(tail))
            && (end == Malformed <==> ms == [] && was.proto == "" && !StartsWithLine(tail) && !StartsWithQuery(tail))
            && (end.Leftover? ==> end == Leftover(tail))
  {
    hide Print;
    hide WellFormed;
    hide StartsWithLine;
    hide StartsWithQuery;
    DrainPrinted(ms, tail, was, answers);
    FilledProto(ms, was);
    var f := FilledAll(ms, was);
    QueryPanics(tail, f);
    MalformedExactly(tail, f);
    if Parse(tail, f).0.Leftover? {
      LeftoverIsSuffix(tail, f);
      if |Parse(tail, f).0.rest| < |tail| {
        var m := ParseOnlyPrinted(tail, f);
        assert false;
      }
    }
  }

  /** A read that ends inside a request answers nothing, although its bytes are already dropped. */
  lemma CutRequestUnanswered(m: Message, cut: nat, was: Fields)
    requires WellFormed(m) && cut < |Print(m)|
    ensures Drain(Print(m)[..cut], was, 0).answers == 0
  {
    hide Parse;
    hide Print;
    hide WellFormed;
    hide Filled;
    var data, more := Print(m)[..cut], Print(m)[cut..];
    var r := Parse(data, was).0;
    if r.Leftover? && |r.rest| < |data| {
      var front := ParseOnlyPrinted(data, was);
      ParsePrinted(front, r.rest + more, was);
      assert Print(front) + (r.rest + more) == Print(m) == Print(m) + "";
      ParsePrinted(m, "", was);
      assert false;
    }
  }

  // A declared length is read back, so any body can be sent.

  /** Blanks and the five control characters from tab to carriage return. */
  predicate Blank(s: string) { forall i | 0 <= i < |s| :: s[i] == ' ' || 9 <= s[i] as int <= 13 }

  /** Neither end is one of these. */
  predicate Trimmed(t: string) { t != "" ==> !Blank(t[..1]) && !Blank(t[|t| - 1..]) }

  lemma {:induction false} LeftTrims(before: string, t: string)
    requires Blank(before) && (t != "" ==> !Blank(t[..1]))
    ensures TrimLeft(before + t) == t
    decreases |before|
  {
    if before == "" {
      assert before + t == t;
      assert t != "" ==> t[..1][0] == t[0];
    } else {
      LeftTrims(before[1..], t);
      assert (before + t)[1..] == before[1..] + t;
    }
  }

  lemma OneTrimmed(s: string, c: char)
    requires c == ' ' || 9 <= c as int <= 13
    ensures TrimRight(s + [c]) == TrimRight(s)
  {
    assert (s + [c])[..|s|] == s;
  }

  lemma {:induction false} RightTrims(t: string, after: string)
    requires Blank(after) && (t != "" ==> !Blank(t[|t| - 1..]))
    ensures TrimRight(t + after) == t
    decreases |after|
  {
    if after == "" {
      assert t + after == t;
      assert t != "" ==> t[|t| - 1..][0] == t[|t| - 1];
    } else {
      var n := |after| - 1;
      RightTrims(t, after[..n]);
      OneTrimmed(t + after[..n], after[n]);
      hide TrimRight;
      assert t + after == t + after[..n] + [after[n]];
    }
  }

  lemma TrimsBoth(before: string, t: string, after: string)
    requires Blank(before) && Blank(after) && Trimmed(t)
    ensures TrimSpace(before + t + after) == t
  {
    if t == "" {
      LeftTrims(before + after, "");
      assert before + t + after == before + after + "";
      RightTrims("", "");
      assert "" + "" == "";
    } else {
      assert (t + after)[..1] == t[..1] && before + t + after == before + (t + after);
      LeftTrims(before, t + after);
      RightTrims(t, after);
    }
  }

  /** A length line counts if and only if a number stands between any blanks behind the colon: a run of digits, with or
      without a sign, that fits 64 bits. Otherwise the length in force stays. */
  lemma LengthExactly(before: string, sign: string, digits: string, after: string, clen: int)
    requires Blank(before) && Blank(after) && digits != "" && AllDigits(digits)
    requires sign == "" || sign == "+" || sign == "-"
    ensures var n: int := if sign == "-" then 0 - Value(digits) else Value(digits);
            LengthAfter("Content-Length:" + (before + (sign + digits) + after), clen) ==
            if -0x8000_0000_0000_0000 <= n < 0x8000_0000_0000_0000 then n else clen
  {
    SignedIsTrimmed(sign, digits);
    SignedParses(sign, digits);
    hide LengthAfter;
    hide ParseInt;
    hide Value;
    hide Blank;
    hide Trimmed;
    hide TrimSpace;
    TrimsBoth(before, sign + digits, after);
    LengthBehind(before + (sign + digits) + after, clen);
  }

  lemma SignedIsTrimmed(sign: string, digits: string)
    requires digits != "" && AllDigits(digits) && (sign == "" || sign == "+" || sign == "-")
    ensures Trimmed(sign + digits)
  {
    var t := sign + digits;
    assert t[|t| - 1] == digits[|digits| - 1] && IsDigit(digits[|digits| - 1]);
    assert t[0] == if sign == "" then digits[0] else sign[0];
    assert t[..1] == [t[0]] && t[|t| - 1..] == [t[|t| - 1]];
  }

  lemma SignedParses(sign: string, digits: string)
    requires digits != "" && AllDigits(digits) && (sign == "" || sign == "+" || sign == "-")
    ensures var n: int := if sign == "-" then 0 - Value(digits) else Value(digits);
            ParseInt(sign + digits) ==
            if -0x8000_0000_0000_0000 <= n < 0x8000_0000_0000_0000 then Some(n) else None
  {
    hide Value;
    var t := sign + digits;
    if sign == "" {
      assert t == digits && IsDigit(t[0]);
    } else {
      assert t[0] == sign[0] && t[1..] == digits;
    }
  }

  /** `t` is a run of digits, with or without a sign. */
  ghost predicate IsNumber(t: string)
  {
    exists sign, digits :: IsSigned(t, sign, digits)
  }

  predicate IsSigned(t: string, sign: string, digits: string)
  {
    (sign == "" || sign == "+" || sign == "-") && digits != "" && AllDigits(digits) && t == sign + digits
  }

  lemma NoNumberNoLength(before: string, t: string, after: string, clen: int)
    requires Blank(before) && Blank(after) && Trimmed(t) && !IsNumber(t)
    ensures LengthAfter("Content-Length:" + (before + t + after), clen) == clen
  {
    TrimsBoth(before, t, after);
    LengthBehind(before + t + after, clen);
    if ParseInt(t).Some? {
      var sign := if t[0] == '+' || t[0] == '-' then t[..1] else "";
      assert t == sign + t[|sign|..];
      assert IsSigned(t, sign, t[|sign|..]);
    }
  }

  lemma LengthBehind(rest: string, clen: int)
    ensures LengthAfter("Content-Length:" + rest, clen) ==
            match ParseInt(TrimSpace(rest)) { case Some(n) => n case None => clen }
  {
    var line := "Content-Length:" + rest;
    assert line[..|CONTENT_LENGTH|] == CONTENT_LENGTH && line[|CONTENT_LENGTH|..] == rest;
  }

  lemma LengthReadsBack(n: nat, clen: int)
    requires n <= MAX_INT64
    ensures LengthAfter("Content-Length: " + Dec(n), clen) == n
    ensures Separable("Content-Length: " + Dec(n), CRLF)
  {
    LengthExactly(" ", "", Dec(n), "", clen);
    DecValue(n);
    hide LengthAfter;
    hide Separable;
    hide Dec;
    LengthLine(Dec(n));
  }

  lemma LengthLine(digits: string)
    requires AllDigits(digits)
    ensures Separable("Content-Length: " + digits, CRLF)
    ensures "Content-Length: " + digits == "Content-Length:" + (" " + ("" + digits) + "")
  {
    FreeOfFirst("Content-Length: " + digits, CRLF);
  }

  lemma OneLengthLine(line: string, n: nat)
    requires line != "" && Separable(line, CRLF) && LengthAfter(line, 0) == n
    ensures HeaderLines([line]) && BodyLength(Declared([line], 0)) == n
  {
    hide Separable;
    hide LengthAfter;
    assert [line][1..] == [];
  }

  /** Any verb, target without a query, version and body make a request the pipeline answers. */
  lemma AnyBodyIsWellFormed(verb: string, target: string, version: string, body: string)
    requires ' ' !in verb && ' ' !in target && '?' !in target && '\r' !in version
    requires |body| <= MAX_INT64
    ensures WellFormed(Message(verb, target, version, ["Content-Length: " + Dec(|body|)], body))
  {
    hide Separable;
    hide LengthAfter;
    hide Declared;
    FreeOfFirst(verb, " ");
    FreeOfFirst(target, " ");
    FreeOfFirst(version, CRLF);
    LengthReadsBack(|body|, 0);
    OneLengthLine("Content-Length: " + Dec(|body|), |body|);
  }
}
