/** What the other end reads in the answers of the pipeline: one response each, with the status, the headers and the
    body that were put in (sections 6.3 and 9.3.2 of RFC 9112). */
module HttpResponses {

  import opened Text
  import opened HttpPipeline

  /** A response as it is received. */
  datatype Received = Received(status: string, body: string)

  datatype Reading = Incomplete | Read(response: Received, rest: string)

  /** Takes one response off the front of a text: the status up to the end of its line, the header lines up to the blank
      one, and as many bytes of body as the last declared length says. */
  function Receive(s: string): (r: Reading)
    ensures r.Read? ==> |r.rest| < |s|
  {
    if !("HTTP/1.1 " <= s) then Incomplete
    else
      var line := s[9..];
      var k := Index(line, CRLF);
      if k == |line| then Incomplete
      else
        match HeaderEnd(line[k + 2..], 0)
        case NoEnd => Incomplete
        case End(rest, clen) =>
          var n := BodyLength(clen);
          if |rest| < n then Incomplete else Read(Received(line[..k], rest[..n]), rest[n..])
  }

  function ReceiveAll(s: string): (rs: seq<Received>)
    decreases |s|
  {
    match Receive(s)
    case Incomplete => []
    case Read(response, rest) => [response] + ReceiveAll(rest)
  }

  /** The header lines of a response in front of the caller's. */
  function OwnLines(date: string, body: string): seq<string>
  {
    if body == "" then [Server(), Dated(date)] else [Server(), Dated(date), "Content-Length: " + Dec(|body|)]
  }

  function Server(): string { "Server: gnet" }

  function Dated(date: string): string { "Date: " + date }

  function LengthLine(body: string): string { if body != "" then "Content-Length: " + Dec(|body|) + CRLF else "" }

  lemma {:induction false} PrintAppend(a: seq<string>, b: seq<string>)
    ensures PrintHeaders(a + b) == PrintHeaders(a)[..|PrintHeaders(a)| - 2] + PrintHeaders(b)
    decreases |a|
  {
    if a == [] {
      assert a + b == b;
    } else {
      PrintAppend(a[1..], b);
      assert (a + b)[1..] == a[1..] + b;
    }
  }

  lemma {:induction false} DeclaredAppend(a: seq<string>, b: seq<string>, clen: int)
    ensures Declared(a + b, clen) == Declared(b, Declared(a, clen))
    decreases |a|
  {
    if a == [] {
      assert a + b == b;
    } else {
      DeclaredAppend(a[1..], b, LengthAfter(a[0], clen));
      assert (a + b)[1..] == a[1..] + b;
    }
  }

  lemma OnePrinted(a: string)
    ensures PrintHeaders([a]) == a + CRLF + CRLF
    ensures forall clen :: Declared([a], clen) == LengthAfter(a, clen)
  {
    hide LengthAfter;
    assert [a][1..] == [];
    assert PrintHeaders([]) == CRLF;
  }

  lemma TwoPrinted(a: string, b: string)
    ensures PrintHeaders([a, b]) == a + CRLF + (b + CRLF + CRLF)
    ensures forall clen :: Declared([a, b], clen) == LengthAfter(b, LengthAfter(a, clen))
  {
    hide LengthAfter;
    assert [a, b][1..] == [b];
    OnePrinted(b);
  }

  lemma ThreePrinted(a: string, b: string, c: string)
    ensures PrintHeaders([a, b, c]) == a + CRLF + (b + CRLF + (c + CRLF + CRLF))
    ensures forall clen :: Declared([a, b, c], clen) == LengthAfter(c, LengthAfter(b, LengthAfter(a, clen)))
  {
    hide LengthAfter;
    assert [a, b, c][1..] == [b, c];
    TwoPrinted(b, c);
  }

  lemma OwnLinesPrinted(date: string, body: string)
    ensures PrintHeaders(OwnLines(date, body)) == Server() + CRLF + (Dated(date) + CRLF + (LengthLine(body) + CRLF))
  {
    hide PrintHeaders;
    hide Declared;
    hide Server;
    hide Dated;
    if body != "" {
      hide Dec;
      ThreePrinted(Server(), Dated(date), "Content-Length: " + Dec(|body|));
    } else {
      TwoPrinted(Server(), Dated(date));
      assert "" + CRLF == CRLF;
      assert OwnLines(date, body) == [Server(), Dated(date)];
    }
  }

  lemma NoLength(line: string, clen: int)
    requires line != "" && line[0] != 'C'
    ensures LengthAfter(line, clen) == clen
  {
  }

  lemma OwnLinesDeclare(date: string, body: string)
    requires '\r' !in date && |body| <= MAX_INT64
    ensures HeaderLines(OwnLines(date, body)) && Declared(OwnLines(date, body), 0) == |body|
  {
    hide Separable;
    hide LengthAfter;
    hide Declared;
    var server, dated := "Server: gnet", "Date: " + date;
    FreeOfFirst(server, CRLF);
    FreeOfFirst(dated, CRLF);
    NoLength(server, 0);
    NoLength(dated, 0);
    if body != "" {
      var length := "Content-Length: " + Dec(|body|);
      LengthReadsBack(|body|, 0);
      ThreePrinted(server, dated, length);
      assert OwnLines(date, body) == [server, dated, length];
    } else {
      TwoPrinted(server, dated);
      assert OwnLines(date, body) == [server, dated];
    }
  }

  /** The head a caller passes: whole lines, none of which changes the length in force. */
  ghost predicate IsHead(head: string, lines: seq<string>, body: string)
  {
    HeaderLines(lines) && head + CRLF == PrintHeaders(lines) && Declared(lines, |body|) == |body|
  }

  lemma Regroup(v: string, status: string, server: string, dated: string, length: string, head: string, body: string)
    ensures v + status + CRLF + server + dated + length + head + CRLF + body ==
            v + (status + CRLF + ((server + (dated + length) + (head + CRLF)) + body))
  {
  }

  /** A response byte by byte: the version and the status, the server, the date, the length of a body that is not empty,
      the caller's lines, a blank line and the body. */
  lemma ResponseLayout(status: string, date: string, head: string, lines: seq<string>, body: string)
    requires head + CRLF == PrintHeaders(lines)
    ensures Response(status, date, head, body) ==
            "HTTP/1.1 " + (status + CRLF + (PrintHeaders(OwnLines(date, body) + lines) + body))
  {
    OwnLinesPrinted(date, body);
    PrintAppend(OwnLines(date, body), lines);
    var own := PrintHeaders(OwnLines(date, body));
    hide PrintHeaders;
    hide OwnLines;
    hide LengthLine;
    var front := Server() + CRLF + (Dated(date) + CRLF + LengthLine(body));
    assert own == front + CRLF;
    assert own[..|own| - 2] == front;
    assert "Server: gnet\r\n" == Server() + CRLF;
    Regroup("HTTP/1.1 ", status, Server() + CRLF, Dated(date) + CRLF, LengthLine(body), head, body);
    ResponseText(status, date, head, body);
  }

  lemma ResponseText(status: string, date: string, head: string, body: string)
    ensures Response(status, date, head, body) ==
            "HTTP/1.1 " + status + CRLF + (Server() + CRLF) + (Dated(date) + CRLF) + LengthLine(body) + head + CRLF + body
  {
    assert "Server: gnet\r\n" == Server() + CRLF;
    var front := "HTTP/1.1 " + status + CRLF + "Server: gnet\r\n";
    assert front + "Date: " + date + CRLF == front + (Dated(date) + CRLF);
  }

  lemma PartsAreReceived(s: string, status: string, lines: seq<string>, body: string, rest: string)
    requires Separable(status, CRLF) && HeaderLines(lines) && Declared(lines, 0) == |body|
    requires s == "HTTP/1.1 " + (status + CRLF + (PrintHeaders(lines) + (body + rest)))
    ensures Receive(s) == Read(Received(status, body), rest)
  {
    HeadersPrinted(lines, body + rest, 0);
    var behind := PrintHeaders(lines) + (body + rest);
    IndexHead(status, behind, CRLF);
    hide Separable;
    hide Text.Index;
    hide HeaderEnd;
    hide PrintHeaders;
    assert s[..9] == "HTTP/1.1 " && s[9..] == status + CRLF + behind;
    assert s[9..][..|status|] == status && s[9..][|status| + 2..] == behind;
    assert (body + rest)[..|body|] == body && (body + rest)[|body|..] == rest;
  }

  /** A response in front of any bytes is received whole, with its status and its body, and nothing of what follows. */
  lemma ResponseIsReceived(status: string, date: string, head: string, lines: seq<string>, body: string, rest: string)
    requires '\r' !in status && '\r' !in date && IsHead(head, lines, body) && |body| <= MAX_INT64
    ensures Receive(Response(status, date, head, body) + rest) == Read(Received(status, body), rest)
  {
    ResponseLayout(status, date, head, lines, body);
    OwnLinesDeclare(date, body);
    DeclaredAppend(OwnLines(date, body), lines, 0);
    FreeOfFirst(status, CRLF);
    hide Separable;
    hide PrintHeaders;
    hide Declared;
    hide OwnLines;
    hide Response;
    hide Receive;
    var all := OwnLines(date, body) + lines;
    var s := Response(status, date, head, body) + rest;
    assert s == "HTTP/1.1 " + (status + CRLF + (PrintHeaders(all) + (body + rest)));
    PartsAreReceived(s, status, all, body, rest);
  }

  /** `n` times the same. */
  function Copies(r: Received, n: nat): seq<Received> { seq(n, _ => r) }

  lemma {:induction false} RepeatFront(answer: string, n: nat)
    ensures Repeat(answer, n + 1) == answer + Repeat(answer, n)
  {
    if n > 0 {
      RepeatFront(answer, n - 1);
    }
  }

  lemma NothingIsReceived()
    ensures ReceiveAll("") == []
  {
  }

  /** So `n` answers back to back are received as exactly `n` responses. */
  lemma {:induction false} AnswersAreReceived(status: string, date: string, head: string, lines: seq<string>,
                                              body: string, n: nat)
    requires '\r' !in status && '\r' !in date && IsHead(head, lines, body) && |body| <= MAX_INT64
    ensures ReceiveAll(Repeat(Response(status, date, head, body), n)) == Copies(Received(status, body), n)
    decreases n
  {
    hide Receive;
    hide Response;
    var answer := Response(status, date, head, body);
    if n == 0 {
      NothingIsReceived();
    } else {
      RepeatFront(answer, n - 1);
      ResponseIsReceived(status, date, head, lines, body, Repeat(answer, n - 1));
      AnswersAreReceived(status, date, head, lines, body, n - 1);
    }
  }

  /** What a read of the codec leads to, from end to end. Its bytes are as many requests as stand at their front, and a
      rest that starts with none. A rest that starts with a query is a panic; no request, no request line so far and none
      now is an error; and otherwise the client receives exactly one response for each request, with the body given. */
  lemma RequestsAreAnswered(buf: string, was: Fields, date: string, res: string)
    returns (ms: seq<Message>, tail: string)
    requires '\r' !in date && |res| <= MAX_INT64
    ensures forall m | m in ms :: WellFormed(m)
    ensures buf == PrintAll(ms) + tail
    ensures forall m, rest | WellFormed(m) :: tail != Print(m) + rest
    ensures var reply := ReplyOf(Drain(buf, was, 0), Response("200 OK", date, "", res));
            && (reply == Crash <==> StartsWithQuery(tail))
            && (reply == Error <==> ms == [] && was.proto == "" && !StartsWithLine(tail) && !StartsWithQuery(tail))
            && (reply.Out? ==> ReceiveAll(reply.bytes) == Copies(Received("200 OK", res), |ms|))
  {
    ms, tail := AnswersAreRequests(buf, was, 0);
    DrainEnds(ms, tail, was, 0);
    NoHead(res);
    hide Response;
    hide Drain;
    hide WellFormed;
    hide Print;
    AnswersAreReceived("200 OK", date, "", [], res, |ms|);
  }

  lemma NoHead(body: string)
    ensures IsHead("", [], body)
  {
    assert "" + CRLF == CRLF;
  }
}
