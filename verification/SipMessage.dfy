/** Printing and parsing of session-initiation messages (section 7 of RFC 3261). */
module SipMessage {

  import opened Text
  import opened Wrappers

  const BLANK_LINE := "\r\n\r\n"

  const COLON := ": "

  datatype SIPMessage = SIPMessage(
    verb: string, address: string, subject: string, headers: map<string, string>, body: string)

  type Pair = (string, string)

  // ----- parsing -----

  /** Reads header lines into a map; later lines win, and a line without a colon and a blank is a panic. */
  function ReadHeaders(lines: seq<string>, headers: map<string, string>): Option<map<string, string>>
  {
    if lines == [] then Some(headers)
    else
      var tokens := Split(lines[0], COLON);
      if |tokens| < 2 then None else ReadHeaders(lines[1..], headers[tokens[0] := tokens[1]])
  }

  function Read(m: SIPMessage, s: string): Option<SIPMessage>
  {
    var parts := Split(s, BLANK_LINE);
    var lines := Split(parts[0], CRLF);
    match ReadHeaders(lines[1..], map[])
    case None => None
    case Some(headers) =>
      Some(SIPMessage(m.verb, m.address, lines[0], headers, Join(parts[1..], BLANK_LINE)))
  }

  /** The receiver's method and address are kept, as it is passed by value; no result stands for a panic. */
  method FromString(receiver: SIPMessage, s: string) returns (m: Option<SIPMessage>)
    ensures m == Read(receiver, s)
    ensures m == None <==> LineWithoutColon(HeadLines(s))
  {
    ReadPanicsExactly(receiver, s);
    var parts := Split(s, BLANK_LINE);
    var sm := receiver.(body := Join(parts[1..], BLANK_LINE));
    parts := Split(parts[0], CRLF);
    sm := sm.(subject := parts[0], headers := map[]);
    var i := 1;
    while i < |parts|
      invariant 1 <= i <= |parts|
      invariant ReadHeaders(parts[i..], sm.headers) == ReadHeaders(parts[1..], map[])
      invariant sm == receiver.(body := sm.body, subject := parts[0], headers := sm.headers)
      invariant sm.body == Join(Split(s, BLANK_LINE)[1..], BLANK_LINE)
    {
      var tokens := Split(parts[i], COLON);
      assert parts[i..][1..] == parts[i + 1..];
      if |tokens| < 2 {
        return None;
      }
      sm := sm.(headers := sm.headers[tokens[0] := tokens[1]]);
      i := i + 1;
    }
    return Some(sm);
  }

  // ----- printing -----

  function LineOf(p: Pair): (s: string)
    ensures s != ""
  {
    p.0 + COLON + p.1
  }

  function Lines(pairs: seq<Pair>): (lines: seq<string>)
    ensures |lines| == |pairs|
    ensures forall l | l in lines :: l != ""
  {
    if pairs == [] then [] else [LineOf(pairs[0])] + Lines(pairs[1..])
  }

  lemma TwoLines(p: Pair, q: Pair)
    ensures Lines([p, q]) == [LineOf(p), LineOf(q)]
  {
    hide LineOf;
    assert [p, q][1..] == [q];
    assert [q][1..] == [];
  }

  lemma ThreeLines(p: Pair, q: Pair, r: Pair)
    ensures Lines([p, q, r]) == [LineOf(p), LineOf(q), LineOf(r)]
  {
    hide LineOf;
    assert [p, q, r][1..] == [q, r];
    TwoLines(q, r);
  }

  lemma {:induction false} LinesAppend(a: seq<Pair>, b: seq<Pair>)
    ensures Lines(a + b) == Lines(a) + Lines(b)
    decreases |a|
  {
    if a == [] {
      assert a + b == b;
    } else {
      LinesAppend(a[1..], b);
      assert (a + b)[1..] == a[1..] + b;
    }
  }

  function Assemble(start: string, pairs: seq<Pair>, body: string): string
  {
    Join([start] + Lines(pairs) + ["", body], CRLF)
  }

  /** The map that header lines leave behind, later ones winning. */
  function MapOf(pairs: seq<Pair>, headers: map<string, string>): map<string, string>
  {
    if pairs == [] then headers else MapOf(pairs[1..], headers[pairs[0].0 := pairs[0].1])
  }

  /** Neither part breaks the line, and the key does not end early. */
  predicate Breakless(p: Pair) { !Holds(p.0, COLON) && !Holds(p.0, CRLF) && !Holds(p.1, CRLF) }

  predicate Clean(p: Pair) { Breakless(p) && !Holds(p.1, COLON) }

  /** Header pairs of a map, its keys visited in the given order. */
  function Pairs(order: seq<string>, headers: map<string, string>): (pairs: seq<Pair>)
    requires forall k | k in order :: k in headers
    ensures |pairs| == |order|
  {
    if order == [] then [] else [(order[0], headers[order[0]])] + Pairs(order[1..], headers)
  }

  lemma {:induction false} PairsAppend(order: seq<string>, k: string, headers: map<string, string>)
    requires forall j | j in order + [k] :: j in headers
    ensures Pairs(order + [k], headers) == Pairs(order, headers) + [(k, headers[k])]
    decreases |order|
  {
    if order != [] {
      PairsAppend(order[1..], k, headers);
      assert (order + [k])[1..] == order[1..] + [k];
      assert (order + [k])[0] == order[0];
    } else {
      assert [k][1..] == [];
    }
  }

  /** `order` visits every key of the map, each once. */
  ghost predicate Visits(order: seq<string>, headers: map<string, string>)
  {
    && (forall k :: k in order <==> k in headers)
    && forall i, j | 0 <= i < j < |order| :: order[i] != order[j]
  }

  /** Prints the header lines in whatever order the map is walked; `order` is the order taken. */
  method AppendHeaders(start: seq<string>, headers: map<string, string>)
    returns (arr: seq<string>, ghost order: seq<string>)
    ensures Visits(order, headers)
    ensures arr == start + Lines(Pairs(order, headers))
  {
    arr, order := start, [];
    var left := headers.Keys;
    while left != {}
      invariant left <= headers.Keys
      invariant forall k :: k in order <==> k in headers && k !in left
      invariant forall i, j | 0 <= i < j < |order| :: order[i] != order[j]
      invariant arr == start + Lines(Pairs(order, headers))
      decreases |left|
    {
      var k :| k in left;
      arr := arr + [k + COLON + headers[k]];
      PairsAppend(order, k, headers);
      LinesAppend(Pairs(order, headers), [(k, headers[k])]);
      assert Lines([(k, headers[k])]) == [k + COLON + headers[k]];
      order := order + [k];
      left := left - {k};
    }
  }

  function StartLine(m: SIPMessage): string { m.verb + " sip:" + m.address + " SIP/2.0" }

  function Closing(body: string): seq<Pair> { [("Content-Length", Dec(|body|)), ("Max-Forwards", "70")] }

  /** The text starts with its first line. */
  lemma StartsWithLine(start: string, pairs: seq<Pair>, body: string)
    ensures start + CRLF <= Assemble(start, pairs, body)
  {
    var lines := [start] + Lines(pairs) + ["", body];
    assert lines[0] == start && |lines| > 1;
  }

  method ToString(m: SIPMessage) returns (s: string, ghost order: seq<string>)
    ensures Visits(order, m.headers)
    ensures m.verb + " sip:" + m.address + " SIP/2.0" + CRLF <= s
    ensures s == Assemble(StartLine(m), Pairs(order, m.headers) + Closing(m.body), m.body)
    ensures CleanHeaders(m.headers) && !Holds(StartLine(m), CRLF) ==>
              Read(m, s) == Some(m.(subject := StartLine(m),
                                    headers := m.headers["Content-Length" := Dec(|m.body|)]["Max-Forwards" := "70"]))
  {
    hide Clean;
    hide Read;
    var arr;
    arr, order := AppendHeaders([m.verb + " sip:" + m.address + " SIP/2.0"], m.headers);
    arr := arr + [LineOf(("Content-Length", Dec(|m.body|)))];
    arr := arr + [LineOf(("Max-Forwards", "70"))];
    arr := arr + ["", m.body];
    s := Join(arr, CRLF);
    var pairs := Pairs(order, m.headers);
    LinesAppend(pairs, Closing(m.body));
    TwoLines(("Content-Length", Dec(|m.body|)), ("Max-Forwards", "70"));
    assert arr == [StartLine(m)] + Lines(pairs + Closing(m.body)) + ["", m.body];
    StartsWithLine(StartLine(m), pairs + Closing(m.body), m.body);
    if CleanHeaders(m.headers) && !Holds(StartLine(m), CRLF) {
      PrintedReadsBack(m, order);
    }
  }

  function Lookup(headers: map<string, string>, k: string): string
  {
    if k in headers then headers[k] else ""
  }

  function Echoed(m: SIPMessage): seq<Pair>
  {
    [("Via", Lookup(m.headers, "Via")), ("From", Lookup(m.headers, "From")),
     ("Call-ID", Lookup(m.headers, "Call-ID")), ("CSeq", Lookup(m.headers, "CSeq"))]
  }

  function Trailing(m: SIPMessage, toTag: string, body: string): seq<Pair>
  {
    [("Supported", "outbound"), ("To", Lookup(m.headers, "To") + ";tag=" + toTag), ("Content-Length", Dec(|body|))]
  }

  function StatusLine(statusCode: nat, reason: string): string { "SIP/2.0 " + Dec(statusCode) + " " + reason }

  method AppendEchoed(m: SIPMessage, start: seq<string>) returns (arr: seq<string>)
    ensures arr == start + Lines(Echoed(m))
  {
    arr := start;
    var keys := ["Via", "From", "Call-ID", "CSeq"];
    var i := 0;
    while i < |keys|
      invariant i <= |keys|
      invariant arr == start + Lines(Echoed(m)[..i])
    {
      arr := arr + [keys[i] + COLON + Lookup(m.headers, keys[i])];
      LinesAppend(Echoed(m)[..i], [Echoed(m)[i]]);
      assert Echoed(m)[..i + 1] == Echoed(m)[..i] + [Echoed(m)[i]];
      assert Lines([Echoed(m)[i]]) == [LineOf(Echoed(m)[i])];
      i := i + 1;
    }
    assert Echoed(m)[..4] == Echoed(m);
  }

  /** `reason` is the text the source's table gives for the status code. */
  method Response(m: SIPMessage, toTag: string, statusCode: nat, reason: string,
                  headers: map<string, string>, body: string)
    returns (s: string, ghost order: seq<string>)
    ensures Visits(order, headers)
    ensures "SIP/2.0 " + Dec(statusCode) + " " + reason + CRLF <= s
    ensures s == Assemble(StatusLine(statusCode, reason),
                      Echoed(m) + (Pairs(order, headers) + Trailing(m, toTag, body)), body)
    ensures CleanResponse(m, toTag, statusCode, reason, headers) ==>
              Read(m, s) == Some(SIPMessage(m.verb, m.address, StatusLine(statusCode, reason),
                                            MapOf(Trailing(m, toTag, body), MapOf(Echoed(m), map[]) + headers), body))
  {
    hide Read;
    hide CleanResponse;
    hide LineOf;
    var arr := AppendEchoed(m, ["SIP/2.0 " + Dec(statusCode) + " " + reason]);
    arr, order := AppendHeaders(arr, headers);
    arr := arr + [LineOf(("Supported", "outbound")), LineOf(("To", Lookup(m.headers, "To") + ";tag=" + toTag))];
    arr := arr + [LineOf(("Content-Length", Dec(|body|)))];
    arr := arr + ["", body];
    s := Join(arr, CRLF);
    var pairs, trailing := Pairs(order, headers), Trailing(m, toTag, body);
    ThreeLines(trailing[0], trailing[1], trailing[2]);
    LinesAppend(pairs, trailing);
    LinesAppend(Echoed(m), pairs + trailing);
    assert arr == [StatusLine(statusCode, reason)] + Lines(Echoed(m) + (pairs + trailing)) + ["", body];
    StartsWithLine(StatusLine(statusCode, reason), Echoed(m) + (pairs + trailing), body);
    if CleanResponse(m, toTag, statusCode, reason, headers) {
      ResponseReadsBack(m, toTag, statusCode, reason, headers, body, order);
    }
  }

  // ----- round trips -----

  /** One header line gives its key and value back exactly when neither holds a colon and a blank. */
  lemma HeaderLineExactly(k: string, v: string)
    ensures var tokens := Split(k + COLON + v, COLON);
            |tokens| >= 2 && (tokens[0] == k && tokens[1] == v <==> !Holds(k, COLON) && !Holds(v, COLON))
  {
    hide Text.IndexFrom;
    var s := k + COLON + v;
    IndexIsFirst(s, COLON);
    assert s[|k|..|k| + 2] == COLON;
    assert OccursAt(s, COLON, |k|);
    if !Holds(k, COLON) {
      TwoCharacters(k, COLON);
      SplitHead(k, v, COLON);
      if !Holds(v, COLON) {
        TwoCharacters(v, COLON);
      } else {
        assert Split(v, COLON)[0] == v[..Index(v, COLON)];
      }
    } else {
      var i := Index(k, COLON);
      IndexIsFirst(k, COLON);
      assert s[i..i + 2] == k[i..i + 2];
      assert OccursAt(s, COLON, i);
      assert |Split(s, COLON)[0]| <= i;
    }
  }

  /** Lines without a line break inside are read back as lines. */
  lemma LineKeepsClean(p: Pair)
    requires !Holds(p.0, CRLF) && !Holds(p.1, CRLF)
    ensures !Holds(LineOf(p), CRLF)
  {
    hide Text.IndexFrom;
    var s := LineOf(p);
    forall j: nat | j < |s| ensures !OccursAt(s, CRLF, j) {
      NeverOccurs(p.0, CRLF, j);
      if j >= |p.0| + 2 {
        NeverOccurs(p.1, CRLF, j - |p.0| - 2);
      }
      if j + 2 <= |p.0| {
        assert s[j..j + 2] == p.0[j..j + 2];
      } else if j + 2 <= |s| {
        assert s[j..j + 2][0] == s[j] && s[j..j + 2][1] == s[j + 1];
        if j >= |p.0| + 2 {
          assert s[j..j + 2] == p.1[j - |p.0| - 2..j - |p.0|];
        }
      }
    }
    NotHeld(s, CRLF);
  }

  lemma {:induction false} LinesKeepClean(pairs: seq<Pair>)
    requires forall p | p in pairs :: Breakless(p)
    ensures forall l | l in Lines(pairs) :: !Holds(l, CRLF)
    decreases |pairs|
  {
    if pairs != [] {
      assert Breakless(pairs[0]);
      LineKeepsClean(pairs[0]);
      LinesKeepClean(pairs[1..]);
    }
  }

  /** A value is read up to the first colon and blank in it. */
  lemma HeaderValueIsCut(k: string, v: string)
    requires !Holds(k, COLON)
    ensures var tokens := Split(k + COLON + v, COLON); |tokens| >= 2 && tokens[0] == k && tokens[1] == v[..Index(v, COLON)]
  {
    hide Text.IndexFrom;
    TwoCharacters(k, COLON);
    SplitHead(k, v, COLON);
    assert Index(v, COLON) == |v| ==> v[..Index(v, COLON)] == v;
  }

  /** The pairs as they are read. */
  function AsRead(pairs: seq<Pair>): (cut: seq<Pair>)
    ensures |cut| == |pairs|
  {
    if pairs == [] then []
    else [(pairs[0].0, pairs[0].1[..Index(pairs[0].1, COLON)])] + AsRead(pairs[1..])
  }

  lemma {:induction false} CleanAsRead(pairs: seq<Pair>)
    requires forall p | p in pairs :: Clean(p)
    ensures AsRead(pairs) == pairs
    decreases |pairs|
  {
    if pairs != [] {
      assert Clean(pairs[0]);
      CleanAsRead(pairs[1..]);
      var v := pairs[0].1;
      assert v[..|v|] == v;
    }
  }

  lemma {:induction false} HeadersReadBack(pairs: seq<Pair>, headers: map<string, string>)
    requires forall p | p in pairs :: Breakless(p)
    ensures ReadHeaders(Lines(pairs), headers) == Some(MapOf(AsRead(pairs), headers))
    decreases |pairs|
  {
    if pairs != [] {
      var p := pairs[0];
      assert Breakless(p);
      HeaderValueIsCut(p.0, p.1);
      hide Breakless;
      assert Lines(pairs)[0] == LineOf(p) && Lines(pairs)[1..] == Lines(pairs[1..]);
      HeadersReadBack(pairs[1..], headers[p.0 := p.1[..Index(p.1, COLON)]]);
      assert AsRead(pairs)[1..] == AsRead(pairs[1..]);
    }
  }

  lemma FirstLineStarts(lines: seq<string>)
    requires lines != [] && lines[0] != "" && !Holds(lines[0], CRLF)
    ensures !OccursAt(Join(lines, CRLF) + BLANK_LINE, CRLF, 0)
  {
    var p, s := lines[0], Join(lines, CRLF) + BLANK_LINE;
    var rest := if |lines| == 1 then CRLF else Join(lines[1..], CRLF) + BLANK_LINE;
    assert s == p + CRLF + rest;
    TwoCharacters(p, CRLF);
    IndexHead(p, rest, CRLF);
    IndexIsFirst(s, CRLF);
  }

  lemma BlankIsTwoBreaks(s: string, j: nat)
    requires OccursAt(s, BLANK_LINE, j)
    ensures OccursAt(s, CRLF, j) && OccursAt(s, CRLF, j + 2) && s[j] == '\r'
  {
    assert s[j..j + 2] == BLANK_LINE[..2] && s[j + 2..j + 4] == BLANK_LINE[2..];
    assert s[j] == s[j..j + 4][0];
  }

  lemma NotInFirstLine(p: string, rest: string, j: nat)
    requires !Holds(p, CRLF) && j < |p| + 2 && j != |p|
    ensures !OccursAt(p + CRLF + rest, BLANK_LINE, j)
  {
    hide Text.Index;
    var s := p + CRLF + rest;
    TwoCharacters(p, CRLF);
    IndexHead(p, rest, CRLF);
    IndexIsFirst(s, CRLF);
    if OccursAt(s, BLANK_LINE, j) {
      BlankIsTwoBreaks(s, j);
    }
  }

  lemma NotAtFirstBreak(p: string, t: string)
    requires !OccursAt(t, CRLF, 0)
    ensures !OccursAt(p + CRLF + t, BLANK_LINE, |p|)
  {
    var s := p + CRLF + t;
    assert |t| >= 2 ==> t[0..2] == s[|p| + 2..|p| + 4];
    if OccursAt(s, BLANK_LINE, |p|) {
      BlankIsTwoBreaks(s, |p|);
    }
  }

  /** A blank line cannot occur before the end of a head whose lines, after the first, are not empty. */
  lemma {:induction false} HeadHasNoBlankLine(lines: seq<string>, j: nat)
    requires lines != [] && forall l | l in lines :: !Holds(l, CRLF)
    requires forall l | l in lines[1..] :: l != ""
    requires j < |Join(lines, CRLF)|
    ensures !OccursAt(Join(lines, CRLF) + BLANK_LINE, BLANK_LINE, j)
    decreases |lines|
  {
    hide Text.Index;
    hide Holds;
    var p, s := lines[0], Join(lines, CRLF) + BLANK_LINE;
    var tail := lines[1..];
    if tail == [] {
      assert s == p + CRLF + CRLF;
      NotInFirstLine(p, CRLF, j);
    } else {
      var t := Join(tail, CRLF) + BLANK_LINE;
      assert s == p + CRLF + t;
      assert tail[0] in tail && tail[0] in lines && forall l | l in tail[1..] :: l in tail;
      if j < |p| + 2 && j != |p| {
        NotInFirstLine(p, t, j);
      } else {
        assert t == s[|p| + 2..];
        if j == |p| {
          FirstLineStarts(tail);
          NotAtFirstBreak(p, t);
        } else {
          HeadHasNoBlankLine(tail, j - |p| - 2);
          assert j + 4 <= |s| ==> s[j..j + 4] == t[j - |p| - 2..j - |p| + 2];
        }
      }
    }
  }

  lemma {:induction false} JoinAppend(a: seq<string>, b: seq<string>, sep: string)
    requires a != [] && b != []
    ensures Join(a + b, sep) == Join(a, sep) + sep + Join(b, sep)
    decreases |a|
  {
    if |a| == 1 {
      assert (a + b)[1..] == b;
    } else {
      JoinAppend(a[1..], b, sep);
      assert (a + b)[1..] == a[1..] + b;
    }
  }

  /** Every assembled message whose header pairs break no line is read back: its start line, its headers, each value up
      to the first colon and blank in it and later ones winning, and its body, whatever the body holds. */
  lemma AssembledReadsBack(m: SIPMessage, start: string, pairs: seq<Pair>, body: string)
    requires !Holds(start, CRLF) && forall p | p in pairs :: Breakless(p)
    ensures Read(m, Assemble(start, pairs, body)) ==
            Some(SIPMessage(m.verb, m.address, start, MapOf(AsRead(pairs), map[]), body))
  {
    hide Text.Index;
    hide Breakless;
    var lines := [start] + Lines(pairs);
    LinesKeepClean(pairs);
    var head := Join(lines, CRLF);
    JoinAppend(lines, ["", body], CRLF);
    assert Join(["", body], CRLF) == "" + CRLF + body;
    assert Assemble(start, pairs, body) == head + BLANK_LINE + body;
    forall j: nat | j < |head| ensures !OccursAt(head + BLANK_LINE, BLANK_LINE, j) {
      assert lines[1..] == Lines(pairs);
      HeadHasNoBlankLine(lines, j);
    }
    assert (head + BLANK_LINE)[|head|..|head| + 4] == BLANK_LINE;
    IndexIs(head + BLANK_LINE, BLANK_LINE, |head|);
    SplitHead(head, body, BLANK_LINE);
    JoinSplit(body, BLANK_LINE);
    var parts := Split(Assemble(start, pairs, body), BLANK_LINE);
    assert parts[1..] == Split(body, BLANK_LINE);
    forall l | l in lines ensures Separable(l, CRLF) {
      TwoCharacters(l, CRLF);
    }
    SplitJoin(lines, CRLF);
    assert lines[1..] == Lines(pairs);
    HeadersReadBack(pairs, map[]);
  }

  /** Clean pairs are read as they are. */
  lemma CleanReadsBack(m: SIPMessage, start: string, pairs: seq<Pair>, body: string)
    requires !Holds(start, CRLF) && forall p | p in pairs :: Clean(p)
    ensures Read(m, Assemble(start, pairs, body)) ==
            Some(SIPMessage(m.verb, m.address, start, MapOf(pairs, map[]), body))
  {
    hide Read;
    hide Assemble;
    assert forall p | p in pairs :: Breakless(p);
    AssembledReadsBack(m, start, pairs, body);
    CleanAsRead(pairs);
  }

  lemma {:induction false} MapOfAppend(a: seq<Pair>, b: seq<Pair>, headers: map<string, string>)
    ensures MapOf(a + b, headers) == MapOf(b, MapOf(a, headers))
    decreases |a|
  {
    if a == [] {
      assert a + b == b;
    } else {
      MapOfAppend(a[1..], b, headers[a[0].0 := a[0].1]);
      assert (a + b)[1..] == a[1..] + b;
    }
  }

  /** Walking a map adds its entries over what was there, in whatever order the walk goes. */
  lemma {:induction false} WalkAdds(order: seq<string>, headers: map<string, string>, was: map<string, string>)
    requires forall k | k in order :: k in headers
    ensures var after := MapOf(Pairs(order, headers), was);
            && (forall k :: k in after <==> k in was || k in order)
            && forall k | k in after :: after[k] == if k in order then headers[k] else was[k]
    decreases |order|
  {
    if order != [] {
      WalkAdds(order[1..], headers, was[order[0] := headers[order[0]]]);
    }
  }

  lemma WholeWalk(order: seq<string>, headers: map<string, string>, was: map<string, string>)
    requires Visits(order, headers)
    ensures MapOf(Pairs(order, headers), was) == was + headers
  {
    WalkAdds(order, headers, was);
  }

  lemma {:induction false} PairsAreClean(order: seq<string>, headers: map<string, string>)
    requires forall k | k in order :: k in headers && Clean((k, headers[k]))
    ensures forall p | p in Pairs(order, headers) :: Clean(p)
    decreases |order|
  {
    if order != [] {
      PairsAreClean(order[1..], headers);
    }
  }

  ghost predicate CleanHeaders(headers: map<string, string>)
  {
    forall k | k in headers :: Clean((k, headers[k]))
  }

  lemma FreeOfCharacter(s: string, sep: string)
    requires |sep| == 2 && (sep[0] !in s || sep[1] !in s)
    ensures !Holds(s, sep)
  {
    forall j: nat | j < |s| ensures !OccursAt(s, sep, j) {
      if j + 2 <= |s| {
        assert s[j..j + 2][0] == s[j] && s[j..j + 2][1] == s[j + 1];
      }
    }
    NotHeld(s, sep);
  }

  lemma DigitsAreClean(k: string, n: nat)
    requires ':' !in k && '\r' !in k
    ensures Clean((k, Dec(n)))
  {
    FreeOfCharacter(k, COLON);
    FreeOfCharacter(k, CRLF);
    FreeOfCharacter(Dec(n), COLON);
    FreeOfCharacter(Dec(n), CRLF);
  }

  lemma MaxForwardsIsClean()
    ensures Clean(("Max-Forwards", "70"))
  {
    FreeOfCharacter("Max-Forwards", COLON);
    FreeOfCharacter("Max-Forwards", CRLF);
    FreeOfCharacter("70", COLON);
    FreeOfCharacter("70", CRLF);
  }

  /** A printed message is read back, whatever order its headers were walked in: the same body, the start line as
      subject and the same headers, except that the two added at the end replace any of the same name. */
  lemma PrintedReadsBack(m: SIPMessage, order: seq<string>)
    requires Visits(order, m.headers) && CleanHeaders(m.headers) && !Holds(StartLine(m), CRLF)
    ensures Read(m, Assemble(StartLine(m), Pairs(order, m.headers) + Closing(m.body), m.body)) ==
            Some(m.(subject := StartLine(m),
                    headers := m.headers["Content-Length" := Dec(|m.body|)]["Max-Forwards" := "70"]))
  {
    hide Clean;
    hide Read;
    hide Assemble;
    var pairs, closing := Pairs(order, m.headers), Closing(m.body);
    PairsAreClean(order, m.headers);
    DigitsAreClean("Content-Length", |m.body|);
    MaxForwardsIsClean();
    CleanReadsBack(m, StartLine(m), pairs + closing, m.body);
    MapOfAppend(pairs, closing, map[]);
    WholeWalk(order, m.headers, map[]);
    assert map[] + m.headers == m.headers;
    assert closing[1..] == [closing[1]] && closing[1..][1..] == [];
    assert MapOf(closing, m.headers) == MapOf(closing[1..], m.headers[closing[0].0 := closing[0].1]);
  }

  /** Printing the message that was read prints every header, the body and the start line once more: reading,
      printing and reading again changes nothing but the order of lines. */
  lemma SecondRoundIsSame(m: SIPMessage, order: seq<string>)
    requires CleanHeaders(m.headers) && !Holds(StartLine(m), CRLF)
    requires "Content-Length" in m.headers && m.headers["Content-Length"] == Dec(|m.body|)
    requires "Max-Forwards" in m.headers && m.headers["Max-Forwards"] == "70"
    requires m.subject == StartLine(m) && Visits(order, m.headers)
    ensures Read(m, Assemble(StartLine(m), Pairs(order, m.headers) + Closing(m.body), m.body)) == Some(m)
  {
    hide Read;
    hide Assemble;
    PrintedReadsBack(m, order);
    AlreadyThere(m.headers, "Content-Length", Dec(|m.body|), "Max-Forwards", "70");
  }

  lemma AlreadyThere(headers: map<string, string>, k: string, v: string, j: string, w: string)
    requires k in headers && headers[k] == v && j in headers && headers[j] == w
    ensures headers[k := v][j := w] == headers
  {
  }

  /** Nothing in a response breaks its lines: its status line, the echoed headers, the tagged `To` and the caller's. */
  ghost predicate CleanResponse(m: SIPMessage, toTag: string, statusCode: nat, reason: string, headers: map<string, string>)
  {
    && CleanHeaders(headers) && !Holds(StatusLine(statusCode, reason), CRLF)
    && (forall p | p in Echoed(m) :: Clean(p))
    && Clean(("To", Lookup(m.headers, "To") + ";tag=" + toTag))
  }

  /** A response is read back with the request's four routing headers under the caller's own, and with the tagged
      `To`, `Supported` and the length of its body over them. */
  lemma ResponseReadsBack(m: SIPMessage, toTag: string, statusCode: nat, reason: string,
                          headers: map<string, string>, body: string, order: seq<string>)
    requires Visits(order, headers) && CleanResponse(m, toTag, statusCode, reason, headers)
    ensures Read(m, Assemble(StatusLine(statusCode, reason),
                             Echoed(m) + (Pairs(order, headers) + Trailing(m, toTag, body)), body)) ==
            Some(SIPMessage(m.verb, m.address, StatusLine(statusCode, reason),
                            MapOf(Trailing(m, toTag, body), MapOf(Echoed(m), map[]) + headers), body))
  {
    hide Clean;
    hide Read;
    hide Assemble;
    var pairs, trailing := Pairs(order, headers), Trailing(m, toTag, body);
    PairsAreClean(order, headers);
    DigitsAreClean("Content-Length", |body|);
    assert Clean(("Supported", "outbound")) by {
      SupportedIsClean();
    }
    CleanReadsBack(m, StatusLine(statusCode, reason), Echoed(m) + (pairs + trailing), body);
    MapOfAppend(Echoed(m), pairs + trailing, map[]);
    MapOfAppend(pairs, trailing, MapOf(Echoed(m), map[]));
    WholeWalk(order, headers, MapOf(Echoed(m), map[]));
  }

  /** The headers of a response by name: each of the four that route it as in the request, and empty where the request
      lacks it, unless the caller gives one of that name; the tagged `To`, `Supported` and the length, whatever the caller
      gives; and the caller's own. */
  lemma ResponseHeaders(m: SIPMessage, toTag: string, headers: map<string, string>, body: string)
    ensures var read := MapOf(Trailing(m, toTag, body), MapOf(Echoed(m), map[]) + headers);
            && read.Keys == {"Via", "From", "Call-ID", "CSeq", "Supported", "To", "Content-Length"} + headers.Keys
            && (forall k | k in {"Via", "From", "Call-ID", "CSeq"} && k !in headers ::
                  read[k] == if k in m.headers then m.headers[k] else "")
            && read["To"] == (if "To" in m.headers then m.headers["To"] else "") + ";tag=" + toTag
            && read["Supported"] == "outbound" && read["Content-Length"] == Dec(|body|)
            && (forall k | k in headers && k !in {"Supported", "To", "Content-Length"} :: read[k] == headers[k])
  {
    NamesApart();
    var e, t := Echoed(m), Trailing(m, toTag, body);
    FourEntries(e[0], e[1], e[2], e[3], map[]);
    ThreeEntries(t[0], t[1], t[2], MapOf(e, map[]) + headers);
    hide MapOf;
    Layers(e[0], e[1], e[2], e[3], headers, t[0], t[1], t[2]);
  }

  /** Entries, a map over them, and entries over both. */
  lemma Layers(a: Pair, b: Pair, c: Pair, d: Pair, headers: map<string, string>, x: Pair, y: Pair, z: Pair)
    requires a.0 !in {b.0, c.0, d.0, x.0, y.0, z.0} && b.0 !in {c.0, d.0, x.0, y.0, z.0}
    requires c.0 !in {d.0, x.0, y.0, z.0} && d.0 !in {x.0, y.0, z.0} && x.0 !in {y.0, z.0} && y.0 != z.0
    ensures var all := (map[][a.0 := a.1][b.0 := b.1][c.0 := c.1][d.0 := d.1] + headers)[x.0 := x.1][y.0 := y.1][z.0 := z.1];
            && all.Keys == {a.0, b.0, c.0, d.0, x.0, y.0, z.0} + headers.Keys
            && all[x.0] == x.1 && all[y.0] == y.1 && all[z.0] == z.1
            && (a.0 !in headers ==> all[a.0] == a.1) && (b.0 !in headers ==> all[b.0] == b.1)
            && (c.0 !in headers ==> all[c.0] == c.1) && (d.0 !in headers ==> all[d.0] == d.1)
            && (forall k | k in headers && k !in {x.0, y.0, z.0} :: all[k] == headers[k])
  {
  }

  lemma NamesApart()
    ensures "Via" !in {"From", "Call-ID", "CSeq", "Supported", "To", "Content-Length"}
    ensures "From" !in {"Call-ID", "CSeq", "Supported", "To", "Content-Length"}
    ensures "Call-ID" !in {"CSeq", "Supported", "To", "Content-Length"} && "CSeq" !in {"Supported", "To", "Content-Length"}
    ensures "Supported" !in {"To", "Content-Length"} && "To" != "Content-Length"
  {
    assert "Via"[0] == 'V' && "From"[0] == 'F' && "Supported"[0] == 'S' && "To"[0] == 'T';
    assert "Call-ID"[0] == 'C' && "CSeq"[0] == 'C' && "Content-Length"[0] == 'C';
    assert "Call-ID"[1] == 'a' && "CSeq"[1] == 'S' && "Content-Length"[1] == 'o';
  }

  lemma ThreeEntries(p: Pair, q: Pair, r: Pair, was: map<string, string>)
    ensures MapOf([p, q, r], was) == was[p.0 := p.1][q.0 := q.1][r.0 := r.1]
  {
    assert [p, q, r][1..] == [q, r] && [q, r][1..] == [r] && [r][1..] == [];
    assert MapOf([r], was[p.0 := p.1][q.0 := q.1]) == was[p.0 := p.1][q.0 := q.1][r.0 := r.1];
  }

  lemma FourEntries(p: Pair, q: Pair, r: Pair, t: Pair, was: map<string, string>)
    ensures MapOf([p, q, r, t], was) == was[p.0 := p.1][q.0 := q.1][r.0 := r.1][t.0 := t.1]
  {
    assert [p, q, r, t][1..] == [q, r, t];
    ThreeEntries(q, r, t, was[p.0 := p.1]);
  }

  lemma SupportedIsClean()
    ensures Clean(("Supported", "outbound"))
  {
    FreeOfCharacter("Supported", COLON);
    FreeOfCharacter("Supported", CRLF);
    FreeOfCharacter("outbound", COLON);
    FreeOfCharacter("outbound", CRLF);
  }

  /** Some header line, one behind the first line of the head, has no colon and blank. */
  ghost predicate LineWithoutColon(lines: seq<string>)
  {
    exists i :: 0 <= i < |lines| && !Holds(lines[i], COLON)
  }

  lemma TwoTokens(line: string)
    ensures |Split(line, COLON)| >= 2 <==> Holds(line, COLON)
  {
  }

  /** The header loop indexes out of range if and only if a line has no colon and blank. */
  lemma {:induction false} LineWithoutColonPanics(lines: seq<string>, headers: map<string, string>)
    ensures ReadHeaders(lines, headers) == None <==> LineWithoutColon(lines)
    decreases |lines|
  {
    hide Holds;
    if lines != [] {
      TwoTokens(lines[0]);
      var tokens := Split(lines[0], COLON);
      if Holds(lines[0], COLON) {
        LineWithoutColonPanics(lines[1..], headers[tokens[0] := tokens[1]]);
        if LineWithoutColon(lines) {
          var i :| 0 <= i < |lines| && !Holds(lines[i], COLON);
          assert lines[1..][i - 1] == lines[i];
        }
      }
    }
  }

  /** The lines of a text's head behind its first one. */
  function HeadLines(s: string): seq<string>
  {
    Split(Split(s, BLANK_LINE)[0], CRLF)[1..]
  }

  /** So the parser panics on exactly the texts whose head has such a line. */
  lemma ReadPanicsExactly(m: SIPMessage, s: string)
    ensures Read(m, s) == None <==> LineWithoutColon(HeadLines(s))
  {
    LineWithoutColonPanics(HeadLines(s), map[]);
  }
}
