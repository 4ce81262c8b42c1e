/**
 The incremental parser of HTTP responses: ParserBase::input_data with the three handlers of HttpResponseParser,
 and the in-memory body they fill.  Data arrives in packets, cut anywhere; the start line and the heads are
 consumed byte by byte, the body in blocks.
 */
module ResponseParser {
  import opened Bytes
  import opened Split
  import BitStrings

  const CR: byte := 13
  const LF: byte := 10
  const SPACE: seq<byte> := [32]
  const HEAD_SPLIT: seq<byte> := [58, 32]

  /** Up to this size the body is kept in memory. */
  const MAX_RAW: int := 1024 * 1024 * 10
  const TWO_TO_THE_64: int := 0x1_0000_0000_0000_0000

  datatype Head = Head(key: seq<byte>, value: seq<byte>)

  datatype Message = Message(version: seq<byte>, statusCode: seq<byte>, reason: seq<byte>, heads: seq<Head>)

  /** "HTTP/1.1", "200" and "OK", as ResponseLineImpl starts out. */
  const BLANK: Message := Message([72, 84, 84, 80, 47, 49, 46, 49], [50, 48, 48], [79, 75], [])

  /**
   What the parser asks of its surroundings: the value of the Content-Length head, 0 if there is none, and whether
   a file of a given size can be created to hold a body.
   */
  datatype Environment = Environment(length: seq<Head> -> int, canCreate: int -> bool)

  datatype Status = StartLine | HeadLines | Body

  datatype Error = Ok | BadStartLine | BadHeadKey | StructMessageFail

  datatype Event =
    | HeadReceived(message: Message)
    | ResponseReceived(message: Message, body: seq<byte>)
    | ErrorEvent

  /** parser_status_, parser_cache1_, the message being built, and its body with the body's maximum_capacity_. */
  datatype ParserState = ParserState(status: Status, cache: seq<byte>, message: Message, body: seq<byte>, capacity: nat)

  const RESET: ParserState := ParserState(StartLine, [], BLANK, [], 0)

  datatype Outcome = Outcome(state: ParserState, events: seq<Event>, error: Error)

  /** The capacity of the body for a declared length: the signed 64-bit length, read as unsigned. */
  function Capacity(declared: int): nat {
    if declared < 0 then (declared % TWO_TO_THE_64) else declared
  }

  /** A body of the declared length can be made: in memory up to 10 MB, in a file beyond that. */
  predicate CanHold(declared: int, env: Environment) {
    declared <= MAX_RAW || env.canCreate(declared)
  }

  // ---------- What one byte does ----------

  function StartLineByte(s: ParserState, b: byte): Outcome {
    if b == CR then Outcome(s, [], Ok)
    else if b != LF then Outcome(s.(cache := s.cache + [b]), [], Ok)
    else
      var d := Parts(s.cache, SPACE);
      if |d| < 3 then Outcome(s, [], BadStartLine)
      else Outcome(s.(message := s.message.(version := d[0], statusCode := d[1], reason := d[2]),
                      cache := [], status := HeadLines), [], Ok)
  }

  function EndOfHeads(s: ParserState, env: Environment): Outcome {
    var declared := env.length(s.message.heads);
    if !CanHold(declared, env) then Outcome(s, [HeadReceived(s.message), ErrorEvent], StructMessageFail)
    else if Capacity(declared) == 0 then
      Outcome(RESET, [HeadReceived(s.message), ResponseReceived(s.message, [])], Ok)
    else Outcome(s.(status := Body, body := [], capacity := Capacity(declared)), [HeadReceived(s.message)], Ok)
  }

  function HeadByte(s: ParserState, b: byte, env: Environment): Outcome {
    if b == CR then Outcome(s, [], Ok)
    else if b != LF then Outcome(s.(cache := s.cache + [b]), [], Ok)
    else if s.cache == [] then EndOfHeads(s, env)
    else
      var d := Parts(s.cache, HEAD_SPLIT);
      if |d| < 2 then Outcome(s, [], BadHeadKey)
      else Outcome(s.(message := s.message.(heads := s.message.heads + [Head(d[0], d[1])]), cache := []), [], Ok)
  }

  function BodyByte(s: ParserState, b: byte): Outcome {
    var body := s.body + [b];
    if |body| == s.capacity then Outcome(RESET, [ResponseReceived(s.message, body)], Ok)
    else Outcome(s.(body := body), [], Ok)
  }

  function OneByte(s: ParserState, b: byte, env: Environment): Outcome {
    match s.status
    case StartLine => StartLineByte(s, b)
    case HeadLines => HeadByte(s, b, env)
    case Body => BodyByte(s, b)
  }

  /** A body that is being filled is not full. */
  predicate Valid(s: ParserState) {
    s.status.Body? ==> |s.body| < s.capacity
  }

  /** One packet, byte by byte; an error abandons the rest of the packet. */
  function Feed(s: ParserState, data: seq<byte>, env: Environment): Outcome
    decreases |data|
  {
    if data == [] then Outcome(s, [], Ok)
    else
      var o := OneByte(s, data[0], env);
      if o.error != Ok then o else Then(o, Feed(o.state, data[1..], env))
  }

  function Then(first: Outcome, second: Outcome): Outcome {
    Outcome(second.state, first.events + second.events, second.error)
  }

  /** `rest` is fed after `o`, unless that was an error. */
  function Onwards(o: Outcome, rest: seq<byte>, env: Environment): Outcome {
    if o.error != Ok then o else Then(o, Feed(o.state, rest, env))
  }

  // ---------- The parser ----------

  /** The parser object; `events` is what its event callback has been told. */
  class HttpResponseParser {
    const env: Environment
    var status: Status
    var cache: seq<byte>
    var message: Message
    var body: seq<byte>
    var capacity: nat
    var events: seq<Event>

    ghost function State(): ParserState
      reads this
    {
      ParserState(status, cache, message, body, capacity)
    }

    constructor (env: Environment)
      ensures this.env == env && State() == RESET && events == []
    {
      this.env := env;
      status, cache, message, body, capacity, events := StartLine, [], BLANK, [], 0, [];
    }

    method Reset()
      modifies this
      ensures State() == RESET && events == old(events)
    {
      status, cache, message, body, capacity := StartLine, [], BLANK, [], 0;
    }

    method Push()
      modifies this
      ensures State() == RESET && events == old(events) + [ResponseReceived(old(message), old(body))]
    {
      events := events + [ResponseReceived(message, body)];
      Reset();
    }

    method OnStartLine(ch: byte) returns (err: Error)
      modifies this
      ensures Outcome(State(), events, err)
              == Then(Outcome(State(), old(events), Ok), StartLineByte(old(State()), ch))
    {
      if ch == CR {
        return Ok;
      } else if ch == LF {
        var d := SplitString(cache, SPACE);
        if |d| < 3 {
          return BadStartLine;
        }
        message := message.(version := d[0], statusCode := d[1], reason := d[2]);
        cache, status := [], HeadLines;
      } else {
        cache := cache + [ch];
      }
      err := Ok;
    }

    method OnHead(ch: byte) returns (err: Error)
      requires status.HeadLines?
      modifies this
      ensures Outcome(State(), events, err)
              == Then(Outcome(State(), old(events), Ok), HeadByte(old(State()), ch, env))
    {
      if ch == CR {
        return Ok;
      } else if ch == LF {
        if cache == [] {
          events := events + [HeadReceived(message)];
          var size := env.length(message.heads);
          if !CanHold(size, env) {
            events := events + [ErrorEvent];
            return StructMessageFail;
          }
          if Capacity(size) == 0 {
            body := [];
            Push();
            return Ok;
          }
          body, capacity, status := [], Capacity(size), Body;
          return Ok;
        }
        var d := SplitString(cache, HEAD_SPLIT);
        if |d| < 2 {
          return BadHeadKey;
        }
        message := message.(heads := message.heads + [Head(d[0], d[1])]);
        cache := [];
      } else {
        cache := cache + [ch];
      }
      err := Ok;
    }

    /** RawBodyImpl::write_body: as much of the block as the body has room for. */
    method WriteBody(block: seq<byte>) returns (written: nat)
      requires |body| < capacity
      modifies this`body
      ensures written == (if |old(body)| + |block| >= capacity then capacity - |old(body)| else |block|)
      ensures written <= |block| && body == old(body) + block[..written]
    {
      written := |block|;
      if |body| + |block| >= capacity {
        written := capacity - |body|;
      }
      body := body + block[..written];
    }

    method OnBody(block: seq<byte>) returns (consumed: nat)
      requires status.Body? && |body| < capacity && block != []
      modifies this
      ensures 0 < consumed <= |block| && Valid(State())
      ensures Outcome(State(), events, Ok)
              == Then(Outcome(State(), old(events), Ok), Feed(old(State()), block[..consumed], env))
    {
      ghost var before := State();
      consumed := WriteBody(block);
      FeedBody(before, block[..consumed], env);
      if capacity == |body| {
        Push();
      }
    }

    /** A packet arrives.  The bytes go to the handler for the current status until they are used up. */
    method InputData(data: seq<byte>) returns (err: Error)
      requires Valid(State())
      modifies this
      ensures Valid(State())
      ensures Outcome(State(), events, err)
              == Then(Outcome(old(State()), old(events), Ok), Feed(old(State()), data, env))
    {
      hide Feed, OneByte;
      var start := 0;
      ghost var all := Then(Outcome(State(), events, Ok), Feed(State(), data, env));
      assert data[0..] == data;
      while start < |data|
        invariant 0 <= start <= |data| && Valid(State())
        invariant all == Then(Outcome(State(), events, Ok), Feed(State(), data[start..], env))
        decreases |data| - start
      {
        ghost var before := Outcome(State(), events, Ok);
        var consumed := 1;
        err := Ok;
        FeedFirst(State(), data, start, env);
        match status {
          case StartLine => err := OnStartLine(data[start]);
          case HeadLines => err := OnHead(data[start]);
          case Body => consumed := OnBody(data[start..]);
        }
        FeedPart(before, data, start, consumed, env);
        if err != Ok {
          return;
        }
        start := start + consumed;
      }
      FeedNothing(State(), data, start, env);
      assert events + [] == events;
      err := Ok;
    }
  }

  lemma FeedNothing(s: ParserState, data: seq<byte>, start: nat, env: Environment)
    requires start == |data|
    ensures Feed(s, data[start..], env) == Outcome(s, [], Ok)
  {
  }

  lemma FeedFirst(s: ParserState, data: seq<byte>, start: nat, env: Environment)
    requires start < |data|
    ensures Feed(s, data[start..][..1], env) == match s.status
                                                   case StartLine => StartLineByte(s, data[start])
                                                   case HeadLines => HeadByte(s, data[start], env)
                                                   case Body => BodyByte(s, data[start])
  {
    FeedOne(s, data[start], env);
    assert data[start..][..1] == [data[start]];
  }

  /** The handlers take the packet up piece by piece. */
  lemma FeedPart(before: Outcome, data: seq<byte>, start: nat, n: nat, env: Environment)
    requires start + n <= |data| && before.error == Ok
    ensures var o := Feed(before.state, data[start..][..n], env);
            Then(before, Feed(before.state, data[start..], env))
            == if o.error != Ok then Then(before, o)
               else Then(Then(before, o), Feed(o.state, data[start + n..], env))
  {
    hide Feed;
    FeedSplit(before.state, data[start..], n, env);
    assert data[start..][n..] == data[start + n..];
    var o := Feed(before.state, data[start..][..n], env);
    var p := Feed(o.state, data[start + n..], env);
    assert before.events + (o.events + p.events) == before.events + o.events + p.events;
  }

  lemma {:induction false} FeedBody(s: ParserState, block: seq<byte>, env: Environment)
    requires s.status.Body? && |s.body| < s.capacity && |s.body| + |block| <= s.capacity
    ensures Feed(s, block, env) ==
            if |s.body| + |block| == s.capacity then Outcome(RESET, [ResponseReceived(s.message, s.body + block)], Ok)
            else Outcome(s.(body := s.body + block), [], Ok)
    decreases |block|
  {
    if block == [] {
      assert s.body + block == s.body;
    } else {
      var t := s.(body := s.body + [block[0]]);
      assert s.body + block == t.body + block[1..];
      if |t.body| < s.capacity {
        FeedBody(t, block[1..], env);
      } else {
        assert block[1..] == [] && t.body + [] == t.body;
      }
    }
  }

  lemma FeedOne(s: ParserState, b: byte, env: Environment)
    ensures Feed(s, [b], env) == OneByte(s, b, env)
  {
    var o := OneByte(s, b, env);
    assert [b][1..] == [] && o.events + [] == o.events;
  }

  lemma FeedSplit(s: ParserState, data: seq<byte>, n: nat, env: Environment)
    requires n <= |data|
    ensures var o := Feed(s, data[..n], env);
            Feed(s, data, env) == Onwards(o, data[n..], env)
  {
    FeedConcat(s, data[..n], data[n..], env);
    assert data[..n] + data[n..] == data;
  }

  // ---------- Packets ----------

  /** Feeding two packets is feeding their concatenation, up to the first error. */
  lemma {:induction false} FeedConcat(s: ParserState, a: seq<byte>, b: seq<byte>, env: Environment)
    ensures var o := Feed(s, a, env);
            Feed(s, a + b, env) == Onwards(o, b, env)
    decreases |a|
  {
    if a == [] {
      assert a + b == b;
      var o := Feed(s, b, env);
      assert [] + o.events == o.events;
    } else {
      var o := OneByte(s, a[0], env);
      assert (a + b)[1..] == a[1..] + b;
      if o.error == Ok {
        FeedConcat(o.state, a[1..], b, env);
        var p := Feed(o.state, a[1..], env);
        var q := Feed(p.state, b, env);
        assert o.events + (p.events + q.events) == (o.events + p.events) + q.events;
      }
    }
  }

  function Concat(packets: seq<seq<byte>>): seq<byte> {
    if packets == [] then [] else packets[0] + Concat(packets[1..])
  }

  /** One packet after the other, up to the first error. */
  function FeedAll(s: ParserState, packets: seq<seq<byte>>, env: Environment): Outcome
    decreases |packets|
  {
    if packets == [] then Outcome(s, [], Ok)
    else
      var o := Feed(s, packets[0], env);
      if o.error != Ok then o else Then(o, FeedAll(o.state, packets[1..], env))
  }

  lemma {:induction false} FeedAllIsFeed(s: ParserState, packets: seq<seq<byte>>, env: Environment)
    ensures FeedAll(s, packets, env) == Feed(s, Concat(packets), env)
    decreases |packets|
  {
    if packets != [] {
      FeedConcat(s, packets[0], Concat(packets[1..]), env);
      var o := Feed(s, packets[0], env);
      if o.error == Ok {
        FeedAllIsFeed(o.state, packets[1..], env);
      }
    }
  }

  /** However the same bytes are cut into packets, the parser reports the same events and ends in the same state. */
  lemma {:induction false} PacketIndependence(s: ParserState, p: seq<seq<byte>>, q: seq<seq<byte>>, env: Environment)
    requires Concat(p) == Concat(q)
    ensures FeedAll(s, p, env) == FeedAll(s, q, env)
  {
    FeedAllIsFeed(s, p, env);
    FeedAllIsFeed(s, q, env);
  }

  // ---------- Framing ----------

  /** The heads of `m` declare a body of length `n`, and such a body can be made. */
  predicate Declares(m: Message, n: nat, env: Environment) {
    CanHold(env.length(m.heads), env) && Capacity(env.length(m.heads)) == n
  }

  /** Every reported response has a body of exactly the length its heads declare. */
  ghost predicate Framed(events: seq<Event>, env: Environment) {
    forall i :: 0 <= i < |events| && events[i].ResponseReceived? ==>
      Declares(events[i].message, |events[i].body|, env)
  }

  predicate BodyFits(s: ParserState, env: Environment) {
    s.status.Body? ==> |s.body| < s.capacity && Declares(s.message, s.capacity, env)
  }

  lemma {:induction false} ResponsesAreFramed(s: ParserState, data: seq<byte>, env: Environment)
    requires BodyFits(s, env)
    ensures Framed(Feed(s, data, env).events, env) && BodyFits(Feed(s, data, env).state, env)
    decreases |data|
  {
    if data != [] {
      var o := OneByte(s, data[0], env);
      if o.error == Ok {
        ResponsesAreFramed(o.state, data[1..], env);
      }
    }
  }

  // ---------- Serializing and parsing ----------

  const CRLF: seq<byte> := [CR, LF]

  /** ResponseLineImpl::string() */
  function LineText(m: Message): seq<byte> {
    m.version + SPACE + m.statusCode + SPACE + m.reason
  }

  function HeadText(h: Head): seq<byte> {
    h.key + HEAD_SPLIT + h.value
  }

  /** HeadImpl::string() */
  function HeadsText(heads: seq<Head>): seq<byte> {
    if heads == [] then [] else HeadText(heads[0]) + CRLF + HeadsText(heads[1..])
  }

  /** What the session sends for a response. */
  function Serialize(m: Message, body: seq<byte>): seq<byte> {
    LineText(m) + CRLF + (HeadsText(m.heads) + CRLF + body)
  }

  /** The text has no LF, which ends a line, in it. */
  predicate OneLine(text: seq<byte>) {
    LF !in text
  }

  predicate OneLiners(m: Message) {
    OneLine(LineText(m)) && forall i :: 0 <= i < |m.heads| ==> OneLine(HeadText(m.heads[i]))
  }

  /** Outside bodies the parser skips every CR. */
  function NoCr(text: seq<byte>): seq<byte> {
    if text == [] then [] else (if text[0] == CR then [] else [text[0]]) + NoCr(text[1..])
  }

  function BareHead(h: Head): Head {
    Head(NoCr(h.key), NoCr(h.value))
  }

  function BareLine(m: Message): Message {
    Message(NoCr(m.version), NoCr(m.statusCode), NoCr(m.reason), m.heads)
  }

  /** The parser keeps the first two parts of a head line, and the first three of a start line. */
  function RereadHead(h: Head): Head {
    var d := Parts(HeadText(BareHead(h)), HEAD_SPLIT);
    if |d| < 2 then h else Head(d[0], d[1])
  }

  function RereadHeads(heads: seq<Head>): seq<Head> {
    seq(|heads|, i requires 0 <= i < |heads| => RereadHead(heads[i]))
  }

  function Reread(m: Message): Message {
    var d := Parts(LineText(BareLine(m)), SPACE);
    if |d| < 3 then m else Message(d[0], d[1], d[2], RereadHeads(m.heads))
  }

  lemma NoCrUnfold(text: seq<byte>)
    requires text != []
    ensures NoCr(text) == (if text[0] == CR then [] else [text[0]]) + NoCr(text[1..])
  {
  }

  lemma FirstOfConcat(a: seq<byte>, b: seq<byte>)
    requires a != []
    ensures (a + b)[0] == a[0] && (a + b)[1..] == a[1..] + b
  {
  }

  lemma {:induction false} NoCrConcat(a: seq<byte>, b: seq<byte>)
    ensures NoCr(a + b) == NoCr(a) + NoCr(b)
  {
    if a == [] {
      assert a + b == b;
    } else {
      NoCrUnfold(a);
      NoCrUnfold(a + b);
      hide NoCr;
      NoCrConcat(a[1..], b);
      FirstOfConcat(a, b);
      BitStrings.ConcatIsAssociative(if a[0] == CR then [] else [a[0]], NoCr(a[1..]), NoCr(b));
    }
  }

  lemma {:induction false} NoCrIsFree(text: seq<byte>)
    ensures CR !in NoCr(text) && (NoCr(text) == text <==> CR !in text)
  {
    if text != [] {
      NoCrIsFree(text[1..]);
      assert text == [text[0]] + text[1..];
    }
  }

  lemma {:induction false} PlainNoCr(text: seq<byte>)
    requires CR !in text
    ensures NoCr(text) == text
  {
    NoCrIsFree(text);
  }

  lemma NoCrOfHead(h: Head)
    ensures NoCr(HeadText(h)) == HeadText(BareHead(h))
  {
    PlainNoCr(HEAD_SPLIT);
    NoCrConcat(h.key, HEAD_SPLIT);
    NoCrConcat(h.key + HEAD_SPLIT, h.value);
  }

  lemma NoCrOfLine(m: Message)
    ensures NoCr(LineText(m)) == LineText(BareLine(m))
  {
    PlainNoCr(SPACE);
    NoCrConcat(m.version, SPACE);
    NoCrConcat(m.version + SPACE, m.statusCode);
    NoCrConcat(m.version + SPACE + m.statusCode, SPACE);
    NoCrConcat(m.version + SPACE + m.statusCode + SPACE, m.reason);
  }

  lemma TextByte(s: ParserState, b: byte, env: Environment)
    requires !s.status.Body? && b != LF
    ensures OneByte(s, b, env) == Outcome(s.(cache := s.cache + NoCr([b])), [], Ok)
  {
    assert [b][1..] == [];
  }

  lemma {:induction false} FeedText(s: ParserState, text: seq<byte>, env: Environment)
    requires !s.status.Body? && OneLine(text)
    ensures Feed(s, text, env) == Outcome(s.(cache := s.cache + NoCr(text)), [], Ok)
    decreases |text|
  {
    hide OneLine;
    if text == [] {
      assert s.cache + NoCr(text) == s.cache;
    } else {
      hide OneByte, NoCr;
      TextTail(text, s.cache);
      TextByte(s, text[0], env);
      FeedText(s.(cache := s.cache + NoCr([text[0]])), text[1..], env);
    }
  }

  lemma TextTail(text: seq<byte>, cache: seq<byte>)
    requires OneLine(text) && text != []
    ensures text[0] != LF && OneLine(text[1..])
    ensures cache + NoCr([text[0]]) + NoCr(text[1..]) == cache + NoCr(text)
  {
    NoCrConcat([text[0]], text[1..]);
    assert text == [text[0]] + text[1..];
  }

  /** A whole line, from an empty cache. */
  lemma FeedLine(s: ParserState, text: seq<byte>, rest: seq<byte>, env: Environment)
    requires !s.status.Body? && s.cache == [] && OneLine(text)
    ensures Feed(s, text + CRLF + rest, env) == Onwards(OneByte(s.(cache := NoCr(text)), LF, env), rest, env)
  {
    hide OneByte, NoCr;
    var t := s.(cache := NoCr(text));
    assert text + CRLF + rest == (text + [CR]) + ([LF] + rest) && [] + NoCr(text) == NoCr(text);
    NoCrAtEnd(text);
    FeedConcat(s, text + [CR], [LF] + rest, env);
    FeedText(s, text + [CR], env);
    FeedConcat(t, [LF], rest, env);
    FeedOne(t, LF, env);
    var p := Onwards(OneByte(t, LF, env), rest, env);
    assert [] + p.events == p.events;
  }

  lemma NoCrAtEnd(text: seq<byte>)
    ensures NoCr(text + [CR]) == NoCr(text) && (OneLine(text) ==> OneLine(text + [CR]))
  {
    NoCrConcat(text, [CR]);
    assert [CR][1..] == [] && NoCr([CR]) == [];
  }

  /** A start line has at least three parts. */
  lemma LineHasThreeParts(m: Message)
    ensures |Parts(LineText(m), SPACE)| >= 3
  {
    var s := LineText(m);
    PartsCount(s, 32, 0);
    assert s[0..] == s;
    assert multiset(s)
        == multiset(m.version) + multiset(SPACE) + multiset(m.statusCode) + multiset(SPACE) + multiset(m.reason);
    assert multiset(SPACE)[32] == 1;
  }

  /** Splitting at a character gives one part more than the character occurs. */
  lemma {:induction false} PartsCount(s: seq<byte>, c: byte, from: nat)
    requires from <= |s|
    ensures |PartsFrom(s, [c], from)| == 1 + multiset(s[from..])[c]
    decreases |s| - from
  {
    hide Find, OccursAt;
    var p := Find(s, [c], from);
    FirstFound(s, c, from);
    if p <= |s| {
      PartsCount(s, c, p + 1);
      CountAfterFirst(s, c, from, p);
    }
  }

  lemma CountAfterFirst(s: seq<byte>, c: byte, from: nat, p: nat)
    requires from <= p < |s| && s[p..p + 1] == [c] && c !in s[from..p]
    ensures multiset(s[from..])[c] == 1 + multiset(s[p + 1..])[c]
  {
    Cut(s, from, p, p + 1);
    assert multiset(s[from..]) == multiset(s[from..p]) + multiset([c]) + multiset(s[p + 1..]);
  }

  lemma FirstFound(s: seq<byte>, c: byte, from: nat)
    requires from <= |s|
    ensures var p := Find(s, [c], from);
            if p <= |s| then from <= p < |s| && s[p..p + 1] == [c] && c !in s[from..p] else c !in s[from..]
  {
    hide OccursAt;
    forall i: nat ensures OccursAt(s, [c], i) <==> i < |s| && s[i] == c {
      OneElement(s, c, i);
    }
  }

  lemma OneElement(s: seq<byte>, c: byte, i: nat)
    ensures OccursAt(s, [c], i) <==> i < |s| && s[i] == c
  {
    if i < |s| {
      assert s[i..i + 1] == [s[i]];
    }
  }

  lemma HeadHasTwoParts(h: Head)
    ensures |Parts(HeadText(h), HEAD_SPLIT)| >= 2
  {
    assert OccursAt(HeadText(h), HEAD_SPLIT, |h.key|);
  }

  lemma HeadLine(s: ParserState, h: Head, env: Environment)
    requires s.status.HeadLines? && s.cache == []
    ensures OneByte(s.(cache := NoCr(HeadText(h))), LF, env)
            == Outcome(s.(message := s.message.(heads := s.message.heads + [RereadHead(h)])), [], Ok)
  {
    NoCrOfHead(h);
    HeadHasTwoParts(BareHead(h));
    assert HeadText(BareHead(h)) != [];
  }

  /** The head lines and the empty line after them. */
  lemma {:induction false} FeedHeads(s: ParserState, heads: seq<Head>, rest: seq<byte>, env: Environment)
    requires s.status.HeadLines? && s.cache == []
    requires forall i :: 0 <= i < |heads| ==> OneLine(HeadText(heads[i]))
    ensures var all := s.message.heads + RereadHeads(heads);
            Feed(s, HeadsText(heads) + CRLF + rest, env)
            == Onwards(EndOfHeads(s.(message := s.message.(heads := all)), env), rest, env)
    decreases |heads|
  {
    hide Feed, HeadText, RereadHead;
    if heads == [] {
      assert HeadsText(heads) + CRLF + rest == [] + CRLF + rest;
      assert s.message.heads + RereadHeads(heads) == s.message.heads;
      assert s.(cache := []) == s;
      FeedLine(s, [], rest, env);
    } else {
      var h, m := heads[0], s.message;
      var t := s.(message := m.(heads := m.heads + [RereadHead(h)]));
      assert HeadsText(heads) + CRLF + rest == HeadText(h) + CRLF + (HeadsText(heads[1..]) + CRLF + rest);
      HeadLine(s, h, env);
      FeedLine(s, HeadText(h), HeadsText(heads[1..]) + CRLF + rest, env);
      assert m.heads + [RereadHead(h)] + RereadHeads(heads[1..]) == m.heads + RereadHeads(heads);
      FeedHeads(t, heads[1..], rest, env);
    }
  }

  /** The parser's state when the start line and the heads of `m` have been read. */
  function HeadsRead(m: Message): ParserState {
    RESET.(message := Reread(m), status := HeadLines)
  }

  /** A serialized message, followed by anything. */
  lemma {:induction false} FeedMessage(m: Message, rest: seq<byte>, env: Environment)
    requires OneLiners(m)
    ensures Feed(RESET, Serialize(m, rest), env)
            == Onwards(EndOfHeads(HeadsRead(m), env), rest, env)
  {
    NoCrOfLine(m);
    LineHasThreeParts(BareLine(m));
    FeedLine(RESET, LineText(m), HeadsText(m.heads) + CRLF + rest, env);
    var d := Parts(LineText(BareLine(m)), SPACE);
    var t := RESET.(message := Message(d[0], d[1], d[2], []), status := HeadLines);
    assert [] + RereadHeads(m.heads) == RereadHeads(m.heads);
    FeedHeads(t, m.heads, rest, env);
    assert t.(message := t.message.(heads := RereadHeads(m.heads))) == HeadsRead(m);
    var o := Onwards(EndOfHeads(HeadsRead(m), env), rest, env);
    assert [] + o.events == o.events;
  }

  /** `o` is that `m` and `body` were reported, once, and that the parser is ready for the next response. */
  predicate Delivered(o: Outcome, m: Message, body: seq<byte>) {
    o == Outcome(RESET, [HeadReceived(m), ResponseReceived(m, body)], Ok)
  }

  /**
   The body after the heads, and what follows it.  If the body has the declared length, it is reported and the rest
   is fed to a parser that has been reset; otherwise the second event is not that this body was received.
   */
  lemma FeedBodyOf(s: ParserState, body: seq<byte>, rest: seq<byte>, env: Environment)
    requires s.status.HeadLines? && s.cache == []
    ensures var o := Onwards(EndOfHeads(s, env), body + rest, env);
            if Declares(s.message, |body|, env) then
              o == Then(Outcome(RESET, [HeadReceived(s.message), ResponseReceived(s.message, body)], Ok),
                        Feed(RESET, rest, env))
            else o.error != Ok || |o.events| < 2 || o.events[1] != ResponseReceived(s.message, body)
  {
    var o := EndOfHeads(s, env);
    if o.error == Ok {
      var c := Capacity(env.length(s.message.heads));
      if c == 0 {
        assert body == [] ==> body + rest == rest;
      } else if |body + rest| < c {
        FeedBody(o.state, body + rest, env);
      } else {
        BodyOfCapacity(o, body + rest, env);
        assert |body| == c ==> (body + rest)[..c] == body && (body + rest)[c..] == rest;
      }
    }
  }

  lemma BodyOfCapacity(o: Outcome, data: seq<byte>, env: Environment)
    requires o.error == Ok && |o.events| == 1 && o.state.status.Body? && o.state.body == []
    requires 0 < o.state.capacity <= |data|
    ensures var c := o.state.capacity;
            Onwards(o, data, env)
            == Then(Outcome(RESET, o.events + [ResponseReceived(o.state.message, data[..c])], Ok),
                    Feed(RESET, data[c..], env))
  {
    var c := o.state.capacity;
    FeedSplit(o.state, data, c, env);
    FeedBody(o.state, data[..c], env);
    var r, p := ResponseReceived(o.state.message, data[..c]), Feed(RESET, data[c..], env);
    assert [] + data[..c] == data[..c];
    assert o.events + ([r] + p.events) == o.events + [r] + p.events;
  }

  /**
   A response that is sent, in packets of any kind, is reported once, with its body, exactly if its heads declare
   the length that the body has and such a body can be made; its start line and heads are then those sent, as far
   as Reread keeps them.
   */
  lemma {:induction false} ParseOfSerialized(m: Message, body: seq<byte>, packets: seq<seq<byte>>, env: Environment)
    requires OneLiners(m) && Concat(packets) == Serialize(m, body)
    ensures Delivered(FeedAll(RESET, packets, env), Reread(m), body) <==> Declares(Reread(m), |body|, env)
  {
    hide Feed;
    FeedAllIsFeed(RESET, packets, env);
    FeedMessage(m, body, env);
    FeedBodyOf(HeadsRead(m), body, [], env);
    FeedNothing(RESET, [], 0, env);
    assert body + [] == body;
    assert forall e: seq<Event> :: e + [] == e;
  }

  /** A response for whose declared length no body can be made is refused after its heads. */
  lemma {:induction false} TooLargeIsRefused(m: Message, body: seq<byte>, packets: seq<seq<byte>>, env: Environment)
    requires OneLiners(m) && Concat(packets) == Serialize(m, body)
    requires env.length(Reread(m).heads) > 10 * 1024 * 1024 && !env.canCreate(env.length(Reread(m).heads))
    ensures FeedAll(RESET, packets, env)
            == Outcome(HeadsRead(m), [HeadReceived(Reread(m)), ErrorEvent], StructMessageFail)
  {
    FeedAllIsFeed(RESET, packets, env);
    FeedMessage(m, body, env);
  }

  /**
   A head line is read back as it was exactly when it contains no CR, and the separator occurs neither earlier nor in
   the value.
   */
  predicate CleanHead(h: Head) {
    && CR !in h.key && CR !in h.value
    && (forall i :: 0 <= i < |h.key| ==> !OccursAt(HeadText(h), HEAD_SPLIT, i))
    && (forall i :: 0 <= i < |h.value| ==> !OccursAt(h.value, HEAD_SPLIT, i))
  }

  lemma {:induction false} RereadHeadExactly(h: Head)
    ensures RereadHead(h) == h <==> CleanHead(h)
  {
    hide Find, OccursAt, PartsFrom, Parts;
    if CR !in h.key && CR !in h.value {
      PlainNoCr(h.key);
      PlainNoCr(h.value);
      RereadPlainHead(h);
    } else {
      var text := HeadText(BareHead(h));
      HeadHasTwoParts(BareHead(h));
      NoCrOfHead(h);
      NoCrIsFree(HeadText(h));
      PartsAvoid(text, HEAD_SPLIT, CR);
    }
  }

  lemma RereadPlainHead(h: Head)
    requires BareHead(h) == h && CR !in h.key && CR !in h.value
    ensures RereadHead(h) == h <==> CleanHead(h)
  {
    hide Find;
    var s, n := HeadText(h), |h.key|;
    HeadHasTwoParts(h);
    assert OccursAt(s, HEAD_SPLIT, n);
    var p := Find(s, HEAD_SPLIT, 0);
    assert s[0..n] == h.key && s[n + 2..] == h.value;
    if p == n {
      FirstPartIsAll(s, HEAD_SPLIT, n + 2);
      assert RereadHead(h) == Head(h.key, PartsFrom(s, HEAD_SPLIT, n + 2)[0]);
    } else {
      assert |s[0..p]| != n && RereadHead(h).key == s[0..p];
    }
  }

  /** The field of a start line contains no space and no CR. */
  predicate CleanField(field: seq<byte>) {
    32 !in field && CR !in field
  }

  /** Every field of the start line, and every head, is clean. */
  predicate Clean(m: Message) {
    && CleanField(m.version) && CleanField(m.statusCode) && CleanField(m.reason)
    && forall i :: 0 <= i < |m.heads| ==> CleanHead(m.heads[i])
  }

  /** What is parsed of a message is what was sent exactly when it is clean. */
  lemma {:induction false} RereadExactly(m: Message)
    ensures Reread(m) == m <==> Clean(m)
  {
    hide Parts, PartsFrom, RereadHead, CleanHead, NoCr;
    LineHasThreeParts(BareLine(m));
    forall i | 0 <= i < |m.heads| ensures RereadHeads(m.heads)[i] == m.heads[i] <==> CleanHead(m.heads[i]) {
      RereadHeadExactly(m.heads[i]);
    }
    if CleanField(m.version) && CleanField(m.statusCode) && CleanField(m.reason) {
      PlainNoCr(m.version);
      PlainNoCr(m.statusCode);
      PlainNoCr(m.reason);
      PartsOfLine(m);
    }
    PartsAreClean(m);
    assert RereadHeads(m.heads) == m.heads <==> forall i :: 0 <= i < |m.heads| ==> CleanHead(m.heads[i]);
  }

  lemma {:induction false} PartsAreClean(m: Message)
    ensures forall k :: 0 <= k < |Parts(LineText(BareLine(m)), SPACE)| ==>
              CleanField(Parts(LineText(BareLine(m)), SPACE)[k])
  {
    hide Parts;
    var text := LineText(BareLine(m));
    NoCrOfLine(m);
    NoCrIsFree(LineText(m));
    PartsAvoid(text, SPACE, CR);
    forall k | 0 <= k < |Parts(text, SPACE)| ensures 32 !in Parts(text, SPACE)[k] {
      NoSpaceInPart(text, k);
    }
  }

  lemma PartsOfLine(m: Message)
    requires 32 !in m.version && 32 !in m.statusCode && 32 !in m.reason
    ensures Parts(LineText(m), SPACE) == [m.version, m.statusCode, m.reason]
  {
    hide Find, OccursAt, PartsFrom;
    var fields := [m.version, m.statusCode, m.reason];
    JoinThenSplit([], fields, 32);
    var last, text := [m.statusCode, m.reason], m.statusCode + SPACE + m.reason;
    assert fields[1..] == last && last[1..] == [m.reason];
    assert Join(last, SPACE) == text;
    assert [] + (m.version + SPACE + text) == LineText(m);
  }

  lemma NoSpaceInPart(text: seq<byte>, k: nat)
    requires k < |Parts(text, SPACE)|
    ensures 32 !in Parts(text, SPACE)[k]
  {
    var part := Parts(text, SPACE)[k];
    SplitThenJoin(text, SPACE);
    if 32 in part {
      ElementOccurs(part, 32);
    }
  }

  // ---------- A connection ----------

  datatype Response = Response(message: Message, body: seq<byte>)

  /** The responses `rs`, as they are sent one after the other. */
  function Stream(rs: seq<Response>): seq<byte> {
    if rs == [] then [] else Serialize(rs[0].message, rs[0].body) + Stream(rs[1..])
  }

  /** What there is to be reported of `rs`. */
  function Reports(rs: seq<Response>): seq<Event> {
    if rs == [] then []
    else [HeadReceived(rs[0].message), ResponseReceived(rs[0].message, rs[0].body)] + Reports(rs[1..])
  }

  /** The response survives the way from the sender to the receiver. */
  predicate Transmissible(r: Response, env: Environment) {
    OneLiners(r.message) && Clean(r.message) && Declares(r.message, |r.body|, env)
  }

  /**
   The responses sent over a connection, in packets of any kind, are reported one by one exactly as they were sent,
   and nothing else is, if and only if each of them has no LF in its start line and heads, is clean, and declares the
   length of its body.
   */
  lemma {:induction false} ConnectionDelivers(rs: seq<Response>, packets: seq<seq<byte>>, env: Environment)
    requires Concat(packets) == Stream(rs)
    ensures FeedAll(RESET, packets, env) == Outcome(RESET, Reports(rs), Ok)
            <==> forall i :: 0 <= i < |rs| ==> Transmissible(rs[i], env)
  {
    FeedAllIsFeed(RESET, packets, env);
    FeedStream(rs, env);
  }

  lemma {:induction false} FeedStream(rs: seq<Response>, env: Environment)
    ensures Feed(RESET, Stream(rs), env) == Outcome(RESET, Reports(rs), Ok)
            <==> forall i :: 0 <= i < |rs| ==> Transmissible(rs[i], env)
  {
    hide Feed, Transmissible, Serialize, OneLiners;
    if rs == [] {
      FeedNothing(RESET, [], 0, env);
    } else {
      var r, later := rs[0], rs[1..];
      FeedStream(later, env);
      SerializeThen(r.message, r.body, Stream(later));
      FeedResponse(r, Stream(later), Reports(later), env);
      FirstAndLater(rs, env);
    }
  }

  lemma {:induction false} FirstAndLater(rs: seq<Response>, env: Environment)
    requires rs != []
    ensures (forall i :: 0 <= i < |rs| ==> Transmissible(rs[i], env))
            <==> Transmissible(rs[0], env) && forall i :: 0 <= i < |rs[1..]| ==> Transmissible(rs[1..][i], env)
  {
    hide Transmissible;
    assert rs == [rs[0]] + rs[1..];
  }

  lemma SerializeThen(m: Message, body: seq<byte>, rest: seq<byte>)
    ensures Serialize(m, body) + rest == Serialize(m, body + rest)
  {
  }

  /** One response, followed by anything: its two events come first exactly if it is transmissible. */
  lemma {:induction false} FeedResponse(r: Response, rest: seq<byte>, events: seq<Event>, env: Environment)
    ensures Feed(RESET, Serialize(r.message, r.body + rest), env)
            == Outcome(RESET, [HeadReceived(r.message), ResponseReceived(r.message, r.body)] + events, Ok)
            <==> Transmissible(r, env) && Feed(RESET, rest, env) == Outcome(RESET, events, Ok)
  {
    hide Feed, Clean, Declares, OneLiners, Serialize;
    var m, two := r.message, [HeadReceived(r.message), ResponseReceived(r.message, r.body)];
    if OneLiners(m) {
      FeedOneLiner(r, rest, events, env);
    } else {
      ResetHoldsLines();
      LinesOnly(RESET, Serialize(m, r.body + rest), env);
      assert (two + events)[0] == two[0];
    }
  }

  lemma {:induction false} FeedOneLiner(r: Response, rest: seq<byte>, events: seq<Event>, env: Environment)
    requires OneLiners(r.message)
    ensures Feed(RESET, Serialize(r.message, r.body + rest), env)
            == Outcome(RESET, [HeadReceived(r.message), ResponseReceived(r.message, r.body)] + events, Ok)
            <==> Transmissible(r, env) && Feed(RESET, rest, env) == Outcome(RESET, events, Ok)
  {
    hide Feed, Clean, Declares, OneLiners;
    var m := r.message;
    FeedMessage(m, r.body + rest, env);
    FeedBodyOf(HeadsRead(m), r.body, rest, env);
    RereadExactly(m);
    HeadsFirst(HeadsRead(m), r.body + rest, env);
    var o := Feed(RESET, rest, env);
    var two := [HeadReceived(Reread(m)), ResponseReceived(Reread(m), r.body)];
    assert (two + o.events)[0] == two[0] && (two + o.events)[1] == two[1] && (two + o.events)[2..] == o.events;
    var ours := [HeadReceived(m), ResponseReceived(m, r.body)];
    assert (ours + events)[0] == ours[0] && (ours + events)[1] == ours[1] && (ours + events)[2..] == events;
  }

  lemma HeadsFirst(s: ParserState, data: seq<byte>, env: Environment)
    ensures var events := Onwards(EndOfHeads(s, env), data, env).events;
            |events| > 0 && events[0] == HeadReceived(s.message)
  {
  }

  // ---------- No LF is ever reported ----------

  predicate HoldsLines(s: ParserState) {
    OneLine(s.cache) && OneLiners(s.message)
  }

  lemma ResetHoldsLines()
    ensures HoldsLines(RESET)
  {
  }

  ghost predicate ReportsLines(events: seq<Event>) {
    forall i :: 0 <= i < |events| && !events[i].ErrorEvent? ==> OneLiners(events[i].message)
  }

  /** Whatever arrives, no message is reported with an LF in its start line or heads. */
  lemma {:induction false} LinesOnly(s: ParserState, data: seq<byte>, env: Environment)
    requires HoldsLines(s)
    ensures ReportsLines(Feed(s, data, env).events)
    decreases |data|
  {
    hide OneByte, HoldsLines, OneLiners;
    if data != [] {
      var o := OneByte(s, data[0], env);
      LinesOnlyByte(s, data[0], env);
      if o.error == Ok {
        LinesOnly(o.state, data[1..], env);
      }
    }
  }

  lemma LinesOnlyByte(s: ParserState, b: byte, env: Environment)
    requires HoldsLines(s)
    ensures var o := OneByte(s, b, env); ReportsLines(o.events) && (o.error == Ok ==> HoldsLines(o.state))
  {
    if b == LF && s.status.StartLine? {
      StartLineKept(s, env);
    } else if b == LF && s.status.HeadLines? && s.cache != [] {
      HeadLineKept(s, env);
    } else {
      hide Parts, OneLiners;
      ResetHoldsLines();
    }
  }

  lemma StartLineKept(s: ParserState, env: Environment)
    requires HoldsLines(s) && s.status.StartLine?
    ensures var o := OneByte(s, LF, env); o.events == [] && (o.error == Ok ==> HoldsLines(o.state))
  {
    hide Parts;
    PartsAvoid(s.cache, SPACE, LF);
  }

  lemma HeadLineKept(s: ParserState, env: Environment)
    requires HoldsLines(s) && s.status.HeadLines? && s.cache != []
    ensures var o := OneByte(s, LF, env); o.events == [] && (o.error == Ok ==> HoldsLines(o.state))
  {
    hide Parts;
    PartsAvoid(s.cache, HEAD_SPLIT, LF);
  }

  // ---------- What each line is taken for ----------

  lemma {:induction false} NoCrCounts(text: seq<byte>, b: byte)
    requires b != CR
    ensures multiset(NoCr(text))[b] == multiset(text)[b]
  {
    if text != [] {
      NoCrCounts(text[1..], b);
      assert text == [text[0]] + text[1..];
    }
  }

  /** One line on its own, and what follows it. */
  lemma FeedLineThen(s: ParserState, line: seq<byte>, rest: seq<byte>, env: Environment)
    requires !s.status.Body? && s.cache == [] && OneLine(line)
    ensures Feed(s, line + CRLF, env) == OneByte(s.(cache := NoCr(line)), LF, env)
    ensures Feed(s, line + CRLF + rest, env) == Onwards(Feed(s, line + CRLF, env), rest, env)
  {
    hide OneByte, NoCr;
    FeedLine(s, line, rest, env);
    FeedLine(s, line, [], env);
    assert line + CRLF + [] == line + CRLF;
    var o := OneByte(s.(cache := NoCr(line)), LF, env);
    assert o.events + [] == o.events;
  }

  /**
   A start line is refused exactly if it has fewer than two spaces, and then nothing after it is looked at;
   otherwise its first two fields end at the first two spaces, and the third at the next space or at the end.
   Nothing is reported in either case.
   */
  lemma StartLineRead(line: seq<byte>, rest: seq<byte>, env: Environment)
    requires OneLine(line)
    ensures var o := Feed(RESET, line + CRLF, env);
            && o.events == []
            && (if multiset(line)[32] < 2 then o.error == BadStartLine && o.state == RESET.(cache := NoCr(line))
                else
                  && o.error == Ok && o.state == RESET.(message := o.state.message, status := HeadLines)
                  && IsStartLine(NoCr(line), o.state.message))
    ensures multiset(line)[32] < 2 ==> Feed(RESET, line + CRLF + rest, env) == Feed(RESET, line + CRLF, env)
  {
    hide Feed, NoCr, Parts;
    var text := NoCr(line);
    FeedLineThen(RESET, line, rest, env);
    NoCrCounts(line, 32);
    SpacesAndParts(text);
    if multiset(line)[32] >= 2 {
      FieldsOfStartLine(text);
    }
  }

  /** The fields of `m`, none of which contains a space, begin the text. */
  ghost predicate IsStartLine(text: seq<byte>, m: Message) {
    && m.heads == [] && 32 !in m.version && 32 !in m.statusCode && 32 !in m.reason
    && var fields := m.version + SPACE + m.statusCode + SPACE + m.reason;
       fields == text || fields + SPACE <= text
  }

  lemma SpacesAndParts(text: seq<byte>)
    ensures |Parts(text, SPACE)| == 1 + multiset(text)[32]
  {
    PartsCount(text, 32, 0);
    assert text[0..] == text;
  }

  lemma FieldsOfStartLine(text: seq<byte>)
    requires |Parts(text, SPACE)| >= 3
    ensures var d := Parts(text, SPACE); IsStartLine(text, Message(d[0], d[1], d[2], []))
  {
    hide Parts;
    var d := Parts(text, SPACE);
    NoSpaceInPart(text, 0);
    NoSpaceInPart(text, 1);
    NoSpaceInPart(text, 2);
    SplitThenJoin(text, SPACE);
    assert d[1..][1..] == d[2..] && d[2..][0] == d[2];
    JoinBegins(d[2..], SPACE);
    assert text == d[0] + SPACE + (d[1] + SPACE + Join(d[2..], SPACE));
    assert text == (d[0] + SPACE + d[1] + SPACE) + Join(d[2..], SPACE);
  }

  /**
   A head line that is not empty is refused exactly if it does not contain ": ", and then nothing after it is looked
   at; otherwise its key ends at the first ": ", and its value at the next one or at the end.
   */
  lemma HeadLineRead(s: ParserState, line: seq<byte>, rest: seq<byte>, env: Environment)
    requires s.status.HeadLines? && s.cache == [] && OneLine(line) && NoCr(line) != []
    ensures var o := Feed(s, line + CRLF, env);
            && o.events == []
            && (if !Contains(NoCr(line), Text(": ")) then o.error == BadHeadKey && o.state == s.(cache := NoCr(line))
                else
                  && o.error == Ok && |o.state.message.heads| == |s.message.heads| + 1
                  && o.state == s.(message := s.message.(heads := o.state.message.heads))
                  && s.message.heads <= o.state.message.heads
                  && IsHeadLine(NoCr(line), o.state.message.heads[|s.message.heads|]))
    ensures !Contains(NoCr(line), Text(": ")) ==> Feed(s, line + CRLF + rest, env) == Feed(s, line + CRLF, env)
  {
    hide Feed, NoCr, Parts, Contains;
    var text := NoCr(line);
    assert Text(": ") == HEAD_SPLIT;
    FeedLineThen(s, line, rest, env);
    TwoPartsIfContained(text, HEAD_SPLIT);
    if Contains(text, HEAD_SPLIT) {
      FieldsOfHeadLine(text);
    }
  }

  ghost predicate IsHeadLine(text: seq<byte>, h: Head) {
    && OccursAt(text, Text(": "), |h.key|) && h.key == text[..|h.key|]
    && (forall j: nat :: j < |h.key| ==> !OccursAt(text, Text(": "), j))
    && !Contains(h.value, Text(": "))
    && var tail := text[|h.key| + 2..];
       h.value == tail || h.value + Text(": ") <= tail
  }

  lemma FieldsOfHeadLine(text: seq<byte>)
    requires Contains(text, HEAD_SPLIT)
    ensures var d := Parts(text, HEAD_SPLIT); |d| >= 2 && IsHeadLine(text, Head(d[0], d[1]))
  {
    hide Parts;
    assert Text(": ") == HEAD_SPLIT;
    var i := FirstOccurrence(text, HEAD_SPLIT);
    FirstTwoParts(text, HEAD_SPLIT, i);
  }

  lemma FirstOccurrence(text: seq<byte>, sep: seq<byte>) returns (i: nat)
    requires sep != [] && Contains(text, sep)
    ensures OccursAt(text, sep, i) && forall j: nat :: j < i ==> !OccursAt(text, sep, j)
  {
    i := Find(text, sep, 0);
    var k: nat :| OccursAt(text, sep, k);
  }

  /**
   A negative declared length is taken for one of at least 2^63: after the heads, no response is reported, and no
   error, until so many bytes have come.
   */
  lemma NegativeLengthWaits(m: Message, data: seq<byte>, env: Environment)
    requires OneLiners(m) && -0x8000_0000_0000_0000 <= env.length(Reread(m).heads) < 0
    requires |data| < 0x1_0000_0000_0000_0000 + env.length(Reread(m).heads)
    ensures var o := Feed(RESET, Serialize(m, data), env);
            o.error == Ok && o.events == [HeadReceived(Reread(m))]
  {
    hide Feed, Capacity, Reread, OneLiners, Serialize;
    NegativeCapacity(env.length(Reread(m).heads));
    FeedMessage(m, data, env);
    var o := EndOfHeads(HeadsRead(m), env);
    FeedBody(o.state, data, env);
    assert o.events + [] == o.events;
  }

  lemma NegativeCapacity(declared: int)
    requires -0x8000_0000_0000_0000 <= declared < 0
    ensures Capacity(declared) == 0x1_0000_0000_0000_0000 + declared
  {
  }

  // ---------- Responses that do not arrive ----------

  /** "HTTP/1.1 404 Not Found", with the library's own reason phrase. */
  const NOT_FOUND: Message := Message(BLANK.version, [52, 48, 52], [78, 111, 116, 32, 70, 111, 117, 110, 100], [])

  /** The head "X: a", followed by a CR. */
  const WITH_CR: Message := Message(BLANK.version, BLANK.statusCode, BLANK.reason, [Head([88], [97, CR])])

  /** The head "X: a", with a line break and another head "Y: b" in its value. */
  const WITH_LF: Message :=
    Message(BLANK.version, BLANK.statusCode, BLANK.reason, [Head([88], [97, CR, LF, 89, 58, 32, 98])])

  lemma {:induction false} RereadFails(m: Message, packets: seq<seq<byte>>, env: Environment)
    requires m == NOT_FOUND || m == WITH_CR || m == WITH_LF
    requires Concat(packets) == Serialize(m, [])
    ensures !Delivered(FeedAll(RESET, packets, env), m, [])
  {
    hide FeedAll, Clean, CleanHead, Serialize, Declares, OneLiners;
    var rs := [Response(m, [])];
    assert rs[1..] == [] && Stream(rs) == Serialize(m, []) + [] == Serialize(m, []);
    ConnectionDelivers(rs, packets, env);
    assert Reports(rs) == [HeadReceived(m), ResponseReceived(m, [])] + [];
    NotClean(m);
    assert !Transmissible(rs[0], env);
  }

  lemma NotClean(m: Message)
    requires m == NOT_FOUND || m == WITH_CR || m == WITH_LF
    ensures !Clean(m)
  {
    if m == NOT_FOUND {
      assert m.reason[3] == 32;
    } else {
      var value := m.heads[0].value;
      assert value[1] == CR && !CleanHead(m.heads[0]);
    }
  }
}
