/**
  The keepalive injector on an event stream: when the upstream has been silent
  for KEEPALIVE_MS, a comment and a blank line go to the client.
 */
module Keepalive {
  const COMMENT := ":\n\n"

  // ---------------------------------------------------------------- the injector

  /** A tick of the interval timer, or bytes (as decoded text) from upstream. */
  datatype Event = Tick(at: int) | Chunk(at: int, text: string)

  /** `last` is `lastUpstreamChunk`; `out` what the client was sent. */
  datatype Proxy = Proxy(last: int, out: string)

  function Step(p: Proxy, keepaliveMs: int, e: Event): Proxy {
    match e
    case Chunk(now, text) => Proxy(now, p.out + text)
    case Tick(now) => if now - p.last < keepaliveMs then p else Proxy(now, p.out + COMMENT)
  }

  function Interval(keepaliveMs: int): int {
    if keepaliveMs / 2 > 500 then keepaliveMs / 2 else 500
  }

  function RunAt(start: int, keepaliveMs: int, events: seq<Event>, i: nat): Proxy
    requires i <= |events|
  {
    if i == 0 then Proxy(start, "") else Step(RunAt(start, keepaliveMs, events, i - 1), keepaliveMs, events[i - 1])
  }

  /** The handlers of one response, updating the time stamp and writing to the client. */
  class Injector {
    const keepaliveMs: int
    var lastUpstreamChunk: int
    var written: string

    function View(): Proxy
      reads this
    {
      Proxy(lastUpstreamChunk, written)
    }

    constructor (keepaliveMs: int, now: int)
      ensures View() == Proxy(now, "") && this.keepaliveMs == keepaliveMs
    {
      this.keepaliveMs, lastUpstreamChunk, written := keepaliveMs, now, "";
    }

    method OnTick(now: int)
      modifies this
      ensures View() == Step(old(View()), keepaliveMs, Tick(now))
    {
      if now - lastUpstreamChunk < keepaliveMs { return; }
      written := written + COMMENT;
      lastUpstreamChunk := now;
    }

    method OnData(now: int, chunk: string)
      modifies this
      ensures View() == Step(old(View()), keepaliveMs, Chunk(now, chunk))
    {
      lastUpstreamChunk := now;
      written := written + chunk;
    }
  }

  // --------------------------------------------------------------------- timing

  /** The time of the last tick among the first `i` events; the timer starts at `start`. */
  function LastTick(start: int, events: seq<Event>, i: nat): int
    requires i <= |events|
  {
    if i == 0 then start else if events[i - 1].Tick? then events[i - 1].at else LastTick(start, events, i - 1)
  }

  /** Events come in time order, and no tick is later than one interval after the one before. */
  ghost predicate Timely(start: int, keepaliveMs: int, events: seq<Event>) {
    && (forall i :: 0 <= i < |events| ==> start <= events[i].at)
    && (forall i, j :: 0 <= i < j < |events| ==> events[i].at <= events[j].at)
    && forall i :: 0 <= i < |events| ==> events[i].at <= LastTick(start, events, i) + Interval(keepaliveMs)
  }

  /** Right after any event, the last write is less than KEEPALIVE_MS older than the last tick. */
  lemma {:induction false} TickBound(start: int, keepaliveMs: int, events: seq<Event>, i: nat)
    requires Timely(start, keepaliveMs, events) && keepaliveMs > 0 && i <= |events|
    ensures LastTick(start, events, i) - RunAt(start, keepaliveMs, events, i).last < keepaliveMs
    ensures i > 0 ==> RunAt(start, keepaliveMs, events, i).last <= events[i - 1].at
    ensures i > 0 ==> LastTick(start, events, i) <= events[i - 1].at
  {
    if i > 0 { TickBound(start, keepaliveMs, events, i - 1); }
  }

  /** When the client was last sent anything before event `i`: a chunk, or what a tick wrote. */
  function LastWrite(start: int, keepaliveMs: int, events: seq<Event>, i: nat): int
    requires i <= |events|
  {
    if i == 0 then start
    else if events[i - 1].Chunk? || RunAt(start, keepaliveMs, events, i).out != RunAt(start, keepaliveMs, events, i - 1).out
    then events[i - 1].at
    else LastWrite(start, keepaliveMs, events, i - 1)
  }

  lemma {:induction false} LastIsTheLastWrite(start: int, keepaliveMs: int, events: seq<Event>, i: nat)
    requires i <= |events|
    ensures RunAt(start, keepaliveMs, events, i).last == LastWrite(start, keepaliveMs, events, i)
  {
    if i > 0 {
      LastIsTheLastWrite(start, keepaliveMs, events, i - 1);
      var before := RunAt(start, keepaliveMs, events, i - 1);
      assert |before.out + COMMENT| > |before.out|;
    }
  }

  /**
    What the client is sent. Every chunk as it is; and at a tick a comment and a
    blank line, exactly if nothing was sent for KEEPALIVE_MS.
   */
  lemma ClientIsSent(start: int, keepaliveMs: int, events: seq<Event>, i: nat)
    requires i < |events|
    ensures var out, e := RunAt(start, keepaliveMs, events, i).out, events[i];
      RunAt(start, keepaliveMs, events, i + 1).out ==
        if e.Chunk? then out + e.text
        else if e.at - LastWrite(start, keepaliveMs, events, i) >= keepaliveMs then out + ":" + "\n\n"
        else out
  {
    LastIsTheLastWrite(start, keepaliveMs, events, i);
    var out := RunAt(start, keepaliveMs, events, i).out;
    assert COMMENT == ":" + "\n\n" && out + (":" + "\n\n") == out + ":" + "\n\n";
  }

  /**
    With timely ticks, the client never waits KEEPALIVE_MS plus one interval,
    which is half of it and at least half a second, for the next bytes.
   */
  lemma WriteGapIsBounded(start: int, keepaliveMs: int, events: seq<Event>, i: nat)
    requires Timely(start, keepaliveMs, events) && keepaliveMs > 0 && i < |events|
    ensures var gap := events[i].at - LastWrite(start, keepaliveMs, events, i);
      gap < keepaliveMs + (if keepaliveMs >= 1000 then keepaliveMs / 2 else 500)
  {
    TickBound(start, keepaliveMs, events, i);
    LastIsTheLastWrite(start, keepaliveMs, events, i);
  }

  // ----------------------------------------------- section 9.2.6 of the HTML Standard

  datatype Message = Message(event: string, data: string, lastEventId: string)

  /**
    The stream interpreter: the current line, the field buffers, the messages
    dispatched, and whether the last character was a CR, whose LF is part of the
    same line end.
   */
  datatype Parser = Parser(
    atStart: bool, cr: bool, line: string, data: string, event: string, id: string, retry: string, messages: seq<Message>)

  const NEW := Parser(true, false, "", "", "", "", "", [])

  function Colon(line: string): (k: nat)
    ensures k <= |line| && (k < |line| ==> line[k] == ':')
  {
    if line == "" || line[0] == ':' then 0 else 1 + Colon(line[1..])
  }

  predicate AllDigits(s: string) { forall i :: 0 <= i < |s| ==> '0' <= s[i] <= '9' }

  function Field(p: Parser, name: string, value: string): Parser {
    if name == "event" then p.(event := value)
    else if name == "data" then p.(data := p.data + value + "\n")
    else if name == "id" then (if '\0' in value then p else p.(id := value))
    else if name == "retry" then (if AllDigits(value) then p.(retry := value) else p)
    else p
  }

  /** A blank line dispatches; empty data only clears the buffers. */
  function Dispatch(p: Parser): Parser {
    if p.data == "" then p.(event := "")
    else p.(data := "", event := "", messages := p.messages + [Message(p.event, p.data[..|p.data| - 1], p.id)])
  }

  function EndLine(p: Parser): Parser {
    var line, q := p.line, p.(line := "");
    if line == "" then Dispatch(q)
    else
      var k := Colon(line);
      if k == 0 then q
      else if k == |line| then Field(q, line, "")
      else
        var v := line[k + 1..];
        Field(q, line[..k], if v != "" && v[0] == ' ' then v[1..] else v)
  }

  const BOM := '\U{FEFF}'

  function Feed(p: Parser, c: char): Parser {
    if p.atStart && c == BOM then p.(atStart := false)
    else
      var q := p.(atStart := false);
      if c == '\r' then EndLine(q).(cr := true)
      else if c == '\n' then (if p.cr then q.(cr := false) else EndLine(q))
      else q.(cr := false, line := q.line + [c])
  }

  function Parse(p: Parser, s: string): Parser {
    if s == "" then p else Feed(Parse(p, s[..|s| - 1]), s[|s| - 1])
  }

  /** Between events: nothing of a line or of a message is buffered. */
  predicate Between(p: Parser) { p.line == "" && p.data == "" && p.event == "" }

  lemma {:induction false} ParseAppends(p: Parser, a: string, b: string)
    ensures Parse(p, a + b) == Parse(Parse(p, a), b)
  {
    hide Feed;
    if b == "" {
      assert a + b == a;
    } else {
      var b', c := b[..|b| - 1], b[|b| - 1];
      ParseAppends(p, a, b');
      assert (a + b)[..|a + b| - 1] == a + b';
    }
  }

  /** Equal but for the memory of a CR, which between events changes nothing, and of the start. */
  ghost predicate Alike(p: Parser, q: Parser) {
    && q.(cr := p.cr, atStart := p.atStart) == p
    && (p.cr != q.cr ==> Between(p))
    && !q.atStart
  }

  lemma CommentIsInvisible(p: Parser)
    requires Between(p)
    ensures Alike(p, Parse(p, COMMENT)) && !Parse(p, COMMENT).cr
  {
    assert COMMENT[..2] == ":\n" && COMMENT[..2][..1] == ":" && COMMENT[..1][..0] == "";
    var p1 := Feed(p, ':');
    assert p1 == p.(atStart := false, cr := false, line := ":");
    assert Colon(p1.line) == 0;
    var p2 := Feed(p1, '\n');
    assert p2 == p.(atStart := false, cr := false);
    var p3 := Feed(p2, '\n');
    assert p3 == p2;
    assert Parse(p, "") == p;
    assert Parse(p, ":") == p1;
    assert Parse(p, ":\n") == p2;
  }

  lemma FeedAlike(p: Parser, q: Parser, c: char)
    requires Alike(p, q) && !(p.atStart && c == BOM)
    ensures Alike(Feed(p, c), Feed(q, c)) && !Feed(p, c).atStart
  {
    if c == '\n' && p.cr != q.cr { assert Dispatch(p.(atStart := false)) == p.(atStart := false); }
  }

  /** Either the same, or alike: how the upstream's parser and the client's stand to each other. */
  ghost predicate InStep(p: Parser, q: Parser) { p == q || Alike(p, q) }

  lemma FeedKeepsInStep(p: Parser, q: Parser, c: char)
    requires InStep(p, q) && (p != q && p.atStart ==> c != BOM)
    ensures InStep(Feed(p, c), Feed(q, c)) && !Feed(p, c).atStart
  {
    if p != q { FeedAlike(p, q, c); }
  }

  lemma {:induction false} ChunkKeepsInStep(p: Parser, q: Parser, s: string)
    requires InStep(p, q) && (p != q && p.atStart && s != "" ==> s[0] != BOM)
    ensures InStep(Parse(p, s), Parse(q, s))
    ensures s != "" ==> !Parse(p, s).atStart
  {
    hide Feed, InStep;
    if s != "" {
      var s', c := s[..|s| - 1], s[|s| - 1];
      if s' == "" {
        assert s[0] == c && Parse(p, s') == p && Parse(q, s') == q;
      } else {
        assert s'[0] == s[0];
        ChunkKeepsInStep(p, q, s');
      }
      FeedKeepsInStep(Parse(p, s'), Parse(q, s'), c);
    }
  }

  lemma CommentKeepsInStep(p: Parser, q: Parser)
    requires InStep(p, q) && Between(p)
    ensures InStep(p, Parse(q, COMMENT)) && Parse(q, COMMENT).atStart == false
  {
    CommentIsInvisible(q);
  }

  // ------------------------------------------------------------------ whole streams

  /** What upstream has sent by event `i`. */
  function Upstream(events: seq<Event>, i: nat): string
    requires i <= |events|
  {
    if i == 0 then "" else Upstream(events, i - 1) + if events[i - 1].Chunk? then events[i - 1].text else ""
  }

  function LastChunk(start: int, events: seq<Event>, i: nat): int
    requires i <= |events|
  {
    if i == 0 then start else if events[i - 1].Chunk? then events[i - 1].at else LastChunk(start, events, i - 1)
  }

  /** Inside an event, the next thing comes sooner than KEEPALIVE_MS. */
  ghost predicate NeverPausesInside(start: int, keepaliveMs: int, events: seq<Event>) {
    forall i :: 0 <= i < |events| && !Between(Parse(NEW, Upstream(events, i))) ==>
      events[i].at - LastChunk(start, events, i) < keepaliveMs
  }

  /** Tick `i` writes a comment. */
  predicate Injects(start: int, keepaliveMs: int, events: seq<Event>, i: nat)
    requires i < |events|
  {
    events[i].Tick? && events[i].at - RunAt(start, keepaliveMs, events, i).last >= keepaliveMs
  }

  /** Upstream starts with a byte order mark, and a comment was written before it came. */
  ghost predicate CommentBeforeMark(start: int, keepaliveMs: int, events: seq<Event>) {
    exists i, j :: 0 <= i < j < |events| && Injects(start, keepaliveMs, events, i) && Upstream(events, j) == ""
      && events[j].Chunk? && events[j].text != "" && events[j].text[0] == BOM
  }

  lemma {:induction false} LastIsNoOlder(start: int, keepaliveMs: int, events: seq<Event>, i: nat)
    requires i <= |events| && keepaliveMs > 0
    ensures LastChunk(start, events, i) <= RunAt(start, keepaliveMs, events, i).last
  {
    if i > 0 { LastIsNoOlder(start, keepaliveMs, events, i - 1); }
  }

  /** How far the two streams have come by event `i`. */
  ghost predicate Linked(start: int, keepaliveMs: int, events: seq<Event>, i: nat)
    requires i <= |events|
  {
    var p, q := Parse(NEW, Upstream(events, i)), Parse(NEW, RunAt(start, keepaliveMs, events, i).out);
    && InStep(p, q)
    && (p.atStart <==> Upstream(events, i) == "")
    && (p != q ==> exists j :: 0 <= j < i && Injects(start, keepaliveMs, events, j))
  }

  lemma ChunkLinks(start: int, keepaliveMs: int, events: seq<Event>, i: nat)
    requires i < |events| && events[i].Chunk? && Linked(start, keepaliveMs, events, i)
    requires !CommentBeforeMark(start, keepaliveMs, events)
    ensures Linked(start, keepaliveMs, events, i + 1)
  {
    var up, out, text := Upstream(events, i), RunAt(start, keepaliveMs, events, i).out, events[i].text;
    var p, q := Parse(NEW, up), Parse(NEW, out);
    assert Upstream(events, i + 1) == up + text && RunAt(start, keepaliveMs, events, i + 1).out == out + text;
    ParseAppends(NEW, up, text);
    ParseAppends(NEW, out, text);
    hide Parse, Upstream, RunAt, InStep, Injects;
    if p != q && p.atStart && text != "" { assert text[0] != BOM; }
    ChunkKeepsInStep(p, q, text);
    if text == "" { assert up + text == up && out + text == out; }
  }

  /** Every comment is written while the upstream is between events. */
  ghost predicate InjectsBetween(start: int, keepaliveMs: int, events: seq<Event>) {
    forall i :: 0 <= i < |events| && Injects(start, keepaliveMs, events, i) ==> Between(Parse(NEW, Upstream(events, i)))
  }

  /** A tick that fires while upstream keeps its promise fires between events. */
  lemma FiresBetween(start: int, keepaliveMs: int, events: seq<Event>)
    requires keepaliveMs > 0 && NeverPausesInside(start, keepaliveMs, events)
    ensures InjectsBetween(start, keepaliveMs, events)
  {
    hide Parse, Between;
    forall i | 0 <= i < |events| && Injects(start, keepaliveMs, events, i) ensures Between(Parse(NEW, Upstream(events, i))) {
      LastIsNoOlder(start, keepaliveMs, events, i);
    }
  }

  lemma TickLinks(start: int, keepaliveMs: int, events: seq<Event>, i: nat)
    requires i < |events| && events[i].Tick? && Linked(start, keepaliveMs, events, i)
    requires Injects(start, keepaliveMs, events, i) ==> Between(Parse(NEW, Upstream(events, i)))
    ensures Linked(start, keepaliveMs, events, i + 1)
  {
    var up, out, fires := Upstream(events, i), RunAt(start, keepaliveMs, events, i).out, Injects(start, keepaliveMs, events, i);
    assert Upstream(events, i + 1) == up + "" == up;
    assert RunAt(start, keepaliveMs, events, i + 1).out == if fires then out + COMMENT else out;
    hide Parse, Upstream, RunAt, InStep, Injects, Between;
    if fires {
      ParseAppends(NEW, out, COMMENT);
      CommentKeepsInStep(Parse(NEW, up), Parse(NEW, out));
    }
  }

  lemma StartLinks(start: int, keepaliveMs: int, events: seq<Event>)
    ensures Linked(start, keepaliveMs, events, 0)
  {}

  lemma {:induction false} StreamsInStep(start: int, keepaliveMs: int, events: seq<Event>, i: nat)
    requires i <= |events|
    requires InjectsBetween(start, keepaliveMs, events) && !CommentBeforeMark(start, keepaliveMs, events)
    ensures Linked(start, keepaliveMs, events, i)
  {
    hide *;
    if i == 0 {
      StartLinks(start, keepaliveMs, events);
    } else {
      StreamsInStep(start, keepaliveMs, events, i - 1);
      if events[i - 1].Chunk? {
        ChunkLinks(start, keepaliveMs, events, i - 1);
      } else {
        InjectsAt(start, keepaliveMs, events, i - 1);
        TickLinks(start, keepaliveMs, events, i - 1);
      }
    }
  }

  lemma InjectsAt(start: int, keepaliveMs: int, events: seq<Event>, i: nat)
    requires i < |events| && InjectsBetween(start, keepaliveMs, events)
    ensures Injects(start, keepaliveMs, events, i) ==> Between(Parse(NEW, Upstream(events, i)))
  {
    hide Parse, Between, Injects;
  }

  /** Comments written between events are invisible: the client's stream carries the upstream's messages, a late mark aside. */
  lemma CommentsBetweenAreInvisible(start: int, keepaliveMs: int, events: seq<Event>, i: nat)
    requires i <= |events|
    requires InjectsBetween(start, keepaliveMs, events) && !CommentBeforeMark(start, keepaliveMs, events)
    ensures Parse(NEW, RunAt(start, keepaliveMs, events, i).out).messages == Parse(NEW, Upstream(events, i)).messages
  {
    StreamsInStep(start, keepaliveMs, events, i);
    hide Parse;
  }

  /**
    The promise. If upstream never pauses KEEPALIVE_MS inside an event, the
    client's stream carries exactly the upstream's messages, unless a comment
    came before a byte order mark.
   */
  lemma ClientSeesTheSameEvents(start: int, keepaliveMs: int, events: seq<Event>, i: nat)
    requires i <= |events| && keepaliveMs > 0
    requires NeverPausesInside(start, keepaliveMs, events) && !CommentBeforeMark(start, keepaliveMs, events)
    ensures Parse(NEW, RunAt(start, keepaliveMs, events, i).out).messages == Parse(NEW, Upstream(events, i)).messages
  {
    hide *;
    FiresBetween(start, keepaliveMs, events);
    CommentsBetweenAreInvisible(start, keepaliveMs, events, i);
  }

  ghost predicate OnOneLine(s: string) { forall i :: 0 <= i < |s| ==> s[i] != '\r' && s[i] != '\n' }

  lemma {:induction false} TypeLine(p: Parser, s: string)
    requires !p.atStart && OnOneLine(s)
    ensures Parse(p, s) == p.(line := p.line + s, cr := p.cr && s == "")
  {
    if s == "" {
      assert p.line + s == p.line;
    } else {
      TypeLine(p, s[..|s| - 1]);
      assert p.line + s == p.line + s[..|s| - 1] + [s[|s| - 1]];
    }
  }

  lemma {:induction false} ColonAt(name: string, value: string)
    requires forall i :: 0 <= i < |name| ==> name[i] != ':'
    ensures Colon(name + ":" + value) == |name|
  {
    var line := name + ":" + value;
    if name != "" {
      ColonAt(name[1..], value);
      assert line[1..] == name[1..] + ":" + value;
    }
  }

  predicate Plain(name: string) {
    && name != "" && name != "event" && name != "id" && name != "retry"
    && forall i :: 0 <= i < |name| ==> name[i] != ':' && name[i] != '\r' && name[i] != '\n'
  }

  /** The line `name:x` adds to the data exactly if the field is `data`. */
  lemma EndOfField(p: Parser, name: string)
    requires Plain(name) && p.line == name + ":x"
    ensures EndLine(p) == p.(line := "", data := if name == "data" then p.data + "x" + "\n" else p.data)
  {
    var line := p.line;
    assert line == name + ":" + "x";
    ColonAt(name, "x");
    assert line[..|name|] == name && line[|name| + 1..] == "x";
    hide Colon, Dispatch;
  }

  lemma TwoLineFeeds(p: Parser)
    ensures Parse(p, "\n\n") == Feed(Feed(p, '\n'), '\n')
  {
    var s := "\n\n";
    assert s[..1] == "\n" && s[..1][..0] == "";
    assert Parse(p, "") == p;
    hide Feed;
    assert Parse(p, s[..1]) == Feed(p, '\n');
  }

  /** A line `name:x` and a blank line, read from between events: a message exactly if the field is `data`. */
  lemma OneField(p: Parser, name: string)
    requires Between(p) && !p.atStart && !p.cr && Plain(name)
    ensures |Parse(p, name + ":x" + "\n\n").messages| == |p.messages| + if name == "data" then 1 else 0
  {
    var line := name + ":x";
    var typed := p.(line := line);
    assert p.line + line == line;
    assert OnOneLine(line);
    hide Parse, EndLine, Plain;
    LineAndBlank(p, line);
    EndOfField(typed, name);
    Dispatched(EndLine(typed));
  }

  lemma MarkIsDropped()
    ensures Parse(NEW, [BOM]) == NEW.(atStart := false)
  {
    assert [BOM][..0] == "" && Parse(NEW, "") == NEW;
  }

  /** A name that starts with the mark is a field's name, but not `data`. */
  lemma MarkedName()
    ensures Plain([BOM] + "data") && [BOM] + "data" != "data" && Plain("data")
    ensures [BOM] + ("data" + ":x" + "\n\n") == [BOM] + "data" + ":x" + "\n\n"
  {
    assert ([BOM] + "data")[0] == BOM;
  }

  /**
    Why the mark is excepted: dropped at the start of the stream, after a
    comment it is an ordinary character. It then belongs to the first field's
    name, and that message is lost.
   */
  lemma CommentBeforeMarkLosesAMessage()
    ensures var rest := "data" + ":x" + "\n\n";
      && |Parse(NEW, [BOM] + rest).messages| == 1
      && |Parse(NEW, COMMENT + ([BOM] + rest)).messages| == 0
  {
    var rest, begun, marked := "data" + ":x" + "\n\n", NEW.(atStart := false), [BOM] + "data";
    hide Parse, Feed, Plain;
    MarkIsDropped();
    CommentIsInvisible(NEW);
    assert Parse(NEW, COMMENT) == begun;
    MarkedName();
    ParseAppends(NEW, [BOM], rest);
    OneField(begun, "data");
    ParseAppends(NEW, COMMENT, [BOM] + rest);
    OneField(begun, marked);
  }

  // --------------------------------------------------- when a comment is invisible

  /** Whatever upstream goes on to send, a comment here changes no message. */
  ghost predicate Harmless(p: Parser) {
    forall s :: Parse(Parse(p, COMMENT), s).messages == Parse(p, s).messages
  }

  /** Text and two line feeds: the text ends the open line, and an empty line follows. */
  lemma LineAndBlank(p: Parser, s: string)
    requires !p.atStart && s != "" && OnOneLine(s)
    ensures Parse(p, s + "\n\n") == Dispatch(EndLine(p.(cr := false, line := p.line + s)))
  {
    var p1 := p.(cr := false, line := p.line + s);
    TypeLine(p, s);
    ParseAppends(p, s, "\n\n");
    TwoLineFeeds(p1);
    EndLineKeeps(p1);
    hide Parse, Dispatch;
    assert Feed(p1, '\n') == EndLine(p1);
    var p2 := EndLine(p1);
    hide EndLine;
    EmptyLineDispatches(p2);
  }

  /** A comment on an open line ends it as if a colon stood next, and then ends an empty line. */
  lemma CommentSteps(p: Parser)
    requires !p.atStart
    ensures Parse(p, COMMENT) == Dispatch(EndLine(p.(cr := false, line := p.line + ":")))
  {
    assert COMMENT == ":" + "\n\n";
    hide Parse, Dispatch, EndLine;
    LineAndBlank(p, ":");
  }

  lemma EmptyLineDispatches(p: Parser)
    requires p.line == "" && !p.cr && !p.atStart
    ensures Feed(p, '\n') == Dispatch(p)
  {}

  /** The name of the field that a line sets. */
  function FieldName(line: string): string { line[..Colon(line)] }

  /** Ending a line that is not empty empties it, dispatches nothing, and adds data exactly for the field `data`. */
  lemma EndLineKeeps(p: Parser)
    requires p.line != ""
    ensures var q := EndLine(p);
      q.line == "" && q.messages == p.messages && q.cr == p.cr && q.atStart == p.atStart
    ensures (EndLine(p).data == "" <==> p.data == "" && FieldName(p.line) != "data")
  {
    hide Colon, AllDigits;
    var k := Colon(p.line);
    assert k == |p.line| ==> p.line[..k] == p.line;
  }

  lemma {:induction false} NoColon(line: string, more: string)
    ensures Colon(line) == |line| ==> forall i :: 0 <= i < |line| ==> line[i] != ':'
    ensures Colon(line) < |line| ==> Colon(line + more) == Colon(line)
  {
    if line != "" && line[0] != ':' {
      NoColon(line[1..], more);
      assert (line + more)[1..] == line[1..] + more;
    }
  }

  /** The colon of a comment names the field that the line began to name; letters before it name a longer one. */
  lemma NamesOf(line: string)
    requires line != ""
    ensures FieldName(line + ":") == FieldName(line)
    ensures FieldName(line) != "data" ==> FieldName(line + "data:x") != "data"
  {
    NoColon(line, ":");
    NoColon(line, "data:x");
    if Colon(line) == |line| {
      ColonAt(line, "");
      assert line + ":" + "" == line + ":" && (line + ":")[..|line|] == line && line[..|line|] == line;
      var name := line + "data";
      assert line + "data:x" == name + ":" + "x";
      ColonAt(name, "x");
      assert (name + ":" + "x")[..|name|] == name && |name| > 4;
    } else {
      var k := Colon(line);
      assert (line + ":")[..k] == line[..k] == (line + "data:x")[..k];
    }
  }

  /** A probe: one message, if it starts its own line. */
  const PROBE := "data:x" + "\n\n"

  lemma ProbeSteps(p: Parser)
    requires !p.atStart
    ensures Parse(p, PROBE) == Dispatch(EndLine(p.(cr := false, line := p.line + "data:x")))
  {
    ProbeIsOnOneLine();
    hide Parse, Dispatch, EndLine, OnOneLine;
    LineAndBlank(p, "data:x");
  }

  lemma ProbeIsOnOneLine()
    ensures OnOneLine("data:x")
  {}

  lemma Dispatched(p: Parser)
    ensures |Dispatch(p).messages| == |p.messages| + if p.data == "" then 0 else 1
    ensures Dispatch(p).data == "" && Dispatch(p).event == ""
    ensures Dispatch(p).line == p.line && Dispatch(p).cr == p.cr && Dispatch(p).atStart == p.atStart
    ensures p.data != "" ==> var m := Dispatch(p).messages[|p.messages|]; m.event == p.event && m.lastEventId == p.id
  {}

  /** Data is pending, or the comment's colon makes it so: the comment's blank line dispatches it too early. */
  lemma PendingDataShows(p: Parser)
    requires !p.atStart && (p.data != "" || FieldName(p.line + ":") == "data")
    ensures Parse(Parse(p, COMMENT), "").messages != Parse(p, "").messages
  {
    var ended := EndLine(p.(cr := false, line := p.line + ":"));
    EndLineKeeps(p.(cr := false, line := p.line + ":"));
    CommentSteps(p);
    Dispatched(ended);
    hide Dispatch, EndLine, FieldName;
    assert Parse(p, "") == p && Parse(Parse(p, COMMENT), "") == Parse(p, COMMENT);
  }

  /** A line is open and holds no data yet: after the comment, the probe starts its own line. */
  lemma OpenLineShows(p: Parser)
    requires !p.atStart && p.line != "" && p.data == "" && FieldName(p.line) != "data"
    ensures Parse(Parse(p, COMMENT), PROBE).messages != Parse(p, PROBE).messages
  {
    NamesOf(p.line);
    var commented, open := p.(cr := false, line := p.line + ":"), p.(cr := false, line := p.line + "data:x");
    CommentSteps(p);
    EndLineKeeps(commented);
    Dispatched(EndLine(commented));
    ProbeSteps(p);
    EndLineKeeps(open);
    Dispatched(EndLine(open));
    hide Parse, Dispatch, EndLine, FieldName;
    ProbeIsAMessage(Parse(p, COMMENT));
  }

  /** Between lines and without data, the probe is one message, of the event type and id named so far. */
  lemma ProbeIsAMessage(p: Parser)
    requires !p.atStart && p.line == "" && p.data == ""
    ensures var ms := Parse(p, PROBE).messages;
      |ms| == |p.messages| + 1 && ms[|p.messages|].event == p.event && ms[|p.messages|].lastEventId == p.id
  {
    var typed := p.(cr := false, line := p.line + "data:x");
    assert p.line + "data:x" == "data" + ":x";
    hide Parse, Dispatch, EndLine, Plain;
    ProbeSteps(p);
    MarkedName();
    EndOfField(typed, "data");
    Dispatched(EndLine(typed));
  }

  /** Only an event type is pending: the comment's blank line forgets it. */
  lemma PendingTypeShows(p: Parser)
    requires !p.atStart && p.line == "" && p.data == "" && p.event != ""
    ensures Parse(Parse(p, COMMENT), PROBE).messages != Parse(p, PROBE).messages
  {
    var commented := p.(cr := false, line := p.line + ":");
    assert p.line + ":" == ":" && Colon(":") == 0 && FieldName(":") == "";
    CommentSteps(p);
    EndLineKeeps(commented);
    Dispatched(EndLine(commented));
    hide Parse, Dispatch, EndLine, FieldName;
    ProbeIsAMessage(p);
    ProbeIsAMessage(Parse(p, COMMENT));
  }

  /** At the very start, a byte order mark to come turns from a mark into a character. */
  lemma MarkToComeShows(p: Parser)
    requires p.atStart && Between(p)
    ensures Parse(Parse(p, COMMENT), [BOM] + PROBE).messages != Parse(p, [BOM] + PROBE).messages
  {
    var begun := p.(atStart := false);
    CommentIsInvisible(p);
    ParseAppends(p, [BOM], PROBE);
    assert Parse(p, [BOM]) == begun by { assert [BOM][..0] == "" && Parse(p, "") == p; }
    hide Parse, Feed;
    ProbeIsAMessage(begun);
    MarkedProbe(Parse(p, COMMENT));
  }

  lemma MarkedProbe(p: Parser)
    requires Between(p) && !p.atStart && !p.cr
    ensures |Parse(p, [BOM] + PROBE).messages| == |p.messages|
  {
    MarkedName();
    assert PROBE == "data" + ":x" + "\n\n";
    OneField(p, [BOM] + "data");
  }

  /** A comment as the stream's first line leaves the start; a parser not yet between events has a line, data or a type pending. */
  lemma StartedBy(p: Parser)
    requires p.atStart
    ensures Parse(p, COMMENT) == Parse(p.(atStart := false), COMMENT)
    ensures Parse(p, PROBE) == Parse(p.(atStart := false), PROBE)
  {
    FirstCharacter(p, COMMENT);
    FirstCharacter(p, PROBE);
  }

  lemma {:induction false} FirstCharacter(p: Parser, s: string)
    requires s != "" && s[0] != BOM
    ensures Parse(p, s) == Parse(p.(atStart := false), s)
  {
    var s' := s[..|s| - 1];
    if s' == "" {
      assert Parse(p, s') == p;
    } else {
      FirstCharacter(p, s');
    }
  }

  /**
    When a comment is invisible: it changes no message of any continuation if
    and only if the stream has begun and the parser is between events.
   */
  lemma HarmlessIff(p: Parser)
    ensures Harmless(p) <==> Between(p) && !p.atStart
  {
    hide Parse, FieldName;
    if Between(p) && !p.atStart {
      CommentIsInvisible(p);
      forall s ensures Parse(Parse(p, COMMENT), s).messages == Parse(p, s).messages {
        ChunkKeepsInStep(p, Parse(p, COMMENT), s);
      }
    } else if Between(p) {
      MarkToComeShows(p);
    } else {
      MidEventShows(p);
    }
  }

  lemma MidEventShows(p: Parser)
    requires !Between(p)
    ensures !Harmless(p)
  {
    var q := p.(atStart := false);
    if p.atStart { StartedBy(p); }
    hide Parse, FieldName;
    if q.line != "" { NamesOf(q.line); }
    if q.data != "" || FieldName(q.line + ":") == "data" {
      PendingDataShows(q);
      NothingMore(p);
    } else if q.line != "" {
      OpenLineShows(q);
    } else {
      PendingTypeShows(q);
    }
  }

  lemma NothingMore(p: Parser)
    ensures Parse(p, "") == p && Parse(p.(atStart := false), "") == p.(atStart := false)
  {}

  // ------------------------------------------------ a mark behind the comment, line by line

  /** Equal but for the reconnection time, which no message shows. */
  ghost predicate SameButRetry(p: Parser, q: Parser) { p.(retry := q.retry) == q }

  lemma FieldSame(p: Parser, q: Parser, name: string, value: string)
    requires SameButRetry(p, q)
    ensures SameButRetry(Field(p, name, value), Field(q, name, value))
  {
    hide AllDigits;
  }

  lemma EndLineSame(p: Parser, q: Parser)
    requires SameButRetry(p, q)
    ensures SameButRetry(EndLine(p), EndLine(q))
  {
    var line := p.line;
    var k := Colon(line);
    if 0 < k {
      var rest := if k < |line| then line[k + 1..] else "";
      FieldSame(p.(line := ""), q.(line := ""), line[..k], if rest != "" && rest[0] == ' ' then rest[1..] else rest);
      assert k == |line| ==> line[..k] == line;
    }
    hide Field, Colon;
  }

  lemma FeedSame(p: Parser, q: Parser, c: char)
    requires SameButRetry(p, q)
    ensures SameButRetry(Feed(p, c), Feed(q, c))
  {
    EndLineSame(p.(atStart := false), q.(atStart := false));
    hide EndLine;
  }

  lemma {:induction false} ParseSame(p: Parser, q: Parser, s: string)
    requires SameButRetry(p, q)
    ensures SameButRetry(Parse(p, s), Parse(q, s))
  {
    hide Feed, SameButRetry;
    if s != "" {
      ParseSame(p, q, s[..|s| - 1]);
      FeedSame(Parse(p, s[..|s| - 1]), Parse(q, s[..|s| - 1]), s[|s| - 1]);
    }
  }

  const BEGUN := NEW.(atStart := false)

  /** The line sets neither data, nor an event type, nor an id. */
  predicate Inert(line: string) {
    var q := EndLine(BEGUN.(line := line));
    q.data == "" && q.event == "" && q.id == ""
  }

  /** A line is read and ended by a line feed. */
  lemma LineEnds(p: Parser, l: string)
    requires !p.atStart && !p.cr && OnOneLine(l)
    ensures Parse(p, l + "\n") == EndLine(p.(line := p.line + l))
  {
    var typed := p.(line := p.line + l);
    TypeLine(p, l);
    ParseAppends(p, l, "\n");
    hide EndLine;
    assert Feed(typed, '\n') == EndLine(typed);
    assert "\n"[..0] == "" && Parse(typed, "") == typed;
  }

  /** A field whose name starts with the mark is none. */
  lemma MarkedLineIsNothing(l: string)
    ensures EndLine(BEGUN.(line := [BOM] + l)) == BEGUN
  {
    var line := [BOM] + l;
    assert line[0] == BOM && Colon(line) > 0;
    assert line[..Colon(line)][0] == BOM;
    hide Colon, AllDigits;
  }

  lemma LineFeedEndsEmpty(p: Parser)
    requires !p.atStart && !p.cr && p.line == ""
    ensures Parse(p, "\n") == Dispatch(p)
  {
    assert "\n"[..0] == "" && Parse(p, "") == p;
    hide Dispatch;
  }

  /** What ending a first line leaves: nothing in the line, and no message. */
  lemma FirstLineEnds(l: string)
    ensures var q := EndLine(BEGUN.(line := l));
      q.line == "" && q.messages == [] && !q.cr && !q.atStart && SameButRetry(q.(data := "", event := "", id := ""), BEGUN)
  {
    hide Colon, AllDigits;
  }

  /** Both streams, from behind their first line on. */
  ghost predicate Indistinct(p: Parser, q: Parser) { forall s :: Parse(p, s).messages == Parse(q, s).messages }

  lemma IndistinctIffInert(l: string)
    ensures Indistinct(EndLine(BEGUN.(line := l)), BEGUN) <==> Inert(l)
  {
    var q := EndLine(BEGUN.(line := l));
    FirstLineEnds(l);
    hide Parse, EndLine;
    if Inert(l) {
      forall s ensures Parse(q, s).messages == Parse(BEGUN, s).messages { ParseSame(q, BEGUN, s); }
    } else if q.data != "" {
      LineFeedEndsEmpty(q);
      LineFeedEndsEmpty(BEGUN);
      Dispatched(q);
      Dispatched(BEGUN);
      hide Dispatch;
      assert Parse(q, "\n").messages != Parse(BEGUN, "\n").messages;
    } else {
      ProbeIsAMessage(q);
      ProbeIsAMessage(BEGUN);
      assert Parse(q, PROBE).messages[0] != Parse(BEGUN, PROBE).messages[0];
    }
  }

  lemma MarkedLineAlone(l: string)
    requires OnOneLine(l)
    ensures Parse(NEW, [BOM] + l + "\n") == EndLine(BEGUN.(line := l))
  {
    MarkIsDropped();
    hide Parse, EndLine;
    assert [BOM] + l + "\n" == [BOM] + (l + "\n");
    ParseAppends(NEW, [BOM], l + "\n");
    LineEnds(BEGUN, l);
    assert BEGUN.line + l == l;
  }

  lemma MarkedLineBehindComment(l: string)
    requires OnOneLine(l)
    ensures Parse(NEW, COMMENT + [BOM] + l + "\n") == BEGUN
  {
    CommentIsInvisible(NEW);
    MarkedLineIsNothing(l);
    var line := [BOM] + l;
    assert OnOneLine(line);
    hide Parse, EndLine, OnOneLine;
    assert Parse(NEW, COMMENT) == BEGUN;
    assert COMMENT + [BOM] + l + "\n" == COMMENT + (line + "\n");
    ParseAppends(NEW, COMMENT, line + "\n");
    LineEnds(BEGUN, line);
    assert BEGUN.line + line == line;
  }

  /**
    A mark behind a comment, exactly: whatever follows its line, the client gets
    the same messages if and only if that line sets neither data, nor an event
    type, nor an id.
   */
  lemma MarkAfterCommentIff(l: string)
    requires OnOneLine(l)
    ensures Indistinct(Parse(NEW, [BOM] + l + "\n"), Parse(NEW, COMMENT + [BOM] + l + "\n")) <==> Inert(l)
  {
    hide *;
    MarkedLineAlone(l);
    MarkedLineBehindComment(l);
    IndistinctIffInert(l);
  }

  // ------------------------------------------------------------------- failing runs

  /** Upstream pauses for KEEPALIVE_MS after the first line of an event of two. */
  const PAUSES := [Chunk(0, "data:x" + "\n"), Tick(2500), Tick(5000), Chunk(5001, PROBE)]

  /** Upstream takes KEEPALIVE_MS to start, and starts with a mark. */
  const MARKED := [Tick(2500), Tick(5000), Chunk(5001, [BOM] + PROBE)]

  lemma PausesOut()
    ensures Timely(0, 5000, PAUSES)
    ensures Upstream(PAUSES, 4) == "data:x" + "\n" + PROBE
    ensures RunAt(0, 5000, PAUSES, 4).out == "data:x" + "\n" + COMMENT + PROBE
  {
    var first := "data:x" + "\n";
    assert "" + first == first && first + "" == first;
    assert Upstream(PAUSES, 1) == first && Upstream(PAUSES, 2) == first && Upstream(PAUSES, 3) == first;
    assert RunAt(0, 5000, PAUSES, 1) == Proxy(0, first);
    assert RunAt(0, 5000, PAUSES, 2) == Proxy(0, first);
    assert RunAt(0, 5000, PAUSES, 3) == Proxy(5000, first + COMMENT);
    assert LastTick(0, PAUSES, 0) == 0 && LastTick(0, PAUSES, 1) == 0 && LastTick(0, PAUSES, 2) == 2500 && LastTick(0, PAUSES, 3) == 5000;
  }

  lemma MarkedOut()
    ensures Timely(0, 5000, MARKED)
    ensures Upstream(MARKED, 3) == [BOM] + PROBE
    ensures RunAt(0, 5000, MARKED, 3).out == COMMENT + ([BOM] + PROBE)
  {
    assert "" + COMMENT == COMMENT && "" + ([BOM] + PROBE) == [BOM] + PROBE;
    assert Upstream(MARKED, 1) == "" && Upstream(MARKED, 2) == "";
    assert RunAt(0, 5000, MARKED, 1) == Proxy(0, "");
    assert RunAt(0, 5000, MARKED, 2) == Proxy(5000, COMMENT);
    assert LastTick(0, MARKED, 0) == 0 && LastTick(0, MARKED, 1) == 2500 && LastTick(0, MARKED, 2) == 5000;
  }

  /** A comment inside an event: upstream sends one message of two lines, the client gets two messages. */
  lemma APauseInsideSplitsAnEvent()
    ensures Timely(0, 5000, PAUSES)
    ensures |Parse(NEW, Upstream(PAUSES, 4)).messages| == 1
    ensures |Parse(NEW, RunAt(0, 5000, PAUSES, 4).out).messages| == 2
  {
    PausesOut();
    var line, typed := "data:x", BEGUN.(line := "data:x");
    hide Parse, RunAt, Upstream, EndLine, Dispatch, Timely;
    FirstCharacter(NEW, line + "\n");
    ProbeIsOnOneLine();
    LineEnds(BEGUN, line);
    MarkedName();
    assert BEGUN.line + line == line == "data" + ":x";
    EndOfField(typed, "data");
    var half := EndLine(typed);
    assert Parse(NEW, line + "\n") == half;
    assert half == BEGUN.(data := "x\n") by { assert "" + "x" + "\n" == "x\n"; }
    ParseAppends(NEW, line + "\n", PROBE);
    ParseAppends(NEW, line + "\n" + COMMENT, PROBE);
    ParseAppends(NEW, line + "\n", COMMENT);
    SecondLineJoins(half);
    CommentDispatches(half);
  }

  lemma SecondLineJoins(p: Parser)
    requires !p.atStart && !p.cr && p.line == "" && p.data != ""
    ensures |Parse(p, PROBE).messages| == |p.messages| + 1
  {
    hide Parse, EndLine, Dispatch;
    var typed := p.(cr := false, line := p.line + "data:x");
    ProbeSteps(p);
    EndLineKeeps(typed);
    Dispatched(EndLine(typed));
  }

  lemma CommentDispatches(p: Parser)
    requires !p.atStart && !p.cr && p.line == "" && p.data != ""
    ensures |Parse(Parse(p, COMMENT), PROBE).messages| == |p.messages| + 2
  {
    hide Parse, EndLine, Dispatch;
    var typed := p.(cr := false, line := p.line + ":");
    CommentSteps(p);
    EndLineKeeps(typed);
    Dispatched(EndLine(typed));
    ProbeIsAMessage(Parse(p, COMMENT));
  }

  /** A comment before a mark: upstream sends a message, the client gets none. */
  lemma ALateMarkLosesAMessage()
    ensures Timely(0, 5000, MARKED)
    ensures |Parse(NEW, Upstream(MARKED, 3)).messages| == 1
    ensures |Parse(NEW, RunAt(0, 5000, MARKED, 3).out).messages| == 0
  {
    MarkedOut();
    assert PROBE == "data" + ":x" + "\n\n";
    hide Parse, RunAt, Upstream, Timely;
    CommentBeforeMarkLosesAMessage();
  }
}
