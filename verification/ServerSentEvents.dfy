/** The event stream as text: what the server writes and what an EventSource reads from it. */
module ServerSentEvents {
  import opened Basics
  import opened Json
  import opened JsonReader
  import opened ObservabilityEntries

  const BOM: char := '\U{feff}'

  // ---------------------------------------------------------------- writing

  /** What the stream yields: an entry's payload, or a keepalive after an idle interval. */
  datatype Chunk = Event(payload: string) | Keepalive

  function FormatServerSentEvent(payload: string): string {
    "data: " + payload + "\n\n"
  }

  function Written(c: Chunk): string {
    match c case Event(payload) => FormatServerSentEvent(payload) case Keepalive => ": keepalive\n\n"
  }

  function Stream(chunks: seq<Chunk>): string {
    if chunks == [] then "" else Written(chunks[0]) + Stream(chunks[1..])
  }

  function Payloads(chunks: seq<Chunk>): seq<string> {
    if chunks == [] then []
    else (if chunks[0].Event? then [chunks[0].payload] else []) + Payloads(chunks[1..])
  }

  // ---------------------------------------------------------------- reading, section 9.2.6 of the WHATWG HTML Standard

  datatype Message = Message(eventType: string, data: string, lastEventId: string)

  /** The parser between two characters: the line read so far, and the buffers. */
  datatype Parser = Parser(
    atStart: bool, afterCr: bool, line: string,
    data: string, eventType: string, lastEventId: string,
    dispatched: seq<Message>)

  function Fresh(): Parser {
    Parser(true, false, "", "", "", "", [])
  }

  function Dispatch(p: Parser): Parser {
    if p.data == "" then p.(eventType := "")
    else
      var body := if p.data[|p.data| - 1] == '\n' then p.data[..|p.data| - 1] else p.data;
      p.(data := "", eventType := "",
         dispatched := p.dispatched +
           [Message(if p.eventType == "" then "message" else p.eventType, body, p.lastEventId)])
  }

  function ProcessField(p: Parser, name: string, value: string): Parser {
    if name == "event" then p.(eventType := value)
    else if name == "data" then p.(data := p.data + value + "\n")
    else if name == "id" then (if '\0' in value then p else p.(lastEventId := value))
    else p
  }

  /** Position of the first colon; the length if there is none. */
  function ColonAt(line: string): (i: nat)
    ensures i <= |line| && (i < |line| ==> line[i] == ':')
  {
    if line == "" || line[0] == ':' then 0 else 1 + ColonAt(line[1..])
  }

  function ProcessLine(p: Parser, line: string): Parser {
    if line == "" then Dispatch(p)
    else if line[0] == ':' then p
    else
      var i := ColonAt(line);
      if i == |line| then ProcessField(p, line, "")
      else
        var value := line[i + 1..];
        ProcessField(p, line[..i], if value != "" && value[0] == ' ' then value[1..] else value)
  }

  /** Lines end at LF, at CR, or at CR LF; a byte order mark at the very start is skipped. */
  function Feed(p: Parser, c: char): Parser {
    if p.atStart && c == BOM then p.(atStart := false)
    else if c == '\n' && p.afterCr then p.(afterCr := false, atStart := false)
    else if c == '\n' || c == '\r' then
      ProcessLine(p.(line := ""), p.line).(afterCr := c == '\r', atStart := false)
    else p.(line := p.line + [c], afterCr := false, atStart := false)
  }

  function FeedAll(p: Parser, s: string): Parser
    decreases |s|
  {
    if s == "" then p else FeedAll(Feed(p, s[0]), s[1..])
  }

  function Decode(s: string): seq<Message> {
    FeedAll(Fresh(), s).dispatched
  }

  // ---------------------------------------------------------------- round trip

  /** Payloads are not empty and contain no line breaks. */
  predicate Framable(chunks: seq<Chunk>) {
    forall i :: 0 <= i < |chunks| && chunks[i].Event? ==> chunks[i].payload != "" && NoBreaks(chunks[i].payload)
  }

  function Messages(payloads: seq<string>): seq<Message> {
    seq(|payloads|, i requires 0 <= i < |payloads| => Message("message", payloads[i], ""))
  }

  /** Between chunks nothing is pending. */
  predicate Idle(p: Parser) {
    !p.afterCr && p.line == "" && p.data == "" && p.eventType == "" && p.lastEventId == ""
  }

  lemma {:induction false} FeedConcat(p: Parser, a: string, b: string)
    ensures FeedAll(p, a + b) == FeedAll(FeedAll(p, a), b)
    decreases |a|
  {
    if a == "" {
      assert a + b == b;
    } else {
      assert (a + b)[0] == a[0] && (a + b)[1..] == a[1..] + b;
      FeedConcat(Feed(p, a[0]), a[1..], b);
    }
  }

  lemma {:induction false} FeedText(p: Parser, s: string)
    requires NoBreaks(s) && s != "" && (p.atStart ==> s[0] != BOM)
    ensures FeedAll(p, s) == p.(line := p.line + s, afterCr := false, atStart := false)
    decreases |s|
  {
    var q := Feed(p, s[0]);
    assert q == p.(line := p.line + [s[0]], afterCr := false, atStart := false);
    if |s| > 1 {
      FeedText(q, s[1..]);
      assert p.line + [s[0]] + s[1..] == p.line + s;
    } else {
      assert s == [s[0]];
    }
  }

  lemma FeedLineFeed(p: Parser)
    requires !p.atStart && !p.afterCr
    ensures FeedAll(p, "\n") == ProcessLine(p.(line := ""), p.line).(afterCr := false, atStart := false)
  {
    assert FeedAll(p, "\n") == FeedAll(Feed(p, '\n'), "");
  }

  lemma ProcessLineFlags(p: Parser, line: string)
    ensures ProcessLine(p, line).atStart == p.atStart && ProcessLine(p, line).line == p.line
  {
    if line == "" {
      DispatchFlags(p);
    } else if line[0] != ':' {
      var i := ColonAt(line);
      if i == |line| {
        FieldFlags(p, line, "");
      } else {
        var value := line[i + 1..];
        FieldFlags(p, line[..i], if value != "" && value[0] == ' ' then value[1..] else value);
      }
    }
  }

  lemma DispatchFlags(p: Parser)
    ensures Dispatch(p).atStart == p.atStart && Dispatch(p).line == p.line
  {
  }

  lemma FieldFlags(p: Parser, name: string, value: string)
    ensures ProcessField(p, name, value).atStart == p.atStart && ProcessField(p, name, value).line == p.line
  {
  }

  /** A line of text, its line feed, and the empty line that dispatches. */
  lemma FeedBlock(p: Parser, text: string)
    requires Idle(p) && NoBreaks(text) && text != "" && text[0] != BOM
    ensures FeedAll(p, text + "\n\n") == Dispatch(ProcessLine(p.(atStart := false), text))
                                          .(line := "", afterCr := false, atStart := false)
  {
    FeedConcat(p, text, "\n\n");
    FeedText(p, text);
    var q := FeedAll(p, text);
    assert p.line + text == text;
    assert q.(line := "") == p.(atStart := false);
    var r := FeedAll(q, "\n");
    FeedConcat(q, "\n", "\n");
    assert "\n" + "\n" == "\n\n";
    FeedLineFeed(q);
    ProcessLineFlags(p.(atStart := false), text);
    FeedLineFeed(r);
  }

  lemma FeedChunk(p: Parser, c: Chunk)
    requires Idle(p) && (c.Event? ==> c.payload != "" && NoBreaks(c.payload))
    ensures Idle(FeedAll(p, Written(c)))
    ensures FeedAll(p, Written(c)).dispatched
         == p.dispatched + MessageOf(c)
  {
    match c
    case Event(payload) =>
      var text := "data: " + payload;
      assert Written(c) == text + "\n\n";
      FeedBlock(p, text);
      DataField(p.(atStart := false), payload);
    case Keepalive =>
      assert Written(c) == ": keepalive" + "\n\n";
      FeedBlock(p, ": keepalive");
  }

  lemma {:induction false} ColonAfter(name: string, value: string)
    requires ':' !in name
    ensures var line := name + (":" + value);
            ColonAt(line) == |name| && line[..|name|] == name && line[|name| + 1..] == value
  {
    var line := name + (":" + value);
    if name == "" {
      assert line[0] == ':';
    } else {
      assert line[0] == name[0] && line[1..] == name[1..] + (":" + value);
      ColonAfter(name[1..], value);
    }
  }

  /** One space behind the colon does not belong to the value. */
  lemma FieldLine(p: Parser, name: string, value: string)
    requires name != "" && ':' !in name
    ensures ProcessLine(p, name + (":" + (" " + value))) == ProcessField(p, name, value)
  {
    var line := name + (":" + (" " + value));
    ColonAfter(name, " " + value);
    assert line != "" && line[0] == name[0];
    assert (" " + value)[1..] == value;
  }

  lemma DataField(p: Parser, payload: string)
    requires p.data == ""
    ensures ProcessLine(p, "data: " + payload) == p.(data := payload + "\n")
  {
    DataLine(payload);
    FieldLine(p, "data", payload);
    assert "" + payload == payload;
  }

  lemma DataLine(payload: string)
    ensures "data: " + payload == "data" + (":" + (" " + payload))
  {
  }

  lemma {:induction false} FeedStream(p: Parser, chunks: seq<Chunk>)
    requires Idle(p) && Framable(chunks)
    ensures FeedAll(p, Stream(chunks)).dispatched == p.dispatched + Messages(Payloads(chunks))
    decreases |chunks|
  {
    if chunks == [] {
      assert p.dispatched + [] == p.dispatched;
    } else {
      var c, rest := chunks[0], chunks[1..];
      FeedConcat(p, Written(c), Stream(rest));
      FeedChunk(p, c);
      FeedStream(FeedAll(p, Written(c)), rest);
      MessagesOnward(p.dispatched, chunks);
    }
  }

  /** The messages of a chunk, in words of what was dispatched before it. */
  function MessageOf(c: Chunk): seq<Message> {
    if c.Event? then [Message("message", c.payload, "")] else []
  }

  lemma MessagesOnward(dispatched: seq<Message>, chunks: seq<Chunk>)
    requires chunks != []
    ensures dispatched + MessageOf(chunks[0]) + Messages(Payloads(chunks[1..]))
         == dispatched + Messages(Payloads(chunks))
  {
    MessagesStep(chunks);
    Reassociated(dispatched, MessageOf(chunks[0]), Messages(Payloads(chunks[1..])));
  }

  lemma Reassociated(a: seq<Message>, b: seq<Message>, c: seq<Message>)
    ensures a + b + c == a + (b + c)
  {
  }

  lemma MessagesCons(payload: string, rest: seq<string>)
    ensures Messages([payload] + rest) == [Message("message", payload, "")] + Messages(rest)
  {
  }

  lemma MessagesStep(chunks: seq<Chunk>)
    requires chunks != []
    ensures Messages(Payloads(chunks))
         == MessageOf(chunks[0]) + Messages(Payloads(chunks[1..]))
  {
    if chunks[0].Event? {
      MessagesCons(chunks[0].payload, Payloads(chunks[1..]));
    } else {
      assert [] + Payloads(chunks[1..]) == Payloads(chunks[1..]);
    }
  }

  /**
   Decoding what the stream wrote yields exactly its payloads, in order and as plain messages, with
   any number of keepalives anywhere between them.
   */
  lemma StreamRoundTrip(chunks: seq<Chunk>)
    requires Framable(chunks)
    ensures Decode(Stream(chunks)) == Messages(Payloads(chunks))
  {
    FeedStream(Fresh(), chunks);
  }

  lemma {:induction false} FeedOnlyAdds(p: Parser, s: string)
    ensures p.dispatched <= FeedAll(p, s).dispatched
    decreases |s|
  {
    if s != "" {
      FeedOnlyAdds(Feed(p, s[0]), s[1..]);
    }
  }

  /** A connection cut after any number of bytes has delivered whole payloads only, without a gap. */
  lemma CutStreamDeliversPrefix(chunks: seq<Chunk>, n: nat)
    requires Framable(chunks)
    requires n <= |Stream(chunks)|
    ensures Decode(Stream(chunks)[..n]) <= Messages(Payloads(chunks))
  {
    var s := Stream(chunks);
    StreamRoundTrip(chunks);
    assert s == s[..n] + s[n..];
    FeedConcat(Fresh(), s[..n], s[n..]);
    FeedOnlyAdds(FeedAll(Fresh(), s[..n]), s[n..]);
  }

  // ---------------------------------------------------------------- the payloads of entries meet the conditions

  function EntryTexts(entries: seq<ObservabilityEntry>): (r: seq<string>)
    ensures |r| == |entries|
  {
    seq(|entries|, i requires 0 <= i < |entries| => EntryText(entries[i]))
  }

  function EventsOf(texts: seq<string>): (r: seq<Chunk>)
    ensures |r| == |texts|
  {
    seq(|texts|, i requires 0 <= i < |texts| => Event(texts[i]))
  }

  lemma {:induction false} PayloadsOfEvents(texts: seq<string>)
    ensures Payloads(EventsOf(texts)) == texts
  {
    if texts != [] {
      assert EventsOf(texts)[1..] == EventsOf(texts[1..]);
      PayloadsOfEvents(texts[1..]);
    }
  }

  lemma EntryTextsArrive(entries: seq<ObservabilityEntry>)
    ensures Decode(Stream(EventsOf(EntryTexts(entries)))) == Messages(EntryTexts(entries))
  {
    var texts := EntryTexts(entries);
    forall i | 0 <= i < |texts| ensures texts[i] != "" && NoBreaks(texts[i]) {
      PayloadTextHasNoBreaks(ToJsonPayload(entries[i], true));
    }
    PayloadsOfEvents(texts);
    StreamRoundTrip(EventsOf(texts));
  }

  /** What the page makes of the messages of a stream: entries, or nothing where the text does not parse. */
  function EntriesRead(messages: seq<Message>): seq<Option<ObservabilityEntry>> {
    seq(|messages|, i requires 0 <= i < |messages| => ReadEntry(messages[i].data))
  }

  /**
   Entry to JSON to event stream and back: the page reads every entry as it was recorded, in order,
   except those with a non-finite float among their cells; in their place it reads nothing.
   */
  lemma EntriesRoundTrip(entries: seq<ObservabilityEntry>)
    ensures var arrived := EntriesRead(Decode(Stream(EventsOf(EntryTexts(entries)))));
            && |arrived| == |entries|
            && forall i :: 0 <= i < |entries| ==>
                 arrived[i] == if Displayable(entries[i]) then Some(entries[i]) else None
  {
    EntryTextsArrive(entries);
    forall i | 0 <= i < |entries|
      ensures ReadEntry(EntryText(entries[i]))
           == if Displayable(entries[i]) then Some(entries[i]) else None
    {
      EntryBackIff(entries[i]);
    }
  }
}
