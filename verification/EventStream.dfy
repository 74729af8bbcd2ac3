/** Output events on one line each: the writer that cuts text into lines, and the reader that
    puts lines together again (sandbox_runtime/kernel_server.py, app/executor.py). */
module EventStream {
  import opened Basics
  import JsonText

  // ---------- Lines ----------

  /** Text without a newline. */
  predicate Plain(s: string) {
    forall i :: 0 <= i < |s| ==> s[i] != '\n'
  }

  /** A line and what comes after it. */
  function Join(line: string, rest: string): string {
    line + "\n" + rest
  }

  /** The position of the first newline, or the length. */
  function Newline(s: string): (k: nat)
    ensures k <= |s|
    ensures forall i :: 0 <= i < k ==> s[i] != '\n'
    ensures k < |s| ==> s[k] == '\n'
  {
    if s == "" || s[0] == '\n' then 0 else Newline(s[1..]) + 1
  }

  /** The complete lines, each with its newline. */
  function Lines(s: string): seq<string>
    decreases |s|
  {
    var k := Newline(s);
    if k == |s| then [] else [s[..k] + "\n"] + Lines(s[k + 1..])
  }

  /** What follows the last newline. */
  function Rest(s: string): (r: string)
    ensures Plain(r)
    decreases |s|
  {
    var k := Newline(s);
    if k == |s| then s else Rest(s[k + 1..])
  }

  predicate IsLine(s: string) {
    s != "" && s[|s| - 1] == '\n' && Plain(s[..|s| - 1])
  }

  /** A text is plain, or a first line and the rest. */
  lemma FirstLine(s: string) returns (line: string, rest: string)
    requires !Plain(s)
    ensures Plain(line) && s == Join(line, rest) && |rest| < |s|
  {
    var k := Newline(s);
    line, rest := s[..k], s[k + 1..];
  }

  lemma NewlineOfJoin(line: string, rest: string)
    requires Plain(line)
    ensures Newline(Join(line, rest)) == |line|
    ensures Join(line, rest)[..|line|] == line && Join(line, rest)[|line| + 1..] == rest
  {
    var s := Join(line, rest);
    assert forall i :: 0 <= i < |line| ==> s[i] == line[i];
    assert s[|line|] == '\n';
  }

  lemma PlainCuts(s: string)
    requires Plain(s)
    ensures Newline(s) == |s| && Lines(s) == [] && Rest(s) == s
  {}

  lemma JoinCuts(line: string, rest: string)
    requires Plain(line)
    ensures Lines(Join(line, rest)) == [line + "\n"] + Lines(rest)
    ensures Rest(Join(line, rest)) == Rest(rest)
  {
    NewlineOfJoin(line, rest);
  }

  lemma JoinAppend(line: string, rest: string, b: string)
    ensures Join(line, rest) + b == Join(line, rest + b)
  {}

  /** Cutting into lines loses nothing, and every line ends in its only newline. */
  lemma {:induction false} LinesAndRest(s: string)
    ensures Concat(Lines(s)) + Rest(s) == s
    ensures forall l :: l in Lines(s) ==> IsLine(l)
    decreases |s|
  {
    hide Lines, Rest, Concat, Newline, Join, Plain;
    if Plain(s) {
      PlainCuts(s);
      Empty();
      assert "" + s == s;
    } else {
      var line, rest := FirstLine(s);
      LinesAndRest(rest);
      JoinCuts(line, rest);
      ConcatOne(line + "\n", Lines(rest));
      Assoc(line + "\n", Concat(Lines(rest)), Rest(rest));
      assert Join(line, rest) == line + "\n" + rest by { LineJoined(line, rest); }
      assert IsLine(line + "\n") by { LineIsLine(line); }
    }
  }

  lemma Empty()
    ensures Concat<char>([]) == "" && Lines("") == [] && Rest("") == ""
  {}

  lemma LineJoined(line: string, rest: string)
    ensures Join(line, rest) == line + "\n" + rest
  {}

  lemma LineIsLine(line: string)
    requires Plain(line)
    ensures IsLine(line + "\n")
  {
    assert (line + "\n")[..|line|] == line;
  }

  /** Text may arrive in any pieces. */
  lemma {:induction false} LinesAppend(a: string, b: string)
    ensures Lines(a + b) == Lines(a) + Lines(Rest(a) + b)
    ensures Rest(a + b) == Rest(Rest(a) + b)
    decreases |a|
  {
    hide Lines, Rest, Join, Plain;
    if Plain(a) {
      PlainCuts(a);
    } else {
      var line, rest := FirstLine(a);
      LinesAppend(rest, b);
      JoinCuts(line, rest);
      JoinAppend(line, rest, b);
      JoinCuts(line, rest + b);
    }
  }

  // ---------- The writer ----------

  /** `emitted` are the texts of the events sent so far. */
  class StreamingEventWriter {
    var buffer: string
    var emitted: seq<string>

    ghost predicate Valid()
      reads this
    {
      Plain(buffer)
    }

    constructor ()
      ensures Valid() && buffer == "" && emitted == []
    {
      buffer, emitted := "", [];
    }

    method Write(text: string) returns (n: nat)
      requires Valid()
      modifies this
      ensures emitted == old(emitted) + Lines(old(buffer) + text)
      ensures buffer == Rest(old(buffer) + text)
      ensures n == |text| && Valid()
    {
      hide Lines, Rest, Join;
      buffer := buffer + text;
      ghost var all := buffer;
      var k := Newline(buffer);
      while k < |buffer|
        invariant k == Newline(buffer)
        invariant emitted + Lines(buffer) == old(emitted) + Lines(all)
        invariant Rest(buffer) == Rest(all)
        decreases |buffer|
      {
        var line, rest := buffer[..k], buffer[k + 1..];
        assert buffer == Join(line, rest) by { LineJoined(line, rest); }
        JoinCuts(line, rest);
        AppendOne(emitted, line + "\n", Lines(rest));
        emitted := emitted + [line + "\n"];
        buffer := rest;
        k := Newline(buffer);
      }
      PlainCuts(buffer);
      n := |text|;
    }

    method Flush()
      requires Valid()
      modifies this
      ensures emitted == if old(buffer) == "" then old(emitted) else old(emitted) + [old(buffer)]
      ensures buffer == "" && Valid()
    {
      if buffer != "" {
        emitted := emitted + [buffer];
        buffer := "";
      }
    }
  }

  datatype WriterOp = Write(text: string) | Flush

  datatype Writer = Writer(buffer: string, emitted: seq<string>)

  function Apply(w: Writer, op: WriterOp): Writer {
    match op
    case Write(text) => Writer(Rest(w.buffer + text), w.emitted + Lines(w.buffer + text))
    case Flush => Writer("", if w.buffer == "" then w.emitted else w.emitted + [w.buffer])
  }

  function Run(w: Writer, ops: seq<WriterOp>): Writer
    decreases |ops|
  {
    if ops == [] then w else Run(Apply(w, ops[0]), ops[1..])
  }

  function Text(ops: seq<WriterOp>): string {
    if ops == [] then "" else (if ops[0].Write? then ops[0].text else "") + Text(ops[1..])
  }

  lemma ApplyKeepsText(w: Writer, op: WriterOp)
    ensures Concat(Apply(w, op).emitted) + Apply(w, op).buffer == Concat(w.emitted) + w.buffer + (if op.Write? then op.text else "")
  {
    hide Concat, Lines, Rest;
    match op
    case Write(text) =>
      LinesAndRest(w.buffer + text);
      ConcatPlus(w.emitted, Lines(w.buffer + text));
      Assoc(Concat(w.emitted), Concat(Lines(w.buffer + text)), Rest(w.buffer + text));
      Assoc(Concat(w.emitted), w.buffer, text);
    case Flush =>
      ConcatPlus(w.emitted, [w.buffer]);
      ConcatOne(w.buffer, []);
  }

  /** However writes and flushes follow each other, the emitted texts and the buffer make up
      everything that was written. */
  lemma {:induction false} NothingLost(w: Writer, ops: seq<WriterOp>)
    ensures Concat(Run(w, ops).emitted) + Run(w, ops).buffer == Concat(w.emitted) + w.buffer + Text(ops)
    decreases |ops|
  {
    hide Concat, Apply;
    if ops == [] {
      assert Concat(w.emitted) + w.buffer + "" == Concat(w.emitted) + w.buffer;
    } else {
      ApplyKeepsText(w, ops[0]);
      NothingLost(Apply(w, ops[0]), ops[1..]);
      Assoc(Concat(w.emitted) + w.buffer, if ops[0].Write? then ops[0].text else "", Text(ops[1..]));
    }
  }

  /** At most one newline, and that at the end; and never empty. */
  predicate OnePiece(text: string) {
    text != "" && Plain(text[..|text| - 1])
  }

  /** Whatever is written and flushed, no emitted text is empty or goes beyond the end of a line. */
  lemma {:induction false} EmitsPieces(w: Writer, ops: seq<WriterOp>)
    requires Plain(w.buffer) && forall t :: t in w.emitted ==> OnePiece(t)
    ensures Plain(Run(w, ops).buffer) && forall t :: t in Run(w, ops).emitted ==> OnePiece(t)
    decreases |ops|
  {
    if ops != [] {
      var all := w.buffer + if ops[0].Write? then ops[0].text else "";
      LinesAndRest(all);
      forall t | t in Lines(all) ensures OnePiece(t) {
      }
      EmitsPieces(Apply(w, ops[0]), ops[1..]);
    }
  }

  predicate NoFlush(ops: seq<WriterOp>) {
    forall i :: 0 <= i < |ops| ==> ops[i].Write?
  }

  /** Without a flush in between, only the text counts, not how it was cut into writes. */
  lemma {:induction false} BoundariesDoNotMatter(w: Writer, ops: seq<WriterOp>)
    requires NoFlush(ops) && Plain(w.buffer)
    ensures Run(w, ops) == Apply(w, Write(Text(ops)))
    decreases |ops|
  {
    hide Lines, Rest, Plain;
    if ops == [] {
      PlainCuts(w.buffer);
      assert w.buffer + "" == w.buffer;
    } else {
      var t, rest := ops[0].text, ops[1..];
      assert forall i :: 0 <= i < |rest| ==> rest[i] == ops[i + 1];
      BoundariesDoNotMatter(Apply(w, ops[0]), rest);
      LinesAppend(w.buffer + t, Text(rest));
      Assoc(w.buffer, t, Text(rest));
    }
  }

  lemma AppendOne<T>(a: seq<T>, x: T, b: seq<T>)
    ensures a + ([x] + b) == (a + [x]) + b
  {}

  // ---------- The reader ----------

  /** How events are written on a line, and how a line is read. */
  datatype Codec<!E(!new)> = Codec(enc: E -> string, dec: string -> Option<E>) {
    /** What the reader relies on: one line, not blank, that reads back. */
    ghost predicate Ok() {
      forall e :: OneLine(enc(e)) && dec(enc(e)) == Some(e)
    }
  }

  predicate OneLine(s: string) {
    Plain(s) && !Blank(s)
  }

  /** `not line.strip()`. */
  predicate Blank(s: string) {
    forall c :: c in s ==> IsSpace(c)
  }

  /** What the reader hands on: an event, or text that is not one. */
  datatype Item<E> = Event(e: E) | Stdout(text: string)

  function ReadLine<E(!new)>(codec: Codec<E>, line: string, end: string): seq<Item<E>> {
    if Blank(line) then []
    else
      match codec.dec(line)
      case Some(e) => [Event(e)]
      case None => [Stdout(line + end)]
  }

  /** Everything that comes out of a text, as if it had arrived in one piece. */
  function Parse<E(!new)>(codec: Codec<E>, s: string): seq<Item<E>>
    decreases |s|
  {
    var k := Newline(s);
    if k == |s| then ReadLine(codec, s, "")
    else ReadLine(codec, s[..k], "\n") + Parse(codec, s[k + 1..])
  }

  /** The items of the complete lines only. */
  function ParseLines<E(!new)>(codec: Codec<E>, s: string): seq<Item<E>>
    decreases |s|
  {
    var k := Newline(s);
    if k == |s| then [] else ReadLine(codec, s[..k], "\n") + ParseLines(codec, s[k + 1..])
  }

  lemma PlainParses<E(!new)>(codec: Codec<E>, s: string)
    requires Plain(s)
    ensures Parse(codec, s) == ReadLine(codec, s, "") && ParseLines(codec, s) == []
  {
    PlainCuts(s);
  }

  lemma JoinParses<E(!new)>(codec: Codec<E>, line: string, rest: string)
    requires Plain(line)
    ensures Parse(codec, Join(line, rest)) == ReadLine(codec, line, "\n") + Parse(codec, rest)
    ensures ParseLines(codec, Join(line, rest)) == ReadLine(codec, line, "\n") + ParseLines(codec, rest)
  {
    NewlineOfJoin(line, rest);
  }

  lemma {:induction false} ParseIsLinesAndTail<E(!new)>(codec: Codec<E>, s: string)
    ensures Parse(codec, s) == ParseLines(codec, s) + ReadLine(codec, Rest(s), "")
    decreases |s|
  {
    hide Parse, ParseLines, Rest, Join, Plain, ReadLine;
    if Plain(s) {
      PlainParses(codec, s);
      PlainCuts(s);
    } else {
      var line, rest := FirstLine(s);
      JoinParses(codec, line, rest);
      JoinCuts(line, rest);
      ParseIsLinesAndTail(codec, rest);
    }
  }

  lemma {:induction false} ParseLinesAppend<E(!new)>(codec: Codec<E>, a: string, b: string)
    ensures ParseLines(codec, a + b) == ParseLines(codec, a) + ParseLines(codec, Rest(a) + b)
    decreases |a|
  {
    hide ParseLines, Rest, Join, Plain, ReadLine;
    if Plain(a) {
      PlainParses(codec, a);
      PlainCuts(a);
    } else {
      var line, rest := FirstLine(a);
      ParseLinesAppend(codec, rest, b);
      JoinCuts(line, rest);
      JoinParses(codec, line, rest);
      JoinAppend(line, rest, b);
      JoinParses(codec, line, rest + b);
    }
  }

  lemma ChunkStep(chunks: seq<string>, i: nat)
    requires i < |chunks|
    ensures Concat(chunks[..i + 1]) == Concat(chunks[..i]) + chunks[i]
  {
    assert chunks[..i + 1] == chunks[..i] + [chunks[i]];
    ConcatPlus(chunks[..i], [chunks[i]]);
    ConcatOne(chunks[i], []);
  }

  /** The loop of `stream_in_container` over the chunks of standard output. */
  method ReadStream<E(!new)>(codec: Codec<E>, chunks: seq<string>) returns (items: seq<Item<E>>)
    ensures items == Parse(codec, Concat(chunks))
  {
    items := [];
    var buffer := "";
    var i := 0;
    Empty();
    assert chunks[..0] == [];
    PlainParses(codec, "");
    hide Parse, ParseLines, Rest, Plain, ReadLine, Concat;
    while i < |chunks|
      invariant 0 <= i <= |chunks|
      invariant items == ParseLines(codec, Concat(chunks[..i]))
      invariant buffer == Rest(Concat(chunks[..i]))
    {
      ghost var before := Concat(chunks[..i]);
      ChunkStep(chunks, i);
      if chunks[i] == "" {
        assert before + "" == before;
      } else {
        ParseLinesAppend(codec, before, chunks[i]);
        LinesAppend(before, chunks[i]);
        var more;
        more, buffer := TakeLines(codec, buffer + chunks[i]);
        items := items + more;
      }
      i := i + 1;
    }
    assert chunks[..i] == chunks;
    ParseIsLinesAndTail(codec, Concat(chunks));
    items := items + ReadLine(codec, buffer, "");
  }

  /** The inner loop: the items of the complete lines, and what is left in the buffer. */
  method TakeLines<E(!new)>(codec: Codec<E>, text: string) returns (items: seq<Item<E>>, buffer: string)
    ensures items == ParseLines(codec, text) && buffer == Rest(text)
  {
    hide ParseLines, Rest, Join, ReadLine;
    items, buffer := [], text;
    var k := Newline(buffer);
    while k < |buffer|
      invariant k == Newline(buffer)
      invariant items + ParseLines(codec, buffer) == ParseLines(codec, text)
      invariant Rest(buffer) == Rest(text)
      decreases |buffer|
    {
      var line, rest := buffer[..k], buffer[k + 1..];
      assert buffer == Join(line, rest) by { LineJoined(line, rest); }
      JoinParses(codec, line, rest);
      JoinCuts(line, rest);
      assert items + (ReadLine(codec, line, "\n") + ParseLines(codec, rest)) == (items + ReadLine(codec, line, "\n")) + ParseLines(codec, rest);
      items := items + ReadLine(codec, line, "\n");
      buffer := rest;
      k := Newline(buffer);
    }
    PlainParses(codec, buffer);
    PlainCuts(buffer);
  }

  // ---------- There and back ----------

  /** What the kernel sends for a list of events. */
  function Sent<E(!new)>(codec: Codec<E>, events: seq<E>): string {
    if events == [] then "" else codec.enc(events[0]) + "\n" + Sent(codec, events[1..])
  }

  function AsItems<E>(events: seq<E>): (r: seq<Item<E>>)
    ensures |r| == |events|
  {
    seq(|events|, i requires 0 <= i < |events| => Event(events[i]))
  }

  lemma ParseSentLine<E(!new)>(codec: Codec<E>, e: E, rest: string)
    requires codec.Ok()
    ensures Parse(codec, Join(codec.enc(e), rest)) == [Event(e)] + Parse(codec, rest)
  {
    assert OneLine(codec.enc(e)) && codec.dec(codec.enc(e)) == Some(e);
    hide Parse, Join;
    JoinParses(codec, codec.enc(e), rest);
  }

  lemma SentJoin<E(!new)>(codec: Codec<E>, events: seq<E>, tail: string)
    requires events != []
    ensures Sent(codec, events) + tail == Join(codec.enc(events[0]), Sent(codec, events[1..]) + tail)
  {}

  lemma AsItemsStep<E>(events: seq<E>)
    ensures AsItems(events) == if events == [] then [] else [Event(events[0])] + AsItems(events[1..])
  {}

  lemma {:induction false} ParseSent<E(!new)>(codec: Codec<E>, events: seq<E>, tail: string)
    requires codec.Ok()
    ensures Parse(codec, Sent(codec, events) + tail) == AsItems(events) + Parse(codec, tail)
  {
    hide Parse, Join, AsItems;
    AsItemsStep(events);
    if events == [] {
      assert Sent(codec, events) + tail == tail;
    } else {
      hide Sent;
      var e, rest := events[0], events[1..];
      ParseSent(codec, rest, tail);
      SentJoin(codec, events, tail);
      ParseSentLine(codec, e, Sent(codec, rest) + tail);
      assert ([Event(e)] + AsItems(rest)) + Parse(codec, tail) == [Event(e)] + (AsItems(rest) + Parse(codec, tail));
    }
  }

  /** However the stream is cut into chunks, the reader yields exactly the events sent. */
  lemma ChunksDoNotMatter<E(!new)>(codec: Codec<E>, events: seq<E>, chunks: seq<string>)
    requires codec.Ok() && Concat(chunks) == Sent(codec, events)
    ensures Parse(codec, Concat(chunks)) == AsItems(events)
  {
    ParseSent(codec, events, "");
    assert Sent(codec, events) + "" == Sent(codec, events);
    PlainParses(codec, "");
  }

  /** A stream that breaks off inside the line of event e still yields everything before it,
      and at most one more item for the broken line. */
  lemma BrokenOff<E(!new)>(codec: Codec<E>, events: seq<E>, e: E, n: nat)
    requires codec.Ok() && n <= |codec.enc(e)|
    ensures var items := Parse(codec, Sent(codec, events) + codec.enc(e)[..n]);
            && |events| <= |items| <= |events| + 1
            && items[..|events|] == AsItems(events)
            && (n == |codec.enc(e)| ==> items == AsItems(events + [e]))
  {
    var line := codec.enc(e);
    assert OneLine(line) && codec.dec(line) == Some(e);
    hide Parse, Sent;
    ParseSent(codec, events, line[..n]);
    PlainParses(codec, line[..n]);
    assert |ReadLine(codec, line[..n], "")| <= 1;
    if n == |line| {
      assert line[..n] == line;
      assert AsItems(events + [e]) == AsItems(events) + [Event(e)];
    }
  }

  /** Events whose members are strings, as the source writes them: the codec contract can be met,
      whatever the members contain. */
  function EventCodec(): Codec<seq<JsonText.Member>> {
    Codec(JsonText.EncodeObject, JsonText.DecodeObject)
  }

  lemma EventCodecOk()
    ensures EventCodec().Ok()
  {
    hide JsonText.DecodeObject;
    forall e: seq<JsonText.Member> ensures OneLine(JsonText.EncodeObject(e)) && JsonText.DecodeObject(JsonText.EncodeObject(e)) == Some(e) {
      JsonText.ObjectRoundTrip(e);
      assert JsonText.EncodeObject(e)[0] == '{';
      assert '{' in JsonText.EncodeObject(e) && !IsSpace('{');
    }
  }

  /** The events of emitted texts: their type is the name of the stream. */
  function TextEvents(stream: string, texts: seq<string>): (r: seq<seq<JsonText.Member>>)
    ensures |r| == |texts|
  {
    seq(|texts|, i requires 0 <= i < |texts| => [JsonText.Member("type", stream), JsonText.Member("text", texts[i])])
  }

  lemma FlushEmpties(w: Writer)
    ensures Apply(w, Flush).buffer == ""
  {}

  /** From the program's writes to the gateway: flush at the end, cut the stream anywhere, and the
      reader yields the text events one by one; their texts make up all that was written. */
  lemma EndToEnd(stream: string, ops: seq<WriterOp>, chunks: seq<string>)
    requires Concat(chunks) == Sent(EventCodec(), TextEvents(stream, Apply(Run(Writer("", []), ops), Flush).emitted))
    ensures var texts := Apply(Run(Writer("", []), ops), Flush).emitted;
            && Parse(EventCodec(), Concat(chunks)) == AsItems(TextEvents(stream, texts))
            && Concat(texts) == Text(ops)
  {
    hide Parse, Sent, Concat, Run, Apply, JsonText.EncodeObject, JsonText.DecodeObject, TextEvents;
    EventCodecOk();
    var done := Run(Writer("", []), ops);
    ChunksDoNotMatter(EventCodec(), TextEvents(stream, Apply(done, Flush).emitted), chunks);
    NothingLost(Writer("", []), ops);
    ApplyKeepsText(done, Flush);
    FlushEmpties(done);
    Empty();
    assert Concat([]) + "" + Text(ops) == Text(ops);
    assert Concat(Apply(done, Flush).emitted) + "" == Concat(Apply(done, Flush).emitted);
    assert Concat(done.emitted) + done.buffer + "" == Concat(done.emitted) + done.buffer;
  }
}
