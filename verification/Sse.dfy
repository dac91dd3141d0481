/**
 indexer/src/events.ts: `formatSseFrame`, read back as sections 9.2.5 and 9.2.6 of the HTML
 Standard (parsing and interpreting an event stream) prescribe.
 */
module Sse {
  import opened Decimal
  import opened Strings
  import opened Wrappers

  datatype Frame = Frame(id: Option<string>, event: Option<string>, retry: Option<int>, data: string)

  // ---------- writing ----------

  /** The pieces between the line feeds. */
  function SplitLines(s: string): (lines: seq<string>)
    ensures lines != []
    decreases |s|
  {
    var i := IndexOf(s, '\n');
    if i == |s| then [s] else [s[..i]] + SplitLines(s[i + 1..])
  }

  function FieldLine(name: string, value: string): string { name + ": " + value + "\n" }

  function DataLines(lines: seq<string>): string {
    if lines == [] then "" else DataLines(lines[..|lines| - 1]) + FieldLine("data", lines[|lines| - 1])
  }

  function Optional(name: string, value: Option<string>): string {
    if value.Some? then FieldLine(name, value.value) else ""
  }

  function RetryText(retry: Option<int>): Option<string> {
    if retry.Some? then Some(IntToString(retry.value)) else None
  }

  function FrameText(frame: Frame): string {
    Optional("id", frame.id) + (Optional("event", frame.event) + (Optional("retry", RetryText(frame.retry))
      + (DataLines(SplitLines(frame.data)) + "\n")))
  }

  // ---------- reading: sections 9.2.5 and 9.2.6 of the HTML Standard ----------

  datatype Message = Message(kind: string, data: string, lastEventId: string)

  /** The buffers of an event source and its reconnection time, when a server has set one. */
  datatype Client = Client(data: string, kind: string, lastEventId: string, retry: Option<nat>)

  datatype Outcome = Outcome(client: Client, messages: seq<Message>)

  predicate EndsLine(c: char) { c == '\r' || c == '\n' }

  function LineLength(s: string): (n: nat)
    ensures n <= |s| && (forall j :: 0 <= j < n ==> !EndsLine(s[j])) && (n < |s| ==> EndsLine(s[n]))
  {
    if s == "" || EndsLine(s[0]) then 0 else 1 + LineLength(s[1..])
  }

  function ProcessField(client: Client, name: string, value: string): Client {
    if name == "event" then client.(kind := value)
    else if name == "data" then client.(data := client.data + value + "\n")
    else if name == "id" then
      if exists i :: 0 <= i < |value| && value[i] == '\0' then client else client.(lastEventId := value)
    else if name == "retry" then
      if value != "" && AllDigits(value) then client.(retry := Some(ParseNat(value))) else client
    else client
  }

  function Dispatch(client: Client): Outcome {
    var cleared := client.(data := "", kind := "");
    if client.data == "" then Outcome(cleared, [])
    else
      var last := |client.data| - 1;
      var data := if client.data[last] == '\n' then client.data[..last] else client.data;
      Outcome(cleared, [Message(if client.kind == "" then "message" else client.kind, data, client.lastEventId)])
  }

  function TakeLine(client: Client, line: string): Outcome {
    if line == "" then Dispatch(client)
    else if line[0] == ':' then Outcome(client, [])
    else
      var colon := IndexOf(line, ':');
      if colon == |line| then Outcome(ProcessField(client, line, ""), [])
      else
        var value := line[colon + 1..];
        Outcome(ProcessField(client, line[..colon], if value != "" && value[0] == ' ' then value[1..] else value), [])
  }

  /** Everything up to the last line end is interpreted; text after it is discarded. */
  function Interpret(client: Client, s: string): Outcome
    decreases |s|
  {
    var n := LineLength(s);
    if n == |s| then Outcome(client, [])
    else
      var rest := if s[n] == '\r' && n + 1 < |s| && s[n + 1] == '\n' then s[n + 2..] else s[n + 1..];
      var first := TakeLine(client, s[..n]);
      var others := Interpret(first.client, rest);
      Outcome(others.client, first.messages + others.messages)
  }

  // ---------- one line ----------

  predicate NoCharacter(s: string, c: char) { forall i :: 0 <= i < |s| ==> s[i] != c }

  predicate OneLine(s: string) { forall i :: 0 <= i < |s| ==> !EndsLine(s[i]) }

  function After(first: Outcome, rest: string): Outcome {
    var others := Interpret(first.client, rest);
    Outcome(others.client, first.messages + others.messages)
  }

  lemma LineIsTaken(client: Client, line: string, rest: string)
    requires OneLine(line)
    ensures Interpret(client, line + "\n" + rest) == After(TakeLine(client, line), rest)
  {
    hide TakeLine;
    var s := line + "\n" + rest;
    assert s[|line|] == '\n';
    assert forall j :: 0 <= j < |line| ==> s[j] == line[j];
    assert LineLength(s) == |line|;
    assert s[..|line|] == line && s[|line| + 1..] == rest;
  }

  predicate FieldName(name: string) { name in {"id", "event", "retry", "data"} }

  lemma FieldIsTaken(client: Client, name: string, value: string)
    requires FieldName(name) && OneLine(value)
    ensures OneLine(name + ": " + value)
    ensures TakeLine(client, name + ": " + value) == Outcome(ProcessField(client, name, value), [])
  {
    hide ProcessField;
    var line := name + ": " + value;
    assert forall i :: |name| + 2 <= i < |line| ==> line[i] == value[i - |name| - 2];
    assert line[..|name|] == name && line[|name|] == ':' && line[|name| + 1] == ' ';
    assert IndexOf(line, ':') == |name|;
    assert line[|name| + 1..][1..] == value;
  }

  lemma FieldIsProcessed(client: Client, name: string, value: string, rest: string)
    requires FieldName(name) && OneLine(value)
    ensures Interpret(client, FieldLine(name, value) + rest) == Interpret(ProcessField(client, name, value), rest)
  {
    hide ProcessField, Interpret, TakeLine, FieldName, OneLine;
    var line := name + ": " + value;
    FieldIsTaken(client, name, value);
    LineIsTaken(client, line, rest);
    assert FieldLine(name, value) + rest == line + "\n" + rest;
  }

  lemma OptionalIsProcessed(client: Client, name: string, value: Option<string>, rest: string)
    requires FieldName(name) && (value.Some? ==> OneLine(value.value))
    ensures Interpret(client, Optional(name, value) + rest)
            == Interpret(if value.Some? then ProcessField(client, name, value.value) else client, rest)
  {
    hide ProcessField, Interpret;
    if value.Some? {
      FieldIsProcessed(client, name, value.value, rest);
    } else {
      assert "" + rest == rest;
    }
  }

  // ---------- the data lines ----------

  /** The lines, each followed by a line feed. */
  function Unsplit(lines: seq<string>): string {
    if lines == [] then "" else Unsplit(lines[..|lines| - 1]) + lines[|lines| - 1] + "\n"
  }

  lemma UnsplitLast(lines: seq<string>, line: string)
    ensures Unsplit(lines + [line]) == Unsplit(lines) + line + "\n"
  {
    assert (lines + [line])[..|lines|] == lines;
  }

  lemma {:induction false} UnsplitFront(lines: seq<string>)
    requires lines != []
    ensures Unsplit(lines) == lines[0] + "\n" + Unsplit(lines[1..])
  {
    hide Unsplit;
    var n := |lines| - 1;
    var front, last := lines[..n], lines[n];
    assert lines == front + [last];
    UnsplitLast(front, last);
    NoLines();
    if n > 0 {
      UnsplitFront(front);
      assert lines[1..] == front[1..] + [last];
      UnsplitLast(front[1..], last);
    } else {
      assert front == [] && lines[1..] == [];
    }
  }

  lemma {:induction false} SplitThenUnsplit(s: string)
    ensures Unsplit(SplitLines(s)) == s + "\n"
    decreases |s|
  {
    hide Unsplit;
    var i := IndexOf(s, '\n');
    if i == |s| {
      UnsplitFront([s]);
      assert [s][1..] == [] && Unsplit([]) == "" by { NoLines(); }
    } else {
      var others := SplitLines(s[i + 1..]);
      SplitThenUnsplit(s[i + 1..]);
      UnsplitFront([s[..i]] + others);
      assert ([s[..i]] + others)[1..] == others;
    }
  }

  lemma NoLines()
    ensures Unsplit([]) == ""
  {
  }

  lemma {:induction false} SplitIntoLines(s: string)
    requires NoCharacter(s, '\r')
    ensures forall k :: 0 <= k < |SplitLines(s)| ==> OneLine(SplitLines(s)[k])
    decreases |s|
  {
    var i := IndexOf(s, '\n');
    if i < |s| { SplitIntoLines(s[i + 1..]); }
  }

  lemma {:induction false} DataIsCollected(client: Client, lines: seq<string>, rest: string)
    requires forall k :: 0 <= k < |lines| ==> OneLine(lines[k])
    ensures Interpret(client, DataLines(lines) + rest) == Interpret(client.(data := client.data + Unsplit(lines)), rest)
    decreases |lines|
  {
    hide Interpret, OneLine, FieldLine;
    if lines == [] {
      assert client.data + "" == client.data;
      assert DataLines(lines) + rest == rest;
    } else {
      var n := |lines| - 1;
      var tail := FieldLine("data", lines[n]) + rest;
      DataIsCollected(client, lines[..n], tail);
      assert DataLines(lines) + rest == DataLines(lines[..n]) + tail;
      var before := client.(data := client.data + Unsplit(lines[..n]));
      FieldIsProcessed(before, "data", lines[n], rest);
      assert before.data + lines[n] + "\n" == client.data + Unsplit(lines);
    }
  }

  // ---------- one frame ----------

  /** What a frame must avoid to survive: line ends in its name and id, NUL in its id, carriage
      returns in its data. */
  predicate Safe(frame: Frame) {
    && NoCharacter(frame.data, '\r')
    && (frame.id.Some? ==> OneLine(frame.id.value) && NoCharacter(frame.id.value, '\0'))
    && (frame.event.Some? ==> OneLine(frame.event.value))
  }

  function IdAfter(frame: Frame, lastEventId: string): string {
    if frame.id.Some? then frame.id.value else lastEventId
  }

  /** The event a frame stands for. */
  function Meaning(frame: Frame, lastEventId: string): Message {
    Message(if frame.event.Some? && frame.event.value != "" then frame.event.value else "message",
            frame.data, IdAfter(frame, lastEventId))
  }

  function RetryAfter(frame: Frame, retry: Option<nat>): Option<nat> {
    if frame.retry.Some? && frame.retry.value >= 0 then Some(frame.retry.value) else retry
  }

  /** A client between events. */
  function Idle(lastEventId: string, retry: Option<nat>): Client { Client("", "", lastEventId, retry) }

  lemma RetryIsRead(client: Client, n: int)
    ensures OneLine(IntToString(n))
    ensures ProcessField(client, "retry", IntToString(n)) == if n >= 0 then client.(retry := Some(n)) else client
  {
    if n >= 0 {
      ParseNatToString(n);
    } else {
      assert IntToString(n)[0] == '-';
    }
  }

  lemma IdIsRead(client: Client, id: string)
    ensures ProcessField(client, "id", id) == if NoCharacter(id, '\0') then client.(lastEventId := id) else client
  {
    assert NoCharacter(id, '\0') <==> !exists i :: 0 <= i < |id| && id[i] == '\0';
  }

  /** A frame followed by anything dispatches its own event and leaves the client idle. */
  lemma FrameIsRead(frame: Frame, lastEventId: string, retry: Option<nat>, rest: string)
    requires Safe(frame)
    ensures Interpret(Idle(lastEventId, retry), FrameText(frame) + rest)
            == After(Outcome(Idle(IdAfter(frame, lastEventId), RetryAfter(frame, retry)),
                [Meaning(frame, lastEventId)]), rest)
  {
    var c0 := Idle(lastEventId, retry);
    var c1 := c0.(lastEventId := IdAfter(frame, lastEventId));
    var c2 := if frame.event.Some? then c1.(kind := frame.event.value) else c1;
    var c3 := c2.(retry := RetryAfter(frame, retry));
    HeadIsRead(frame, c0, DataLines(SplitLines(frame.data)) + "\n" + rest);
    var lines := SplitLines(frame.data);
    BodyIsRead(frame.data, c3, rest);
    hide Interpret, DataLines, SplitLines;
    Nest(Optional("id", frame.id), Optional("event", frame.event), Optional("retry", RetryText(frame.retry)),
         DataLines(lines), "\n", rest);
  }

  lemma Nest(a: string, b: string, c: string, d: string, e: string, f: string)
    ensures a + (b + (c + (d + e))) + f == a + (b + (c + (d + e + f)))
  {
  }

  lemma HeadIsRead(frame: Frame, c0: Client, rest: string)
    requires Safe(frame)
    ensures var c1 := c0.(lastEventId := IdAfter(frame, c0.lastEventId));
            var c2 := if frame.event.Some? then c1.(kind := frame.event.value) else c1;
            Interpret(c0, Optional("id", frame.id)
                + (Optional("event", frame.event) + (Optional("retry", RetryText(frame.retry)) + rest)))
            == Interpret(c2.(retry := RetryAfter(frame, c0.retry)), rest)
  {
    hide Interpret, NoCharacter, OneLine, Optional, IntToString;
    var c1 := c0.(lastEventId := IdAfter(frame, c0.lastEventId));
    var c2 := if frame.event.Some? then c1.(kind := frame.event.value) else c1;
    var tail2 := Optional("retry", RetryText(frame.retry)) + rest;
    var tail1 := Optional("event", frame.event) + tail2;
    if frame.id.Some? { IdIsRead(c0, frame.id.value); }
    OptionalIsProcessed(c0, "id", frame.id, tail1);
    OptionalIsProcessed(c1, "event", frame.event, tail2);
    if frame.retry.Some? { RetryIsRead(c2, frame.retry.value); }
    OptionalIsProcessed(c2, "retry", RetryText(frame.retry), rest);
  }

  lemma BodyIsRead(data: string, client: Client, rest: string)
    requires NoCharacter(data, '\r') && client.data == ""
    ensures Interpret(client, DataLines(SplitLines(data)) + "\n" + rest)
            == After(Outcome(client.(kind := ""),
                [Message(if client.kind == "" then "message" else client.kind, data, client.lastEventId)]), rest)
  {
    hide Interpret, DataLines, SplitLines, Unsplit;
    SplitThenUnsplit(data);
    SplitIntoLines(data);
    var lines := SplitLines(data);
    DataIsCollected(client, lines, "\n" + rest);
    assert DataLines(lines) + ("\n" + rest) == DataLines(lines) + "\n" + rest;
    var full := client.(data := data + "\n");
    assert "" + (data + "\n") == data + "\n";
    LineIsTaken(full, "", rest);
    assert "" + "\n" + rest == "\n" + rest;
    assert full.data[..|data|] == data;
  }

  // ---------- a stream of frames ----------

  function StreamText(frames: seq<Frame>): string {
    if frames == [] then "" else FrameText(frames[0]) + StreamText(frames[1..])
  }

  /** The events the frames stand for; an id holds until the next one. */
  function Meanings(frames: seq<Frame>, lastEventId: string): seq<Message> {
    if frames == [] then []
    else [Meaning(frames[0], lastEventId)] + Meanings(frames[1..], IdAfter(frames[0], lastEventId))
  }

  /** Safe frames written one after the other are received as exactly their events, in order. */
  lemma {:induction false} StreamIsRead(frames: seq<Frame>, lastEventId: string, retry: Option<nat>)
    requires forall i :: 0 <= i < |frames| ==> Safe(frames[i])
    ensures Interpret(Idle(lastEventId, retry), StreamText(frames)).messages == Meanings(frames, lastEventId)
  {
    if frames != [] {
      hide Safe, Interpret, FrameText, Meaning;
      FrameIsRead(frames[0], lastEventId, retry, StreamText(frames[1..]));
      StreamIsRead(frames[1..], IdAfter(frames[0], lastEventId), RetryAfter(frames[0], retry));
    }
  }

  // ---------- which frames survive ----------

  /** What no client ever holds, whatever it is sent. */
  predicate Clean(client: Client) {
    && OneLine(client.kind) && NoCharacter(client.data, '\r')
    && OneLine(client.lastEventId) && NoCharacter(client.lastEventId, '\0')
  }

  predicate CleanMessage(m: Message) {
    OneLine(m.kind) && NoCharacter(m.data, '\r') && OneLine(m.lastEventId) && NoCharacter(m.lastEventId, '\0')
  }

  lemma FieldKeepsClean(client: Client, name: string, value: string)
    requires Clean(client) && OneLine(value)
    ensures Clean(ProcessField(client, name, value))
  {
    IdIsRead(client, value);
  }

  lemma LineKeepsClean(client: Client, line: string)
    requires Clean(client) && OneLine(line)
    ensures var r := TakeLine(client, line);
            Clean(r.client) && forall i :: 0 <= i < |r.messages| ==> CleanMessage(r.messages[i])
  {
    hide ProcessField;
    if line == "" {
    } else {
      var colon := IndexOf(line, ':');
      var value := if colon == |line| then "" else line[colon + 1..];
      var shown := if value != "" && value[0] == ' ' then value[1..] else value;
      FieldKeepsClean(client, line[..colon], shown);
      assert line[..|line|] == line;
    }
  }

  lemma {:induction false} StreamKeepsClean(client: Client, s: string)
    requires Clean(client)
    ensures var r := Interpret(client, s);
            Clean(r.client) && forall i :: 0 <= i < |r.messages| ==> CleanMessage(r.messages[i])
    decreases |s|
  {
    hide Clean, CleanMessage, TakeLine;
    var n := LineLength(s);
    if n < |s| {
      var rest := if s[n] == '\r' && n + 1 < |s| && s[n + 1] == '\n' then s[n + 2..] else s[n + 1..];
      LineKeepsClean(client, s[..n]);
      StreamKeepsClean(TakeLine(client, s[..n]).client, rest);
    }
  }

  /** A written frame is received as exactly the event it stands for if and only if it is safe. */
  lemma DeliveredIffSafe(frame: Frame, lastEventId: string, retry: Option<nat>)
    requires OneLine(lastEventId) && NoCharacter(lastEventId, '\0')
    ensures Interpret(Idle(lastEventId, retry), FrameText(frame)).messages == [Meaning(frame, lastEventId)]
            <==> Safe(frame)
  {
    hide Interpret, FrameText;
    if Safe(frame) {
      FrameIsRead(frame, lastEventId, retry, "");
      assert FrameText(frame) + "" == FrameText(frame);
      NothingToRead(Idle(IdAfter(frame, lastEventId), RetryAfter(frame, retry)));
    }
    StreamKeepsClean(Idle(lastEventId, retry), FrameText(frame));
    if Interpret(Idle(lastEventId, retry), FrameText(frame)).messages == [Meaning(frame, lastEventId)] {
      assert CleanMessage(Interpret(Idle(lastEventId, retry), FrameText(frame)).messages[0]);
    }
  }

  lemma NothingToRead(client: Client)
    ensures Interpret(client, "") == Outcome(client, [])
  {
  }

  // ---------- the writer ----------

  /** Whatever the client was last told, it receives the frame's own event and nothing else. */
  ghost predicate DeliversExactly(frame: Frame, text: string) {
    forall lastEventId, retry {:trigger Idle(lastEventId, retry)} |
      OneLine(lastEventId) && NoCharacter(lastEventId, '\0') ::
      Interpret(Idle(lastEventId, retry), text).messages == [Meaning(frame, lastEventId)]
  }

  lemma ExactlyWhenSafe(frame: Frame)
    ensures DeliversExactly(frame, FrameText(frame)) <==> Safe(frame)
  {
    hide Interpret, FrameText, Meaning, Safe;
    forall lastEventId, retry | OneLine(lastEventId) && NoCharacter(lastEventId, '\0')
      ensures Interpret(Idle(lastEventId, retry), FrameText(frame)).messages == [Meaning(frame, lastEventId)]
              <==> Safe(frame)
    {
      DeliveredIffSafe(frame, lastEventId, retry);
    }
    assert Idle("", None).lastEventId == "";
  }

  method FormatSseFrame(frame: Frame) returns (out: string)
    ensures out == FrameText(frame)
    ensures DeliversExactly(frame, out) <==> Safe(frame)
  {
    hide *;
    out := "";
    if frame.id.Some? { out := out + "id: " + frame.id.value + "\n"; }
    AfterField("", "id", frame.id, out);
    ghost var id := out;
    if frame.event.Some? { out := out + "event: " + frame.event.value + "\n"; }
    AfterField(id, "event", frame.event, out);
    ghost var event := out;
    if frame.retry.Some? { out := out + "retry: " + IntToString(frame.retry.value) + "\n"; }
    AfterRetry(event, frame.retry, out);
    ghost var head := out;
    var lines := SplitLines(frame.data);
    NoLinesYet(head, lines);
    for i := 0 to |lines|
      invariant out == head + DataLines(lines[..i])
    {
      out := out + "data: " + lines[i] + "\n";
      OneMoreLine(head, lines, i);
    }
    out := out + "\n";
    assert lines[..|lines|] == lines;
    Assemble(frame, id, event, head, out);
    ExactlyWhenSafe(frame);
  }

  lemma AfterField(before: string, name: string, value: Option<string>, after: string)
    requires after == if value.Some? then before + (name + ": ") + value.value + "\n" else before
    ensures after == before + Optional(name, value)
  {
  }

  lemma AfterRetry(before: string, retry: Option<int>, after: string)
    requires after == if retry.Some? then before + "retry: " + IntToString(retry.value) + "\n" else before
    ensures after == before + Optional("retry", RetryText(retry))
  {
    hide IntToString;
  }

  lemma NoLinesYet(head: string, lines: seq<string>)
    ensures head + DataLines(lines[..0]) == head
  {
  }

  lemma OneMoreLine(head: string, lines: seq<string>, i: nat)
    requires i < |lines|
    ensures head + DataLines(lines[..i]) + "data: " + lines[i] + "\n" == head + DataLines(lines[..i + 1])
  {
    assert lines[..i + 1][..i] == lines[..i];
  }

  lemma Assemble(frame: Frame, id: string, event: string, head: string, out: string)
    requires id == "" + Optional("id", frame.id)
    requires event == id + Optional("event", frame.event)
    requires head == event + Optional("retry", RetryText(frame.retry))
    requires out == head + DataLines(SplitLines(frame.data)) + "\n"
    ensures out == FrameText(frame)
  {
    hide Optional, RetryText, DataLines, SplitLines;
    Reassociate(Optional("id", frame.id), Optional("event", frame.event), Optional("retry", RetryText(frame.retry)),
                DataLines(SplitLines(frame.data)));
  }

  lemma Reassociate(a: string, b: string, c: string, d: string)
    ensures "" + a + b + c + d + "\n" == a + (b + (c + (d + "\n")))
  {
  }

  // ---------- the frame line by line ----------

  lemma SplitFirst(line: string, rest: string)
    requires NoCharacter(line, '\n')
    ensures SplitLines(line + "\n" + rest) == [line] + SplitLines(rest)
  {
    var s := line + "\n" + rest;
    assert s[|line|] == '\n' && forall j :: 0 <= j < |line| ==> s[j] == line[j];
    assert IndexOf(s, '\n') == |line|;
    assert s[..|line|] == line && s[|line| + 1..] == rest;
  }

  function AfterName(name: string, values: seq<string>): (lines: seq<string>)
    ensures |lines| == |values| && forall i :: 0 <= i < |values| ==> lines[i] == name + values[i]
  {
    seq(|values|, i requires 0 <= i < |values| => name + values[i])
  }

  lemma NamedOnOneLine(name: string, value: string)
    requires NoCharacter(name, '\n') && NoCharacter(value, '\n')
    ensures NoCharacter(name + value, '\n')
  {
  }

  lemma DataLinesLast(lines: seq<string>, rest: string)
    requires lines != []
    ensures var n := |lines| - 1;
            DataLines(lines) + rest == DataLines(lines[..n]) + ("data: " + lines[n] + "\n" + rest)
  {
    var n := |lines| - 1;
    hide DataLines;
    assert DataLines(lines) == DataLines(lines[..n]) + FieldLine("data", lines[n]) by { DataLinesNext(lines); }
    assert "data" + ": " == "data: ";
  }

  lemma DataLinesNext(lines: seq<string>)
    requires lines != []
    ensures DataLines(lines) == DataLines(lines[..|lines| - 1]) + FieldLine("data", lines[|lines| - 1])
  {
  }

  lemma Associate(a: seq<string>, b: seq<string>, c: seq<string>)
    ensures a + b + c == a + (b + c)
  {
  }

  lemma {:induction false} DataLinesSplit(lines: seq<string>, rest: string)
    requires forall i :: 0 <= i < |lines| ==> NoCharacter(lines[i], '\n')
    ensures SplitLines(DataLines(lines) + rest) == AfterName("data: ", lines) + SplitLines(rest)
  {
    hide SplitLines, NoCharacter, DataLines, AfterName;
    if lines == [] {
      NoDataLines(rest);
    } else {
      var n := |lines| - 1;
      var last := "data: " + lines[n];
      DataLinesLast(lines, rest);
      DataLinesSplit(lines[..n], last + "\n" + rest);
      DataPrefix();
      NamedOnOneLine("data: ", lines[n]);
      SplitFirst(last, rest);
      Associate(AfterName("data: ", lines[..n]), [last], SplitLines(rest));
      assert AfterName("data: ", lines) == AfterName("data: ", lines[..n]) + [last];
    }
  }

  lemma NoDataLines(rest: string)
    ensures DataLines([]) + rest == rest && AfterName("data: ", []) == []
  {
  }

  lemma DataPrefix()
    ensures NoCharacter("data: ", '\n')
  {
  }

  lemma {:induction false} PiecesOnOneLine(s: string)
    ensures forall k :: 0 <= k < |SplitLines(s)| ==> NoCharacter(SplitLines(s)[k], '\n')
    decreases |s|
  {
    var i := IndexOf(s, '\n');
    if i < |s| { PiecesOnOneLine(s[i + 1..]); }
  }

  /** The lines a field takes: none when it is not given. */
  function FieldLines(name: string, value: Option<string>): seq<string> {
    if value.Some? then [name + value.value] else []
  }

  lemma OptionalSplit(name: string, value: Option<string>, rest: string)
    requires NoCharacter(name, '\n') && (value.Some? ==> NoCharacter(value.value, '\n'))
    ensures SplitLines(Optional(name, value) + rest) == FieldLines(name + ": ", value) + SplitLines(rest)
  {
    hide SplitLines;
    if value.Some? {
      var line := name + ": " + value.value;
      assert NoCharacter(line, '\n');
      SplitFirst(line, rest);
      assert Optional(name, value) + rest == line + "\n" + rest;
    } else {
      assert "" + rest == rest;
    }
  }

  lemma BlankLines()
    ensures SplitLines("\n") == ["", ""]
  {
    assert SplitLines("") == [""];
    SplitFirst("", "");
    assert "" + "\n" + "" == "\n";
  }

  /** A frame's lines: id, event and retry, in this order and only if given, then one data line for
      each line of the data, then an empty one. */
  lemma FrameLines(frame: Frame)
    requires frame.id.Some? ==> NoCharacter(frame.id.value, '\n')
    requires frame.event.Some? ==> NoCharacter(frame.event.value, '\n')
    ensures SplitLines(FrameText(frame))
            == FieldLines("id: ", frame.id)
               + (FieldLines("event: ", frame.event)
                  + ((if frame.retry.Some? then ["retry: " + IntToString(frame.retry.value)] else [])
                     + (AfterName("data: ", SplitLines(frame.data)) + ["", ""])))
  {
    if frame.retry.Some? { IntHasNoLineEnd(frame.retry.value); }
    PiecesOnOneLine(frame.data);
    FieldNames();
    RetryLines(frame.retry);
    var data, retry := DataLines(SplitLines(frame.data)), RetryText(frame.retry);
    assert FrameText(frame)
        == Optional("id", frame.id) + (Optional("event", frame.event) + (Optional("retry", retry) + (data + "\n")));
    assert retry.Some? ==> NoCharacter(retry.value, '\n');
    hide *;
    OptionalSplit("id", frame.id, Optional("event", frame.event) + (Optional("retry", retry) + (data + "\n")));
    OptionalSplit("event", frame.event, Optional("retry", retry) + (data + "\n"));
    OptionalSplit("retry", retry, data + "\n");
    DataLinesSplit(SplitLines(frame.data), "\n");
    BlankLines();
  }

  lemma FieldNames()
    ensures forall name :: FieldName(name) ==> NoCharacter(name, '\n')
    ensures "id" + ": " == "id: " && "event" + ": " == "event: " && "retry" + ": " == "retry: "
    ensures FieldName("id") && FieldName("event") && FieldName("retry")
  {
  }

  lemma RetryLines(retry: Option<int>)
    ensures FieldLines("retry: ", RetryText(retry))
            == if retry.Some? then ["retry: " + IntToString(retry.value)] else []
  {
    hide IntToString;
  }

  lemma IntHasNoLineEnd(n: int)
    ensures NoCharacter(IntToString(n), '\n')
  {
    hide NatToString;
  }
}
