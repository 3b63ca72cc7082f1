/**
  The incremental event-stream parser inside `subscribe_to_transactions` of
  services/rust-worker/src/sse.rs: chunks of text are appended to a buffer, which is cut
  at every blank line ("\n\n").
*/
module SseParser {
  import opened Wrappers

  datatype SseEvent = SseEvent(eventType: string, data: string)

  predicate SepAt(s: string, i: nat) {
    i + 1 < |s| && s[i] == '\n' && s[i + 1] == '\n'
  }

  // buffer.find("\n\n"), searching from an index
  function FindSep(s: string, from: nat): (r: Option<nat>)
    ensures r.Some? ==> from <= r.value && SepAt(s, r.value) && forall j :: from <= j < r.value ==> !SepAt(s, j)
    ensures r.None? ==> forall j :: from <= j ==> !SepAt(s, j)
    decreases |s| - from
  {
    if from + 1 >= |s| then None
    else if SepAt(s, from) then Some(from)
    else FindSep(s, from + 1)
  }

  // ----- One block -----

  function FindNewline(s: string, from: nat): (r: Option<nat>)
    requires from <= |s|
    ensures r.Some? ==> from <= r.value < |s| && s[r.value] == '\n' && forall j :: from <= j < r.value ==> s[j] != '\n'
    ensures r.None? ==> forall j :: from <= j < |s| ==> s[j] != '\n'
    decreases |s| - from
  {
    if from == |s| then None else if s[from] == '\n' then Some(from) else FindNewline(s, from + 1)
  }

  function StripCr(line: string): string {
    if line != [] && line[|line| - 1] == '\r' then line[..|line| - 1] else line
  }

  // str::lines: a carriage return is dropped only in front of a line feed
  function Lines(s: string): seq<string>
    decreases |s|
  {
    if s == [] then []
    else match FindNewline(s, 0)
      case None => [s]
      case Some(i) => [StripCr(s[..i])] + Lines(s[i + 1..])
  }

  predicate HasPrefix(line: string, prefix: string) { prefix <= line }

  // What follows `prefix` on the last of the first n lines that has it; empty when none does.
  function LastWith(lines: seq<string>, prefix: string, n: nat): string
    requires n <= |lines|
  {
    if n == 0 then ""
    else if HasPrefix(lines[n - 1], prefix) then lines[n - 1][|prefix|..]
    else LastWith(lines, prefix, n - 1)
  }

  const DATA: string := "data: "
  const EVENT: string := "event: "

  function EventOf(block: string): SseEvent {
    var lines := Lines(block);
    SseEvent(LastWith(lines, EVENT, |lines|), LastWith(lines, DATA, |lines|))
  }

  // Blocks without data dispatch nothing.
  function Dispatched(blocks: seq<string>): seq<SseEvent> {
    if blocks == [] then []
    else
      var n := |blocks| - 1;
      var e := EventOf(blocks[n]);
      Dispatched(blocks[..n]) + (if e.data != "" then [e] else [])
  }

  lemma {:induction false} DispatchedConcat(xs: seq<string>, ys: seq<string>)
    ensures Dispatched(xs + ys) == Dispatched(xs) + Dispatched(ys)
  {
    hide EventOf;
    if ys == [] {
      assert xs + ys == xs;
    } else {
      var n := |ys| - 1;
      assert (xs + ys)[..|xs + ys| - 1] == xs + ys[..n];
      DispatchedConcat(xs, ys[..n]);
    }
  }

  // ----- Cutting the buffer -----

  function Blocks(s: string): seq<string>
    decreases |s|
  {
    match FindSep(s, 0)
    case None => []
    case Some(i) => [s[..i]] + Blocks(s[i + 2..])
  }

  function Residue(s: string): string
    decreases |s|
  {
    match FindSep(s, 0)
    case None => s
    case Some(i) => Residue(s[i + 2..])
  }

  lemma {:induction false} FindSepPrefix(a: string, b: string)
    requires FindSep(a, 0).Some?
    ensures FindSep(a + b, 0) == FindSep(a, 0)
  {
    var i := FindSep(a, 0).value;
    assert SepAt(a + b, i);
    assert forall j :: 0 <= j < i ==> (SepAt(a + b, j) <==> SepAt(a, j));
  }

  /** Processing more text later is the same as having had it from the start. */
  lemma {:induction false} CutConcat(a: string, b: string)
    ensures Blocks(a + b) == Blocks(a) + Blocks(Residue(a) + b)
    ensures Residue(a + b) == Residue(Residue(a) + b)
    decreases |a|
  {
    match FindSep(a, 0)
    case None =>
    case Some(i) =>
      FindSepPrefix(a, b);
      assert (a + b)[..i] == a[..i];
      assert (a + b)[i + 2..] == a[i + 2..] + b;
      CutConcat(a[i + 2..], b);
  }

  /** The residue never holds a separator. */
  lemma {:induction false} ResidueHasNoSeparator(s: string)
    ensures forall j :: !SepAt(Residue(s), j)
    decreases |s|
  {
    match FindSep(s, 0)
    case None =>
    case Some(i) => ResidueHasNoSeparator(s[i + 2..]);
  }

  // ----- The cut, independently of the algorithm -----

  function Join(blocks: seq<string>): string {
    if blocks == [] then "" else blocks[0] + "\n\n" + Join(blocks[1..])
  }

  // No block can be cut earlier and nothing is left to cut.
  ghost predicate IsCut(s: string, blocks: seq<string>, residue: string) {
    && s == Join(blocks) + residue
    && (forall i :: 0 <= i < |blocks| ==> FindSep(blocks[i] + "\n\n", 0) == Some(|blocks[i]|))
    && FindSep(residue, 0).None?
  }

  lemma {:induction false} FirstBlockEndsAtSep(block: string, rest: string)
    requires FindSep(block + "\n\n", 0) == Some(|block|)
    ensures FindSep(block + "\n\n" + rest, 0) == Some(|block|)
  {
    FindSepPrefix(block + "\n\n", rest);
  }

  lemma {:induction false} ParserCuts(s: string)
    ensures IsCut(s, Blocks(s), Residue(s))
    decreases |s|
  {
    hide FindSep, Blocks, Residue;
    CutStep(s);
    match FindSep(s, 0)
    case None =>
      assert "" + s == s;
    case Some(i) =>
      var tail := s[i + 2..];
      ParserCuts(tail);
      EarliestSep(s, i);
      var blocks := [s[..i]] + Blocks(tail);
      assert blocks[1..] == Blocks(tail);
      assert Join(blocks) + Residue(tail) == s[..i] + "\n\n" + (Join(Blocks(tail)) + Residue(tail));
      assert s == s[..i] + "\n\n" + tail;
  }

  lemma {:induction false} CutIsTheParsers(s: string, blocks: seq<string>, residue: string)
    requires IsCut(s, blocks, residue)
    ensures blocks == Blocks(s) && residue == Residue(s)
    decreases |blocks|
  {
    hide FindSep, Blocks, Residue;
    CutStep(s);
    if blocks == [] {
      assert s == residue;
    } else {
      var rest := Join(blocks[1..]) + residue;
      assert s == blocks[0] + "\n\n" + rest;
      FirstBlockEndsAtSep(blocks[0], rest);
      assert s[..|blocks[0]|] == blocks[0] && s[|blocks[0]| + 2..] == rest;
      CutIsTheParsers(rest, blocks[1..], residue);
      assert blocks == [blocks[0]] + blocks[1..];
    }
  }

  /** There is exactly one such cut of any text, and the parser finds it. */
  lemma {:induction false} CutIsUnique(s: string, blocks: seq<string>, residue: string)
    ensures IsCut(s, blocks, residue) <==> blocks == Blocks(s) && residue == Residue(s)
  {
    ParserCuts(s);
    if IsCut(s, blocks, residue) {
      CutIsTheParsers(s, blocks, residue);
    }
  }

  lemma {:induction false} EarliestSep(s: string, i: nat)
    requires FindSep(s, 0) == Some(i)
    ensures FindSep(s[..i] + "\n\n", 0) == Some(i)
  {
    var t := s[..i] + "\n\n";
    assert SepAt(t, i);
    assert forall j :: 0 <= j < i ==> (SepAt(t, j) <==> SepAt(s, j));
  }

  // ----- The parser -----

  class Parser {
    var buffer: string
    var emitted: seq<SseEvent>

    // Between chunks the buffer holds no complete event.
    ghost predicate Valid()
      reads this
    {
      FindSep(buffer, 0).None?
    }

    constructor ()
      ensures Valid() && buffer == "" && emitted == []
    {
      buffer, emitted := "", [];
    }

    /** One chunk of the stream: the inner loop of the source. */
    method Feed(chunk: string)
      requires Valid()
      modifies this
      ensures Valid()
      ensures buffer == Residue(old(buffer) + chunk)
      ensures emitted == old(emitted) + Dispatched(Blocks(old(buffer) + chunk))
    {
      hide EventOf, FindSep, Dispatched, Blocks, Residue;
      buffer := buffer + chunk;
      ghost var text, before, done := buffer, emitted, [];
      DispatchedEmpty();
      while FindSep(buffer, 0).Some?
        invariant emitted == before + Dispatched(done)
        invariant Blocks(text) == done + Blocks(buffer) && Residue(text) == Residue(buffer)
        decreases |buffer|
      {
        var lineEnd := FindSep(buffer, 0).value;
        var block := buffer[..lineEnd];
        CutStep(buffer);
        buffer := buffer[lineEnd + 2..];
        var e := ParseBlock(block);
        DispatchedSnoc(done, block);
        done := done + [block];
        if e.data != "" {
          emitted := emitted + [e];
        }
      }
      CutStep(buffer);
      assert done + [] == done;
    }

    // event_type and event_data are cleared before each block, so they are locals here.
    method ParseBlock(block: string) returns (e: SseEvent)
      ensures e == EventOf(block)
    {
      var eventType, eventData := "", "";
      var lines := Lines(block);
      for i := 0 to |lines|
        invariant eventType == LastWith(lines, EVENT, i)
        invariant eventData == LastWith(lines, DATA, i)
      {
        var line := lines[i];
        if HasPrefix(line, DATA) {
          assert line[0] == 'd';
          eventData := line[|DATA|..];
        } else if HasPrefix(line, EVENT) {
          eventType := line[|EVENT|..];
        }
      }
      e := SseEvent(eventType, eventData);
    }

    /** A whole stream, chunk by chunk. */
    method FeedAll(chunks: seq<string>)
      requires Valid()
      modifies this
      ensures Valid()
      ensures buffer == Residue(old(buffer) + Concat(chunks))
      ensures emitted == old(emitted) + Dispatched(Blocks(old(buffer) + Concat(chunks)))
    {
      hide Dispatched, Blocks, Residue, FindSep;
      ghost var start, before := buffer, emitted;
      CutStep(start);
      DispatchedEmpty();
      assert start + "" == start;
      for i := 0 to |chunks|
        invariant Valid()
        invariant buffer == Residue(start + Concat(chunks[..i]))
        invariant emitted == before + Dispatched(Blocks(start + Concat(chunks[..i])))
      {
        ghost var text := start + Concat(chunks[..i]);
        assert chunks[..i + 1][..i] == chunks[..i];
        assert start + Concat(chunks[..i + 1]) == text + chunks[i];
        CutConcat(text, chunks[i]);
        DispatchedConcat(Blocks(text), Blocks(Residue(text) + chunks[i]));
        Feed(chunks[i]);
      }
      assert chunks[..|chunks|] == chunks;
    }
  }

  lemma {:induction false} CutStep(s: string)
    ensures match FindSep(s, 0)
      case None => Blocks(s) == [] && Residue(s) == s
      case Some(i) => Blocks(s) == [s[..i]] + Blocks(s[i + 2..]) && Residue(s) == Residue(s[i + 2..])
  {
  }

  lemma {:induction false} DispatchedSnoc(blocks: seq<string>, block: string)
    ensures Dispatched(blocks + [block]) ==
      Dispatched(blocks) + (if EventOf(block).data != "" then [EventOf(block)] else [])
  {
    hide EventOf;
    assert (blocks + [block])[..|blocks|] == blocks;
  }

  function Concat(chunks: seq<string>): string {
    if chunks == [] then "" else Concat(chunks[..|chunks| - 1]) + chunks[|chunks| - 1]
  }

  // The buffer and the events after feeding chunks to a new parser.
  function Fed(chunks: seq<string>): (string, seq<SseEvent>) {
    if chunks == [] then ("", [])
    else
      var (buffer, emitted) := Fed(chunks[..|chunks| - 1]);
      var text := buffer + chunks[|chunks| - 1];
      (Residue(text), emitted + Dispatched(Blocks(text)))
  }

  /** Chunking invariance: only the concatenated text matters. */
  lemma {:induction false} ChunkingInvariance(chunks: seq<string>)
    ensures Fed(chunks) == (Residue(Concat(chunks)), Dispatched(Blocks(Concat(chunks))))
  {
    hide Dispatched;
    if chunks == [] {
      assert FindSep("", 0).None?;
      assert Dispatched([]) == [] by { DispatchedEmpty(); }
    } else {
      var n := |chunks| - 1;
      ChunkingInvariance(chunks[..n]);
      var text := Concat(chunks[..n]);
      CutConcat(text, chunks[n]);
      DispatchedConcat(Blocks(text), Blocks(Residue(text) + chunks[n]));
    }
  }

  lemma {:induction false} DispatchedEmpty()
    ensures Dispatched([]) == []
  {
  }

  /** Two ways of cutting one text into chunks are indistinguishable. */
  lemma {:induction false} SameTextSameEvents(xs: seq<string>, ys: seq<string>)
    requires Concat(xs) == Concat(ys)
    ensures Fed(xs) == Fed(ys)
  {
    ChunkingInvariance(xs);
    ChunkingInvariance(ys);
  }

  /** A stream whose line ends are all CR LF, which the standard allows, never yields an event. */
  lemma {:induction false} CrLfStreamsAreSilent(chunks: seq<string>)
    requires var s := Concat(chunks); forall i :: 0 <= i < |s| && s[i] == '\n' ==> i > 0 && s[i - 1] == '\r'
    ensures Fed(chunks) == (Concat(chunks), [])
  {
    var s := Concat(chunks);
    ChunkingInvariance(chunks);
    assert forall i :: SepAt(s, i) ==> s[i + 1 - 1] == '\r';
    DispatchedEmpty();
  }

  // ----- Round trip -----

  function BlockOf(e: SseEvent): string {
    EVENT + e.eventType + "\n" + DATA + e.data
  }

  // Two single-line fields, some data, and no carriage return that `lines` would strip.
  predicate Encodable(e: SseEvent) {
    && '\n' !in e.eventType && '\n' !in e.data && e.data != ""
    && (e.eventType != "" ==> e.eventType[|e.eventType| - 1] != '\r')
  }

  function EncodeAll(events: seq<SseEvent>): string {
    if events == [] then "" else BlockOf(events[0]) + "\n\n" + EncodeAll(events[1..])
  }

  lemma {:induction false} FindSepIs(s: string, n: nat, from: nat)
    requires from <= n && SepAt(s, n) && forall j :: from <= j < n ==> !SepAt(s, j)
    ensures FindSep(s, from) == Some(n)
    decreases n - from
  {
    if from < n {
      FindSepIs(s, n, from + 1);
    }
  }

  lemma {:induction false} FindNewlineIs(s: string, n: nat, from: nat)
    requires from <= n < |s| && s[n] == '\n' && forall j :: from <= j < n ==> s[j] != '\n'
    ensures FindNewline(s, from) == Some(n)
    decreases n - from
  {
    if from < n {
      FindNewlineIs(s, n, from + 1);
    }
  }

  lemma {:induction false} NoNewline(s: string, from: nat)
    requires from <= |s| && '\n' !in s
    ensures FindNewline(s, from) == None
    decreases |s| - from
  {
    if from < |s| {
      NoNewline(s, from + 1);
    }
  }

  lemma {:induction false} BlockEndsOnce(e: SseEvent)
    requires Encodable(e)
    ensures FindSep(BlockOf(e) + "\n\n", 0) == Some(|BlockOf(e)|)
  {
    var first, b := EVENT + e.eventType, BlockOf(e);
    var s := b + "\n\n";
    assert '\n' !in EVENT && '\n' !in DATA;
    assert forall j :: 0 <= j < |first| ==> s[j] == first[j];
    assert s[|first|] == '\n' && s[|first| + 1] == 'd';
    var second := DATA + e.data;
    assert forall j :: |first| < j < |b| ==> s[j] == second[j - |first| - 1];
    FindSepIs(s, |b|, 0);
  }

  lemma {:induction false} BlockLines(e: SseEvent)
    requires Encodable(e)
    ensures Lines(BlockOf(e)) == [EVENT + e.eventType, DATA + e.data]
  {
    var first, second, b := EVENT + e.eventType, DATA + e.data, BlockOf(e);
    assert '\n' !in EVENT && '\n' !in DATA;
    assert forall j :: 0 <= j < |first| ==> b[j] == first[j];
    FindNewlineIs(b, |first|, 0);
    assert b[..|first|] == first && b[|first| + 1..] == second;
    NoNewline(second, 0);
    assert first[|first| - 1] != '\r';
  }

  lemma {:induction false} BlockDecodes(e: SseEvent)
    requires Encodable(e)
    ensures EventOf(BlockOf(e)) == e
  {
    hide Lines;
    BlockLines(e);
    var lines := [EVENT + e.eventType, DATA + e.data];
    assert !HasPrefix(lines[1], EVENT) by { assert lines[1][0] == 'd'; }
    assert LastWith(lines, EVENT, 2) == LastWith(lines, EVENT, 1) == e.eventType;
    assert LastWith(lines, DATA, 2) == e.data;
  }

  lemma {:induction false} EncodingIsCut(events: seq<SseEvent>)
    requires forall i :: 0 <= i < |events| ==> Encodable(events[i])
    ensures Residue(EncodeAll(events)) == ""
    ensures Dispatched(Blocks(EncodeAll(events))) == events
    decreases |events|
  {
    hide FindSep, EventOf, BlockOf, Encodable, Dispatched, Blocks, Residue;
    var s := EncodeAll(events);
    CutStep(s);
    DispatchedEmpty();
    if events == [] {
      NoSepInEmpty();
    } else {
      var b, rest := BlockOf(events[0]), EncodeAll(events[1..]);
      BlockEndsOnce(events[0]);
      FirstBlockEndsAtSep(b, rest);
      assert s[..|b|] == b && s[|b| + 2..] == rest;
      EncodingIsCut(events[1..]);
      BlockDecodes(events[0]);
      DispatchedSnoc([], b);
      assert [] + [b] == [b];
      assert EventOf(b).data != "" by { EncodableHasData(events[0]); }
      DispatchedConcat([b], Blocks(rest));
      assert events == [events[0]] + events[1..];
    }
  }

  lemma {:induction false} NoSepInEmpty()
    ensures FindSep("", 0) == None
  {
  }

  lemma {:induction false} EncodableHasData(e: SseEvent)
    requires Encodable(e)
    ensures e.data != ""
  {
  }

  /** Whatever the chunking, a stream of encoded events is decoded to exactly those events. */
  lemma {:induction false} StreamRoundTrip(events: seq<SseEvent>, chunks: seq<string>)
    requires forall i :: 0 <= i < |events| ==> Encodable(events[i])
    requires Concat(chunks) == EncodeAll(events)
    ensures Fed(chunks) == ("", events)
  {
    ChunkingInvariance(chunks);
    EncodingIsCut(events);
  }
}
