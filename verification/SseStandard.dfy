/**
  The event stream as sections 9.2.5 and 9.2.6 of the WHATWG HTML standard define it, on
  decoded text, and for which streams the parser of services/rust-worker/src/sse.rs agrees with it.

  Event types are compared before the standard's default "message" is put in for an empty
  one, and the fields "id" and "retry" are left aside: they change no type and no data.
*/
module SseStandard {
  import opened Wrappers
  import opened SseParser

  // ----- Lines -----

  // The first line feed or carriage return.
  function FirstEnd(s: string, from: nat): (r: Option<nat>)
    requires from <= |s|
    ensures r.Some? ==> from <= r.value < |s|
    decreases |s| - from
  {
    if from == |s| then None
    else if s[from] == '\n' || s[from] == '\r' then Some(from)
    else FirstEnd(s, from + 1)
  }

  // A line ends with CR LF, LF or CR.
  function EndLength(s: string, i: nat): (n: nat)
    requires i < |s|
    ensures 1 <= n <= |s| - i
  {
    if s[i] == '\r' && i + 1 < |s| && s[i + 1] == '\n' then 2 else 1
  }

  // The finished lines. An unfinished one at the end of the stream can dispatch nothing.
  function StdLines(s: string): seq<string>
    decreases |s|
  {
    match FirstEnd(s, 0)
    case None => []
    case Some(i) => [s[..i]] + StdLines(s[i + EndLength(s, i)..])
  }

  // ----- Fields -----

  function FindColon(line: string, from: nat): (r: Option<nat>)
    requires from <= |line|
    ensures r.Some? ==> from <= r.value < |line|
    decreases |line| - from
  {
    if from == |line| then None else if line[from] == ':' then Some(from) else FindColon(line, from + 1)
  }

  // The field name, and its value without one leading space. A comment has an empty name.
  function Field(line: string): (string, string) {
    match FindColon(line, 0)
    case None => (line, "")
    case Some(i) =>
      var rest := line[i + 1..];
      (line[..i], if rest != "" && rest[0] == ' ' then rest[1..] else rest)
  }

  predicate IsData(line: string) { Field(line).0 == "data" }

  predicate IsEvent(line: string) { Field(line).0 == "event" }

  datatype Pending = Pending(eventType: string, data: string)

  const Nothing := Pending("", "")

  function Interpret(p: Pending, line: string): Pending {
    var (name, value) := Field(line);
    if name == "event" then p.(eventType := value)
    else if name == "data" then p.(data := p.data + value + "\n")
    else p
  }

  // Without data nothing is dispatched; the last line feed of the data is dropped.
  function Dispatch(p: Pending): (r: seq<SseEvent>)
    ensures |r| <= 1
  {
    if p.data == "" then [] else [SseEvent(p.eventType, p.data[..|p.data| - 1])]
  }

  function Run(lines: seq<string>): (Pending, seq<SseEvent>) {
    if lines == [] then (Nothing, [])
    else
      var n := |lines| - 1;
      var (p, out) := Run(lines[..n]);
      if lines[n] == "" then (Nothing, out + Dispatch(p)) else (Interpret(p, lines[n]), out)
  }

  function StdEvents(s: string): seq<SseEvent> { Run(StdLines(s)).1 }

  // ----- Streams without carriage returns -----

  lemma {:induction false} FirstEndIsNewline(s: string, from: nat)
    requires from <= |s| && '\r' !in s
    ensures FirstEnd(s, from) == FindNewline(s, from)
    decreases |s| - from
  {
    if from < |s| {
      FirstEndIsNewline(s, from + 1);
    }
  }

  lemma {:induction false} StdLinesStep(s: string)
    requires '\r' !in s
    ensures match FindNewline(s, 0)
      case None => StdLines(s) == []
      case Some(i) => StdLines(s) == [s[..i]] + StdLines(s[i + 1..])
  {
    FirstEndIsNewline(s, 0);
  }

  lemma {:induction false} NewlineInPrefix(a: string, b: string)
    requires a != "" && a[|a| - 1] == '\n'
    ensures FindNewline(a, 0).Some? && FindNewline(a + b, 0) == FindNewline(a, 0)
  {
    var i := FindNewline(a, 0).value;
    FindNewlineIs(a + b, i, 0);
  }

  // Lines of a text that ends a line, followed by more text.
  lemma {:induction false} StdLinesConcat(a: string, b: string)
    requires '\r' !in a && '\r' !in b && (a != "" ==> a[|a| - 1] == '\n')
    ensures StdLines(a + b) == StdLines(a) + StdLines(b)
    decreases |a|
  {
    hide StdLines;
    if a == "" {
      StdLinesStep(a);
      assert a + b == b;
    } else {
      NewlineInPrefix(a, b);
      var i := FindNewline(a, 0).value;
      StdLinesStep(a);
      StdLinesStep(a + b);
      CutConcatenation(a, b, i);
      assert a[i + 1..] != "" ==> a[i + 1..][|a[i + 1..]| - 1] == a[|a| - 1];
      StdLinesConcat(a[i + 1..], b);
    }
  }

  lemma {:induction false} LinesStep(s: string)
    requires '\r' !in s && s != ""
    ensures match FindNewline(s, 0)
      case None => Lines(s) == [s]
      case Some(i) => Lines(s) == [s[..i]] + Lines(s[i + 1..])
  {
  }

  lemma {:induction false} CutConcatenation(a: string, b: string, i: nat)
    requires i < |a|
    ensures (a + b)[..i] == a[..i] && (a + b)[i + 1..] == a[i + 1..] + b
  {
  }

  // The lines of a non-empty block, as the parser and as the standard see them.
  lemma {:induction false} BlockLinesAgree(block: string)
    requires '\r' !in block && block != "" && block[|block| - 1] != '\n'
    ensures Lines(block) == StdLines(block + "\n")
    ensures forall k :: 0 <= k < |Lines(block)| ==> '\n' !in Lines(block)[k]
    decreases |block|
  {
    hide StdLines, Lines, FindNewline;
    var s := block + "\n";
    StdLinesStep(s);
    LinesStep(block);
    match FindNewline(block, 0)
    case None =>
      FindNewlineIs(s, |block|, 0);
      assert s[..|block|] == block && s[|block| + 1..] == "";
      StdLinesStep("");
    case Some(i) =>
      FindNewlineIs(s, i, 0);
      var rest := block[i + 1..];
      CutConcatenation(block, "\n", i);
      assert rest != "" && rest[|rest| - 1] == block[|block| - 1];
      BlockLinesAgree(rest);
  }

  // ----- Blocks -----

  // What the standard dispatches at the blank line behind a block.
  function StdBlock(block: string): seq<SseEvent> {
    Run(StdLines(block + "\n") + [""]).1
  }

  function CodeBlock(block: string): (r: seq<SseEvent>)
    ensures |r| <= 1
  {
    var e := EventOf(block);
    if e.data != "" then [e] else []
  }

  lemma {:induction false} RunSnoc(lines: seq<string>, line: string)
    ensures Run(lines + [line]) ==
      var (p, out) := Run(lines);
      if line == "" then (Nothing, out + Dispatch(p)) else (Interpret(p, line), out)
  {
    assert (lines + [line])[..|lines|] == lines;
  }

  // A blank line resets everything but what was dispatched.
  lemma {:induction false} RunAfterBlank(xs: seq<string>, ys: seq<string>)
    ensures Run(xs + [""] + ys) == (Run(ys).0, Run(xs + [""]).1 + Run(ys).1)
    decreases |ys|
  {
    hide Run, Dispatch, Interpret;
    RunSnoc(xs, "");
    if ys == [] {
      assert xs + [""] + ys == xs + [""];
      RunNone();
      assert Run(xs + [""]).1 + [] == Run(xs + [""]).1;
    } else {
      var n := |ys| - 1;
      RunAfterBlank(xs, ys[..n]);
      assert ys == ys[..n] + [ys[n]];
      assert xs + [""] + ys == (xs + [""] + ys[..n]) + [ys[n]];
      RunSnoc(xs + [""] + ys[..n], ys[n]);
      RunSnoc(ys[..n], ys[n]);
      var (p, out) := Run(ys[..n]);
      assert Run(xs + [""]).1 + out + Dispatch(p) == Run(xs + [""]).1 + (out + Dispatch(p));
    }
  }

  lemma {:induction false} RunNone()
    ensures Run([]) == (Nothing, [])
  {
  }

  function Gather(lines: seq<string>): Pending {
    if lines == [] then Nothing else Interpret(Gather(lines[..|lines| - 1]), lines[|lines| - 1])
  }

  // Lines of which at most the first is blank dispatch nothing among themselves.
  lemma {:induction false} RunGathers(lines: seq<string>)
    requires forall i :: 0 < i < |lines| ==> lines[i] != ""
    ensures Run(lines) == (Gather(lines), [])
  {
    hide Run, Gather, Interpret, Dispatch;
    RunNone();
    NothingDispatched();
    if lines != [] {
      var n := |lines| - 1;
      RunGathers(lines[..n]);
      RunSnoc(lines[..n], lines[n]);
      GatherSnoc(lines[..n], lines[n]);
      EmptyField();
      assert lines == lines[..n] + [lines[n]];
      assert n == 0 ==> lines[..n] == [];
      assert Run(lines).1 == [];
    }
  }

  lemma {:induction false} NothingDispatched()
    ensures Gather([]) == Nothing && Dispatch(Nothing) == []
  {
  }

  lemma {:induction false} GatherSnoc(lines: seq<string>, line: string)
    ensures Gather(lines + [line]) == Interpret(Gather(lines), line)
  {
    assert (lines + [line])[..|lines|] == lines;
  }

  lemma {:induction false} EmptyField()
    ensures Field("") == ("", "") && Interpret(Nothing, "") == Nothing
  {
    assert |"event"| == 5 && |"data"| == 4;
  }

  ghost predicate NoBlankInside(s: string) {
    forall j :: !SepAt(s, j)
  }

  lemma {:induction false} FewBlankLines(s: string)
    requires '\r' !in s && NoBlankInside(s)
    ensures forall i :: 0 < i < |StdLines(s)| ==> StdLines(s)[i] != ""
    decreases |s|
  {
    hide StdLines;
    StdLinesStep(s);
    match FindNewline(s, 0)
    case None =>
    case Some(i) =>
      var rest := s[i + 1..];
      assert forall j :: SepAt(rest, j) ==> SepAt(s, i + 1 + j);
      FewBlankLines(rest);
      StdLinesStep(rest);
      assert rest != "" && rest[0] == '\n' ==> SepAt(s, i);
  }

  lemma {:induction false} BlockShape(block: string)
    requires '\r' !in block && FindSep(block + "\n\n", 0) == Some(|block|)
    ensures NoBlankInside(block + "\n") && (block != "" ==> block[|block| - 1] != '\n')
  {
    var s, t := block + "\n", block + "\n\n";
    forall j: nat ensures !SepAt(s, j) {
      assert j + 1 < |s| ==> s[j] == t[j] && s[j + 1] == t[j + 1] && !SepAt(t, j);
    }
    assert block != "" && block[|block| - 1] == '\n' ==> SepAt(t, |block| - 1);
  }

  lemma {:induction false} StdBlockGathers(block: string)
    requires '\r' !in block && FindSep(block + "\n\n", 0) == Some(|block|)
    ensures StdBlock(block) == Dispatch(Gather(Lines(block)))
    ensures forall k :: 0 <= k < |Lines(block)| ==> '\n' !in Lines(block)[k]
  {
    hide Gather, Dispatch, Lines, StdLines, NoBlankInside;
    BlockShape(block);
    var lines := StdLines(block + "\n");
    FewBlankLines(block + "\n");
    RunGathers(lines);
    RunSnoc(lines, "");
    if block == "" {
      EmptyBlock();
    } else {
      BlockLinesAgree(block);
    }
  }

  lemma {:induction false} EmptyBlock()
    ensures Lines("") == [] && Gather(StdLines("" + "\n")) == Gather([])
  {
    assert "" + "\n" == "\n";
    StdLinesStep("\n");
    FindNewlineIs("\n", 0, 0);
    assert "\n"[..0] == "" && "\n"[1..] == "";
    StdLinesStep("");
    assert StdLines("\n") == [""];
    assert [""][..0] == [];
    assert Field("") == ("", "");
  }

  // ----- The stream, block by block -----

  function StdAll(blocks: seq<string>): seq<SseEvent> {
    if blocks == [] then [] else StdBlock(blocks[0]) + StdAll(blocks[1..])
  }

  function CodeAll(blocks: seq<string>): seq<SseEvent> {
    if blocks == [] then [] else CodeBlock(blocks[0]) + CodeAll(blocks[1..])
  }

  lemma {:induction false} CodeAllIsDispatched(blocks: seq<string>)
    ensures Dispatched(blocks) == CodeAll(blocks)
    decreases |blocks|
  {
    hide EventOf, Dispatched;
    DispatchedEmpty();
    if blocks != [] {
      CodeAllIsDispatched(blocks[1..]);
      assert blocks == [blocks[0]] + blocks[1..];
      DispatchedConcat([blocks[0]], blocks[1..]);
      DispatchedSnoc([], blocks[0]);
      assert [] + [blocks[0]] == [blocks[0]];
    }
  }

  ghost predicate WholeBlocks(blocks: seq<string>) {
    forall i :: 0 <= i < |blocks| ==> '\r' !in blocks[i] && FindSep(blocks[i] + "\n\n", 0) == Some(|blocks[i]|)
  }

  lemma {:induction false} StdOfJoin(blocks: seq<string>, residue: string)
    requires WholeBlocks(blocks) && '\r' !in residue && FindSep(residue, 0).None?
    ensures '\r' !in Join(blocks) + residue
    ensures StdEvents(Join(blocks) + residue) == StdAll(blocks)
    decreases |blocks|
  {
    hide StdLines, FindSep, Run, StdBlock;
    if blocks == [] {
      assert Join(blocks) + residue == residue;
      NoSepNoBlank(residue);
      FewBlankLines(residue);
      RunGathers(StdLines(residue));
    } else {
      var rest := Join(blocks[1..]) + residue;
      StdOfJoin(blocks[1..], residue);
      var first := blocks[0] + "\n";
      assert Join(blocks) + residue == (first + "\n") + rest;
      StdLinesConcat(first + "\n", rest);
      StdLinesConcat(first, "\n");
      OneBlankLine();
      var lines := StdLines(first);
      RunAfterBlank(lines, StdLines(rest));
      StdBlockIs(blocks[0]);
    }
  }

  lemma {:induction false} StdBlockIs(block: string)
    ensures StdBlock(block) == Run(StdLines(block + "\n") + [""]).1
  {
  }

  lemma {:induction false} OneBlankLine()
    ensures StdLines("\n") == [""]
  {
    StdLinesStep("\n");
    FindNewlineIs("\n", 0, 0);
    assert "\n"[..0] == "" && "\n"[1..] == "";
    StdLinesStep("");
  }

  lemma {:induction false} NoSepNoBlank(s: string)
    requires FindSep(s, 0).None?
    ensures NoBlankInside(s)
  {
  }

  lemma {:induction false} BlocksAreWhole(s: string)
    requires '\r' !in s
    ensures WholeBlocks(Blocks(s)) && '\r' !in Residue(s) && FindSep(Residue(s), 0).None?
    ensures s == Join(Blocks(s)) + Residue(s)
  {
    hide FindSep, Blocks, Residue;
    ParserCuts(s);
    JoinParts(Blocks(s), Residue(s));
  }

  lemma {:induction false} JoinParts(blocks: seq<string>, residue: string)
    requires '\r' !in Join(blocks) + residue
    ensures '\r' !in residue && forall i :: 0 <= i < |blocks| ==> '\r' !in blocks[i]
    decreases |blocks|
  {
    var s := Join(blocks) + residue;
    if blocks == [] {
      assert s == residue;
    } else {
      var rest := Join(blocks[1..]) + residue;
      assert s == blocks[0] + "\n\n" + rest;
      assert forall x :: x in rest ==> x in s;
      assert forall x :: x in blocks[0] ==> x in s;
      JoinParts(blocks[1..], residue);
      forall i | 0 <= i < |blocks| ensures '\r' !in blocks[i] {
        assert i > 0 ==> blocks[i] == blocks[1..][i - 1];
      }
    }
  }

  /** Without carriage returns the standard's events are those of the blocks, one after the other. */
  lemma {:induction false} StdEventsByBlock(s: string)
    requires '\r' !in s
    ensures StdEvents(s) == StdAll(Blocks(s))
  {
    hide StdEvents, StdAll, WholeBlocks;
    BlocksAreWhole(s);
    StdOfJoin(Blocks(s), Residue(s));
  }

  // ----- One block -----

  lemma {:induction false} FindColonIs(line: string, n: nat, from: nat)
    requires from <= n < |line| && line[n] == ':' && forall j :: from <= j < n ==> line[j] != ':'
    ensures FindColon(line, from) == Some(n)
    decreases n - from
  {
    if from < n {
      FindColonIs(line, n, from + 1);
    }
  }

  // A line the parser recognises is the field it takes it for, with the same value.
  lemma {:induction false} RecognisedFields(line: string)
    ensures HasPrefix(line, DATA) ==> Field(line) == ("data", line[|DATA|..])
    ensures HasPrefix(line, EVENT) ==> Field(line) == ("event", line[|EVENT|..])
  {
    if HasPrefix(line, DATA) {
      assert line[..6] == DATA && forall j :: 0 <= j < 6 ==> line[j] == DATA[j];
      FindColonIs(line, 4, 0);
      assert line[..4] == "data" && line[5..][1..] == line[6..];
    }
    if HasPrefix(line, EVENT) {
      assert line[..7] == EVENT && forall j :: 0 <= j < 7 ==> line[j] == EVENT[j];
      FindColonIs(line, 5, 0);
      assert line[..5] == "event" && line[6..][1..] == line[7..];
    }
  }

  function DataCount(lines: seq<string>): nat {
    if lines == [] then 0
    else DataCount(lines[..|lines| - 1]) + if IsData(lines[|lines| - 1]) then 1 else 0
  }

  // Of the event lines the last one counts. The parser reads it if it has a space behind the
  // colon; otherwise what it read before, or nothing, must happen to be the same.
  predicate TypeIsRead(lines: seq<string>) {
    if lines == [] then true
    else
      var n := |lines| - 1;
      if IsEvent(lines[n])
      then HasPrefix(lines[n], EVENT) || Field(lines[n]).1 == LastWith(lines, EVENT, n)
      else TypeIsRead(lines[..n])
  }

  // No data line; or one, with a space behind the colon and something behind the space.
  predicate Conforms(lines: seq<string>) {
    || DataCount(lines) == 0
    || (DataCount(lines) == 1 && LastWith(lines, DATA, |lines|) != "" && TypeIsRead(lines))
  }

  lemma {:induction false} LastWithPrefix(lines: seq<string>, prefix: string, n: nat, m: nat)
    requires n <= m <= |lines|
    ensures LastWith(lines[..m], prefix, n) == LastWith(lines, prefix, n)
  {
    if n > 0 {
      LastWithPrefix(lines, prefix, n - 1, m);
    }
  }

  lemma {:induction false} TypeAgreesIff(lines: seq<string>)
    ensures Gather(lines).eventType == LastWith(lines, EVENT, |lines|) <==> TypeIsRead(lines)
  {
    hide Field, HasPrefix;
    if lines != [] {
      var n := |lines| - 1;
      TypeAgreesIff(lines[..n]);
      LastWithPrefix(lines, EVENT, n, n);
      RecognisedFields(lines[n]);
    }
  }

  lemma {:induction false} DataShape(lines: seq<string>)
    requires forall k :: 0 <= k < |lines| ==> '\n' !in lines[k]
    ensures var d := Gather(lines).data;
      && (DataCount(lines) == 0 <==> d == "")
      && (d != "" ==> d[|d| - 1] == '\n')
      && (DataCount(lines) >= 2 ==> '\n' in d[..|d| - 1])
  {
    if lines != [] {
      var n := |lines| - 1;
      DataShape(lines[..n]);
      var d, v := Gather(lines[..n]).data, Field(lines[n]).1;
      if IsData(lines[n]) && d != "" {
        var all := d + v + "\n";
        assert all[..|all| - 1] == d + v && (d + v)[|d| - 1] == '\n';
      }
    }
  }

  // With one data line the data is its value; the parser sees it if it has the space.
  lemma {:induction false} SingleData(lines: seq<string>)
    requires DataCount(lines) <= 1
    ensures DataCount(lines) == 0 ==> Gather(lines).data == "" && LastWith(lines, DATA, |lines|) == ""
    ensures DataCount(lines) == 1 && LastWith(lines, DATA, |lines|) != "" ==>
      Gather(lines).data == LastWith(lines, DATA, |lines|) + "\n"
  {
    hide Field, HasPrefix;
    if lines != [] {
      var n := |lines| - 1;
      SingleData(lines[..n]);
      LastWithPrefix(lines, DATA, n, n);
      RecognisedFields(lines[n]);
    }
  }

  lemma {:induction false} LastHasNoNewline(lines: seq<string>, prefix: string, n: nat)
    requires n <= |lines| && forall k :: 0 <= k < |lines| ==> '\n' !in lines[k]
    ensures '\n' !in LastWith(lines, prefix, n)
  {
    if n > 0 {
      LastHasNoNewline(lines, prefix, n - 1);
    }
  }

  /** The parser dispatches for a block what the standard does, if and only if the block conforms. */
  lemma {:induction false} BlockAgreesIff(block: string)
    requires '\r' !in block && FindSep(block + "\n\n", 0) == Some(|block|)
    ensures StdBlock(block) == CodeBlock(block) <==> Conforms(Lines(block))
    ensures |CodeBlock(block)| <= |StdBlock(block)| <= 1
    ensures StdBlock(block) == [] <==> DataCount(Lines(block)) == 0
  {
    hide StdBlock, Lines, Gather, DataCount, LastWith, TypeIsRead;
    StdBlockGathers(block);
    var lines := Lines(block);
    var d, x := Gather(lines).data, LastWith(lines, DATA, |lines|);
    DataShape(lines);
    LastHasNoNewline(lines, DATA, |lines|);
    TypeAgreesIff(lines);
    if DataCount(lines) <= 1 {
      SingleData(lines);
      assert x != "" ==> (x + "\n")[..|x|] == x;
    }
  }

  // ----- Whole streams -----

  // Every complete block conforms.
  ghost predicate StreamConforms(s: string) {
    forall i :: 0 <= i < |Blocks(s)| ==> Conforms(Lines(Blocks(s)[i]))
  }

  ghost predicate AllConform(blocks: seq<string>) {
    forall i :: 0 <= i < |blocks| ==> Conforms(Lines(blocks[i]))
  }

  // The parser dispatches at most what the standard does, so agreement is block by block.
  lemma {:induction false} AllAgreeIff(blocks: seq<string>)
    requires WholeBlocks(blocks)
    ensures |CodeAll(blocks)| <= |StdAll(blocks)|
    ensures StdAll(blocks) == CodeAll(blocks) <==> AllConform(blocks)
    decreases |blocks|
  {
    hide StdBlock, CodeBlock, Conforms, Lines, FindSep;
    if blocks != [] {
      var head, tail := blocks[0], blocks[1..];
      AllAgreeIff(tail);
      BlockAgreesIff(head);
      CodeBlockShort(head);
      AllConformStep(blocks);
      ConcatAgrees(StdBlock(head), StdAll(tail), CodeBlock(head), CodeAll(tail));
    }
  }

  lemma {:induction false} CodeBlockShort(block: string)
    ensures |CodeBlock(block)| <= 1
  {
  }

  lemma {:induction false} AllConformStep(blocks: seq<string>)
    requires blocks != []
    ensures AllConform(blocks) <==> Conforms(Lines(blocks[0])) && AllConform(blocks[1..])
  {
    hide Conforms, Lines;
    assert forall i :: 0 < i < |blocks| ==> blocks[i] == blocks[1..][i - 1];
    if Conforms(Lines(blocks[0])) && AllConform(blocks[1..]) {
      forall i | 0 <= i < |blocks| ensures Conforms(Lines(blocks[i])) {
        assert i > 0 ==> Conforms(Lines(blocks[1..][i - 1]));
      }
    }
    if AllConform(blocks) {
      forall i | 0 <= i < |blocks[1..]| ensures Conforms(Lines(blocks[1..][i])) {
        assert blocks[1..][i] == blocks[i + 1];
      }
    }
  }

  lemma {:induction false} ConcatAgrees<T>(a: seq<T>, b: seq<T>, c: seq<T>, d: seq<T>)
    requires |c| <= |a| && |d| <= |b|
    ensures a + b == c + d <==> a == c && b == d
  {
    if a + b == c + d {
      assert |a| == |c|;
      assert a == (a + b)[..|a|] && c == (c + d)[..|c|];
      assert b == (a + b)[|a|..] && d == (c + d)[|c|..];
    }
  }

  /**
    For every stream without carriage returns, in any chunks: the parser emits the standard's
    events if and only if every complete block conforms.
  */
  lemma {:induction false} StreamAgreesIff(chunks: seq<string>)
    requires '\r' !in Concat(chunks)
    ensures Fed(chunks).1 == StdEvents(Concat(chunks)) <==> StreamConforms(Concat(chunks))
  {
    hide StdEvents, Blocks, Dispatched, CodeAll, StdAll, Fed;
    var s := Concat(chunks);
    ChunkingInvariance(chunks);
    StdEventsByBlock(s);
    BlocksAreWhole(s);
    CodeAllIsDispatched(Blocks(s));
    AllAgreeIff(Blocks(s));
  }

  // ----- CR LF -----

  function ToCrLf(s: string): string {
    if s == "" then ""
    else ToCrLf(s[..|s| - 1]) + (if s[|s| - 1] == '\n' then "\r\n" else [s[|s| - 1]])
  }

  lemma {:induction false} ToCrLfConcat(a: string, b: string)
    ensures ToCrLf(a + b) == ToCrLf(a) + ToCrLf(b)
    decreases |b|
  {
    if b == "" {
      assert a + b == a;
    } else {
      var n := |b| - 1;
      ToCrLfConcat(a, b[..n]);
      assert (a + b)[..|a + b| - 1] == a + b[..n];
    }
  }

  lemma {:induction false} ToCrLfPlain(s: string)
    requires '\n' !in s
    ensures ToCrLf(s) == s
  {
    if s != "" {
      ToCrLfPlain(s[..|s| - 1]);
    }
  }

  lemma {:induction false} FirstEndIs(s: string, n: nat, from: nat)
    requires from <= n <= |s| && forall j :: from <= j < n ==> s[j] != '\n' && s[j] != '\r'
    requires n < |s| ==> s[n] == '\n' || s[n] == '\r'
    ensures FirstEnd(s, from) == if n < |s| then Some(n) else None
    decreases n - from
  {
    if from < n {
      FirstEndIs(s, n, from + 1);
    }
  }

  /** To the standard CR LF line ends are as good as LF. */
  lemma {:induction false} StdIgnoresCrLf(s: string)
    requires '\r' !in s
    ensures StdLines(ToCrLf(s)) == StdLines(s)
    decreases |s|
  {
    hide ToCrLf;
    StdLinesStep(s);
    match FindNewline(s, 0)
    case None =>
      ToCrLfPlain(s);
    case Some(i) =>
      var line, rest := s[..i], s[i + 1..];
      ToCrLfLine(s, i);
      FirstCrLfLine(line, ToCrLf(rest));
      StdIgnoresCrLf(rest);
  }

  lemma {:induction false} ToCrLfLine(s: string, i: nat)
    requires i < |s| && s[i] == '\n' && '\n' !in s[..i]
    ensures ToCrLf(s) == s[..i] + ("\r\n" + ToCrLf(s[i + 1..]))
  {
    hide ToCrLf;
    var line, rest := s[..i], s[i + 1..];
    assert s == line + ("\n" + rest);
    ToCrLfConcat(line, "\n" + rest);
    ToCrLfConcat("\n", rest);
    ToCrLfPlain(line);
    NewlineToCrLf();
  }

  lemma {:induction false} FirstCrLfLine(line: string, rest: string)
    requires '\n' !in line && '\r' !in line
    ensures StdLines(line + ("\r\n" + rest)) == [line] + StdLines(rest)
  {
    var t, i := line + ("\r\n" + rest), |line|;
    FirstEndIs(t, i, 0);
    assert t[..i] == line && EndLength(t, i) == 2 && t[i + 2..] == rest;
  }

  // A line without a line feed is one line, carriage returns included.
  lemma {:induction false} OneLine(s: string)
    requires '\n' !in s && s != ""
    ensures Lines(s) == [s]
  {
    NoNewline(s, 0);
  }

  /** Within a block the parser does take CR LF for a line end: only the blank line must be LF LF. */
  lemma {:induction false} LinesIgnoreCrLf(s: string)
    requires '\r' !in s
    ensures Lines(ToCrLf(s)) == Lines(s)
    decreases |s|
  {
    hide ToCrLf, Lines, FindNewline;
    if s == "" {
      ToCrLfPlain(s);
    } else {
      LinesStep(s);
      match FindNewline(s, 0)
      case None =>
        ToCrLfPlain(s);
      case Some(i) =>
        ToCrLfLine(s, i);
        FirstCodeLine(s[..i], ToCrLf(s[i + 1..]));
        LinesIgnoreCrLf(s[i + 1..]);
    }
  }

  lemma {:induction false} FirstCodeLine(line: string, rest: string)
    requires '\n' !in line
    ensures Lines(line + ("\r\n" + rest)) == [line] + Lines(rest)
  {
    var t, i := line + ("\r\n" + rest), |line| + 1;
    FindNewlineIs(t, i, 0);
    assert t[..i] == line + "\r" && t[i + 1..] == rest;
    assert StripCr(t[..i]) == line;
  }

  lemma {:induction false} NewlineToCrLf()
    ensures ToCrLf("\n") == "\r\n"
  {
    assert "\n"[..0] == "";
  }

  ghost predicate OnlyCrLf(t: string) {
    forall i :: 0 <= i < |t| && t[i] == '\n' ==> i > 0 && t[i - 1] == '\r'
  }

  lemma {:induction false} CrBeforeLf(s: string)
    requires '\r' !in s
    ensures OnlyCrLf(ToCrLf(s))
  {
    if s != "" {
      var n := |s| - 1;
      CrBeforeLf(s[..n]);
      var t, front := ToCrLf(s), ToCrLf(s[..n]);
      assert s[n] in s;
      forall i | 0 <= i < |t| && t[i] == '\n' ensures i > 0 && t[i - 1] == '\r' {
        if i < |front| {
          assert front[i] == '\n';
          assert i > 0 && front[i - 1] == '\r' && t[i - 1] == front[i - 1];
        } else {
          assert s[n] == '\n' && t == front + "\r\n" && i == |front| + 1;
          assert t[|front|] == '\r';
        }
      }
    }
  }

  // Some complete block has a data line.
  ghost predicate HasData(s: string) {
    exists i :: 0 <= i < |Blocks(s)| && DataCount(Lines(Blocks(s)[i])) > 0
  }

  lemma {:induction false} StdAllEmptyIff(blocks: seq<string>)
    requires WholeBlocks(blocks)
    ensures StdAll(blocks) == [] <==> forall i :: 0 <= i < |blocks| ==> DataCount(Lines(blocks[i])) == 0
    decreases |blocks|
  {
    hide StdBlock, CodeBlock, Lines, FindSep, DataCount;
    if blocks != [] {
      var tail := blocks[1..];
      StdAllEmptyIff(tail);
      BlockAgreesIff(blocks[0]);
      assert forall i :: 0 < i < |blocks| ==> blocks[i] == tail[i - 1];
      if forall i :: 0 <= i < |blocks| ==> DataCount(Lines(blocks[i])) == 0 {
        assert forall i :: 0 <= i < |tail| ==> tail[i] == blocks[i + 1];
      }
    }
  }

  /**
    The same stream with CR LF line ends: the standard sees the same events, the parser none.
    They agree if and only if the stream has no data at all.
  */
  lemma {:induction false} CrLfAgreesIff(s: string, chunks: seq<string>)
    requires '\r' !in s && Concat(chunks) == ToCrLf(s)
    ensures StdEvents(Concat(chunks)) == StdEvents(s) && Fed(chunks).1 == []
    ensures Fed(chunks).1 == StdEvents(Concat(chunks)) <==> !HasData(s)
  {
    hide Blocks, StdAll, Fed, WholeBlocks, DataCount;
    StdIgnoresCrLf(s);
    CrBeforeLf(s);
    CrLfStreamsAreSilent(chunks);
    StdEventsByBlock(s);
    BlocksAreWhole(s);
    StdAllEmptyIff(Blocks(s));
  }
}
