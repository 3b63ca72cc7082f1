/**
  The byte side of services/rust-worker/src/sse.rs:124-127: every chunk is decoded on its own
  with `from_utf8_lossy` before it reaches the text buffer, so a character cut by a chunk
  boundary is lost.

  `Lossy` replaces, as the Unicode standard recommends in section 3.9 and Rust does, each
  maximal part that begins a well-formed character but does not complete it.
*/
module Utf8Chunks {
  import opened Arithmetic
  import opened SseParser

  // ----- Decoding -----

  predicate Continues(b: byte) { 0x80 <= b < 0xC0 }

  // The length of the character that a byte begins; 0 when it begins none.
  function Width(lead: byte): nat {
    if lead < 0x80 then 1
    else if 0xC2 <= lead < 0xE0 then 2
    else if 0xE0 <= lead < 0xF0 then 3
    else if 0xF0 <= lead < 0xF5 then 4
    else 0
  }

  // No overlong forms, surrogates or values above 0x10FFFF.
  predicate SecondFits(lead: byte, second: byte) {
    && Continues(second)
    && (lead == 0xE0 ==> second >= 0xA0)
    && (lead == 0xED ==> second < 0xA0)
    && (lead == 0xF0 ==> second >= 0x90)
    && (lead == 0xF4 ==> second < 0x90)
  }

  // How many bytes at the front belong together: all of a character, or as much as fits one.
  function Front(b: seq<byte>): (n: nat)
    requires b != []
    ensures 1 <= n <= |b| && (Width(b[0]) > 0 ==> n <= Width(b[0]))
    ensures forall i :: 1 <= i < n ==> Continues(b[i])
  {
    var w := Width(b[0]);
    if w <= 1 || |b| < 2 || !SecondFits(b[0], b[1]) then 1
    else if w == 2 || |b| < 3 || !Continues(b[2]) then 2
    else if w == 3 || |b| < 4 || !Continues(b[3]) then 3
    else 4
  }

  function Scalar(b: seq<byte>): (c: char)
    requires b != [] && Front(b) == |b| == Width(b[0])
  {
    var b0 := b[0] as int;
    if |b| == 1 then b0 as char
    else
      var b1 := b[1] as int - 0x80;
      if |b| == 2 then ((b0 - 0xC0) * 0x40 + b1) as char
      else
        var b2 := b[2] as int - 0x80;
        if |b| == 3 then ((b0 - 0xE0) * 0x1000 + b1 * 0x40 + b2) as char
        else ((b0 - 0xF0) * 0x40000 + b1 * 0x1000 + b2 * 0x40 + (b[3] as int - 0x80)) as char
  }

  const REPLACEMENT: char := 0xFFFD as char

  lemma {:induction false} FrontAlone(b: seq<byte>)
    requires b != []
    ensures Front(b[..Front(b)]) == Front(b)
  {
  }

  function FirstChar(b: seq<byte>): char
    requires b != []
  {
    if Front(b) == Width(b[0]) then FrontAlone(b); Scalar(b[..Front(b)]) else REPLACEMENT
  }

  function Lossy(b: seq<byte>): string {
    if b == [] then "" else [FirstChar(b)] + Lossy(b[Front(b)..])
  }

  // Well-formed UTF-8.
  predicate WellFormed(b: seq<byte>) {
    b == [] || (Front(b) == Width(b[0]) && WellFormed(b[Front(b)..]))
  }

  // ----- Encoding -----

  function EncodeChar(c: char): (b: seq<byte>)
    ensures b != []
  {
    var n := c as int;
    var n1 := n / 0x40;
    var n2 := n1 / 0x40;
    if n < 0x80 then [n as byte]
    else if n < 0x800 then [(0xC0 + n1) as byte, Tail(n)]
    else if n < 0x10000 then [(0xE0 + n2) as byte, Tail(n1), Tail(n)]
    else [(0xF0 + n2 / 0x40) as byte, Tail(n2), Tail(n1), Tail(n)]
  }

  // A continuation byte with the lowest six bits of n.
  function Tail(n: nat): (b: byte)
    ensures Continues(b) && b as int == 0x80 + n % 0x40
  {
    (0x80 + n % 0x40) as byte
  }

  function Encode(text: string): seq<byte> {
    if text == "" then [] else EncodeChar(text[0]) + Encode(text[1..])
  }

  lemma {:induction false} EncodedCharFits(c: char)
    ensures var b := EncodeChar(c); Front(b) == |b| == Width(b[0])
  {
  }

  lemma {:induction false} EncodedCharDecodes(c: char)
    requires var b := EncodeChar(c); Front(b) == |b| == Width(b[0])
    ensures Scalar(EncodeChar(c)) == c
  {
    hide Front, Width, SecondFits;
    var n := c as int;
    SixBits(n);
    SixBits(n / 0x40);
    SixBits(n / 0x40 / 0x40);
    assert Scalar(EncodeChar(c)) as int == n;
  }

  lemma {:induction false} SixBits(n: int)
    ensures n == n / 0x40 * 0x40 + n % 0x40
  {
  }

  lemma {:induction false} FrontOfMore(b: seq<byte>, rest: seq<byte>)
    requires b != [] && Front(b) == |b| == Width(b[0])
    ensures Front(b + rest) == |b|
  {
    assert forall i :: 0 <= i < |b| ==> (b + rest)[i] == b[i];
  }

  /** Every text has a well-formed encoding, and decoding inverts it. */
  lemma {:induction false} EncodeRoundTrip(text: string)
    ensures WellFormed(Encode(text)) && Lossy(Encode(text)) == text
    decreases |text|
  {
    hide Front, Scalar, Width, EncodeChar;
    if text != "" {
      var b, rest := EncodeChar(text[0]), Encode(text[1..]);
      EncodedCharFits(text[0]);
      EncodedCharDecodes(text[0]);
      FrontOfMore(b, rest);
      EncodeRoundTrip(text[1..]);
      assert (b + rest)[..|b|] == b && (b + rest)[|b|..] == rest && (b + rest)[0] == b[0];
      assert text == [text[0]] + text[1..];
    }
  }

  // ----- Chunks -----

  function ConcatBytes(chunks: seq<seq<byte>>): seq<byte> {
    if chunks == [] then [] else chunks[0] + ConcatBytes(chunks[1..])
  }

  // What reaches the buffer.
  function Received(chunks: seq<seq<byte>>): string {
    if chunks == [] then "" else Lossy(chunks[0]) + Received(chunks[1..])
  }

  // The chunk starts in the middle of a character.
  predicate CutsIn(chunk: seq<byte>) { chunk != [] && Continues(chunk[0]) }

  ghost predicate CutsNone(chunks: seq<seq<byte>>) {
    forall i :: 0 <= i < |chunks| ==> !CutsIn(chunks[i])
  }

  lemma {:induction false} FrontPrefix(x: seq<byte>, y: seq<byte>)
    requires x != [] && (Front(x + y) <= |x| || (y != [] && !Continues(y[0])))
    ensures Front(x + y) == Front(x) && Front(x) <= |x|
  {
    var b := x + y;
    assert forall i :: 0 <= i < |x| ==> b[i] == x[i];
    assert y != [] ==> b[|x|] == y[0];
  }

  // Cutting a well-formed text in front of a character cuts its decoding.
  lemma {:induction false} CutAtCharacter(x: seq<byte>, y: seq<byte>)
    requires WellFormed(x + y) && !CutsIn(y)
    ensures WellFormed(x) && WellFormed(y) && Lossy(x + y) == Lossy(x) + Lossy(y)
    decreases |x|
  {
    hide Front, FirstChar, Width, Lossy, WellFormed;
    EmptyText();
    if x == [] {
      assert x + y == y;
    } else if y == [] {
      assert x + y == x && Lossy(x) + "" == Lossy(x);
    } else {
      var b := x + y;
      FrontPrefix(x, y);
      var n := Front(x);
      assert b[0] == x[0] && b[..n] == x[..n] && b[n..] == x[n..] + y;
      DecodeStep(b);
      DecodeStep(x);
      CutAtCharacter(x[n..], y);
      FirstCharPrefix(x, b);
      assert [FirstChar(x)] + (Lossy(x[n..]) + Lossy(y)) == [FirstChar(x)] + Lossy(x[n..]) + Lossy(y);
    }
  }

  lemma {:induction false} DecodeStep(b: seq<byte>)
    requires b != []
    ensures Lossy(b) == [FirstChar(b)] + Lossy(b[Front(b)..])
    ensures WellFormed(b) <==> Front(b) == Width(b[0]) && WellFormed(b[Front(b)..])
  {
  }

  lemma {:induction false} FirstCharPrefix(x: seq<byte>, b: seq<byte>)
    requires x != [] && b != [] && Front(b) == Front(x) && b[0] == x[0] && b[..Front(b)] == x[..Front(x)]
    ensures FirstChar(b) == FirstChar(x)
  {
    hide Scalar, Width;
  }

  // ----- Counting characters -----

  // Bytes that do not continue a character.
  function Leads(b: seq<byte>): nat {
    if b == [] then 0 else (if Continues(b[0]) then 0 else 1) + Leads(b[1..])
  }

  lemma {:induction false} LeadsConcat(x: seq<byte>, y: seq<byte>)
    ensures Leads(x + y) == Leads(x) + Leads(y)
    decreases |x|
  {
    if x == [] {
      assert x + y == y;
    } else {
      assert (x + y)[1..] == x[1..] + y;
      LeadsConcat(x[1..], y);
    }
  }

  lemma {:induction false} ContinuationsDoNotLead(b: seq<byte>)
    requires forall i :: 0 <= i < |b| ==> Continues(b[i])
    ensures Leads(b) == 0
  {
    if b != [] {
      ContinuationsDoNotLead(b[1..]);
    }
  }

  lemma {:induction false} LeadsOfFront(b: seq<byte>)
    requires b != []
    ensures Leads(b[..Front(b)]) == if Continues(b[0]) then 0 else 1
  {
    hide Continues;
    var front := b[..Front(b)];
    assert forall i :: 0 <= i < |front[1..]| ==> front[1..][i] == b[i + 1];
    ContinuationsDoNotLead(front[1..]);
  }

  // Decoding makes at least one character of every lead byte; more, if the first byte is none.
  lemma {:induction false} LossyCounts(b: seq<byte>)
    ensures |Lossy(b)| >= Leads(b) + if CutsIn(b) then 1 else 0
    ensures WellFormed(b) ==> |Lossy(b)| == Leads(b)
    decreases |b|
  {
    hide FirstChar, Leads;
    LeadsNone();
    if b != [] {
      var n := Front(b);
      LossyCounts(b[n..]);
      LeadsOfFront(b);
      assert b == b[..n] + b[n..];
      LeadsConcat(b[..n], b[n..]);
      WidthOfContinuation(b[0]);
    }
  }

  lemma {:induction false} LeadsNone()
    ensures Leads([]) == 0
  {
  }

  lemma {:induction false} WidthOfContinuation(b: byte)
    ensures Continues(b) ==> Width(b) == 0
  {
  }

  /** What is left of a cut character: U+FFFD at the end of one chunk and at the start of the next. */
  lemma {:induction false} CutIsReplaced(head: seq<byte>, tail: seq<byte>)
    requires head != [] && tail != [] && Front(head + tail) == |head + tail| == Width(head[0])
    ensures Lossy(head) == [0xFFFD as char] && Lossy(tail) != "" && Lossy(tail)[0] == 0xFFFD as char
  {
    hide Scalar;
    var b := head + tail;
    assert forall i :: 0 <= i < |head| ==> b[i] == head[i];
    assert b[|head|] == tail[0];
    assert Front(head) == |head| && Width(head[0]) > |head|;
    assert head[Front(head)..] == [];
    EmptyText();
    WidthOfContinuation(tail[0]);
  }

  lemma {:induction false} ReceivedCounts(chunks: seq<seq<byte>>)
    ensures |Received(chunks)| >= Leads(ConcatBytes(chunks)) + if CutsNone(chunks) then 0 else 1
    decreases |chunks|
  {
    hide Lossy, Leads, CutsIn;
    LeadsNone();
    if chunks != [] {
      ReceivedCounts(chunks[1..]);
      LossyCounts(chunks[0]);
      LeadsConcat(chunks[0], ConcatBytes(chunks[1..]));
      if !CutsIn(chunks[0]) && CutsNone(chunks[1..]) {
        assert forall i :: 0 < i < |chunks| ==> chunks[i] == chunks[1..][i - 1];
      }
    }
  }

  lemma {:induction false} WholeChunks(chunks: seq<seq<byte>>)
    requires WellFormed(ConcatBytes(chunks)) && CutsNone(chunks)
    ensures Received(chunks) == Lossy(ConcatBytes(chunks))
    ensures !CutsIn(ConcatBytes(chunks))
    decreases |chunks|
  {
    hide Lossy, WellFormed;
    if chunks == [] {
      EmptyText();
    } else {
      var tail := chunks[1..];
      assert forall i :: 0 <= i < |tail| ==> tail[i] == chunks[i + 1];
      NoCutInside(tail);
      CutAtCharacter(chunks[0], ConcatBytes(tail));
      WholeChunks(tail);
      assert chunks[0] == [] ==> ConcatBytes(chunks) == ConcatBytes(tail);
    }
  }

  lemma {:induction false} EmptyText()
    ensures Lossy([]) == "" && WellFormed([])
  {
  }

  lemma {:induction false} NoCutInside(chunks: seq<seq<byte>>)
    requires CutsNone(chunks)
    ensures !CutsIn(ConcatBytes(chunks))
    decreases |chunks|
  {
    if chunks != [] {
      assert forall i :: 0 <= i < |chunks[1..]| ==> chunks[1..][i] == chunks[i + 1];
      NoCutInside(chunks[1..]);
      assert !CutsIn(chunks[0]);
      assert chunks[0] == [] ==> ConcatBytes(chunks) == ConcatBytes(chunks[1..]);
    }
  }

  /**
    For a well-formed byte stream the text received is the text sent if and only if no chunk
    starts in the middle of a character; otherwise it is longer.
  */
  lemma {:induction false} ReceivedIff(chunks: seq<seq<byte>>)
    requires WellFormed(ConcatBytes(chunks))
    ensures Received(chunks) == Lossy(ConcatBytes(chunks)) <==> CutsNone(chunks)
    ensures |Received(chunks)| >= |Lossy(ConcatBytes(chunks))|
  {
    hide Lossy, WellFormed, CutsNone, Leads;
    ReceivedCounts(chunks);
    LossyCounts(ConcatBytes(chunks));
    if CutsNone(chunks) {
      WholeChunks(chunks);
    }
  }

  /** In terms of the text: it arrives as sent if and only if no chunk starts inside a character. */
  lemma {:induction false} TextArrivesIff(text: string, chunks: seq<seq<byte>>)
    requires ConcatBytes(chunks) == Encode(text)
    ensures Received(chunks) == text <==> CutsNone(chunks)
  {
    hide Lossy, WellFormed, CutsNone, Encode;
    EncodeRoundTrip(text);
    ReceivedIff(chunks);
  }

  // The chunks as the parser gets them.
  function Decoded(chunks: seq<seq<byte>>): seq<string> {
    seq(|chunks|, i requires 0 <= i < |chunks| => Lossy(chunks[i]))
  }

  lemma {:induction false} DecodedConcat(chunks: seq<seq<byte>>)
    ensures Concat(Decoded(chunks)) == Received(chunks)
    decreases |chunks|
  {
    hide Lossy;
    if chunks != [] {
      var n := |chunks| - 1;
      var texts := Decoded(chunks);
      assert texts[..n] == Decoded(chunks[..n]);
      DecodedConcat(chunks[..n]);
      ReceivedSnoc(chunks[..n], chunks[n]);
      assert chunks == chunks[..n] + [chunks[n]];
    }
  }

  lemma {:induction false} ReceivedSnoc(chunks: seq<seq<byte>>, chunk: seq<byte>)
    ensures Received(chunks + [chunk]) == Received(chunks) + Lossy(chunk)
    decreases |chunks|
  {
    hide Lossy;
    var all := chunks + [chunk];
    if chunks == [] {
      assert all[1..] == [];
      assert Received([]) == "";
      assert Lossy(chunk) + "" == Lossy(chunk);
    } else {
      assert all[1..] == chunks[1..] + [chunk];
      ReceivedSnoc(chunks[1..], chunk);
    }
  }

  /** Chunking invariance on bytes: as long as no chunk cuts a character, only the bytes sent matter. */
  lemma {:induction false} ByteChunkingInvariance(chunks: seq<seq<byte>>)
    requires WellFormed(ConcatBytes(chunks)) && CutsNone(chunks)
    ensures var text := Lossy(ConcatBytes(chunks));
      Fed(Decoded(chunks)) == (Residue(text), Dispatched(Blocks(text)))
  {
    hide Lossy, WellFormed, CutsNone, Fed, Decoded, Blocks, Residue, Dispatched;
    DecodedConcat(chunks);
    ReceivedIff(chunks);
    ChunkingInvariance(Decoded(chunks));
  }

  /** ASCII streams may be cut anywhere. */
  lemma {:induction false} AsciiIsNeverCut(chunks: seq<seq<byte>>)
    requires forall i :: 0 <= i < |ConcatBytes(chunks)| ==> ConcatBytes(chunks)[i] < 0x80
    ensures WellFormed(ConcatBytes(chunks)) && CutsNone(chunks)
    decreases |chunks|
  {
    AsciiIsWellFormed(ConcatBytes(chunks));
    if chunks != [] {
      var b, tail := ConcatBytes(chunks), ConcatBytes(chunks[1..]);
      assert forall i :: 0 <= i < |tail| ==> tail[i] == b[|chunks[0]| + i];
      AsciiIsNeverCut(chunks[1..]);
      assert chunks[0] != [] ==> chunks[0][0] == b[0];
      assert forall i :: 0 < i < |chunks| ==> chunks[i] == chunks[1..][i - 1];
    }
  }

  lemma {:induction false} AsciiIsWellFormed(b: seq<byte>)
    requires forall i :: 0 <= i < |b| ==> b[i] < 0x80
    ensures WellFormed(b)
    decreases |b|
  {
    if b != [] {
      AsciiIsWellFormed(b[1..]);
    }
  }
}
