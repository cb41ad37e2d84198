/** Newline-delimited framing shared by both peers: a frame is a serialized
    message followed by a single newline; a reader appends each incoming chunk
    to a buffer, splits the buffer on newlines, hands on every piece but the
    last and keeps the last piece as the new buffer. */
module Framing {

  datatype Option<T> = None | Some(value: T)

  const Newline: char := '\n'

  predicate NoNewline(s: string) {
    Newline !in s
  }

  predicate AllNoNewline(parts: seq<string>) {
    forall i :: 0 <= i < |parts| ==> NoNewline(parts[i])
  }

  /** The frame that carries one serialized message: `payload + "\n"`. */
  function Encode(payload: string): string {
    payload + [Newline]
  }

  /** The wire text of several frames, one after the other. */
  function EncodeAll(payloads: seq<string>): string {
    if payloads == [] then "" else Encode(payloads[0]) + EncodeAll(payloads[1..])
  }

  lemma {:induction false} EncodeAllAppend(a: seq<string>, b: seq<string>)
    ensures EncodeAll(a + b) == EncodeAll(a) + EncodeAll(b)
  {
    if a == [] {
      assert a + b == b;
    } else {
      assert (a + b)[1..] == a[1..] + b;
      EncodeAllAppend(a[1..], b);
    }
  }

  /** `s.split("\n")`: the pieces of `s` between newlines; there is always at
      least one, and the last is what follows the last newline. */
  function Split(s: string): (parts: seq<string>)
    ensures |parts| >= 1
    ensures AllNoNewline(parts)
    ensures EncodeAll(parts[..|parts| - 1]) + parts[|parts| - 1] == s
    decreases |s|
  {
    if |s| == 0 then [""]
    else if s[0] == Newline then
      var rest := Split(s[1..]);
      assert s == [Newline] + s[1..];
      PrependNewline(rest, s[1..]);
      [""] + rest
    else
      var rest := Split(s[1..]);
      assert s == [s[0]] + s[1..];
      PrependToFirst(s[0], rest, s[1..]);
      [[s[0]] + rest[0]] + rest[1..]
  }

  /** A newline put in front of a text starts it with an empty piece. */
  lemma PrependNewline(rest: seq<string>, u: string)
    requires |rest| >= 1 && AllNoNewline(rest)
    requires EncodeAll(rest[..|rest| - 1]) + rest[|rest| - 1] == u
    ensures var parts := [""] + rest;
      AllNoNewline(parts) && EncodeAll(parts[..|parts| - 1]) + parts[|parts| - 1] == [Newline] + u
  {
    var parts := [""] + rest;
    forall i | 0 <= i < |parts| ensures NoNewline(parts[i]) {
      if i > 0 { assert parts[i] == rest[i - 1]; }
    }
    assert parts[..|parts| - 1] == [""] + rest[..|rest| - 1];
    assert EncodeAll(parts[..|parts| - 1]) == Encode("") + EncodeAll(rest[..|rest| - 1]) by {
      assert ([""] + rest[..|rest| - 1])[1..] == rest[..|rest| - 1];
    }
  }

  /** A character other than a newline, put in front of a text, joins the
      text's first piece. */
  lemma PrependToFirst(c: char, rest: seq<string>, u: string)
    requires c != Newline
    requires |rest| >= 1 && AllNoNewline(rest)
    requires EncodeAll(rest[..|rest| - 1]) + rest[|rest| - 1] == u
    ensures var parts := [[c] + rest[0]] + rest[1..];
      AllNoNewline(parts) && EncodeAll(parts[..|parts| - 1]) + parts[|parts| - 1] == [c] + u
  {
    var parts := [[c] + rest[0]] + rest[1..];
    assert NoNewline(rest[0]);
    forall i | 0 <= i < |parts| ensures NoNewline(parts[i]) {
      if i > 0 { assert parts[i] == rest[i]; }
    }
    if |rest| > 1 {
      assert rest[..|rest| - 1] == [rest[0]] + rest[1..|rest| - 1];
      assert parts[..|parts| - 1] == [[c] + rest[0]] + rest[1..|rest| - 1];
    }
  }

  lemma {:induction false} SplitNoNewline(s: string)
    requires NoNewline(s)
    ensures Split(s) == [s]
    decreases |s|
  {
    if |s| > 0 {
      SplitNoNewline(s[1..]);
      assert [s[0]] + s[1..] == s;
    }
  }

  lemma {:induction false} SplitAfterFrame(p: string, u: string)
    requires NoNewline(p)
    ensures Split(Encode(p) + u) == [p] + Split(u)
    decreases |p|
  {
    if |p| == 0 {
      assert Encode(p) + u == [Newline] + u;
      assert (Encode(p) + u)[1..] == u;
    } else {
      var t := Encode(p) + u;
      assert t[0] == p[0] && t[1..] == Encode(p[1..]) + u;
      SplitAfterFrame(p[1..], u);
      var rest := Split(t[1..]);
      assert rest == [p[1..]] + Split(u);
      assert Split(t) == [[p[0]] + rest[0]] + rest[1..];
      assert [p[0]] + p[1..] == p;
    }
  }

  /** `Split` is the only way to cut a text into newline-free pieces that
      rejoin to it. */
  lemma {:induction false} SplitUnique(parts: seq<string>, s: string)
    requires |parts| >= 1 && AllNoNewline(parts)
    requires EncodeAll(parts[..|parts| - 1]) + parts[|parts| - 1] == s
    ensures Split(s) == parts
    decreases |parts|
  {
    if |parts| == 1 {
      assert parts[..0] == [] && EncodeAll([]) == "";
      assert NoNewline(parts[0]) && s == parts[0];
      SplitNoNewline(s);
      assert parts == [parts[0]];
    } else {
      var tail := parts[1..];
      assert parts[..|parts| - 1] == [parts[0]] + tail[..|tail| - 1];
      var u := EncodeAll(tail[..|tail| - 1]) + tail[|tail| - 1];
      assert s == Encode(parts[0]) + u;
      assert AllNoNewline(tail) by {
        forall i | 0 <= i < |tail| ensures NoNewline(tail[i]) {
          assert tail[i] == parts[i + 1];
        }
      }
      SplitUnique(tail, u);
      SplitAfterFrame(parts[0], u);
      assert [parts[0]] + tail == parts;
    }
  }

  /** What one step of the read loop yields: the complete segments and the
      text kept for the next chunk. */
  datatype StepResult = StepResult(segments: seq<string>, rest: string)

  /** One iteration of the read loop: append `chunk`, split on newlines, keep
      the last piece. The segments are newline-free, the kept text holds no
      newline, and the segments framed again, followed by the kept text, are
      exactly the buffered text. */
  function Step(buffer: string, chunk: string): (r: StepResult)
    ensures AllNoNewline(r.segments) && NoNewline(r.rest)
    ensures EncodeAll(r.segments) + r.rest == buffer + chunk
  {
    var parts := Split(buffer + chunk);
    var segments := parts[..|parts| - 1];
    assert AllNoNewline(segments) by {
      forall i | 0 <= i < |segments| ensures NoNewline(segments[i]) {
        assert segments[i] == parts[i];
      }
    }
    StepResult(segments, parts[|parts| - 1])
  }

  /** The segments and the kept text of a step are determined by the
      properties `Step` states: there is no other decomposition. */
  lemma StepUnique(buffer: string, chunk: string, segments: seq<string>, rest: string)
    requires AllNoNewline(segments) && NoNewline(rest)
    requires EncodeAll(segments) + rest == buffer + chunk
    ensures Step(buffer, chunk) == StepResult(segments, rest)
  {
    var parts := segments + [rest];
    assert parts[..|parts| - 1] == segments;
    assert AllNoNewline(parts) by {
      forall i | 0 <= i < |parts| ensures NoNewline(parts[i]) {
        if i < |segments| { assert parts[i] == segments[i]; }
      }
    }
    SplitUnique(parts, buffer + chunk);
  }

  lemma AllNoNewlineAppend(a: seq<string>, b: seq<string>)
    requires AllNoNewline(a) && AllNoNewline(b)
    ensures AllNoNewline(a + b)
  {
    forall i | 0 <= i < |a + b| ensures NoNewline((a + b)[i]) {
      if i < |a| { assert (a + b)[i] == a[i]; }
      else { assert (a + b)[i] == b[i - |a|]; }
    }
  }

  /** Splitting `x + y` at once is the same as splitting `x`, then feeding
      `y` to the text kept from `x`. */
  lemma StepCompose(buffer: string, x: string, y: string)
    ensures var r1 := Step(buffer, x);
            var r2 := Step(r1.rest, y);
            Step(buffer, x + y) == StepResult(r1.segments + r2.segments, r2.rest)
  {
    var r1 := Step(buffer, x);
    var r2 := Step(r1.rest, y);
    EncodeAllAppend(r1.segments, r2.segments);
    AllNoNewlineAppend(r1.segments, r2.segments);
    var first, second := EncodeAll(r1.segments), EncodeAll(r2.segments);
    assert first + r1.rest == buffer + x;
    assert second + r2.rest == r1.rest + y;
    SeqAssoc(first, second, r2.rest);
    SeqAssoc(first, r1.rest, y);
    SeqAssoc(buffer, x, y);
    StepUnique(buffer, x + y, r1.segments + r2.segments, r2.rest);
  }

  /** A readable body as the read loop sees it: the chunks `read()` delivers,
      already decoded to text, and whether the next `read()` after them
      rejects instead of reporting the end of the stream. */
  datatype ChunkStream = ChunkStream(chunks: seq<string>, readFails: bool)

  /** The wire text of frames enqueued one at a time. */
  function Frames(payloads: seq<string>): seq<string> {
    seq(|payloads|, i requires 0 <= i < |payloads| => Encode(payloads[i]))
  }

  /** The whole text of a stream of chunks. */
  function Flatten(chunks: seq<string>): string {
    if chunks == [] then "" else Flatten(chunks[..|chunks| - 1]) + chunks[|chunks| - 1]
  }

  /** The read loop run over a whole sequence of chunks, starting from
      `buffer`: all complete segments in order, and the text kept at the end. */
  function Feed(buffer: string, chunks: seq<string>): StepResult {
    if chunks == [] then StepResult([], buffer)
    else
      var prev := Feed(buffer, chunks[..|chunks| - 1]);
      var next := Step(prev.rest, chunks[|chunks| - 1]);
      StepResult(prev.segments + next.segments, next.rest)
  }

  /** Nothing is lost or invented by the read loop, whatever the starting
      buffer: the segments are newline-free, and framing them again and
      appending the kept text gives back the buffer followed by every chunk.
      The kept text holds no newline once the buffer it started from held
      none. */
  lemma {:induction false} FeedSpec(buffer: string, chunks: seq<string>)
    ensures var r := Feed(buffer, chunks);
      && AllNoNewline(r.segments)
      && EncodeAll(r.segments) + r.rest == buffer + Flatten(chunks)
      && (NoNewline(buffer) ==> NoNewline(r.rest))
    decreases |chunks|
  {
    if chunks == [] {
      assert buffer + "" == buffer;
    } else {
      var init, last := chunks[..|chunks| - 1], chunks[|chunks| - 1];
      FeedSpec(buffer, init);
      var prev := Feed(buffer, init);
      var next := Step(prev.rest, last);
      AllNoNewlineAppend(prev.segments, next.segments);
      EncodeAllAppend(prev.segments, next.segments);
      var a, b := EncodeAll(prev.segments), EncodeAll(next.segments);
      assert b + next.rest == prev.rest + last;
      SeqAssoc(a, b, next.rest);
      SeqAssoc(a, prev.rest, last);
      SeqAssoc(buffer, Flatten(init), last);
    }
  }

  /** Chunk-split independence: what the read loop yields depends only on the
      concatenation of the chunks, not on where the transport cut them. */
  lemma {:induction false} FeedIsStepOfFlatten(buffer: string, chunks: seq<string>)
    requires NoNewline(buffer)
    ensures Feed(buffer, chunks) == Step(buffer, Flatten(chunks))
    decreases |chunks|
  {
    if chunks == [] {
      SplitNoNewline(buffer);
      assert buffer + "" == buffer;
      assert Split(buffer)[..0] == [];
    } else {
      var init := chunks[..|chunks| - 1];
      FeedIsStepOfFlatten(buffer, init);
      StepCompose(buffer, Flatten(init), chunks[|chunks| - 1]);
    }
  }

  /** Frames enqueued one by one make up the same text as the frames
      written at once. */
  lemma {:induction false} FlattenFrames(payloads: seq<string>)
    ensures Flatten(Frames(payloads)) == EncodeAll(payloads)
    decreases |payloads|
  {
    if payloads != [] {
      var init := payloads[..|payloads| - 1];
      var last := payloads[|payloads| - 1];
      var fs := Frames(payloads);
      assert fs[..|fs| - 1] == Frames(init);
      FlattenFrames(init);
      assert payloads == init + [last];
      EncodeAllAppend(init, [last]);
      assert EncodeAll([last]) == Encode(last) + EncodeAll([]);
    }
  }

  /** Two ways of cutting the same text into chunks give the same segments
      and the same kept text. */
  lemma ChunkBoundariesIrrelevant(buffer: string, a: seq<string>, b: seq<string>)
    requires NoNewline(buffer)
    requires Flatten(a) == Flatten(b)
    ensures Feed(buffer, a) == Feed(buffer, b)
  {
    FeedIsStepOfFlatten(buffer, a);
    FeedIsStepOfFlatten(buffer, b);
  }

  /** A chunk holding K complete frames yields exactly those K payloads,
      in order, and leaves nothing buffered. */
  lemma FramesInOneChunk(payloads: seq<string>)
    requires AllNoNewline(payloads)
    ensures Step("", EncodeAll(payloads)) == StepResult(payloads, "")
  {
    assert EncodeAll(payloads) + "" == "" + EncodeAll(payloads);
    StepUnique("", EncodeAll(payloads), payloads, "");
  }

  /** However the frames are cut into chunks, the loop yields exactly the
      payloads, in order, and nothing stays buffered. */
  lemma FramesInAnyChunks(payloads: seq<string>, chunks: seq<string>)
    requires AllNoNewline(payloads)
    requires Flatten(chunks) == EncodeAll(payloads)
    ensures Feed("", chunks) == StepResult(payloads, "")
  {
    FeedIsStepOfFlatten("", chunks);
    FramesInOneChunk(payloads);
  }

  /** `decode(encode(p)) == p` for a payload without a newline, however the
      one frame is cut into chunks. */
  lemma FrameRoundTrip(payload: string, chunks: seq<string>)
    requires NoNewline(payload)
    requires Flatten(chunks) == Encode(payload)
    ensures Feed("", chunks) == StepResult([payload], "")
  {
    assert EncodeAll([payload]) == Encode(payload) + EncodeAll([]);
    FramesInAnyChunks([payload], chunks);
  }

  /** Text after the last newline is never handed on: it stays buffered
      until a newline arrives, and is dropped when the stream ends. */
  lemma UnterminatedTailKept(payloads: seq<string>, tail: string)
    requires AllNoNewline(payloads) && NoNewline(tail)
    ensures Step("", EncodeAll(payloads) + tail) == StepResult(payloads, tail)
  {
    assert "" + (EncodeAll(payloads) + tail) == EncodeAll(payloads) + tail;
    StepUnique("", EncodeAll(payloads) + tail, payloads, tail);
  }

  // ---------------------------------------------------------------------
  // `String.prototype.trim`: the dispatch filter skips segments that trim
  // to the empty string.

  /** The characters ECMAScript's `trim` removes: WhiteSpace and
      LineTerminator. */
  predicate IsWhitespace(c: char) {
    || c == '\t' || c == '\n' || c == '\U{000B}' || c == '\U{000C}' || c == '\r'
    || c == ' ' || c == '\U{00A0}' || c == '\U{1680}'
    || ('\U{2000}' <= c <= '\U{200A}')
    || c == '\U{2028}' || c == '\U{2029}' || c == '\U{202F}' || c == '\U{205F}'
    || c == '\U{3000}' || c == '\U{FEFF}'
  }

  predicate AllWhitespace(s: string) {
    forall i :: 0 <= i < |s| ==> IsWhitespace(s[i])
  }

  /** `trimStart`: drops leading whitespace. */
  function TrimStart(s: string): string {
    if s != [] && IsWhitespace(s[0]) then TrimStart(s[1..]) else s
  }

  /** `trimEnd`: drops trailing whitespace. */
  function TrimEnd(s: string): string {
    if s != [] && IsWhitespace(s[|s| - 1]) then TrimEnd(s[..|s| - 1]) else s
  }

  /** `trim`. */
  function Trim(s: string): string {
    TrimEnd(TrimStart(s))
  }

  /** `TrimStart` keeps a suffix of `s`; everything before it is whitespace,
      and it does not start with whitespace. */
  lemma {:induction false} TrimStartSpec(s: string)
    ensures var r := TrimStart(s);
      && |r| <= |s| && r == s[|s| - |r|..]
      && AllWhitespace(s[..|s| - |r|])
      && (r == [] || !IsWhitespace(r[0]))
    decreases |s|
  {
    if s != [] && IsWhitespace(s[0]) {
      TrimStartSpec(s[1..]);
      var r := TrimStart(s[1..]);
      assert s[..|s| - |r|] == [s[0]] + s[1..][..|s| - 1 - |r|];
      assert s[1..][|s| - 1 - |r|..] == s[|s| - |r|..];
    } else {
      assert s[..0] == [] && s[0..] == s;
    }
  }

  /** `TrimEnd` keeps a prefix of `s`; everything after it is whitespace,
      and it does not end with whitespace. */
  lemma {:induction false} TrimEndSpec(s: string)
    ensures var r := TrimEnd(s);
      && |r| <= |s| && r == s[..|r|]
      && AllWhitespace(s[|r|..])
      && (r == [] || !IsWhitespace(r[|r| - 1]))
    decreases |s|
  {
    if s != [] && IsWhitespace(s[|s| - 1]) {
      TrimEndSpec(s[..|s| - 1]);
      var r := TrimEnd(s[..|s| - 1]);
      assert s[|r|..] == s[..|s| - 1][|r|..] + [s[|s| - 1]];
      assert s[..|s| - 1][..|r|] == s[..|r|];
    } else {
      assert s[|s|..] == [] && s[..|s|] == s;
    }
  }

  /** A segment trims to nothing exactly when every character of it is
      whitespace (the empty segment included). */
  lemma TrimEmptyIffBlank(s: string)
    ensures Trim(s) == [] <==> AllWhitespace(s)
  {
    TrimStartSpec(s);
    var t := TrimStart(s);
    TrimEndSpec(t);
    if t == [] {
      assert s[..|s|] == s;
    } else {
      assert t[0] == s[|s| - |t|];
      assert TrimEnd(t) != [] by {
        assert t[0..] == t;
      }
    }
  }

  // ---------------------------------------------------------------------
  // Serialization, and the dispatch filter.

  /** `JSON.stringify` and `JSON.parse`, taken as given: `None` from
      `stringify` is a value it throws on, `None` from `parse` is text it
      rejects. */
  datatype Codec<!M> = Codec(stringify: M -> Option<string>, parse: string -> Option<M>)

  /** What the protocol requires of the serializer: serialized text holds no
      newline, is not blank, and parses back to the message. */
  ghost predicate Lawful<M(!new)>(codec: Codec<M>) {
    forall m: M :: codec.stringify(m).Some? ==>
      var s := codec.stringify(m).value;
      NoNewline(s) && !AllWhitespace(s) && codec.parse(s) == Some(m)
  }

  /** Whether the read loop hands a segment to the parser: `msgStr.trim()`
      is truthy. */
  predicate Dispatchable(segment: string) {
    Trim(segment) != []
  }

  /** The message a segment becomes, if any: blank segments are skipped and
      segments the parser rejects are dropped. */
  function DecodeSegment<M>(codec: Codec<M>, segment: string): Option<M> {
    if Dispatchable(segment) then codec.parse(segment) else None
  }

  /** The messages handed to the handlers for a sequence of complete
      segments, in order. */
  function Decoded<M>(codec: Codec<M>, segments: seq<string>): seq<M> {
    if segments == [] then []
    else
      Decoded(codec, segments[..|segments| - 1]) +
        match DecodeSegment(codec, segments[|segments| - 1])
        case Some(m) => [m]
        case None => []
  }

  lemma {:induction false} DecodedAppend<M>(codec: Codec<M>, a: seq<string>, b: seq<string>)
    ensures Decoded(codec, a + b) == Decoded(codec, a) + Decoded(codec, b)
    decreases |b|
  {
    if b == [] {
      assert a + b == a;
    } else {
      var b' := b[..|b| - 1];
      assert (a + b)[..|a + b| - 1] == a + b';
      assert (a + b)[|a + b| - 1] == b[|b| - 1];
      DecodedAppend(codec, a, b');
    }
  }

  /** A segment is handed to the handlers exactly when it holds a
      character other than whitespace and the parser accepts it, and then as
      the parsed message. */
  lemma DecodeSegmentSpec<M>(codec: Codec<M>, segment: string)
    ensures DecodeSegment(codec, segment).Some? <==>
      !AllWhitespace(segment) && codec.parse(segment).Some?
    ensures DecodeSegment(codec, segment).Some? ==> DecodeSegment(codec, segment) == codec.parse(segment)
  {
    TrimEmptyIffBlank(segment);
  }

  /** The segment loop never yields more messages than it was given
      segments. */
  lemma {:induction false} DecodedNeverInvents<M>(codec: Codec<M>, segments: seq<string>)
    ensures |Decoded(codec, segments)| <= |segments|
    decreases |segments|
  {
    if segments != [] {
      DecodedNeverInvents(codec, segments[..|segments| - 1]);
    }
  }

  /** A run of blank segments dispatches nothing. */
  lemma {:induction false} DecodedBlankIsEmpty<M>(codec: Codec<M>, segments: seq<string>)
    requires forall i :: 0 <= i < |segments| ==> AllWhitespace(segments[i])
    ensures Decoded(codec, segments) == []
    decreases |segments|
  {
    if segments != [] {
      var init, last := segments[..|segments| - 1], segments[|segments| - 1];
      assert forall i :: 0 <= i < |init| ==> init[i] == segments[i];
      DecodedBlankIsEmpty(codec, init);
      DecodeSegmentSpec(codec, last);
      assert DecodeSegment(codec, last).None?;
    }
  }

  /** When every segment decodes, each one is dispatched, in order. */
  lemma {:induction false} DecodedAllDecodable<M>(codec: Codec<M>, segments: seq<string>)
    requires forall i :: 0 <= i < |segments| ==> DecodeSegment(codec, segments[i]).Some?
    ensures |Decoded(codec, segments)| == |segments|
    ensures forall i :: 0 <= i < |segments| ==> Decoded(codec, segments)[i] == DecodeSegment(codec, segments[i]).value
    decreases |segments|
  {
    if segments != [] {
      var init, last := segments[..|segments| - 1], segments[|segments| - 1];
      assert forall i :: 0 <= i < |init| ==> init[i] == segments[i];
      DecodedAllDecodable(codec, init);
      var d := Decoded(codec, init);
      assert Decoded(codec, segments) == d + [DecodeSegment(codec, last).value];
    }
  }

  /** The messages the read loop hands on for a whole body. */
  function DecodeStream<M>(codec: Codec<M>, chunks: seq<string>): seq<M> {
    Decoded(codec, Feed("", chunks).segments)
  }

  /** The serialized forms of `ms`, when every one of them serializes. */
  function Serialized<M>(codec: Codec<M>, ms: seq<M>): Option<seq<string>> {
    if ms == [] then Some([])
    else
      var head := codec.stringify(ms[0]);
      var tail := Serialized(codec, ms[1..]);
      if head.Some? && tail.Some? then Some([head.value] + tail.value) else None
  }

  /** Under a lawful codec, serializing messages, framing them and feeding
      the frames through the read loop in any chunking gives back exactly
      the messages, in order. */
  lemma {:induction false} MessagesRoundTrip<M(!new)>(codec: Codec<M>, ms: seq<M>, chunks: seq<string>)
    requires Lawful(codec)
    requires Serialized(codec, ms).Some?
    requires Flatten(chunks) == EncodeAll(Serialized(codec, ms).value)
    ensures Feed("", chunks).rest == ""
    ensures DecodeStream(codec, chunks) == ms
    decreases |ms|
  {
    var ss := Serialized(codec, ms).value;
    SerializedNoNewline(codec, ms);
    SerializedDecodes(codec, ms);
    FramesInAnyChunks(ss, chunks);
  }

  /** Under a lawful codec a serialized message is dispatched and parses back. */
  lemma DecodeSerialized<M(!new)>(codec: Codec<M>, m: M)
    requires Lawful(codec)
    requires codec.stringify(m).Some?
    ensures DecodeSegment(codec, codec.stringify(m).value) == Some(m)
  {
    TrimEmptyIffBlank(codec.stringify(m).value);
  }

  lemma DecodedSingle<M>(codec: Codec<M>, segment: string)
    ensures Decoded(codec, [segment]) ==
      match DecodeSegment(codec, segment)
      case Some(m) => [m]
      case None => []
  {
    assert [segment][..0] == [];
  }

  lemma {:induction false} SerializedNoNewline<M(!new)>(codec: Codec<M>, ms: seq<M>)
    requires Lawful(codec)
    requires Serialized(codec, ms).Some?
    ensures AllNoNewline(Serialized(codec, ms).value)
    decreases |ms|
  {
    if ms != [] {
      var s := codec.stringify(ms[0]).value;
      var ss := Serialized(codec, ms[1..]).value;
      var all := Serialized(codec, ms).value;
      assert all == [s] + ss;
      SerializedNoNewline(codec, ms[1..]);
      assert NoNewline(s);
      forall i | 0 <= i < |all| ensures NoNewline(all[i]) {
        if i > 0 { assert all[i] == ss[i - 1]; }
      }
    }
  }

  lemma {:induction false} SerializedDecodes<M(!new)>(codec: Codec<M>, ms: seq<M>)
    requires Lawful(codec)
    requires Serialized(codec, ms).Some?
    ensures Decoded(codec, Serialized(codec, ms).value) == ms
    decreases |ms|
  {
    if ms != [] {
      var s := codec.stringify(ms[0]).value;
      var ss := Serialized(codec, ms[1..]).value;
      assert Serialized(codec, ms).value == [s] + ss;
      SerializedDecodes(codec, ms[1..]);
      DecodeSerialized(codec, ms[0]);
      DecodedSingle(codec, s);
      DecodedAppend(codec, [s], ss);
      assert [ms[0]] + ms[1..] == ms;
    }
  }

  /** One more turn of a read loop: the next chunk is stepped through with
      the text kept so far. */
  lemma FeedOneMore(chunks: seq<string>, i: nat)
    requires i < |chunks|
    ensures var before := Feed("", chunks[..i]);
            var next := Step(before.rest, chunks[i]);
            Feed("", chunks[..i + 1]) == StepResult(before.segments + next.segments, next.rest)
  {
    assert chunks[..i + 1][..i] == chunks[..i];
  }

  /** One more turn of the segment loop: the segment's message, if it has
      one, joins the messages decoded so far. */
  lemma DecodedOneMore<M>(codec: Codec<M>, segments: seq<string>, j: nat)
    requires j < |segments|
    ensures Decoded(codec, segments[..j + 1]) ==
      Decoded(codec, segments[..j]) +
        match DecodeSegment(codec, segments[j])
        case Some(m) => [m]
        case None => []
  {
    assert segments[..j + 1][..j] == segments[..j];
  }

  /** Concatenation is associative. */
  lemma SeqAssoc<T>(a: seq<T>, b: seq<T>, c: seq<T>)
    ensures (a + b) + c == a + (b + c)
  {
  }
}
