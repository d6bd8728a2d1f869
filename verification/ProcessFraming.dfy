/**
  The output framer of src/simple_ar/core/process_output.py.

  `ProcessOutput` is the source's class, character by character. `Split` says declaratively which
  messages a text amounts to. The two agree however the text is cut into chunks and however the two
  streams interleave.
*/
module ProcessFraming {
  import opened Texts

  datatype Stream = Stdout | Stderr
  datatype Piece = Piece(text: string, transient: bool)
  datatype Message = Message(stream: Stream, piece: Piece)
  datatype Chunk = Chunk(stream: Stream, text: string)

  const LIMIT: nat := 8192

  predicate IsBreak(c: char) {
    c == '\r' || c == '\n'
  }

  ghost predicate Unbroken(text: string) {
    forall c <- text :: !IsBreak(c)
  }

  // ---------------------------------------------------------------------------------------------
  // The declarative splitter
  // ---------------------------------------------------------------------------------------------

  function Unless(body: string, transient: bool): (pieces: seq<Piece>)
    ensures pieces == [] <==> Blank(body)
  {
    if Blank(body) then [] else [Piece(body, transient)]
  }

  /** The length of the first piece: up to a line break, the length limit or the end of the text. */
  function PieceLength(text: string): (k: nat)
    ensures k <= |text| && k <= LIMIT
    ensures Unbroken(text[..k])
    ensures k < |text| && k < LIMIT ==> IsBreak(text[k])
  {
    PieceLengthFrom(text, 0)
  }

  function PieceLengthFrom(text: string, i: nat): (k: nat)
    requires i <= |text| && i <= LIMIT && Unbroken(text[..i])
    ensures k <= |text| && k <= LIMIT
    ensures Unbroken(text[..k])
    ensures k < |text| && k < LIMIT ==> IsBreak(text[k])
    decreases |text| - i
  {
    if i == |text| || i == LIMIT || IsBreak(text[i]) then i
    else
      assert text[..i + 1] == text[..i] + [text[i]];
      PieceLengthFrom(text, i + 1)
  }

  /**
    LF and CRLF end a permanent piece, CR followed by anything else a transient one. A piece of full
    length, the last piece, and a piece ended by a CR at the very end are permanent. Blank pieces vanish.
  */
  function Split(text: string): seq<Piece>
    decreases |text|
  {
    if text == "" then []
    else
      var k := PieceLength(text);
      if k == LIMIT then Unless(text[..k], false) + Split(text[k..])
      else if k == |text| then Unless(text, false)
      else if text[k] == '\n' then Unless(text[..k], false) + Split(text[k + 1..])
      else if k + 1 == |text| then Unless(text[..k], false)
      else if text[k + 1] == '\n' then Unless(text[..k], false) + Split(text[k + 2..])
      else Unless(text[..k], true) + Split(text[k + 1..])
  }

  /** The length of the first piece is determined by what stands around it. */
  lemma PieceLengthIs(body: string, rest: string)
    requires Unbroken(body) && |body| <= LIMIT
    requires |body| == LIMIT || rest == "" || IsBreak(rest[0])
    ensures PieceLength(body + rest) == |body|
  {
    hide IsSpace;
    var text := body + rest;
    var k := PieceLength(text);
    assert forall i :: 0 <= i < |body| ==> text[i] == body[i] && body[i] in body;
    assert rest != "" ==> text[|body|] == rest[0];
    assert forall i :: 0 <= i < k ==> text[i] == text[..k][i] && text[i] in text[..k];
  }

  lemma SplitFull(body: string, rest: string)
    requires Unbroken(body) && |body| == LIMIT
    ensures Split(body + rest) == Unless(body, false) + Split(rest)
  {
    hide IsSpace;
    PieceLengthIs(body, rest);
    hide PieceLength, Unbroken, Blank;
    assert (body + rest)[..LIMIT] == body && (body + rest)[LIMIT..] == rest;
  }

  lemma SplitAtLine(body: string, rest: string)
    requires Unbroken(body) && |body| < LIMIT
    ensures Split(body + "\n" + rest) == Unless(body, false) + Split(rest)
  {
    hide IsSpace;
    var text := body + "\n" + rest;
    assert text == body + ("\n" + rest);
    PieceLengthIs(body, "\n" + rest);
    hide PieceLength, Unbroken, Blank;
    assert text[..|body|] == body && text[|body|] == '\n' && text[|body| + 1..] == rest;
  }

  lemma SplitAtReturnLine(body: string, rest: string)
    requires Unbroken(body) && |body| < LIMIT
    ensures Split(body + "\r\n" + rest) == Unless(body, false) + Split(rest)
  {
    hide IsSpace;
    var text := body + "\r\n" + rest;
    assert text == body + ("\r\n" + rest);
    PieceLengthIs(body, "\r\n" + rest);
    hide PieceLength, Unbroken, Blank;
    assert text[..|body|] == body && text[|body|] == '\r' && text[|body| + 1] == '\n' && text[|body| + 2..] == rest;
  }

  lemma SplitTransient(text: string, k: nat)
    requires k == PieceLength(text) < LIMIT && k + 1 < |text| && text[k] == '\r' && text[k + 1] != '\n'
    ensures Split(text) == Unless(text[..k], true) + Split(text[k + 1..])
  {
    hide PieceLength, Blank, Unbroken;
  }

  lemma SplitAtReturn(body: string, rest: string)
    requires Unbroken(body) && |body| < LIMIT && rest != "" && rest[0] != '\n'
    ensures Split(body + "\r" + rest) == Unless(body, true) + Split(rest)
  {
    hide IsSpace, Split, PieceLength, Unless;
    var text := body + "\r" + rest;
    assert text == body + ("\r" + rest);
    PieceLengthIs(body, "\r" + rest);
    assert text[..|body|] == body && text[|body| + 1..] == rest;
    SplitTransient(text, |body|);
  }

  lemma SplitAtEnd(body: string)
    requires Unbroken(body) && |body| < LIMIT
    ensures Split(body) == Unless(body, false) == Split(body + "\r")
  {
    hide IsSpace;
    PieceLengthIs(body, "");
    assert body + "" == body;
    PieceLengthIs(body, "\r");
    assert (body + "\r")[..|body|] == body;
  }

  // ---------------------------------------------------------------------------------------------
  // What the splitter gives, piece by piece
  // ---------------------------------------------------------------------------------------------

  /** A line feed ends a permanent piece, and a blank line gives nothing. */
  lemma LineFeedEnds(body: string, rest: string)
    requires Unbroken(body) && |body| < LIMIT
    ensures !Blank(body) ==> Split(body + "\n" + rest) == [Piece(body, false)] + Split(rest)
    ensures Blank(body) ==> Split(body + "\n" + rest) == Split(rest)
  {
    hide Split, PieceLength, Blank;
    SplitAtLine(body, rest);
    assert [] + Split(rest) == Split(rest);
  }

  /** So do a carriage return and a line feed together. */
  lemma ReturnLineFeedEnds(body: string, rest: string)
    requires Unbroken(body) && |body| < LIMIT
    ensures !Blank(body) ==> Split(body + "\r\n" + rest) == [Piece(body, false)] + Split(rest)
    ensures Blank(body) ==> Split(body + "\r\n" + rest) == Split(rest)
  {
    hide Split, PieceLength, Blank;
    SplitAtReturnLine(body, rest);
    assert [] + Split(rest) == Split(rest);
  }

  /** A carriage return before anything else ends a transient piece. */
  lemma ReturnEnds(body: string, rest: string)
    requires Unbroken(body) && |body| < LIMIT && rest != "" && rest[0] != '\n'
    ensures !Blank(body) ==> Split(body + "\r" + rest) == [Piece(body, true)] + Split(rest)
    ensures Blank(body) ==> Split(body + "\r" + rest) == Split(rest)
  {
    hide Split, PieceLength, Blank;
    SplitAtReturn(body, rest);
    assert [] + Split(rest) == Split(rest);
  }

  /** A full piece is permanent, whatever follows. */
  lemma FullPieceEnds(body: string, rest: string)
    requires Unbroken(body) && |body| == 8192
    ensures !Blank(body) ==> Split(body + rest) == [Piece(body, false)] + Split(rest)
    ensures Blank(body) ==> Split(body + rest) == Split(rest)
  {
    hide Split, PieceLength, Blank;
    SplitFull(body, rest);
    assert [] + Split(rest) == Split(rest);
  }

  /** What is left at the end is permanent, with or without a carriage return behind it. */
  lemma EndEnds(body: string)
    requires Unbroken(body) && |body| < LIMIT
    ensures !Blank(body) ==> Split(body) == [Piece(body, false)] == Split(body + "\r")
    ensures Blank(body) ==> Split(body) == [] == Split(body + "\r")
  {
    hide Split, PieceLength, Blank;
    SplitAtEnd(body);
  }

  /** The limit is 8192 characters, and the two breaks are carriage return and line feed. */
  lemma LimitAndBreaks(c: char)
    ensures LIMIT == 8192
    ensures IsBreak(c) <==> c in "\r\n"
  {
  }

  // ---------------------------------------------------------------------------------------------
  // The state machine
  // ---------------------------------------------------------------------------------------------

  datatype Frame = Frame(buffer: string, carriage: bool)
  datatype Output = Output(frame: Frame, pieces: seq<Piece>)

  const START := Frame("", false)

  /** One character when no carriage return is pending. */
  function PlainStep(buffer: string, c: char): Output {
    if c == '\r' then Output(Frame(buffer, true), [])
    else if c == '\n' then Output(START, Unless(buffer, false))
    else if |buffer| + 1 >= LIMIT then Output(START, Unless(buffer + [c], false))
    else Output(Frame(buffer + [c], false), [])
  }

  function Step(f: Frame, c: char): Output {
    if !f.carriage then PlainStep(f.buffer, c)
    else if c == '\n' then Output(START, Unless(f.buffer, false))
    else
      var plain := PlainStep("", c);
      Output(plain.frame, Unless(f.buffer, true) + plain.pieces)
  }

  function Run(f: Frame, text: string): Output
    decreases |text|
  {
    if text == "" then Output(f, [])
    else
      var init := Run(f, text[..|text| - 1]);
      var last := Step(init.frame, text[|text| - 1]);
      Output(last.frame, init.pieces + last.pieces)
  }

  /** What `finish` finds in every buffer: less than a full piece, and no line break. */
  ghost predicate Bounded(f: Frame) {
    |f.buffer| < LIMIT && Unbroken(f.buffer)
  }

  lemma StepBounded(f: Frame, c: char)
    requires Bounded(f)
    ensures Bounded(Step(f, c).frame)
  {
  }

  lemma {:induction false} RunBounded(f: Frame, text: string)
    requires Bounded(f)
    ensures Bounded(Run(f, text).frame)
    decreases |text|
  {
    if text != "" { RunBounded(f, text[..|text| - 1]); }
  }

  lemma RunNothing(f: Frame)
    ensures Run(f, "") == Output(f, [])
  {
  }

  lemma RunSnoc(f: Frame, text: string, i: nat)
    requires i < |text|
    ensures Run(f, text[..i + 1])
         == var init := Run(f, text[..i]); var last := Step(init.frame, text[i]);
            Output(last.frame, init.pieces + last.pieces)
  {
    assert text[..i + 1][..i] == text[..i];
  }

  lemma RunLast(f: Frame, text: string)
    requires text != ""
    ensures var n := |text| - 1; var init := Run(f, text[..n]); var last := Step(init.frame, text[n]);
      Run(f, text) == Output(last.frame, init.pieces + last.pieces)
  {
    hide Step;
  }

  lemma {:induction false} RunConcat(f: Frame, a: string, b: string)
    ensures Run(f, a + b)
         == Output(Run(Run(f, a).frame, b).frame, Run(f, a).pieces + Run(Run(f, a).frame, b).pieces)
    decreases |b|
  {
    hide Run, Step;
    var middle := Run(f, a);
    if b == "" {
      assert a + b == a;
      RunNothing(middle.frame);
    } else {
      var n := |b| - 1;
      var before := Run(middle.frame, b[..n]);
      var last := Step(before.frame, b[n]);
      assert (a + b)[..|a + b| - 1] == a + b[..n] && (a + b)[|a + b| - 1] == b[n];
      RunConcat(f, a, b[..n]);
      RunLast(f, a + b);
      RunLast(middle.frame, b);
      assert middle.pieces + before.pieces + last.pieces == middle.pieces + (before.pieces + last.pieces);
    }
  }

  /** All that a frame still emits when it is fed `text` and then finished. */
  function Remaining(f: Frame, text: string): seq<Piece> {
    Run(f, text).pieces + Unless(Run(f, text).frame.buffer, false)
  }

  lemma RemainingStep(f: Frame, c: char, rest: string)
    ensures Remaining(f, [c] + rest) == Step(f, c).pieces + Remaining(Step(f, c).frame, rest)
  {
    RunConcat(f, [c], rest);
    assert [c][..0] == "";
    assert Run(f, [c]) == Step(f, c);
  }

  /** The text a frame has seen since its last message. */
  function Pending(f: Frame): string {
    f.buffer + if f.carriage then "\r" else ""
  }

  lemma PlainStepSplits(body: string, c: char, rest: string)
    requires |body| < LIMIT && Unbroken(body)
    ensures Split(body + [c] + rest)
         == PlainStep(body, c).pieces + Split(Pending(PlainStep(body, c).frame) + rest)
  {
    hide Split, Unless;
    if c == '\n' {
      SplitAtLine(body, rest);
      assert Pending(START) + rest == rest;
    } else if c != '\r' && |body| + 1 == LIMIT {
      SplitFull(body + [c], rest);
      assert Pending(START) + rest == rest;
    } else {
      assert PlainStep(body, c).pieces == [];
      assert Pending(PlainStep(body, c).frame) == body + [c];
      assert [] + Split(body + [c] + rest) == Split(body + [c] + rest);
    }
  }

  lemma StepSplits(f: Frame, c: char, rest: string)
    requires Bounded(f)
    ensures Split(Pending(f) + [c] + rest) == Step(f, c).pieces + Split(Pending(Step(f, c).frame) + rest)
  {
    hide Split, Unless, PlainStep;
    if !f.carriage {
      PlainStepSplits(f.buffer, c, rest);
      assert Pending(f) == f.buffer;
    } else if c == '\n' {
      SplitAtReturnLine(f.buffer, rest);
      assert Pending(f) + [c] + rest == f.buffer + "\r\n" + rest;
      assert Pending(START) + rest == rest;
    } else {
      SplitAtReturn(f.buffer, [c] + rest);
      assert Pending(f) + [c] + rest == f.buffer + "\r" + ([c] + rest);
      PlainStepSplits("", c, rest);
      assert "" + [c] + rest == [c] + rest;
    }
  }

  /** Refinement: from any reachable frame the machine emits the split of pending and coming text. */
  lemma {:induction false} MachineRefinesSplit(f: Frame, text: string)
    requires Bounded(f)
    ensures Remaining(f, text) == Split(Pending(f) + text)
    decreases |text|
  {
    hide Split, Unless, Step;
    if text == "" {
      SplitAtEnd(f.buffer);
      RunNothing(f);
      assert Pending(f) + text == Pending(f) == if f.carriage then f.buffer + "\r" else f.buffer;
      assert [] + Unless(f.buffer, false) == Unless(f.buffer, false);
    } else {
      var c, rest := text[0], text[1..];
      assert text == [c] + rest;
      assert Pending(f) + text == Pending(f) + [c] + rest;
      RemainingStep(f, c, rest);
      StepSplits(f, c, rest);
      StepBounded(f, c);
      MachineRefinesSplit(Step(f, c).frame, rest);
    }
  }

  // ---------------------------------------------------------------------------------------------
  // Whole sessions
  // ---------------------------------------------------------------------------------------------

  function Tagged(stream: Stream, pieces: seq<Piece>): seq<Message> {
    seq(|pieces|, i requires 0 <= i < |pieces| => Message(stream, pieces[i]))
  }

  lemma TaggedUnless(stream: Stream, body: string, transient: bool)
    ensures Tagged(stream, Unless(body, transient))
         == if Blank(body) then [] else [Message(stream, Piece(body, transient))]
  {
    hide Blank;
  }

  /** The pieces one stream's callbacks carried, in order. */
  function Of(messages: seq<Message>, stream: Stream): seq<Piece> {
    if messages == [] then []
    else
      var last := messages[|messages| - 1];
      Of(messages[..|messages| - 1], stream) + if last.stream == stream then [last.piece] else []
  }

  lemma OfLast(messages: seq<Message>, last: Message, observed: Stream)
    ensures Of(messages + [last], observed)
         == Of(messages, observed) + if last.stream == observed then [last.piece] else []
  {
    assert (messages + [last])[..|messages|] == messages;
  }

  lemma {:induction false} OfTagged(messages: seq<Message>, stream: Stream, pieces: seq<Piece>, observed: Stream)
    ensures Of(messages + Tagged(stream, pieces), observed)
         == Of(messages, observed) + if observed == stream then pieces else []
    decreases |pieces|
  {
    hide Of;
    if pieces == [] {
      assert messages + Tagged(stream, pieces) == messages;
    } else {
      var n := |pieces| - 1;
      var before := messages + Tagged(stream, pieces[..n]);
      OfTagged(messages, stream, pieces[..n], observed);
      assert messages + Tagged(stream, pieces) == before + [Message(stream, pieces[n])];
      OfLast(before, Message(stream, pieces[n]), observed);
      assert pieces == pieces[..n] + [pieces[n]];
    }
  }

  /** Everything fed to one stream, joined. */
  function TextOf(chunks: seq<Chunk>, stream: Stream): string {
    if chunks == [] then ""
    else
      var last := chunks[|chunks| - 1];
      TextOf(chunks[..|chunks| - 1], stream) + if last.stream == stream then last.text else ""
  }

  lemma TextOfOne(chunk: Chunk, stream: Stream)
    ensures TextOf([chunk], stream) == if chunk.stream == stream then chunk.text else ""
  {
    assert [chunk][..0] == [];
  }

  lemma TextOfLast(chunks: seq<Chunk>, chunk: Chunk, stream: Stream)
    ensures TextOf(chunks + [chunk], stream) == TextOf(chunks, stream) + TextOf([chunk], stream)
  {
    TextOfOne(chunk, stream);
    assert (chunks + [chunk])[..|chunks|] == chunks;
  }

  /** A stream's text is what its own chunks hold, in their order. */
  lemma {:induction false} TextOfParts(one: seq<Chunk>, other: seq<Chunk>, stream: Stream)
    ensures TextOf([], stream) == ""
    ensures TextOf(one + other, stream) == TextOf(one, stream) + TextOf(other, stream)
  {
    if other == [] {
      assert one + other == one;
    } else {
      var n := |other| - 1;
      TextOfParts(one, other[..n], stream);
      TextOfLast(one + other[..n], other[n], stream);
      TextOfLast(other[..n], other[n], stream);
      hide TextOf;
      assert one + other == (one + other[..n]) + [other[n]] && other == other[..n] + [other[n]];
      Regroup(TextOf(one, stream), TextOf(other[..n], stream), TextOf([other[n]], stream));
    }
  }

  lemma Regroup(a: string, b: string, c: string)
    ensures (a + b) + c == a + (b + c)
  {
  }

  /** The messages of one stream and its frame are what the machine makes of the text fed to it. */
  ghost predicate Explains(messages: seq<Message>, stream: Stream, frame: Frame, finished: seq<Piece>, fed: string) {
    Run(START, fed).frame == frame && Of(messages, stream) == finished + Run(START, fed).pieces
  }

  lemma ExplainsStart(messages: seq<Message>, stream: Stream)
    ensures Explains(messages, stream, START, Of(messages, stream), "")
  {
    RunNothing(START);
  }

  lemma ExplainsOther(
      messages: seq<Message>, stream: Stream, frame: Frame, finished: seq<Piece>, fed: string,
      other: Stream, pieces: seq<Piece>)
    requires Explains(messages, stream, frame, finished, fed) && other != stream
    ensures Explains(messages + Tagged(other, pieces), stream, frame, finished, fed)
  {
    hide Run, Of, Tagged;
    OfTagged(messages, other, pieces, stream);
  }

  lemma ExplainsFeed(
      messages: seq<Message>, stream: Stream, frame: Frame, finished: seq<Piece>, fed: string, chunk: string)
    requires Explains(messages, stream, frame, finished, fed)
    ensures Explains(messages + Tagged(stream, Run(frame, chunk).pieces), stream,
                     Run(frame, chunk).frame, finished, fed + chunk)
  {
    hide Run, Of, Tagged;
    RunConcat(START, fed, chunk);
    OfTagged(messages, stream, Run(frame, chunk).pieces, stream);
  }

  lemma ExplainsFinish(messages: seq<Message>, stream: Stream, frame: Frame, finished: seq<Piece>, fed: string)
    requires Explains(messages, stream, frame, finished, fed)
    ensures Of(messages + Tagged(stream, Unless(frame.buffer, false)), stream) == finished + Split(fed)
  {
    hide Run, Of, Tagged, Unless, Split;
    OfTagged(messages, stream, Unless(frame.buffer, false), stream);
    MachineRefinesSplit(START, fed);
    assert Pending(START) + fed == fed;
  }

  class ProcessOutput {
    var callbacks: seq<Message>
    var buffers: map<Stream, string>
    var carriage: map<Stream, bool>
    ghost var fed: map<Stream, string>            // since construction or the last finish
    ghost var finished: map<Stream, seq<Piece>>   // what earlier finishes closed

    ghost function FrameOf(stream: Stream): Frame
      reads this
      requires stream in buffers && stream in carriage
    {
      Frame(buffers[stream], carriage[stream])
    }

    ghost predicate StreamValid(s: Stream)
      reads this
    {
      s in buffers && s in carriage && s in fed && s in finished &&
      Explains(callbacks, s, FrameOf(s), finished[s], fed[s])
    }

    ghost predicate Valid()
      reads this
    {
      StreamValid(Stdout) && StreamValid(Stderr)
    }

    constructor ()
      ensures Valid() && callbacks == []
      ensures fed == map[Stdout := "", Stderr := ""] && finished == map[Stdout := [], Stderr := []]
    {
      callbacks := [];
      buffers := map[Stdout := "", Stderr := ""];
      carriage := map[Stdout := false, Stderr := false];
      fed := map[Stdout := "", Stderr := ""];
      finished := map[Stdout := [], Stderr := []];
      ExplainsStart([], Stdout);
      ExplainsStart([], Stderr);
    }

    method Emit(stream: Stream, transient: bool)
      requires stream in buffers
      modifies `buffers, `callbacks
      ensures buffers == old(buffers)[stream := ""]
      ensures callbacks == old(callbacks)
                           + if Blank(old(buffers[stream])) then []
                             else [Message(stream, Piece(old(buffers[stream]), transient))]
    {
      var text := buffers[stream];
      buffers := buffers[stream := ""];
      if !Blank(text) {
        callbacks := callbacks + [Message(stream, Piece(text, transient))];
      }
    }

    /** The loop body of feed. */
    method Accept(stream: Stream, c: char)
      requires stream in buffers && stream in carriage
      modifies `buffers, `carriage, `callbacks
      ensures var out := Step(old(FrameOf(stream)), c);
        && buffers == old(buffers)[stream := out.frame.buffer]
        && carriage == old(carriage)[stream := out.frame.carriage]
        && callbacks == old(callbacks) + Tagged(stream, out.pieces)
    {
      if carriage[stream] {
        carriage := carriage[stream := false];
        if c == '\n' {
          Emit(stream, false);
          return;
        }
        Emit(stream, true);
      }
      if c == '\r' {
        carriage := carriage[stream := true];
      } else if c == '\n' {
        Emit(stream, false);
      } else {
        buffers := buffers[stream := buffers[stream] + [c]];
        if |buffers[stream]| >= LIMIT {
          Emit(stream, false);
        }
      }
    }

    method Feed(stream: Stream, chunk: string)
      requires Valid()
      modifies this
      ensures Valid()
      ensures fed == old(fed)[stream := old(fed[stream]) + chunk] && finished == old(finished)
      ensures callbacks == old(callbacks) + Tagged(stream, Run(old(FrameOf(stream)), chunk).pieces)
    {
      hide Run, Step, Explains;
      ghost var start := FrameOf(stream);
      ghost var other := if stream == Stdout then Stderr else Stdout;
      RunNothing(start);
      for i := 0 to |chunk|
        invariant buffers == old(buffers)[stream := Run(start, chunk[..i]).frame.buffer]
        invariant carriage == old(carriage)[stream := Run(start, chunk[..i]).frame.carriage]
        invariant callbacks == old(callbacks) + Tagged(stream, Run(start, chunk[..i]).pieces)
        invariant fed == old(fed) && finished == old(finished)
      {
        RunSnoc(start, chunk, i);
        Accept(stream, chunk[i]);
      }
      assert chunk[..|chunk|] == chunk;
      ExplainsFeed(old(callbacks), stream, start, finished[stream], fed[stream], chunk);
      ExplainsOther(old(callbacks), other, FrameOf(other), finished[other], fed[other],
                    stream, Run(start, chunk).pieces);
      fed := fed[stream := fed[stream] + chunk];
    }

    /** Afterwards each stream has called back exactly the split of its text. */
    method Finish()
      requires Valid()
      modifies this
      ensures Valid()
      ensures Of(callbacks, Stdout) == old(finished[Stdout]) + Split(old(fed[Stdout]))
      ensures Of(callbacks, Stderr) == old(finished[Stderr]) + Split(old(fed[Stderr]))
      ensures fed == map[Stdout := "", Stderr := ""]
      ensures finished == map[Stdout := Of(callbacks, Stdout), Stderr := Of(callbacks, Stderr)]
      ensures callbacks == old(callbacks) + Tagged(Stdout, Unless(old(buffers[Stdout]), false))
                                          + Tagged(Stderr, Unless(old(buffers[Stderr]), false))
    {
      hide Explains, Of, Split, Unless, Tagged;
      ghost var out := Unless(buffers[Stdout], false);
      ghost var err := Unless(buffers[Stderr], false);
      TaggedUnless(Stdout, buffers[Stdout], false);
      TaggedUnless(Stderr, buffers[Stderr], false);
      ExplainsFinish(callbacks, Stdout, FrameOf(Stdout), finished[Stdout], fed[Stdout]);
      ExplainsOther(callbacks, Stderr, FrameOf(Stderr), finished[Stderr], fed[Stderr], Stdout, out);
      ExplainsFinish(callbacks + Tagged(Stdout, out), Stderr, FrameOf(Stderr), finished[Stderr], fed[Stderr]);
      OfTagged(callbacks + Tagged(Stdout, out), Stderr, err, Stdout);
      Emit(Stdout, false);
      carriage := carriage[Stdout := false];
      Emit(Stderr, false);
      carriage := carriage[Stderr := false];
      fed := map[Stdout := "", Stderr := ""];
      finished := map[Stdout := Of(callbacks, Stdout), Stderr := Of(callbacks, Stderr)];
      ExplainsStart(callbacks, Stdout);
      ExplainsStart(callbacks, Stderr);
    }
  }

  /** A whole session: any interleaving of feeds to the two streams, then finish. */
  method Session(chunks: seq<Chunk>) returns (callbacks: seq<Message>)
    ensures Of(callbacks, Stdout) == Split(TextOf(chunks, Stdout))
    ensures Of(callbacks, Stderr) == Split(TextOf(chunks, Stderr))
  {
    hide Explains, Of, Split, Tagged, Run;
    var output := new ProcessOutput();
    for i := 0 to |chunks|
      invariant output.Valid()
      invariant output.fed[Stdout] == TextOf(chunks[..i], Stdout) && output.finished[Stdout] == []
      invariant output.fed[Stderr] == TextOf(chunks[..i], Stderr) && output.finished[Stderr] == []
    {
      assert chunks[..i + 1][..i] == chunks[..i];
      output.Feed(chunks[i].stream, chunks[i].text);
    }
    assert chunks[..|chunks|] == chunks;
    output.Finish();
    callbacks := output.callbacks;
  }

  // ---------------------------------------------------------------------------------------------
  // What the split guarantees
  // ---------------------------------------------------------------------------------------------

  /** No message is blank, oversized or holds a line break. */
  lemma {:induction false} PiecesBounded(text: string)
    ensures forall p <- Split(text) :: 0 < |p.text| <= LIMIT && Unbroken(p.text) && !Blank(p.text)
    decreases |text|
  {
    if text != "" {
      var k := PieceLength(text);
      if k == LIMIT {
        PiecesBounded(text[k..]);
      } else if k < |text| {
        PiecesBounded(text[k + 1..]);
        if k + 1 < |text| { PiecesBounded(text[k + 2..]); }
      } else {
        assert text[..k] == text;
      }
    }
  }

  function Visible(text: string): string {
    if text == "" then "" else (if IsSpace(text[0]) then "" else [text[0]]) + Visible(text[1..])
  }

  function Bodies(pieces: seq<Piece>): string {
    if pieces == [] then "" else pieces[0].text + Bodies(pieces[1..])
  }

  /** One character is visible unless it is white space. */
  lemma VisibleOne(c: char)
    ensures Visible([c]) == if IsSpace(c) then "" else [c]
    ensures Visible("") == ""
  {
    hide IsSpace;
    assert [c][1..] == "";
  }

  lemma {:induction false} VisibleConcat(a: string, b: string)
    ensures Visible(a + b) == Visible(a) + Visible(b)
  {
    if a == "" {
      assert a + b == b;
    } else {
      assert (a + b)[1..] == a[1..] + b;
      VisibleConcat(a[1..], b);
    }
  }

  lemma {:induction false} BlankInvisible(text: string)
    requires Blank(text)
    ensures Visible(text) == ""
  {
    if text != "" { BlankInvisible(text[1..]); }
  }

  lemma {:induction false} BodiesConcat(a: seq<Piece>, b: seq<Piece>)
    ensures Bodies(a + b) == Bodies(a) + Bodies(b)
  {
    if a == [] {
      assert a + b == b;
    } else {
      assert (a + b)[1..] == a[1..] + b;
      BodiesConcat(a[1..], b);
    }
  }

  lemma BodiesUnless(body: string, transient: bool)
    ensures Visible(Bodies(Unless(body, transient))) == Visible(body)
  {
    if Blank(body) { BlankInvisible(body); } else { assert body + "" == body; }
  }

  /** A piece, a stretch of line breaks and the rest: only blanks can get lost. */
  lemma PieceConserves(body: string, transient: bool, gap: string, rest: string)
    requires Blank(gap)
    ensures Visible(Bodies(Unless(body, transient) + Split(rest)))
         == Visible(body) + Visible(Bodies(Split(rest)))
    ensures Visible(body + gap + rest) == Visible(body) + Visible(rest)
  {
    hide Split, Visible, IsSpace;
    BodiesConcat(Unless(body, transient), Split(rest));
    BodiesUnless(body, transient);
    VisibleConcat(Bodies(Unless(body, transient)), Bodies(Split(rest)));
    VisibleConcat(body + gap, rest);
    VisibleConcat(body, gap);
    BlankInvisible(gap);
  }

  /** Conservation: the visible characters of the text come out once, in order, and nothing else does. */
  lemma {:induction false} SplitConserves(text: string)
    ensures Visible(Bodies(Split(text))) == Visible(text)
    decreases |text|
  {
    if text != "" {
      var k := PieceLength(text);
      var gap := if k == LIMIT || k == |text| then "" else if text[k] == '\r' && k + 1 < |text| && text[k + 1] == '\n'
        then "\r\n" else [text[k]];
      var rest := text[k + |gap|..];
      var transient := gap == "\r" && k + 1 < |text|;
      assert text == text[..k] + gap + rest;
      assert Split(text) == Unless(text[..k], transient) + Split(rest) by {
        if k == |text| { assert text[..k] == text; }
      }
      PieceConserves(text[..k], transient, gap, rest);
      if |rest| < |text| { SplitConserves(rest); }
    }
  }
}
