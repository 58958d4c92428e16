/** Lifts the base64 blobs of `h264` and `audio` streams out of the text and
    into binary WebSocket frames, leaving every other byte where it was. */
module BlobSplitter {
  import opened Bytes
  import opened Wire
  import Base64

  const H264: Text := [104, 50, 54, 52]
  const AUDIO: Text := [97, 117, 100, 105, 111]
  const END: Text := [101, 110, 100]
  const FRAME_VERSION: Byte := 1
  const FRAME_TYPE_BLOB: Byte := 0

  datatype OutFrame = TextFrame(text: Text) | BinaryFrame(bytes: seq<Byte>)

  datatype Blob = Blob(index: nat, payload: seq<Byte>)

  lemma OpcodesAreSpelled()
    ensures BLOB == Ascii("blob") && H264 == Ascii("h264") && AUDIO == Ascii("audio") && END == Ascii("end")
    ensures [DOT] == Ascii(".") && [COMMA] == Ascii(",") && [SEMICOLON] == Ascii(";")
    ensures [PLUS] == Ascii("+") && [MINUS] == Ascii("-")
  {
  }

  // ---- the frame header ----

  function LittleEndian(n: nat): seq<Byte>
    requires n <= U32_MAX
  {
    [n % 256, n / 256 % 256, n / 256 / 256 % 256, n / 256 / 256 / 256]
  }

  /** `frame`: version, type, two reserved bytes, the index, the payload. */
  function FrameBytes(b: Blob): seq<Byte>
    requires b.index <= U32_MAX
  {
    [FRAME_VERSION, FRAME_TYPE_BLOB, 0, 0] + LittleEndian(b.index) + b.payload
  }

  /** What the client makes of a binary frame: nothing if it is shorter than the
      header or of another version or type. */
  function ReadFrame(f: seq<Byte>): Option<Blob> {
    if |f| < 8 || f[0] != 1 || f[1] != 0 then None
    else Some(Blob(f[4] as int + 256 * (f[5] as int + 256 * (f[6] as int + 256 * (f[7] as int))), f[8..]))
  }

  lemma FrameRoundTrip(b: Blob)
    requires b.index <= U32_MAX
    ensures ReadFrame(FrameBytes(b)) == Some(b) && FrameBytes(b)[2] == FrameBytes(b)[3] == 0
  {
    var n := b.index;
    var q := n / 256;
    var p := q / 256;
    assert n == n % 256 + 256 * q && q == q % 256 + 256 * p && p == p % 256 + 256 * (p / 256);
    assert FrameBytes(b)[8..] == b.payload;
  }

  // ---- what one instruction does ----

  function StreamIndex(h: Head): (r: Option<nat>)
    ensures r.Some? ==> h.args != [] && r.value <= U32_MAX
  {
    if h.args == [] then None else ParseUnsigned(h.args[0], U32_MAX)
  }

  function StreamsAfter(streams: set<nat>, h: Head): set<nat> {
    match StreamIndex(h)
    case None => streams
    case Some(index) =>
      if h.opcode == H264 || h.opcode == AUDIO then streams + {index}
      else if h.opcode == END then streams - {index}
      else streams
  }

  /** The blob an instruction turns into, if it is to be sent as binary. */
  function Lifted(streams: set<nat>, h: Head): (r: Option<Blob>)
    ensures r.Some? ==> r.value.index <= U32_MAX && StreamIndex(h) == Some(r.value.index)
  {
    match StreamIndex(h)
    case None => None
    case Some(index) =>
      if h.opcode != BLOB || index !in streams || |h.args| < 2 then None
      else
        match Base64.Decode(h.args[1])
        case None => None
        case Some(payload) => Some(Blob(index, payload))
  }

  // ---- the simple form: one piece per instruction, then merge ----

  /** A stretch of the input and, if it becomes a binary frame, its blob. */
  datatype Piece = Piece(source: Text, lifted: Option<Blob>)

  ghost predicate ValidPiece(p: Piece) {
    p.source != [] && (p.lifted.Some? ==> p.lifted.value.index <= U32_MAX)
  }

  ghost predicate ValidPieces(ps: seq<Piece>) { forall i :: 0 <= i < |ps| ==> ValidPiece(ps[i]) }

  ghost function Flush(t: Text): (ps: seq<Piece>)
    ensures ValidPieces(ps)
  {
    if t == [] then [] else [Piece(t, None)]
  }

  /** The input as pieces, each instruction looked at on its own. */
  ghost function Pieces(streams: set<nat>, s: Text, at: nat): (ps: seq<Piece>)
    requires at <= |s|
    ensures ValidPieces(ps)
    decreases |s| - at
  {
    match HeadAt(s, at)
    case None => Flush(s[at..])
    case Some(r) =>
      [Piece(s[at..r.end], Lifted(streams, r.head))] + Pieces(StreamsAfter(streams, r.head), s, r.end)
  }

  function StreamsAtEnd(streams: set<nat>, s: Text, at: nat): set<nat>
    requires at <= |s|
    decreases |s| - at
  {
    match HeadAt(s, at)
    case None => streams
    case Some(r) => StreamsAtEnd(StreamsAfter(streams, r.head), s, r.end)
  }

  ghost function Join(p: Piece, ps: seq<Piece>): (r: seq<Piece>)
    requires ValidPiece(p) && ValidPieces(ps)
    ensures r != [] && ValidPieces(r)
  {
    if p.lifted == None && ps != [] && ps[0].lifted == None
    then [Piece(p.source + ps[0].source, None)] + ps[1..]
    else [p] + ps
  }

  /** Adjacent text pieces made one. */
  ghost function Merge(ps: seq<Piece>): (r: seq<Piece>)
    requires ValidPieces(ps)
    ensures ValidPieces(r)
  {
    if ps == [] then [] else Join(ps[0], Merge(ps[1..]))
  }

  function FrameOf(p: Piece): OutFrame
    requires p.lifted.Some? ==> p.lifted.value.index <= U32_MAX
  {
    if p.lifted == None then TextFrame(p.source) else BinaryFrame(FrameBytes(p.lifted.value))
  }

  ghost function FramesOf(ps: seq<Piece>): (fs: seq<OutFrame>)
    requires ValidPieces(ps)
    ensures |fs| == |ps| && forall i :: 0 <= i < |ps| ==> fs[i] == FrameOf(ps[i])
  {
    seq(|ps|, i requires 0 <= i < |ps| => FrameOf(ps[i]))
  }

  /** The frames one call of `split` sends. */
  ghost function Split(streams: set<nat>, text: Text): seq<OutFrame> {
    FramesOf(Merge(Pieces(streams, text, 0)))
  }

  // ---- the loop agrees with the simple form ----

  /** The loop of `split` at instruction `at`, with `out` sent so far and text
      unsent from `pending`. */
  ghost function SplitLoop(streams: set<nat>, s: Text, pending: nat, at: nat, out: seq<OutFrame>): seq<OutFrame>
    requires pending <= at <= |s|
    decreases |s| - at
  {
    match HeadAt(s, at)
    case None => out + FramesOf(Flush(s[pending..]))
    case Some(r) =>
      var after := StreamsAfter(streams, r.head);
      match Lifted(streams, r.head)
      case None => SplitLoop(after, s, pending, r.end, out)
      case Some(b) =>
        SplitLoop(after, s, r.end, r.end, out + FramesOf(Flush(s[pending..at])) + [BinaryFrame(FrameBytes(b))])
  }

  ghost function JoinText(t: Text, m: seq<Piece>): (r: seq<Piece>)
    requires ValidPieces(m)
    ensures ValidPieces(r)
  {
    if t == [] then m else Join(Piece(t, None), m)
  }

  lemma JoinTextFlush(x: Text, y: Text)
    ensures JoinText(x, Merge(Flush(y))) == Flush(x + y)
  {
    if y == [] {
      assert x + y == x;
    } else {
      assert Flush(y)[1..] == [];
      assert x == [] ==> x + y == y;
    }
  }

  lemma JoinTextTwice(x: Text, y: Text, m: seq<Piece>)
    requires y != [] && ValidPieces(m)
    ensures JoinText(x, Join(Piece(y, None), m)) == JoinText(x + y, m)
  {
    if x == [] {
      assert x + y == y;
    } else if m != [] && m[0].lifted == None {
      assert x + (y + m[0].source) == x + y + m[0].source;
    }
  }

  lemma FramesConcat(a: seq<Piece>, b: seq<Piece>)
    requires ValidPieces(a) && ValidPieces(b)
    ensures FramesOf(a + b) == FramesOf(a) + FramesOf(b)
  {
    hide FrameOf;
  }

  lemma JoinLifted(text: Text, p: Piece, m: seq<Piece>)
    requires ValidPiece(p) && p.lifted.Some? && ValidPieces(m)
    ensures FramesOf(JoinText(text, Join(p, m))) == FramesOf(Flush(text)) + [FrameOf(p)] + FramesOf(m)
  {
    hide FrameOf, FramesOf;
    assert JoinText(text, Join(p, m)) == Flush(text) + ([p] + m);
    FramesConcat(Flush(text), [p] + m);
    FramesConcat([p], m);
    assert FramesOf([p]) == [FrameOf(p)];
  }

  lemma FlushFrames(t: Text)
    ensures FramesOf(Flush(t)) == if t == [] then [] else [TextFrame(t)]
  {
  }

  lemma {:induction false} LoopIsMergedPieces(streams: set<nat>, s: Text, pending: nat, at: nat, out: seq<OutFrame>)
    requires pending <= at <= |s|
    ensures SplitLoop(streams, s, pending, at, out)
            == out + FramesOf(JoinText(s[pending..at], Merge(Pieces(streams, s, at))))
    decreases |s| - at
  {
    hide HeadAt, Lifted, StreamsAfter, FrameBytes, FramesOf, Join, Flush, ValidPieces;
    var text := s[pending..at];
    match HeadAt(s, at)
    case None =>
      assert s[pending..] == text + s[at..];
      JoinTextFlush(text, s[at..]);
    case Some(r) =>
      var after := StreamsAfter(streams, r.head);
      var rest := Merge(Pieces(after, s, r.end));
      var piece := Piece(s[at..r.end], Lifted(streams, r.head));
      assert Pieces(streams, s, at)[1..] == Pieces(after, s, r.end);
      assert Merge(Pieces(streams, s, at)) == Join(piece, rest);
      match Lifted(streams, r.head) {
        case None =>
          LoopIsMergedPieces(after, s, pending, r.end, out);
          assert s[pending..r.end] == text + s[at..r.end];
          JoinTextTwice(text, s[at..r.end], rest);
        case Some(b) =>
          var sent := FramesOf(Flush(text)) + [FrameOf(piece)];
          LoopIsMergedPieces(after, s, r.end, r.end, out + FramesOf(Flush(text)) + [FrameOf(piece)]);
          JoinLifted(text, piece, rest);
          assert s[r.end..r.end] == [];
          assert out + FramesOf(Flush(text)) + [FrameOf(piece)] + FramesOf(rest) == out + (sent + FramesOf(rest));
      }
  }

  // ---- chunking ----

  ghost function JoinFrame(f: OutFrame, fs: seq<OutFrame>): seq<OutFrame> {
    if f.TextFrame? && fs != [] && fs[0].TextFrame? then [TextFrame(f.text + fs[0].text)] + fs[1..] else [f] + fs
  }

  /** Adjacent text frames made one. */
  ghost function MergeFrames(fs: seq<OutFrame>): seq<OutFrame> {
    if fs == [] then [] else JoinFrame(fs[0], MergeFrames(fs[1..]))
  }

  lemma FramesOfJoin(p: Piece, m: seq<Piece>)
    requires ValidPiece(p) && ValidPieces(m)
    ensures FramesOf(Join(p, m)) == JoinFrame(FrameOf(p), FramesOf(m))
  {
    hide FrameBytes, FramesOf;
  }

  lemma {:induction false} FramesOfMerge(ps: seq<Piece>)
    requires ValidPieces(ps)
    ensures FramesOf(Merge(ps)) == MergeFrames(FramesOf(ps))
  {
    hide FrameOf, FramesOf, Join, JoinFrame;
    if ps != [] {
      FramesOfMerge(ps[1..]);
      FramesOfJoin(ps[0], Merge(ps[1..]));
      assert FramesOf(ps)[1..] == FramesOf(ps[1..]);
    }
  }

  lemma JoinAssociates(x: Text, y: Text, b: seq<OutFrame>)
    ensures JoinFrame(TextFrame(x), JoinFrame(TextFrame(y), b)) == JoinFrame(TextFrame(x + y), b)
  {
    if b != [] && b[0].TextFrame? {
      assert x + (y + b[0].text) == x + y + b[0].text;
    }
  }

  ghost function MergeOnto(a: seq<OutFrame>, b: seq<OutFrame>): seq<OutFrame> {
    if a == [] then b else JoinFrame(a[0], MergeOnto(a[1..], b))
  }

  lemma {:induction false} MergeFramesOfConcat(a: seq<OutFrame>, b: seq<OutFrame>)
    ensures MergeFrames(a + b) == MergeOnto(a, MergeFrames(b))
  {
    if a == [] {
      assert a + b == b;
    } else {
      assert (a + b)[1..] == a[1..] + b;
      MergeFramesOfConcat(a[1..], b);
    }
  }

  lemma {:induction false} MergeOntoMerged(a: seq<OutFrame>, b: seq<OutFrame>)
    ensures MergeOnto(MergeFrames(a), b) == MergeOnto(a, b)
  {
    if a != [] {
      var m := MergeFrames(a[1..]);
      MergeOntoMerged(a[1..], b);
      if m != [] {
        var n := MergeOnto(m[1..], b);
        if a[0].TextFrame? && m[0].TextFrame? {
          JoinAssociates(a[0].text, m[0].text, n);
          assert JoinFrame(a[0], m)[1..] == m[1..];
        } else {
          assert JoinFrame(a[0], m)[1..] == m;
        }
      }
    }
  }

  lemma {:induction false} MergeTwice(fs: seq<OutFrame>)
    ensures MergeFrames(MergeFrames(fs)) == MergeFrames(fs)
  {
    MergeFramesOfConcat(MergeFrames(fs), []);
    MergeFramesOfConcat(fs, []);
    assert MergeFrames(fs) + [] == MergeFrames(fs) && fs + [] == fs;
    MergeOntoMerged(fs, []);
  }

  lemma {:induction false} PiecesShifted(streams: set<nat>, a: Text, b: Text, at: nat)
    requires at <= |b|
    ensures Pieces(streams, a + b, |a| + at) == Pieces(streams, b, at)
    ensures StreamsAtEnd(streams, a + b, |a| + at) == StreamsAtEnd(streams, b, at)
    decreases |b| - at
  {
    hide ParseInstruction, Lifted, StreamsAfter;
    InstructionShifted(a, b, at);
    match HeadAt(b, at)
    case None =>
      assert (a + b)[|a| + at..] == b[at..];
    case Some(r) =>
      PiecesShifted(StreamsAfter(streams, r.head), a, b, r.end);
      assert (a + b)[|a| + at..|a| + r.end] == b[at..r.end];
  }

  /** The head of an instruction is the same whatever follows it. */
  lemma HeadConcat(a: Text, b: Text, at: nat)
    requires HeadAt(a, at).Some?
    ensures HeadAt(a + b, at) == HeadAt(a, at) && (a + b)[at..HeadAt(a, at).value.end] == a[at..HeadAt(a, at).value.end]
  {
    hide ParseInstruction;
    InstructionCopied(a, at, a + b, at, |a| - at);
  }

  lemma {:induction false} PiecesConcat(streams: set<nat>, a: Text, b: Text, at: nat)
    requires at <= |a| && Scan(a, at).tail == []
    ensures Pieces(streams, a + b, at) == Pieces(streams, a, at) + Pieces(StreamsAtEnd(streams, a, at), b, 0)
    ensures StreamsAtEnd(streams, a + b, at) == StreamsAtEnd(StreamsAtEnd(streams, a, at), b, 0)
    decreases |a| - at
  {
    hide ParseInstruction, Lifted, StreamsAfter, ValidPieces;
    if at == |a| {
      assert a[at..] == [];
      assert HeadAt(a, at) == None;
      PiecesShifted(streams, a, b, 0);
    } else {
      HeadConcat(a, b, at);
      var r := HeadAt(a, at).value;
      var after, piece := StreamsAfter(streams, r.head), Piece(a[at..r.end], Lifted(streams, r.head));
      PiecesConcat(after, a, b, r.end);
      var more := Pieces(StreamsAtEnd(streams, a, at), b, 0);
      assert [piece] + (Pieces(after, a, r.end) + more) == [piece] + Pieces(after, a, r.end) + more;
    }
  }

  /** Cutting the stream at any instruction boundary changes neither the frames,
      up to merging adjacent text, nor the streams left open. */
  lemma ChunkingIndependence(streams: set<nat>, a: Text, b: Text)
    requires Complete(a)
    ensures var left := StreamsAtEnd(streams, a, 0);
            && Split(streams, a + b) == MergeFrames(Split(streams, a) + Split(left, b))
            && StreamsAtEnd(streams, a + b, 0) == StreamsAtEnd(left, b, 0)
  {
    hide Pieces, StreamsAtEnd, Merge, MergeFrames, Scan;
    PiecesConcat(streams, a, b, 0);
    var p, q := Pieces(streams, a, 0), Pieces(StreamsAtEnd(streams, a, 0), b, 0);
    var f, g := FramesOf(p), FramesOf(q);
    FramesOfMerge(p);
    FramesOfMerge(q);
    FramesOfMerge(p + q);
    FramesConcat(p, q);
    MergeFramesOfConcat(f, g);
    MergeFramesOfConcat(MergeFrames(f), MergeFrames(g));
    MergeOntoMerged(f, MergeFrames(g));
    MergeTwice(g);
  }

  // ---- which blobs are lifted ----

  /** Which instructions are lifted out, and as what. */
  function LiftedList(streams: set<nat>, instrs: seq<seq<Text>>): (r: seq<Option<Blob>>)
    requires forall i :: 0 <= i < |instrs| ==> instrs[i] != []
    ensures |r| == |instrs|
    decreases |instrs|
  {
    if instrs == [] then []
    else
      [Lifted(streams, HeadOf(instrs[0]))] + LiftedList(StreamsAfter(streams, HeadOf(instrs[0])), instrs[1..])
  }

  lemma LiftedListStep(streams: set<nat>, instrs: seq<seq<Text>>)
    requires instrs != [] && forall i :: 0 <= i < |instrs| ==> instrs[i] != []
    ensures var l, h := LiftedList(streams, instrs), HeadOf(instrs[0]);
            && l[0] == Lifted(streams, h)
            && forall i :: 1 <= i < |instrs| ==> l[i] == LiftedList(StreamsAfter(streams, h), instrs[1..])[i - 1]
  {
  }

  lemma {:induction false} InstrsAreNonEmpty(s: Text, at: nat)
    requires at <= |s|
    ensures forall i :: 0 <= i < |Scan(s, at).instrs| ==> Scan(s, at).instrs[i] != []
    decreases |s| - at
  {
    hide ParseInstruction;
    if ParseInstruction(s, at).Some? {
      InstrsAreNonEmpty(s, ParseInstruction(s, at).value.end);
    }
  }

  /** The pieces follow the parsed instructions one for one. */
  lemma {:induction false} PiecesFollowInstrs(streams: set<nat>, s: Text, at: nat)
    requires at <= |s|
    ensures var ps, instrs := Pieces(streams, s, at), Scan(s, at).instrs;
            && (forall i :: 0 <= i < |instrs| ==> instrs[i] != [])
            && |instrs| <= |ps|
            && forall i :: 0 <= i < |instrs| ==> ps[i].lifted == LiftedList(streams, instrs)[i]
    decreases |s| - at
  {
    hide ParseInstruction, Lifted, StreamsAfter, ValidPieces, HeadOf;
    match HeadAt(s, at)
    case None =>
    case Some(r) =>
      PiecesFollowInstrs(StreamsAfter(streams, r.head), s, r.end);
      assert Scan(s, at).instrs[1..] == Scan(s, r.end).instrs;
  }

  /** The instruction's first argument is this stream index. */
  predicate Concerns(elems: seq<Text>, index: nat) {
    |elems| >= 2 && ParseUnsigned(elems[1], U32_MAX) == Some(index)
  }

  /** What these instructions, latest first, say about an index: opened by its
      last `h264` or `audio`, closed by its last `end`, else as it was. */
  predicate OpenAfter(streams: set<nat>, instrs: seq<seq<Text>>, index: nat) {
    if instrs == [] then index in streams
    else
      var last := instrs[|instrs| - 1];
      if Concerns(last, index) && (last[0] == H264 || last[0] == AUDIO) then true
      else if Concerns(last, index) && last[0] == END then false
      else OpenAfter(streams, instrs[..|instrs| - 1], index)
  }

  lemma HeadConcerns(elems: seq<Text>, index: nat)
    requires elems != []
    ensures StreamIndex(HeadOf(elems)) == Some(index) <==> Concerns(elems, index)
  {
    hide ParseUnsigned;
  }

  lemma StreamsAfterOpens(streams: set<nat>, elems: seq<Text>, index: nat)
    requires elems != []
    ensures index in StreamsAfter(streams, HeadOf(elems)) <==> OpenAfter(streams, [elems], index)
  {
    hide ParseUnsigned, StreamIndex;
    HeadConcerns(elems, index);
    assert [elems][..0] == [];
    if StreamIndex(HeadOf(elems)).Some? {
      HeadConcerns(elems, StreamIndex(HeadOf(elems)).value);
    }
  }

  lemma {:induction false} OpenAfterMore(streams: set<nat>, between: set<nat>, first: seq<Text>,
                                          rest: seq<seq<Text>>, index: nat)
    requires index in between <==> OpenAfter(streams, [first], index)
    ensures OpenAfter(between, rest, index) <==> OpenAfter(streams, [first] + rest, index)
    decreases |rest|
  {
    hide Concerns;
    if rest == [] {
      assert [first] + rest == [first];
    } else {
      assert ([first] + rest)[..|rest|] == [first] + rest[..|rest| - 1];
      OpenAfterMore(streams, between, first, rest[..|rest| - 1], index);
    }
  }

  /** A blob that can be decoded, on this index. */
  predicate DecodableBlob(elems: seq<Text>, index: nat) {
    |elems| >= 3 && elems[0] == BLOB && Concerns(elems, index) && Base64.Decode(elems[2]).Some?
  }

  lemma LiftedWhenOpen(streams: set<nat>, elems: seq<Text>, index: nat)
    requires elems != []
    ensures Lifted(streams, HeadOf(elems)).Some? && Lifted(streams, HeadOf(elems)).value.index == index
            <==> DecodableBlob(elems, index) && index in streams
    ensures DecodableBlob(elems, index) && index in streams ==>
              Lifted(streams, HeadOf(elems)) == Some(Blob(index, Base64.Decode(elems[2]).value))
  {
    hide ParseUnsigned, StreamIndex, Base64.Decode;
    HeadConcerns(elems, index);
  }

  lemma NothingOpens(streams: set<nat>, index: nat)
    ensures OpenAfter(streams, [], index) <==> index in streams
  {
  }

  /** An instruction is lifted as a blob of a stream exactly when it is a
      decodable blob of that stream and the stream is open at that point. */
  lemma {:induction false} LiftsExactlyOpenBlobs(streams: set<nat>, instrs: seq<seq<Text>>, n: nat, index: nat)
    requires n < |instrs| && forall i :: 0 <= i < |instrs| ==> instrs[i] != []
    ensures var l := LiftedList(streams, instrs)[n];
            && (l.Some? && l.value.index == index
                <==> DecodableBlob(instrs[n], index) && OpenAfter(streams, instrs[..n], index))
            && (l.Some? && l.value.index == index ==> l.value.payload == Base64.Decode(instrs[n][2]).value)
    decreases n
  {
    hide LiftedList, Lifted, StreamsAfter, HeadOf, DecodableBlob, OpenAfter, Base64.Decode;
    LiftedListStep(streams, instrs);
    if n == 0 {
      LiftedWhenOpen(streams, instrs[0], index);
      NothingOpens(streams, index);
      assert instrs[..0] == [];
    } else {
      var between := StreamsAfter(streams, HeadOf(instrs[0]));
      LiftsExactlyOpenBlobs(between, instrs[1..], n - 1, index);
      StreamsAfterOpens(streams, instrs[0], index);
      OpenAfterMore(streams, between, instrs[0], instrs[1..][..n - 1], index);
      assert [instrs[0]] + instrs[1..][..n - 1] == instrs[..n];
    }
  }

  /** The streams left open are those the instructions say are open. */
  lemma {:induction false} StreamsLeftOpen(streams: set<nat>, s: Text, at: nat, index: nat)
    requires at <= |s|
    ensures index in StreamsAtEnd(streams, s, at) <==> OpenAfter(streams, Scan(s, at).instrs, index)
    decreases |s| - at
  {
    hide ParseInstruction, StreamsAfter, OpenAfter, HeadOf;
    NothingOpens(streams, index);
    match HeadAt(s, at)
    case None =>
    case Some(r) =>
      var elems := ParseInstruction(s, at).value.elems;
      var between := StreamsAfter(streams, r.head);
      StreamsLeftOpen(between, s, r.end, index);
      StreamsAfterOpens(streams, elems, index);
      OpenAfterMore(streams, between, elems, Scan(s, r.end).instrs, index);
  }

  // ---- losslessness ----

  ghost function Sources(ps: seq<Piece>): (ts: seq<Text>)
    ensures |ts| == |ps| && forall i :: 0 <= i < |ps| ==> ts[i] == ps[i].source
  {
    seq(|ps|, i requires 0 <= i < |ps| => ps[i].source)
  }

  lemma {:induction false} PiecesCoverInput(streams: set<nat>, s: Text, at: nat)
    requires at <= |s|
    ensures Concat(Sources(Pieces(streams, s, at))) == s[at..]
    decreases |s| - at
  {
    hide HeadAt, Lifted, StreamsAfter;
    match HeadAt(s, at)
    case None =>
    case Some(r) =>
      var after := StreamsAfter(streams, r.head);
      PiecesCoverInput(after, s, r.end);
      assert Sources(Pieces(streams, s, at))[1..] == Sources(Pieces(after, s, r.end));
      assert s[at..] == s[at..r.end] + s[r.end..];
  }

  lemma JoinKeepsSources(p: Piece, m: seq<Piece>)
    requires ValidPiece(p) && ValidPieces(m)
    ensures Concat(Sources(Join(p, m))) == p.source + Concat(Sources(m))
  {
    hide ValidPieces, Sources;
    var j := Join(p, m);
    if p.lifted == None && m != [] && m[0].lifted == None {
      assert Sources(j)[1..] == Sources(m)[1..];
      assert p.source + (m[0].source + Concat(Sources(m)[1..])) == p.source + m[0].source + Concat(Sources(m)[1..]);
    } else {
      assert Sources(j)[1..] == Sources(m);
    }
  }

  lemma {:induction false} MergeKeepsSources(ps: seq<Piece>)
    requires ValidPieces(ps)
    ensures Concat(Sources(Merge(ps))) == Concat(Sources(ps))
  {
    hide Join, Sources;
    if ps != [] {
      MergeKeepsSources(ps[1..]);
      JoinKeepsSources(ps[0], Merge(ps[1..]));
      assert Sources(ps)[1..] == Sources(ps[1..]);
    }
  }

  /** Every lifted piece is one complete `blob` instruction on an open stream. */
  ghost predicate IsBlobInstruction(source: Text, b: Blob) {
    && HeadAt(source, 0).Some? && HeadAt(source, 0).value.end == |source|
    && Lifted({b.index}, HeadAt(source, 0).value.head) == Some(b)
  }

  ghost predicate Explained(ps: seq<Piece>) {
    forall i :: 0 <= i < |ps| && ps[i].lifted.Some? ==> IsBlobInstruction(ps[i].source, ps[i].lifted.value)
  }

  lemma {:induction false} PiecesAreExplained(streams: set<nat>, s: Text, at: nat)
    requires at <= |s|
    ensures Explained(Pieces(streams, s, at))
    decreases |s| - at
  {
    hide ParseInstruction, StreamsAfter;
    match HeadAt(s, at)
    case None =>
    case Some(r) =>
      PiecesAreExplained(StreamsAfter(streams, r.head), s, r.end);
      InstructionCopied(s, at, s[at..r.end], 0, r.end - at);
  }

  ghost predicate NoAdjacentText(fs: seq<OutFrame>) {
    forall i :: 0 <= i < |fs| - 1 && fs[i].TextFrame? ==> fs[i + 1].BinaryFrame?
  }

  lemma {:induction false} MergedIsTidy(ps: seq<Piece>)
    requires ValidPieces(ps)
    ensures NoAdjacentText(FramesOf(Merge(ps)))
    ensures Explained(ps) ==> Explained(Merge(ps))
  {
    hide FrameBytes, IsBlobInstruction;
    if ps != [] {
      MergedIsTidy(ps[1..]);
    }
  }

  /** The frames stand for consecutive stretches of the input, in order and
      covering it: a text frame for itself, a binary frame for one complete
      `blob` instruction, whose index and payload the client reads out of it. No text frame is empty and no
      two are adjacent. */
  lemma SplitCoversInput(streams: set<nat>, text: Text) returns (ps: seq<Piece>)
    ensures ValidPieces(ps) && FramesOf(ps) == Split(streams, text)
    ensures Concat(Sources(ps)) == text
    ensures Explained(ps)
    ensures forall i :: 0 <= i < |ps| && FramesOf(ps)[i].BinaryFrame? ==>
              ReadFrame(FramesOf(ps)[i].bytes) == ps[i].lifted
    ensures NoAdjacentText(Split(streams, text))
    ensures forall f :: f in Split(streams, text) && f.TextFrame? ==> f.text != []
  {
    hide Pieces, Merge, Concat, FrameBytes, IsBlobInstruction;
    ps := Merge(Pieces(streams, text, 0));
    PiecesCoverInput(streams, text, 0);
    MergeKeepsSources(Pieces(streams, text, 0));
    PiecesAreExplained(streams, text, 0);
    MergedIsTidy(Pieces(streams, text, 0));
    assert text[0..] == text;
    forall i | 0 <= i < |ps| && FramesOf(ps)[i].BinaryFrame?
      ensures ReadFrame(FramesOf(ps)[i].bytes) == ps[i].lifted
    {
      FrameRoundTrip(ps[i].lifted.value);
    }
  }

  /** What re-encoding a frame gives: text as it is, a binary frame as the
      canonical `blob` instruction for its index and payload. */
  function ReprintFrame(f: OutFrame): Text
    requires f.BinaryFrame? ==> ReadFrame(f.bytes).Some?
  {
    match f
    case TextFrame(t) => t
    case BinaryFrame(bytes) =>
      var b := ReadFrame(bytes).value;
      BlobInstruction(Decimal(b.index), Base64.Encode(b.payload))
  }

  /** The client can read every binary frame. */
  ghost predicate Readable(fs: seq<OutFrame>) {
    forall i :: 0 <= i < |fs| && fs[i].BinaryFrame? ==> ReadFrame(fs[i].bytes).Some?
  }

  ghost function ReprintAll(fs: seq<OutFrame>): Text
    requires Readable(fs)
  {
    if fs == [] then [] else ReprintFrame(fs[0]) + ReprintAll(fs[1..])
  }

  /** Every element from `at` on has its length written plainly. */
  ghost predicate PlainLengths(s: Text, at: nat)
    decreases |s| - at
  {
    match ParseElement(s, at)
    case None => true
    case Some(e) => Plain(s[at..DigitsEnd(s, at)]) && PlainLengths(s, e.next)
  }

  /** The instruction has exactly two arguments, and its three lengths and its
      index are written without `+` and without leading zeros. */
  ghost predicate Canonical(source: Text) {
    && ParseInstruction(source, 0).Some?
    && var elems := ParseInstruction(source, 0).value.elems;
    && |elems| == 3 && Plain(elems[1]) && PlainLengths(source, 0)
  }

  ghost predicate AllCanonical(ps: seq<Piece>) {
    forall i :: 0 <= i < |ps| && ps[i].lifted.Some? ==> Canonical(ps[i].source)
  }

  lemma AsciiOfDecoded(p: Text)
    requires Base64.Decode(p).Some?
    ensures IsAscii(p) && Base64.Encode(Base64.Decode(p).value) == p
  {
    Base64.EncodeInvertsDecode(p);
  }

  lemma DecimalIndexIsMinimal(v: Text, n: nat)
    requires ParseUnsigned(v, U32_MAX) == Some(n)
    ensures |Decimal(n)| <= |v| && (|Decimal(n)| == |v| ==> v == Decimal(n))
  {
    hide Decimal;
    if v[0] == PLUS {
      DecimalIsMinimal(v[1..]);
    } else {
      DecimalIsMinimal(v);
    }
  }

  lemma AsciiElementMonotone(v: Text, w: Text, t: Byte)
    requires |v| <= |w|
    ensures |AsciiElement(v, t)| <= |AsciiElement(w, t)| && (|v| < |w| ==> |AsciiElement(v, t)| < |AsciiElement(w, t)|)
  {
    hide Decimal;
    DecimalLengthMonotone(|v|, |w|);
  }

  lemma SameFront(a: Text, b: Text, rest: Text)
    ensures a + rest == b + rest <==> a == b
  {
    if a + rest == b + rest {
      assert |a| == |b| && (a + rest)[..|a|] == a && (b + rest)[..|b|] == b;
    }
  }

  /** An ASCII element is the printed one if and only if its length is plain. */
  lemma PlainElement(s: Text, at: nat)
    requires ParseElement(s, at).Some? && IsAscii(ParseElement(s, at).value.value)
    ensures var e := ParseElement(s, at).value;
            && at < DigitsEnd(s, at) <= |s|
            && (Plain(s[at..DigitsEnd(s, at)]) <==> s[at..e.next] == AsciiElement(e.value, e.terminator))
  {
    hide DigitsEnd, CharsEnd, DigitsValue, Decimal, Plain;
    var d, e := DigitsEnd(s, at), ParseElement(s, at).value;
    assert forall k :: d + 1 <= k < e.next - 1 ==> s[k] == e.value[k - (d + 1)];
    CharsEndOfAscii(s, d + 1, DigitsValue(s[at..d]));
    PlainIsDecimal(s[at..d]);
    var rest := [DOT] + e.value + [e.terminator];
    assert s[at..e.next] == s[at..d] + rest;
    assert AsciiElement(e.value, e.terminator) == Decimal(|e.value|) + rest;
    SameFront(s[at..d], Decimal(|e.value|), rest);
  }

  lemma NoElementAtTheEnd(s: Text)
    ensures ParseElement(s, |s|) == None
  {
  }

  /** A three-element `blob` is the printed one if and only if its lengths are
      plain. */
  lemma PlainBlob(s: Text)
    requires ParseInstruction(s, 0).Some? && ParseInstruction(s, 0).value.end == |s|
    requires var elems := ParseInstruction(s, 0).value.elems;
             |elems| == 3 && elems[0] == BLOB && IsAscii(elems[1]) && IsAscii(elems[2])
    ensures var elems := ParseInstruction(s, 0).value.elems;
            PlainLengths(s, 0) <==> s == BlobInstruction(elems[1], elems[2])
  {
    hide ParseElement, AsciiElement, Plain, DigitsEnd;
    var elems := ParseInstruction(s, 0).value.elems;
    var e0 := ParseElement(s, 0).value;
    assert ParseInstruction(s, 0) == Continue(s, [e0.value], e0);
    var e1 := ParseElement(s, e0.next).value;
    assert ParseInstruction(s, e0.next) == Continue(s, [e1.value], e1);
    var e2 := ParseElement(s, e1.next).value;
    assert ParseInstruction(s, e1.next) == Continue(s, [e2.value], e2);
    assert elems[0] == e0.value && elems[1] == e1.value && elems[2] == e2.value;
    assert e2.terminator == SEMICOLON && e2.next == |s|;
    NoElementAtTheEnd(s);
    PlainElement(s, 0);
    PlainElement(s, e0.next);
    PlainElement(s, e1.next);
    var a0, a1, a2 := s[0..e0.next], s[e0.next..e1.next], s[e1.next..e2.next];
    var p0, p1, p2 := AsciiElement(BLOB, COMMA), AsciiElement(elems[1], COMMA), AsciiElement(elems[2], SEMICOLON);
    assert PlainLengths(s, e2.next);
    assert PlainLengths(s, e1.next) <==> a2 == p2;
    assert PlainLengths(s, e0.next) <==> a1 == p1 && a2 == p2;
    assert PlainLengths(s, 0) <==> a0 == p0 && a1 == p1 && a2 == p2;
    AsciiElementIsMinimal(s, 0);
    AsciiElementIsMinimal(s, e0.next);
    AsciiElementIsMinimal(s, e1.next);
    assert s == a0 + a1 + a2;
    if s == p0 + p1 + p2 {
      assert |a0| == |p0| && |a1| == |p1| && |a2| == |p2|;
    }
  }

  lemma NotPlain(v: Text)
    requires !AllDigits(v)
    ensures !Plain(v)
  {
  }

  lemma PlainIndex(v: Text, n: nat)
    requires ParseUnsigned(v, U32_MAX) == Some(n)
    ensures Plain(v) <==> v == Decimal(n)
  {
    hide Decimal, DigitsValue, Plain;
    if AllDigits(v) {
      PlainIsDecimal(v);
    } else {
      assert v != Decimal(n) && !Plain(v) by { NotPlain(v); }
    }
  }

  lemma ReprintIsMinimal(source: Text, b: Blob)
    requires IsBlobInstruction(source, b)
    ensures var printed := BlobInstruction(Decimal(b.index), Base64.Encode(b.payload));
            && |printed| <= |source|
            && (|printed| == |source| ==> Canonical(source))
            && (Canonical(source) ==> printed == source)
  {
    hide ParseInstruction, Base64.Decode, Base64.Encode, Decimal, AsciiElement, PlainLengths, Plain;
    var elems := ParseInstruction(source, 0).value.elems;
    AsciiOfDecoded(elems[2]);
    BlobInstructionIsMinimal(source);
    DecimalIndexIsMinimal(elems[1], b.index);
    AsciiElementMonotone(Decimal(b.index), elems[1], COMMA);
    PlainIndex(elems[1], b.index);
    if |elems| == 3 {
      PlainBlob(source);
    }
  }

  lemma {:induction false} ReprintPieces(ps: seq<Piece>)
    requires ValidPieces(ps) && Explained(ps)
    ensures var fs, text := FramesOf(ps), Concat(Sources(ps));
            && Readable(fs)
            && |ReprintAll(fs)| <= |text|
            && (|ReprintAll(fs)| == |text| ==> AllCanonical(ps))
            && (AllCanonical(ps) ==> ReprintAll(fs) == text)
  {
    hide IsBlobInstruction, Canonical, BlobInstruction, ReadFrame, FrameBytes;
    if ps != [] {
      ReprintPieces(ps[1..]);
      assert FramesOf(ps)[1..] == FramesOf(ps[1..]) && Sources(ps)[1..] == Sources(ps[1..]);
      assert AllCanonical(ps) ==> AllCanonical(ps[1..]);
      if ps[0].lifted.Some? {
        FrameRoundTrip(ps[0].lifted.value);
        ReprintIsMinimal(ps[0].source, ps[0].lifted.value);
      }
    }
  }

  lemma {:induction false} MergeKeepsCanonical(ps: seq<Piece>)
    requires ValidPieces(ps)
    ensures AllCanonical(Merge(ps)) <==> AllCanonical(ps)
  {
    hide Canonical;
    if ps != [] {
      var m := Merge(ps[1..]);
      MergeKeepsCanonical(ps[1..]);
      assert AllCanonical(ps) <==> (ps[0].lifted.Some? ==> Canonical(ps[0].source)) && AllCanonical(ps[1..]);
      if m != [] {
        assert AllCanonical(m) <==> (m[0].lifted.Some? ==> Canonical(m[0].source)) && AllCanonical(m[1..]);
      }
      var j := Join(ps[0], m);
      assert AllCanonical(j) <==> (j[0].lifted.Some? ==> Canonical(j[0].source)) && AllCanonical(j[1..]);
      assert j[1..] == m || (m != [] && m[0].lifted == None && j[1..] == m[1..]);
    }
  }

  /** Re-encoding the frames restores the input byte for byte, malformed tail
      included, exactly when every blob that was lifted out was canonical. */
  lemma SplitIsLossless(streams: set<nat>, text: Text)
    ensures var fs := Split(streams, text);
            && Readable(fs)
            && (ReprintAll(fs) == text <==> AllCanonical(Pieces(streams, text, 0)))
  {
    hide Pieces, Merge, Concat, IsBlobInstruction, Canonical, ReprintAll;
    var pieces := Pieces(streams, text, 0);
    PiecesCoverInput(streams, text, 0);
    MergeKeepsSources(pieces);
    PiecesAreExplained(streams, text, 0);
    MergedIsTidy(pieces);
    ReprintPieces(Merge(pieces));
    MergeKeepsCanonical(pieces);
    assert text[0..] == text;
  }

  // ---- a whole stream, read by read ----

  /** The frames sent when a stream arrives in several reads. */
  ghost function SplitChunks(streams: set<nat>, chunks: seq<Text>): seq<OutFrame>
    decreases |chunks|
  {
    if chunks == [] then []
    else Split(streams, chunks[0]) + SplitChunks(StreamsAtEnd(streams, chunks[0], 0), chunks[1..])
  }

  lemma SplitIsMerged(streams: set<nat>, text: Text)
    ensures MergeFrames(Split(streams, text)) == Split(streams, text)
  {
    hide Pieces, Merge, MergeFrames;
    FramesOfMerge(Pieces(streams, text, 0));
    MergeTwice(FramesOf(Pieces(streams, text, 0)));
  }

  /** However a stream is cut at instruction boundaries, the frames are those of
      one call on the whole, up to merging adjacent text. */
  lemma {:induction false} ChunkedSplitIsOneSplit(streams: set<nat>, chunks: seq<Text>)
    requires chunks != [] && CutAtBoundaries(chunks)
    ensures MergeFrames(SplitChunks(streams, chunks)) == Split(streams, Concat(chunks))
    decreases |chunks|
  {
    hide Split, MergeFrames, StreamsAtEnd, Complete;
    var first := Split(streams, chunks[0]);
    var left := StreamsAtEnd(streams, chunks[0], 0);
    var rest := SplitChunks(left, chunks[1..]);
    if |chunks| == 1 {
      assert chunks[1..] == [] && rest == [] && first + [] == first;
      assert Concat(chunks) == chunks[0] + Concat([]) == chunks[0];
      SplitIsMerged(streams, chunks[0]);
    } else {
      ChunkedSplitIsOneSplit(left, chunks[1..]);
      ChunkingIndependence(streams, chunks[0], Concat(chunks[1..]));
      MergeFramesOfConcat(first, MergeFrames(rest));
      MergeFramesOfConcat(first, rest);
      MergeTwice(rest);
    }
  }

  lemma ReprintOfJoined(f: OutFrame, fs: seq<OutFrame>)
    requires Readable(fs) && (f.BinaryFrame? ==> ReadFrame(f.bytes).Some?)
    ensures Readable(JoinFrame(f, fs)) && ReprintAll(JoinFrame(f, fs)) == ReprintFrame(f) + ReprintAll(fs)
  {
    hide BlobInstruction, ReadFrame;
    var j := JoinFrame(f, fs);
    if f.TextFrame? && fs != [] && fs[0].TextFrame? {
      assert j[1..] == fs[1..];
      Regroup(f.text, fs[0].text, ReprintAll(fs[1..]));
    } else {
      assert j[1..] == fs;
    }
  }

  lemma {:induction false} ReprintOfMerged(fs: seq<OutFrame>)
    requires Readable(fs)
    ensures Readable(MergeFrames(fs)) && ReprintAll(MergeFrames(fs)) == ReprintAll(fs)
  {
    hide BlobInstruction, ReadFrame;
    if fs != [] {
      ReprintOfMerged(fs[1..]);
      ReprintOfJoined(fs[0], MergeFrames(fs[1..]));
    }
  }

  lemma {:induction false} ChunksAreReadable(streams: set<nat>, chunks: seq<Text>)
    ensures Readable(SplitChunks(streams, chunks))
    decreases |chunks|
  {
    hide Split, StreamsAtEnd;
    if chunks != [] {
      SplitIsLossless(streams, chunks[0]);
      ChunksAreReadable(StreamsAtEnd(streams, chunks[0], 0), chunks[1..]);
    }
  }

  /** A recording fed read by read and re-encoded from its frames comes back byte
      for byte, exactly when every blob lifted on the way was canonical. */
  lemma RecordingRoundTrips(streams: set<nat>, chunks: seq<Text>)
    requires chunks != [] && CutAtBoundaries(chunks)
    ensures Readable(SplitChunks(streams, chunks))
    ensures ReprintAll(SplitChunks(streams, chunks)) == Concat(chunks)
            <==> AllCanonical(Pieces(streams, Concat(chunks), 0))
  {
    hide SplitChunks, Split, Concat, AllCanonical, Pieces, MergeFrames, ReprintAll, Readable;
    ChunksAreReadable(streams, chunks);
    ReprintOfMerged(SplitChunks(streams, chunks));
    ChunkedSplitIsOneSplit(streams, chunks);
    SplitIsLossless(streams, Concat(chunks));
  }

  // ---- the code ----

  class Splitter {
    /** The streams whose blobs are lifted out at present. */
    var binaryStreams: set<nat>

    constructor ()
      ensures binaryStreams == {}
    {
      binaryStreams := {};
    }

    /** `split`: the frames to send for a run of instructions. */
    method SplitText(text: Text) returns (out: seq<OutFrame>)
      modifies this
      ensures out == Split(old(binaryStreams), text)
      ensures binaryStreams == StreamsAtEnd(old(binaryStreams), text, 0)
    {
      hide HeadAt, StreamIndex, Base64.Decode, FrameBytes, Pieces, Merge, FramesOf, Flush;
      out := [];
      var pending, pos := 0, 0;
      while pos < |text|
        invariant 0 <= pending <= pos <= |text|
        invariant SplitLoop(binaryStreams, text, pending, pos, out) == SplitLoop(old(binaryStreams), text, 0, 0, [])
        invariant StreamsAtEnd(binaryStreams, text, pos) == StreamsAtEnd(old(binaryStreams), text, 0)
        decreases |text| - pos
      {
        var r := ReadInstruction(text, pos);
        if r == None { break; }
        var start, h := pos, r.value.head;
        pos := r.value.end;
        ghost var streams := binaryStreams;
        var index := StreamIndex(h);
        if index.Some? {
          if h.opcode == H264 || h.opcode == AUDIO {
            binaryStreams := binaryStreams + {index.value};
          } else if h.opcode == END {
            binaryStreams := binaryStreams - {index.value};
          } else if h.opcode == BLOB && index.value in binaryStreams && |h.args| >= 2 {
            var decoded := Base64.Decode(h.args[1]);
            if decoded.Some? {
              FlushFrames(text[pending..start]);
              assert out + [] == out;
              if pending < start {
                out := out + [TextFrame(text[pending..start])];
              }
              out := out + [BinaryFrame(FrameBytes(Blob(index.value, decoded.value)))];
              pending := pos;
            }
          }
        }
        assert binaryStreams == StreamsAfter(streams, h);
      }
      FlushFrames(text[pending..]);
      assert out + [] == out;
      if pending < |text| {
        out := out + [TextFrame(text[pending..])];
      }
      LoopIsMergedPieces(old(binaryStreams), text, 0, 0, []);
    }
  }
}
