/** Edits the SPS of a session's H.264 streams in flight, re-printing only the
    `blob` instructions it changes. */
module SpsRewriter {
  import opened Bytes
  import opened Wire
  import BlobSplitter
  import Base64

  datatype Colour = Undecided | Rewriting | PassThrough

  datatype Edit = ColourDescription | FrameNumGaps | NoReordering

  /** The bit-level SPS functions, whatever they compute. `needsDescription` is
      None when the SPS cannot be parsed. */
  datatype SpsCodec = SpsCodec(
    needsDescription: seq<Byte> -> Option<bool>,
    reorderingUnbounded: seq<Byte> -> bool,
    completeColour: seq<Byte> -> Option<seq<Byte>>,
    declareNoReordering: seq<Byte> -> Option<seq<Byte>>,
    allowFrameNumGaps: seq<Byte> -> Option<seq<Byte>>)

  datatype State = State(
    colour: Colour,
    boundReordering: bool,
    allowGaps: bool,
    pendingEdits: seq<Edit>,
    made: seq<Edit>,
    h264Streams: set<nat>)

  // ---- locating the SPS ----

  function NextStartCode(b: seq<Byte>, from: nat): (r: Option<nat>)
    ensures r.Some? ==> from <= r.value <= |b|
    decreases |b| - from
  {
    if from + 3 > |b| then None
    else if b[from] == 0 && b[from + 1] == 0 && b[from + 2] == 1 then Some(from)
    else if b[from] == 0 && b[from + 1] == 0 && b[from + 2] == 3 then NextStartCode(b, from + 3)
    else NextStartCode(b, from + 1)
  }

  datatype Range = Range(start: nat, end: nat)

  /** `find_sps_range`, from offset `i`: the payload of the first SPS NAL unit. */
  function FindSpsRange(b: seq<Byte>, i: nat): (r: Option<Range>)
    ensures r.Some? ==> 0 < r.value.start <= r.value.end <= |b|
    decreases |b| - i
  {
    if i + 4 >= |b| then None
    else
      var long := b[i] == 0 && b[i + 1] == 0 && b[i + 2] == 0 && b[i + 3] == 1;
      var short := b[i] == 0 && b[i + 1] == 0 && b[i + 2] == 1;
      if !long && !short then FindSpsRange(b, i + 1)
      else
        var header := if long then i + 4 else i + 3;
        if b[header] < 128 && b[header] % 32 == 7 then
          Some(Range(header + 1, match NextStartCode(b, header + 1) case None => |b| case Some(e) => e))
        else FindSpsRange(b, header + 1)
  }

  ghost predicate StartCodeAt(b: seq<Byte>, k: nat) { k + 3 <= |b| && b[k] == 0 && b[k + 1] == 0 && b[k + 2] == 1 }

  lemma {:induction false} NextStartCodeIsFirst(b: seq<Byte>, from: nat)
    ensures var r := NextStartCode(b, from);
            && (r.Some? ==> StartCodeAt(b, r.value))
            && forall k :: from <= k && (r.Some? ==> k < r.value) ==> !StartCodeAt(b, k)
    decreases |b| - from
  {
    if from + 3 <= |b| && !StartCodeAt(b, from) {
      if b[from] == 0 && b[from + 1] == 0 && b[from + 2] == 3 {
        NextStartCodeIsFirst(b, from + 3);
      } else {
        NextStartCodeIsFirst(b, from + 1);
      }
    }
  }

  /** A start code that begins a unit for a scan from `i`: one right behind
      another that does, where that one's header byte would be, does not. */
  ghost predicate UnitAt(b: seq<Byte>, i: nat, k: nat)
    decreases k
  {
    StartCodeAt(b, k) && i <= k && !(i + 3 <= k && UnitAt(b, i, k - 3))
  }

  /** The header of the unit at `k` says SPS, and there is something behind it. */
  ghost predicate SpsAt(b: seq<Byte>, k: nat) { k + 4 < |b| && b[k + 3] < 128 && b[k + 3] % 32 == 7 }

  lemma {:induction false} UnitsFromNext(b: seq<Byte>, i: nat, k: nat)
    requires !StartCodeAt(b, i) && i < k
    ensures UnitAt(b, i, k) <==> UnitAt(b, i + 1, k)
    decreases k
  {
    if i + 3 < k {
      UnitsFromNext(b, i, k - 3);
    }
  }

  lemma {:induction false} UnitsBehind(b: seq<Byte>, u: nat, k: nat)
    requires StartCodeAt(b, u) && u + 4 <= k
    ensures UnitAt(b, u, k) <==> UnitAt(b, u + 4, k)
    decreases k
  {
    if u + 7 <= k {
      UnitsBehind(b, u, k - 3);
    } else {
      assert !StartCodeAt(b, u + 1) && !StartCodeAt(b, u + 2) && !UnitAt(b, u, u + 3);
    }
  }

  ghost predicate IsSpsUnit(b: seq<Byte>, i: nat, r: Range) {
    && i + 4 <= r.start <= r.end <= |b|
    && UnitAt(b, i, r.start - 4) && b[r.start - 1] < 128 && b[r.start - 1] % 32 == 7
    && (r.end == |b| || StartCodeAt(b, r.end))
    && forall k :: r.start <= k < r.end ==> !StartCodeAt(b, k)
  }

  /** `r` is the payload of the first SPS unit from `i`: a start code and a
      type-7 header just before it, no such unit earlier, and no start code
      before its end, which is the next start code or the end of the data; None
      if there is no such unit. */
  ghost predicate IsFirstSps(b: seq<Byte>, i: nat, r: Option<Range>) {
    && (r.Some? ==> IsSpsUnit(b, i, r.value))
    && forall k :: UnitAt(b, i, k) && SpsAt(b, k) ==> r.Some? && r.value.start - 4 <= k
  }

  lemma FirstSpsFromNext(b: seq<Byte>, i: nat, r: Option<Range>)
    requires !StartCodeAt(b, i) && IsFirstSps(b, i + 1, r)
    ensures IsFirstSps(b, i, r)
  {
    hide StartCodeAt, SpsAt;
    forall k | i < k
      ensures UnitAt(b, i, k) <==> UnitAt(b, i + 1, k)
    {
      UnitsFromNext(b, i, k);
    }
  }

  lemma FirstSpsBehind(b: seq<Byte>, u: nat, r: Option<Range>)
    requires StartCodeAt(b, u) && !SpsAt(b, u) && IsFirstSps(b, u + 4, r)
    ensures IsFirstSps(b, u, r)
  {
    hide SpsAt;
    forall k | u + 4 <= k
      ensures UnitAt(b, u, k) <==> UnitAt(b, u + 4, k)
    {
      UnitsBehind(b, u, k);
    }
    assert !StartCodeAt(b, u + 1) && !StartCodeAt(b, u + 2) && !UnitAt(b, u, u + 3);
  }

  lemma FirstSpsHere(b: seq<Byte>, u: nat)
    requires StartCodeAt(b, u) && u + 3 < |b| && b[u + 3] < 128 && b[u + 3] % 32 == 7
    ensures var next := NextStartCode(b, u + 4);
            IsFirstSps(b, u, Some(Range(u + 4, if next == None then |b| else next.value)))
  {
    hide NextStartCode, StartCodeAt;
    NextStartCodeIsFirst(b, u + 4);
  }

  lemma NoRoomForSps(b: seq<Byte>, i: nat)
    requires i + 4 >= |b|
    ensures IsFirstSps(b, i, None)
  {
  }

  lemma {:induction false} SpsRangeIsFirstUnit(b: seq<Byte>, i: nat)
    ensures IsFirstSps(b, i, FindSpsRange(b, i))
    decreases |b| - i
  {
    hide IsFirstSps, NextStartCode;
    if i + 4 >= |b| {
      NoRoomForSps(b, i);
    } else {
      var long := b[i] == 0 && b[i + 1] == 0 && b[i + 2] == 0 && b[i + 3] == 1;
      if !long && !StartCodeAt(b, i) {
        SpsRangeIsFirstUnit(b, i + 1);
        FirstSpsFromNext(b, i, FindSpsRange(b, i));
      } else {
        var u := if long then i + 1 else i;
        if b[u + 3] < 128 && b[u + 3] % 32 == 7 {
          FirstSpsHere(b, u);
        } else {
          SpsRangeIsFirstUnit(b, u + 4);
          FirstSpsBehind(b, u, FindSpsRange(b, i));
        }
        if long {
          FirstSpsFromNext(b, i, FindSpsRange(b, i));
        }
      }
    }
  }

  /** An SPS right behind a header byte of zero is not seen, though its start
      code and header are there. */
  lemma HiddenSps(b: seq<Byte>)
    requires b == [0, 0, 1, 0, 0, 1, 7, 66]
    ensures StartCodeAt(b, 3) && SpsAt(b, 3) && FindSpsRange(b, 0) == None
  {
    assert FindSpsRange(b, 4) == None;
  }

  // ---- specification: one payload ----

  function Note(st: State, edit: Edit): State {
    if edit in st.made then st
    else st.(made := st.made + [edit], pendingEdits := st.pendingEdits + [edit])
  }

  /** Colour and reordering are decided at the first SPS that parses. */
  function Decide(codec: SpsCodec, st: State, sps: seq<Byte>): Option<State> {
    if st.colour != Undecided then Some(st)
    else
      match codec.needsDescription(sps)
      case None => None
      case Some(needs) =>
        Some(st.(colour := if needs then Rewriting else PassThrough,
                 boundReordering := codec.reorderingUnbounded(sps)))
  }

  /** An SPS under edit: the edited bytes, if any edit applied. */
  datatype Editing = Editing(edited: Option<seq<Byte>>, st: State)

  function Apply(wanted: bool, f: seq<Byte> -> Option<seq<Byte>>, edit: Edit, sps: seq<Byte>, e: Editing): Editing {
    if !wanted then e
    else
      match f(if e.edited.Some? then e.edited.value else sps)
      case None => e
      case Some(bytes) => Editing(Some(bytes), Note(e.st, edit))
  }

  function EditSps(codec: SpsCodec, st: State, sps: seq<Byte>): Editing {
    var e1 := Apply(st.colour == Rewriting, codec.completeColour, ColourDescription, sps, Editing(None, st));
    var e2 := Apply(st.boundReordering, codec.declareNoReordering, NoReordering, sps, e1);
    Apply(st.allowGaps, codec.allowFrameNumGaps, FrameNumGaps, sps, e2)
  }

  datatype Rewritten = Rewritten(payload: Option<Text>, st: State)

  /** `rewritten_payload`: the base64 of the edited access unit, or None. */
  function RewritePayload(codec: SpsCodec, st: State, payload: Text): Rewritten {
    match Base64.Decode(payload)
    case None => Rewritten(None, st)
    case Some(bytes) =>
      match FindSpsRange(bytes, 0)
      case None => Rewritten(None, st)
      case Some(sps) =>
        match Decide(codec, st, bytes[sps.start..sps.end])
        case None => Rewritten(None, st)
        case Some(decided) =>
          var e := EditSps(codec, decided, bytes[sps.start..sps.end]);
          match e.edited
          case None => Rewritten(None, e.st)
          case Some(spliced) => Rewritten(Some(Base64.Encode(bytes[..sps.start] + spliced + bytes[sps.end..])), e.st)
  }

  /** What one instruction does: a replacement payload if the blob is edited. */
  function Step(codec: SpsCodec, st: State, h: Head): (r: Rewritten)
    ensures r.payload.Some? ==> h.opcode == BLOB && |h.args| >= 2 && BlobSplitter.StreamIndex(h).Some?
  {
    match BlobSplitter.StreamIndex(h)
    case None => Rewritten(None, st)
    case Some(index) =>
      if h.opcode == BlobSplitter.H264 then Rewritten(None, st.(h264Streams := st.h264Streams + {index}))
      else if h.opcode == BlobSplitter.END then Rewritten(None, st.(h264Streams := st.h264Streams - {index}))
      else if h.opcode == BLOB && index in st.h264Streams && |h.args| >= 2 then RewritePayload(codec, st, h.args[1])
      else Rewritten(None, st)
  }

  /** The h264 streams open after an instruction. */
  function H264After(streams: set<nat>, h: Head): set<nat> {
    match BlobSplitter.StreamIndex(h)
    case None => streams
    case Some(index) =>
      if h.opcode == BlobSplitter.H264 then streams + {index}
      else if h.opcode == BlobSplitter.END then streams - {index}
      else streams
  }

  // ---- specification: a text ----

  datatype Output = Output(text: Text, edited: bool, st: State)

  function Printed(source: Text, h: Head, step: Rewritten): Text
    requires step.payload.Some? ==> |h.args| >= 1
  {
    if step.payload == None then source else BlobInstruction(h.args[0], step.payload.value)
  }

  /** The full scan: each instruction copied or re-printed, then the tail. */
  function FullScan(codec: SpsCodec, st: State, s: Text, at: nat): Output
    requires at <= |s|
    decreases |s| - at
  {
    match HeadAt(s, at)
    case None => Output(s[at..], false, st)
    case Some(r) =>
      var step := Step(codec, st, r.head);
      var rest := FullScan(codec, step.st, s, r.end);
      Output(Printed(s[at..r.end], r.head, step) + rest.text, step.payload.Some? || rest.edited, rest.st)
  }

  /** Nothing left to edit: the condition under which `rewrite` returns at once. */
  predicate Quiet(st: State) { st.colour == PassThrough && !st.boundReordering && !st.allowGaps }

  /** One call of `rewrite`, `text` being the input where it returned None. */
  function Rewrite(codec: SpsCodec, st: State, text: Text): Output {
    if Quiet(st) then Output(text, false, st) else FullScan(codec, st, text, 0)
  }

  function OrEmpty(out: Option<Text>): Text { if out == None then [] else out.value }

  /** The loop of `rewrite`, with `out` written so far and text uncopied from
      `pending`; None when nothing was changed. */
  ghost function Loop(codec: SpsCodec, st: State, s: Text, pending: nat, at: nat, out: Option<Text>)
    : (Option<Text>, State)
    requires pending <= at <= |s|
    decreases |s| - at
  {
    match HeadAt(s, at)
    case None => (if out == None then None else Some(out.value + s[pending..]), st)
    case Some(r) =>
      var step := Step(codec, st, r.head);
      match step.payload
      case None => Loop(codec, step.st, s, pending, r.end, out)
      case Some(p) =>
        Loop(codec, step.st, s, r.end, r.end,
             Some(OrEmpty(out) + s[pending..at] + BlobInstruction(r.head.args[0], p)))
  }

  lemma {:induction false} LoopIsFullScan(codec: SpsCodec, st: State, s: Text, pending: nat, at: nat, out: Option<Text>)
    requires pending <= at <= |s|
    ensures var (result, after) := Loop(codec, st, s, pending, at, out);
            var scan := FullScan(codec, st, s, at);
            && after == scan.st
            && result == (if out == None && !scan.edited then None
                          else Some(OrEmpty(out) + s[pending..at] + scan.text))
    decreases |s| - at
  {
    hide HeadAt, Step, BlobInstruction;
    match HeadAt(s, at)
    case None =>
      assert s[pending..] == s[pending..at] + s[at..];
      Regroup(OrEmpty(out), s[pending..at], s[at..]);
    case Some(r) =>
      var step := Step(codec, st, r.head);
      var rest := FullScan(codec, step.st, s, r.end);
      match step.payload {
        case None =>
          LoopIsFullScan(codec, step.st, s, pending, r.end, out);
          assert s[pending..r.end] == s[pending..at] + s[at..r.end];
          Regroup(OrEmpty(out), s[pending..at], s[at..r.end]);
          Regroup(OrEmpty(out) + s[pending..at], s[at..r.end], rest.text);
        case Some(p) =>
          var printed := BlobInstruction(r.head.args[0], p);
          var out' := OrEmpty(out) + s[pending..at] + printed;
          LoopIsFullScan(codec, step.st, s, r.end, r.end, Some(out'));
          assert s[r.end..r.end] == [] && out' + [] == out';
          Regroup(OrEmpty(out) + s[pending..at], printed, rest.text);
      }
  }

  /** With nothing edited the output is the input. */
  lemma {:induction false} UneditedIsInput(codec: SpsCodec, st: State, s: Text, at: nat)
    requires at <= |s| && !FullScan(codec, st, s, at).edited
    ensures FullScan(codec, st, s, at).text == s[at..]
    decreases |s| - at
  {
    hide HeadAt, Step;
    match HeadAt(s, at)
    case None =>
    case Some(r) =>
      UneditedIsInput(codec, Step(codec, st, r.head).st, s, r.end);
      assert s[at..] == s[at..r.end] + s[r.end..];
  }

  // ---- the early return agrees with the full scan ----

  lemma QuietStep(codec: SpsCodec, st: State, h: Head)
    requires Quiet(st)
    ensures Step(codec, st, h).payload == None && Quiet(Step(codec, st, h).st)
  {
    hide Base64.Decode, FindSpsRange, Base64.Encode;
  }

  lemma {:induction false} QuietScan(codec: SpsCodec, st: State, s: Text, at: nat)
    requires at <= |s| && Quiet(st)
    ensures var scan := FullScan(codec, st, s, at);
            scan.text == s[at..] && !scan.edited && Quiet(scan.st)
    decreases |s| - at
  {
    hide HeadAt, Step, Quiet;
    match HeadAt(s, at)
    case None =>
    case Some(r) =>
      QuietStep(codec, st, r.head);
      QuietScan(codec, Step(codec, st, r.head).st, s, r.end);
      assert s[at..] == s[at..r.end] + s[r.end..];
  }

  lemma ApplyFrame(wanted: bool, f: seq<Byte> -> Option<seq<Byte>>, edit: Edit, sps: seq<Byte>, e: Editing)
    ensures var after := Apply(wanted, f, edit, sps, e).st;
            after.allowGaps == e.st.allowGaps && after.h264Streams == e.st.h264Streams
  {
  }

  lemma EditFrame(codec: SpsCodec, st: State, sps: seq<Byte>)
    ensures var after := EditSps(codec, st, sps).st;
            after.allowGaps == st.allowGaps && after.h264Streams == st.h264Streams
  {
    hide Apply;
    var e0 := Editing(None, st);
    var e1 := Apply(st.colour == Rewriting, codec.completeColour, ColourDescription, sps, e0);
    ApplyFrame(st.colour == Rewriting, codec.completeColour, ColourDescription, sps, e0);
    var e2 := Apply(st.boundReordering, codec.declareNoReordering, NoReordering, sps, e1);
    ApplyFrame(st.boundReordering, codec.declareNoReordering, NoReordering, sps, e1);
    ApplyFrame(st.allowGaps, codec.allowFrameNumGaps, FrameNumGaps, sps, e2);
  }

  lemma PayloadFrame(codec: SpsCodec, st: State, payload: Text)
    ensures var after := RewritePayload(codec, st, payload).st;
            after.allowGaps == st.allowGaps && after.h264Streams == st.h264Streams
  {
    hide Base64.Decode, FindSpsRange, Base64.Encode, EditSps;
    if Base64.Decode(payload).Some? {
      var bytes := Base64.Decode(payload).value;
      if FindSpsRange(bytes, 0).Some? {
        var range := FindSpsRange(bytes, 0).value;
        var sps := bytes[range.start..range.end];
        if Decide(codec, st, sps).Some? {
          EditFrame(codec, Decide(codec, st, sps).value, sps);
        }
      }
    }
  }

  lemma StepKeepsGaps(codec: SpsCodec, st: State, h: Head)
    ensures Step(codec, st, h).st.allowGaps == st.allowGaps
  {
    hide RewritePayload, BlobSplitter.StreamIndex;
    if |h.args| >= 2 {
      PayloadFrame(codec, st, h.args[1]);
    }
  }

  lemma {:induction false} ScanKeepsGaps(codec: SpsCodec, st: State, s: Text, at: nat)
    requires at <= |s|
    ensures FullScan(codec, st, s, at).st.allowGaps == st.allowGaps
    decreases |s| - at
  {
    hide HeadAt, Step;
    match HeadAt(s, at)
    case None =>
    case Some(r) =>
      StepKeepsGaps(codec, st, r.head);
      ScanKeepsGaps(codec, Step(codec, st, r.head).st, s, r.end);
  }

  lemma {:induction false} ScanShiftedBy(codec: SpsCodec, st: State, a: Text, b: Text, at: nat)
    requires at <= |b|
    ensures FullScan(codec, st, a + b, |a| + at) == FullScan(codec, st, b, at)
    decreases |b| - at
  {
    hide ParseInstruction, Step, Printed;
    InstructionShifted(a, b, at);
    match HeadAt(b, at)
    case None =>
      assert (a + b)[|a| + at..] == b[at..];
    case Some(r) =>
      ScanShiftedBy(codec, Step(codec, st, r.head).st, a, b, r.end);
      assert (a + b)[|a| + at..|a| + r.end] == b[at..r.end];
  }

  /** Scanning a run of complete instructions and then more, state carried
      over, equals scanning both at once. */
  lemma {:induction false} FullScanConcat(codec: SpsCodec, st: State, a: Text, b: Text, at: nat)
    requires at <= |a| && Scan(a, at).tail == []
    ensures var first := FullScan(codec, st, a, at);
            var second := FullScan(codec, first.st, b, 0);
            FullScan(codec, st, a + b, at) == Output(first.text + second.text, first.edited || second.edited, second.st)
    decreases |a| - at
  {
    hide ParseInstruction, Step, Printed;
    if at == |a| {
      assert a[at..] == [];
      ScanShiftedBy(codec, st, a, b, 0);
    } else {
      BlobSplitter.HeadConcat(a, b, at);
      var r := HeadAt(a, at).value;
      var step := Step(codec, st, r.head);
      FullScanConcat(codec, step.st, a, b, r.end);
      var rest := FullScan(codec, step.st, a, r.end);
      var second := FullScan(codec, rest.st, b, 0);
      Regroup(Printed(a[at..r.end], r.head, step), rest.text, second.text);
    }
  }

  // ---- what decides the output ----

  lemma StepStreams(codec: SpsCodec, st: State, h: Head)
    ensures Step(codec, st, h).st.h264Streams == H264After(st.h264Streams, h)
  {
    hide RewritePayload, BlobSplitter.StreamIndex;
    if |h.args| >= 2 {
      PayloadFrame(codec, st, h.args[1]);
    }
  }

  /** The h264 streams open after the text from `at`. */
  function H264AtEnd(streams: set<nat>, s: Text, at: nat): set<nat>
    requires at <= |s|
    decreases |s| - at
  {
    match HeadAt(s, at)
    case None => streams
    case Some(r) => H264AtEnd(H264After(streams, r.head), s, r.end)
  }

  lemma {:induction false} ScanStreams(codec: SpsCodec, st: State, s: Text, at: nat)
    requires at <= |s|
    ensures FullScan(codec, st, s, at).st.h264Streams == H264AtEnd(st.h264Streams, s, at)
    decreases |s| - at
  {
    hide HeadAt, Step, H264After;
    match HeadAt(s, at)
    case None =>
    case Some(r) =>
      StepStreams(codec, st, r.head);
      ScanStreams(codec, Step(codec, st, r.head).st, s, r.end);
  }

  /** The states differ at most in the edits they have to report. */
  ghost predicate SameWork(a: State, b: State) { a == b.(made := a.made, pendingEdits := a.pendingEdits) }

  lemma ApplySameWork(wanted: bool, f: seq<Byte> -> Option<seq<Byte>>, edit: Edit, sps: seq<Byte>,
                      a: Editing, b: Editing)
    requires a.edited == b.edited && SameWork(a.st, b.st)
    ensures var a', b' := Apply(wanted, f, edit, sps, a), Apply(wanted, f, edit, sps, b);
            a'.edited == b'.edited && SameWork(a'.st, b'.st)
  {
  }

  lemma EditSameWork(codec: SpsCodec, a: State, b: State, sps: seq<Byte>)
    requires SameWork(a, b)
    ensures var a', b' := EditSps(codec, a, sps), EditSps(codec, b, sps);
            a'.edited == b'.edited && SameWork(a'.st, b'.st)
  {
    hide Apply;
    var colour := a.colour == Rewriting;
    var a0, b0 := Editing(None, a), Editing(None, b);
    ApplySameWork(colour, codec.completeColour, ColourDescription, sps, a0, b0);
    var a1 := Apply(colour, codec.completeColour, ColourDescription, sps, a0);
    var b1 := Apply(colour, codec.completeColour, ColourDescription, sps, b0);
    ApplySameWork(a.boundReordering, codec.declareNoReordering, NoReordering, sps, a1, b1);
    var a2 := Apply(a.boundReordering, codec.declareNoReordering, NoReordering, sps, a1);
    var b2 := Apply(a.boundReordering, codec.declareNoReordering, NoReordering, sps, b1);
    ApplySameWork(a.allowGaps, codec.allowFrameNumGaps, FrameNumGaps, sps, a2, b2);
  }

  lemma PayloadSameWork(codec: SpsCodec, a: State, b: State, payload: Text)
    requires SameWork(a, b)
    ensures var a', b' := RewritePayload(codec, a, payload), RewritePayload(codec, b, payload);
            a'.payload == b'.payload && SameWork(a'.st, b'.st)
  {
    hide Base64.Decode, FindSpsRange, Base64.Encode, EditSps;
    if Base64.Decode(payload).Some? {
      var bytes := Base64.Decode(payload).value;
      if FindSpsRange(bytes, 0).Some? {
        var range := FindSpsRange(bytes, 0).value;
        var sps := bytes[range.start..range.end];
        if Decide(codec, a, sps).Some? {
          EditSameWork(codec, Decide(codec, a, sps).value, Decide(codec, b, sps).value, sps);
        }
      }
    }
  }

  lemma StepSameWork(codec: SpsCodec, a: State, b: State, h: Head)
    requires SameWork(a, b)
    ensures var a', b' := Step(codec, a, h), Step(codec, b, h);
            a'.payload == b'.payload && SameWork(a'.st, b'.st)
  {
    hide RewritePayload, BlobSplitter.StreamIndex;
    if |h.args| >= 2 {
      PayloadSameWork(codec, a, b, h.args[1]);
    }
  }

  lemma PrintedByPayload(source: Text, h: Head, x: Rewritten, y: Rewritten)
    requires x.payload == y.payload && (x.payload.Some? ==> |h.args| >= 1)
    ensures Printed(source, h, x) == Printed(source, h, y)
  {
    hide BlobInstruction;
  }

  /** What is still to be reported has no say in the output. */
  lemma {:induction false} ScanSameWork(codec: SpsCodec, a: State, b: State, s: Text, at: nat)
    requires at <= |s| && SameWork(a, b)
    ensures var a', b' := FullScan(codec, a, s, at), FullScan(codec, b, s, at);
            a'.text == b'.text && SameWork(a'.st, b'.st)
    decreases |s| - at
  {
    hide HeadAt, Step, Printed;
    match HeadAt(s, at)
    case None =>
    case Some(r) =>
      StepSameWork(codec, a, b, r.head);
      var x, y := Step(codec, a, r.head), Step(codec, b, r.head);
      PrintedByPayload(s[at..r.end], r.head, x, y);
      ScanSameWork(codec, x.st, y.st, s, r.end);
  }

  // ---- which edits reach the output ----

  /** An edit is made when it is wanted and has something to do. */
  predicate Makes(wanted: bool, f: seq<Byte> -> Option<seq<Byte>>, x: seq<Byte>) { wanted && f(x).Some? }

  function Made(wanted: bool, f: seq<Byte> -> Option<seq<Byte>>, x: seq<Byte>): seq<Byte> {
    if Makes(wanted, f, x) then f(x).value else x
  }

  /** What is wanted of the SPS `x`: until something is decided, what `x` itself
      calls for; afterwards what was decided; gaps whenever they are asked for. */
  predicate WantsColour(codec: SpsCodec, st: State, x: seq<Byte>) {
    if st.colour == Undecided then codec.needsDescription(x) == Some(true) else st.colour == Rewriting
  }

  predicate WantsBound(codec: SpsCodec, st: State, x: seq<Byte>) {
    if st.colour == Undecided then codec.reorderingUnbounded(x) else st.boundReordering
  }

  /** `after` has `edit` on record and queued exactly if `before` had, or it was
      made now; queued only if it is new. */
  predicate Recorded(before: State, after: State, edit: Edit, made: bool) {
    && (edit in after.made <==> edit in before.made || made)
    && (edit in after.pendingEdits <==> edit in before.pendingEdits || (made && edit !in before.made))
  }

  /** A blob on a tracked stream whose access unit `bytes` has its SPS at `range`. */
  ghost predicate CarriesSps(st: State, h: Head, bytes: seq<Byte>, range: Range) {
    && h.opcode == BLOB && |h.args| >= 2
    && BlobSplitter.StreamIndex(h).Some? && BlobSplitter.StreamIndex(h).value in st.h264Streams
    && Base64.Decode(h.args[1]) == Some(bytes) && FindSpsRange(bytes, 0) == Some(range)
  }

  lemma ApplyIs(wanted: bool, f: seq<Byte> -> Option<seq<Byte>>, edit: Edit, sps: seq<Byte>, e: Editing)
    ensures var x := if e.edited.Some? then e.edited.value else sps;
            var e' := Apply(wanted, f, edit, sps, e);
            && (e'.edited.Some? <==> e.edited.Some? || Makes(wanted, f, x))
            && (if e'.edited.Some? then e'.edited.value else sps) == Made(wanted, f, x)
            && Recorded(e.st, e'.st, edit, Makes(wanted, f, x))
            && (forall other :: other != edit ==> Recorded(e.st, e'.st, other, false))
            && e'.st == e.st.(made := e'.st.made, pendingEdits := e'.st.pendingEdits)
  {
  }

  lemma EditsAre(codec: SpsCodec, st: State, x: seq<Byte>)
    ensures var colour, bound := st.colour == Rewriting, st.boundReordering;
            var y := Made(colour, codec.completeColour, x);
            var z := Made(bound, codec.declareNoReordering, y);
            var (a, b, c) := (Makes(colour, codec.completeColour, x), Makes(bound, codec.declareNoReordering, y),
                              Makes(st.allowGaps, codec.allowFrameNumGaps, z));
            var e := EditSps(codec, st, x);
            && (e.edited.Some? <==> a || b || c)
            && (e.edited.Some? ==> e.edited.value == Made(st.allowGaps, codec.allowFrameNumGaps, z))
            && Recorded(st, e.st, ColourDescription, a) && Recorded(st, e.st, NoReordering, b)
            && Recorded(st, e.st, FrameNumGaps, c)
  {
    hide Apply, Makes, Made;
    var e0 := Editing(None, st);
    ApplyIs(st.colour == Rewriting, codec.completeColour, ColourDescription, x, e0);
    var e1 := Apply(st.colour == Rewriting, codec.completeColour, ColourDescription, x, e0);
    ApplyIs(st.boundReordering, codec.declareNoReordering, NoReordering, x, e1);
    var e2 := Apply(st.boundReordering, codec.declareNoReordering, NoReordering, x, e1);
    ApplyIs(st.allowGaps, codec.allowFrameNumGaps, FrameNumGaps, x, e2);
    var e3 := Apply(st.allowGaps, codec.allowFrameNumGaps, FrameNumGaps, x, e2);
    assert Recorded(e1.st, e2.st, ColourDescription, false) && Recorded(e2.st, e3.st, ColourDescription, false);
    assert Recorded(e0.st, e1.st, NoReordering, false) && Recorded(e2.st, e3.st, NoReordering, false);
    assert Recorded(e0.st, e1.st, FrameNumGaps, false) && Recorded(e1.st, e2.st, FrameNumGaps, false);
  }

  lemma EditKeepsDecision(codec: SpsCodec, st: State, x: seq<Byte>)
    ensures var after := EditSps(codec, st, x).st;
            after.colour == st.colour && after.boundReordering == st.boundReordering
  {
  }

  /** What becomes of an SPS that can be read, or of any once decided: the blob is
      replaced exactly if one of the three edits is made, its access unit then
      holding the SPS edited in that order; each edit made is recorded, no other
      is; and what the first such SPS called for is decided from then on. */
  lemma BlobIsEditedExactly(codec: SpsCodec, st: State, h: Head, bytes: seq<Byte>, range: Range)
    requires CarriesSps(st, h, bytes, range)
    requires st.colour == Undecided ==> codec.needsDescription(bytes[range.start..range.end]).Some?
    ensures var x := bytes[range.start..range.end];
            var colour, bound := WantsColour(codec, st, x), WantsBound(codec, st, x);
            var y := Made(colour, codec.completeColour, x);
            var z := Made(bound, codec.declareNoReordering, y);
            var (a, b, c) := (Makes(colour, codec.completeColour, x), Makes(bound, codec.declareNoReordering, y),
                              Makes(st.allowGaps, codec.allowFrameNumGaps, z));
            var r := Step(codec, st, h);
            && (r.payload.Some? <==> a || b || c)
            && (r.payload.Some? ==>
                  var edited := Made(st.allowGaps, codec.allowFrameNumGaps, z);
                  Base64.Decode(r.payload.value) == Some(bytes[..range.start] + edited + bytes[range.end..]))
            && Recorded(st, r.st, ColourDescription, a) && Recorded(st, r.st, NoReordering, b)
            && Recorded(st, r.st, FrameNumGaps, c)
            && r.st.colour != Undecided && (r.st.colour == Rewriting <==> colour) && r.st.boundReordering == bound
  {
    hide EditSps, Makes, Made, FindSpsRange, Base64.Decode, Base64.Encode, BlobSplitter.StreamIndex;
    var x := bytes[range.start..range.end];
    var decided := Decide(codec, st, x).value;
    EditsAre(codec, decided, x);
    EditFrame(codec, decided, x);
    EditKeepsDecision(codec, decided, x);
    var e := EditSps(codec, decided, x);
    if e.edited.Some? {
      Base64.DecodeInvertsEncode(bytes[..range.start] + e.edited.value + bytes[range.end..]);
    }
  }

  /** Any other instruction is left alone, and nothing is decided by it. */
  lemma OthersAreLeftAlone(codec: SpsCodec, st: State, h: Head)
    requires forall bytes, range :: CarriesSps(st, h, bytes, range) ==>
               st.colour == Undecided && codec.needsDescription(bytes[range.start..range.end]) == None
    ensures var r := Step(codec, st, h);
            r.payload == None && r.st == st.(h264Streams := r.st.h264Streams)
  {
    hide EditSps, FindSpsRange, Base64.Decode, Base64.Encode, BlobSplitter.StreamIndex;
    if BlobSplitter.StreamIndex(h).Some? && h.opcode == BLOB && |h.args| >= 2 && Base64.Decode(h.args[1]).Some? {
      var bytes := Base64.Decode(h.args[1]).value;
      if FindSpsRange(bytes, 0).Some? && BlobSplitter.StreamIndex(h).value in st.h264Streams {
        assert CarriesSps(st, h, bytes, FindSpsRange(bytes, 0).value);
      }
    }
  }

  // ---- the decision is taken once ----

  /** Decided, and so: whether colour and reordering need work. */
  ghost predicate Agrees(st: State, colour: Colour, bound: bool) { st.colour == colour && st.boundReordering == bound }

  lemma StepKeepsDecision(codec: SpsCodec, st: State, h: Head)
    requires st.colour != Undecided
    ensures Agrees(Step(codec, st, h).st, st.colour, st.boundReordering)
  {
    hide Base64.Decode, FindSpsRange, Base64.Encode, BlobSplitter.StreamIndex;
  }

  lemma {:induction false} ScanKeepsDecision(codec: SpsCodec, st: State, s: Text, at: nat)
    requires at <= |s| && st.colour != Undecided
    ensures Agrees(FullScan(codec, st, s, at).st, st.colour, st.boundReordering)
    decreases |s| - at
  {
    hide HeadAt, Step;
    match HeadAt(s, at)
    case None =>
    case Some(r) =>
      StepKeepsDecision(codec, st, r.head);
      ScanKeepsDecision(codec, Step(codec, st, r.head).st, s, r.end);
  }

  // ---- whole sessions ----

  /** A read from guacd: a run of instructions, and whether the dropper wants
      frame_num gaps allowed from here on. */
  datatype Chunk = Chunk(text: Text, gaps: bool)

  function WithGaps(st: State, gaps: bool): State { st.(allowGaps := gaps) }

  /** What the browser receives when each chunk goes through `rewrite`. */
  function Session(codec: SpsCodec, st: State, chunks: seq<Chunk>): Text
    decreases |chunks|
  {
    if chunks == [] then []
    else
      var o := Rewrite(codec, WithGaps(st, chunks[0].gaps), chunks[0].text);
      o.text + Session(codec, o.st, chunks[1..])
  }

  function StateAfter(codec: SpsCodec, st: State, chunks: seq<Chunk>): State
    decreases |chunks|
  {
    if chunks == [] then st
    else StateAfter(codec, Rewrite(codec, WithGaps(st, chunks[0].gaps), chunks[0].text).st, chunks[1..])
  }

  /** The same without the early return. */
  function FullSession(codec: SpsCodec, st: State, chunks: seq<Chunk>): Text
    decreases |chunks|
  {
    if chunks == [] then []
    else
      var o := FullScan(codec, WithGaps(st, chunks[0].gaps), chunks[0].text, 0);
      o.text + FullSession(codec, o.st, chunks[1..])
  }

  function FullStateAfter(codec: SpsCodec, st: State, chunks: seq<Chunk>): State
    decreases |chunks|
  {
    if chunks == [] then st
    else FullStateAfter(codec, FullScan(codec, WithGaps(st, chunks[0].gaps), chunks[0].text, 0).st, chunks[1..])
  }

  function Texts(chunks: seq<Chunk>): (ts: seq<Text>)
    ensures |ts| == |chunks| && forall i :: 0 <= i < |ts| ==> ts[i] == chunks[i].text
  {
    seq(|chunks|, i requires 0 <= i < |chunks| => chunks[i].text)
  }

  function TextOf(chunks: seq<Chunk>): Text { Concat(Texts(chunks)) }

  lemma TextOfStep(chunks: seq<Chunk>)
    requires chunks != []
    ensures TextOf(chunks) == chunks[0].text + TextOf(chunks[1..])
  {
    assert Texts(chunks)[1..] == Texts(chunks[1..]);
  }

  /** The h264 streams that really are open after a session. */
  function OpenAfter(streams: set<nat>, chunks: seq<Chunk>): set<nat>
    decreases |chunks|
  {
    if chunks == [] then streams else OpenAfter(H264AtEnd(streams, chunks[0].text, 0), chunks[1..])
  }

  predicate NoGaps(chunks: seq<Chunk>) { forall i :: 0 <= i < |chunks| ==> !chunks[i].gaps }

  ghost predicate FixedGaps(chunks: seq<Chunk>, gaps: bool) { forall i :: 0 <= i < |chunks| ==> chunks[i].gaps == gaps }

  /** Whenever a chunk is scanned and not skipped, the streams tracked are the
      ones open. */
  predicate InStep(codec: SpsCodec, st: State, open: set<nat>, chunks: seq<Chunk>)
    decreases |chunks|
  {
    chunks != [] ==>
      var st', text := WithGaps(st, chunks[0].gaps), chunks[0].text;
      && (Quiet(st') || st.h264Streams == open)
      && InStep(codec, Rewrite(codec, st', text).st, H264AtEnd(open, text, 0), chunks[1..])
  }

  lemma {:induction false} SessionConcat(codec: SpsCodec, st: State, a: seq<Chunk>, b: seq<Chunk>)
    ensures Session(codec, st, a + b) == Session(codec, st, a) + Session(codec, StateAfter(codec, st, a), b)
    decreases |a|
  {
    hide Rewrite;
    if a == [] {
      assert a + b == b;
    } else {
      var o := Rewrite(codec, WithGaps(st, a[0].gaps), a[0].text);
      assert (a + b)[0] == a[0] && (a + b)[1..] == a[1..] + b;
      SessionConcat(codec, o.st, a[1..], b);
      Regroup(o.text, Session(codec, o.st, a[1..]), Session(codec, StateAfter(codec, st, a), b));
    }
  }

  lemma {:induction false} FullSessionConcat(codec: SpsCodec, st: State, a: seq<Chunk>, b: seq<Chunk>)
    ensures FullSession(codec, st, a + b)
            == FullSession(codec, st, a) + FullSession(codec, FullStateAfter(codec, st, a), b)
    decreases |a|
  {
    hide FullScan;
    if a == [] {
      assert a + b == b;
    } else {
      var o := FullScan(codec, WithGaps(st, a[0].gaps), a[0].text, 0);
      assert (a + b)[0] == a[0] && (a + b)[1..] == a[1..] + b;
      FullSessionConcat(codec, o.st, a[1..], b);
      Regroup(o.text, FullSession(codec, o.st, a[1..]), FullSession(codec, FullStateAfter(codec, st, a), b));
    }
  }

  lemma {:induction false} FullStreams(codec: SpsCodec, st: State, chunks: seq<Chunk>)
    ensures FullStateAfter(codec, st, chunks).h264Streams == OpenAfter(st.h264Streams, chunks)
    decreases |chunks|
  {
    hide FullScan, H264AtEnd;
    if chunks != [] {
      var st' := WithGaps(st, chunks[0].gaps);
      ScanStreams(codec, st', chunks[0].text, 0);
      FullStreams(codec, FullScan(codec, st', chunks[0].text, 0).st, chunks[1..]);
    }
  }

  /** The rewriter's state against that of a full scan of the same session: the
      tracked streams can differ only once there is nothing left to decide. */
  ghost predicate Paired(a: State, b: State) {
    && a.colour == b.colour && a.boundReordering == b.boundReordering
    && (a.h264Streams != b.h264Streams ==> a.colour == PassThrough && !a.boundReordering)
  }

  lemma ChunkKeepsPaired(codec: SpsCodec, a: State, b: State, c: Chunk)
    requires Paired(a, b)
    ensures Paired(Rewrite(codec, WithGaps(a, c.gaps), c.text).st, FullScan(codec, WithGaps(b, c.gaps), c.text, 0).st)
  {
    hide FullScan;
    var a', b' := WithGaps(a, c.gaps), WithGaps(b, c.gaps);
    if Quiet(a') {
      QuietScan(codec, b', c.text, 0);
    } else if a.h264Streams == b.h264Streams {
      ScanSameWork(codec, a', b', c.text, 0);
    } else {
      ScanKeepsDecision(codec, a', c.text, 0);
      ScanKeepsDecision(codec, b', c.text, 0);
    }
  }

  lemma {:induction false} SessionKeepsPaired(codec: SpsCodec, a: State, b: State, chunks: seq<Chunk>)
    requires Paired(a, b)
    ensures Paired(StateAfter(codec, a, chunks), FullStateAfter(codec, b, chunks))
    decreases |chunks|
  {
    hide Rewrite, FullScan, Paired;
    if chunks != [] {
      var c := chunks[0];
      ChunkKeepsPaired(codec, a, b, c);
      SessionKeepsPaired(codec, Rewrite(codec, WithGaps(a, c.gaps), c.text).st,
                         FullScan(codec, WithGaps(b, c.gaps), c.text, 0).st, chunks[1..]);
    }
  }

  lemma SameChunkText(codec: SpsCodec, a: State, b: State, c: Chunk)
    requires Paired(a, b) && (Quiet(WithGaps(a, c.gaps)) || a.h264Streams == b.h264Streams)
    ensures Rewrite(codec, WithGaps(a, c.gaps), c.text).text == FullScan(codec, WithGaps(b, c.gaps), c.text, 0).text
  {
    hide FullScan;
    var a', b' := WithGaps(a, c.gaps), WithGaps(b, c.gaps);
    if Quiet(a') {
      QuietScan(codec, b', c.text, 0);
      assert c.text[0..] == c.text;
    } else {
      ScanSameWork(codec, a', b', c.text, 0);
    }
  }

  lemma {:induction false} PairedSessions(codec: SpsCodec, a: State, b: State, chunks: seq<Chunk>)
    requires Paired(a, b) && InStep(codec, a, b.h264Streams, chunks)
    ensures Session(codec, a, chunks) == FullSession(codec, b, chunks)
    decreases |chunks|
  {
    hide FullScan, H264AtEnd, Paired;
    if chunks != [] {
      var c := chunks[0];
      var a', b' := WithGaps(a, c.gaps), WithGaps(b, c.gaps);
      ChunkKeepsPaired(codec, a, b, c);
      ScanStreams(codec, b', c.text, 0);
      assert Rewrite(codec, a', c.text).text == FullScan(codec, b', c.text, 0).text by {
        SameChunkText(codec, a, b, c);
      }
      PairedSessions(codec, Rewrite(codec, a', c.text).st, FullScan(codec, b', c.text, 0).st, chunks[1..]);
    }
  }

  /** The early return, which also stops tracking streams, never shows in the
      output as long as every chunk that is scanned finds the tracked streams
      to be the open ones. */
  lemma FastPathRefinesFullScan(codec: SpsCodec, st: State, chunks: seq<Chunk>)
    requires InStep(codec, st, st.h264Streams, chunks)
    ensures Session(codec, st, chunks) == FullSession(codec, st, chunks)
  {
    hide InStep, Session, FullSession;
    PairedSessions(codec, st, st, chunks);
  }

  /** What the first readable SPS decided holds for the rest of the session. */
  lemma {:induction false} DecisionIsFinal(codec: SpsCodec, st: State, chunks: seq<Chunk>)
    requires st.colour != Undecided
    ensures Agrees(StateAfter(codec, st, chunks), st.colour, st.boundReordering)
    decreases |chunks|
  {
    hide FullScan;
    if chunks != [] {
      var st' := WithGaps(st, chunks[0].gaps);
      ScanKeepsDecision(codec, st', chunks[0].text, 0);
      DecisionIsFinal(codec, Rewrite(codec, st', chunks[0].text).st, chunks[1..]);
    }
  }

  // ---- exactly when the early return shows ----

  /** The streams tracked are `u32` indices. */
  ghost predicate IndicesFit(streams: set<nat>) { forall i :: i in streams ==> i <= U32_MAX }

  lemma {:induction false} IndicesStayFit(streams: set<nat>, s: Text, at: nat)
    requires at <= |s| && IndicesFit(streams)
    ensures IndicesFit(H264AtEnd(streams, s, at))
    decreases |s| - at
  {
    hide HeadAt, ParseUnsigned;
    match HeadAt(s, at)
    case None =>
    case Some(r) => IndicesStayFit(H264After(streams, r.head), s, r.end);
  }

  lemma {:induction false} SessionIndicesFit(codec: SpsCodec, st: State, chunks: seq<Chunk>)
    requires IndicesFit(st.h264Streams)
    ensures IndicesFit(StateAfter(codec, st, chunks).h264Streams) && IndicesFit(OpenAfter(st.h264Streams, chunks))
    decreases |chunks|
  {
    if chunks != [] {
      hide FullScan, H264AtEnd, IndicesFit;
      var st', text := WithGaps(st, chunks[0].gaps), chunks[0].text;
      IndicesStayFit(st.h264Streams, text, 0);
      ScanStreams(codec, st', text, 0);
      SessionIndicesFit(codec, Rewrite(codec, st', text).st, chunks[1..]);
      SessionIndicesFit(codec, FullScan(codec, st', text, 0).st, chunks[1..]);
    }
  }

  /** An access unit whose SPS the gaps edit changes. */
  ghost predicate Changes(codec: SpsCodec, bytes: seq<Byte>) {
    && |Base64.Encode(bytes)| <= USIZE_MAX && FindSpsRange(bytes, 0).Some?
    && var sps := FindSpsRange(bytes, 0).value;
    && var edited := codec.allowFrameNumGaps(bytes[sps.start..sps.end]);
    && edited.Some? && edited.value != bytes[sps.start..sps.end]
  }

  /** The blob that carries the access unit on a stream. */
  function BlobOn(index: nat, bytes: seq<Byte>): Text { BlobInstruction(Decimal(index), Base64.Encode(bytes)) }

  lemma {:induction false} DecimalFits(n: nat)
    ensures |Decimal(n)| <= n + 1
  {
    if n >= 10 {
      DecimalFits(n / 10);
    }
  }

  lemma OneInstructionScan(codec: SpsCodec, st: State, text: Text, h: Head)
    requires HeadAt(text, 0) == Some(Reading(h, |text|))
    ensures var step := Step(codec, st, h);
            FullScan(codec, st, text, 0) == Output(Printed(text, h, step), step.payload.Some?, step.st)
  {
    hide ParseInstruction, Step, Printed;
    var step := Step(codec, st, h);
    assert HeadAt(text, |text|) == None;
    assert FullScan(codec, step.st, text, |text|) == Output(text[|text|..], false, step.st);
    assert text[|text|..] == [] && text[0..|text|] == text;
    assert Printed(text, h, step) + [] == Printed(text, h, step);
  }

  lemma EditedDiffers(codec: SpsCodec, st: State, bytes: seq<Byte>)
    requires st.colour == PassThrough && !st.boundReordering && st.allowGaps && Changes(codec, bytes)
    ensures var r := RewritePayload(codec, st, Base64.Encode(bytes)).payload;
            r.Some? && r.value != Base64.Encode(bytes)
  {
    hide FindSpsRange, Base64.Decode, Base64.Encode;
    var sps := FindSpsRange(bytes, 0).value;
    var edited := codec.allowFrameNumGaps(bytes[sps.start..sps.end]).value;
    var rebuilt := bytes[..sps.start] + edited + bytes[sps.end..];
    Base64.DecodeInvertsEncode(bytes);
    Base64.DecodeInvertsEncode(rebuilt);
    assert rebuilt[sps.start..sps.start + |edited|] == edited;
    assert |rebuilt| == |bytes| ==> |edited| == sps.end - sps.start;
  }

  lemma AsciiElementInjective(p: Text, q: Text)
    requires AsciiElement(p, SEMICOLON) == AsciiElement(q, SEMICOLON)
    ensures p == q
  {
    hide Decimal;
    if |p| < |q| {
      DecimalLengthMonotone(|p|, |q|);
    } else {
      DecimalLengthMonotone(|q|, |p|);
    }
    var d := |Decimal(|p|)| + 1;
    assert AsciiElement(p, SEMICOLON)[d..d + |p|] == p;
    assert AsciiElement(q, SEMICOLON)[d..d + |q|] == q;
  }

  lemma BlobInstructionsDiffer(index: Text, p: Text, q: Text)
    requires p != q
    ensures BlobInstruction(index, p) != BlobInstruction(index, q)
  {
    hide Decimal;
    var head := AsciiElement(BLOB, COMMA) + AsciiElement(index, COMMA);
    assert BlobInstruction(index, p)[|head|..] == AsciiElement(p, SEMICOLON);
    assert BlobInstruction(index, q)[|head|..] == AsciiElement(q, SEMICOLON);
    if AsciiElement(p, SEMICOLON) == AsciiElement(q, SEMICOLON) {
      AsciiElementInjective(p, q);
    }
  }

  lemma BlobOnReads(index: nat, bytes: seq<Byte>)
    requires index <= U32_MAX && |Base64.Encode(bytes)| <= USIZE_MAX
    ensures var h := Head(BLOB, [Decimal(index), Base64.Encode(bytes)]);
            && HeadAt(BlobOn(index, bytes), 0) == Some(Reading(h, |BlobOn(index, bytes)|))
            && BlobSplitter.StreamIndex(h) == Some(index)
  {
    hide ParseInstruction, ParseUnsigned, BlobInstruction, Decimal, Base64.Encode;
    var idx, payload := Decimal(index), Base64.Encode(bytes);
    ParseUnsignedInvertsDecimal(index, U32_MAX);
    DecimalFits(index);
    BlobInstructionReads(idx, payload, []);
    assert BlobOn(index, bytes) + [] == BlobOn(index, bytes);
    assert [BLOB, idx, payload][1..] == [idx, payload];
  }

  /** The blob is edited if and only if its stream is tracked. */
  lemma OneBlobTells(codec: SpsCodec, st: State, index: nat, bytes: seq<Byte>)
    requires st.colour == PassThrough && !st.boundReordering && st.allowGaps
    requires index <= U32_MAX && Changes(codec, bytes)
    ensures FullScan(codec, st, BlobOn(index, bytes), 0).text == BlobOn(index, bytes) <==> index !in st.h264Streams
  {
    hide HeadAt, FullScan, BlobInstruction, Decimal, RewritePayload, BlobSplitter.StreamIndex, FindSpsRange;
    var idx, payload := Decimal(index), Base64.Encode(bytes);
    BlobOnReads(index, bytes);
    var h := Head(BLOB, [idx, payload]);
    OneInstructionScan(codec, st, BlobOn(index, bytes), h);
    if index in st.h264Streams {
      EditedDiffers(codec, st, bytes);
      BlobInstructionsDiffer(idx, payload, Step(codec, st, h).payload.value);
    }
  }

  lemma SessionOfOne(codec: SpsCodec, st: State, c: Chunk)
    ensures Session(codec, st, [c]) == Rewrite(codec, WithGaps(st, c.gaps), c.text).text
    ensures FullSession(codec, st, [c]) == FullScan(codec, WithGaps(st, c.gaps), c.text, 0).text
  {
    hide Rewrite, FullScan;
    var o, p := Rewrite(codec, WithGaps(st, c.gaps), c.text), FullScan(codec, WithGaps(st, c.gaps), c.text, 0);
    assert Session(codec, st, [c]) == o.text + Session(codec, o.st, []) == o.text;
    assert FullSession(codec, st, [c]) == p.text + FullSession(codec, p.st, []) == p.text;
  }

  /** From here on, with gaps asked for, the output is that of the full scan. */
  ghost predicate SameFuture(codec: SpsCodec, a: State, b: State) {
    forall rest :: FixedGaps(rest, true) ==> Session(codec, a, rest) == FullSession(codec, b, rest)
  }

  lemma {:induction false} SkippedChunks(codec: SpsCodec, st: State, open: set<nat>, skipped: seq<Chunk>)
    requires Quiet(st) && NoGaps(skipped)
    ensures StateAfter(codec, st, skipped) == st && InStep(codec, st, open, skipped)
    decreases |skipped|
  {
    hide H264AtEnd, FullScan;
    if skipped != [] {
      assert WithGaps(st, false) == st;
      SkippedChunks(codec, st, H264AtEnd(open, skipped[0].text, 0), skipped[1..]);
    }
  }

  lemma {:induction false} FixedIsInStep(codec: SpsCodec, st: State, chunks: seq<Chunk>, gaps: bool)
    requires FixedGaps(chunks, gaps)
    ensures InStep(codec, st, st.h264Streams, chunks)
    decreases |chunks|
  {
    hide FullScan, H264AtEnd;
    var st' := WithGaps(st, gaps);
    if chunks != [] {
      if Quiet(st') {
        SkippedChunks(codec, st', H264AtEnd(st.h264Streams, chunks[0].text, 0), chunks[1..]);
      } else {
        ScanStreams(codec, st', chunks[0].text, 0);
        FixedIsInStep(codec, FullScan(codec, st', chunks[0].text, 0).st, chunks[1..], gaps);
      }
    }
  }

  lemma SameFutureIff(codec: SpsCodec, a: State, b: State, bytes: seq<Byte>)
    requires Paired(a, b) && IndicesFit(a.h264Streams) && IndicesFit(b.h264Streams) && Changes(codec, bytes)
    ensures SameFuture(codec, a, b) <==> a.h264Streams == b.h264Streams
  {
    hide InStep, Session, FullSession, FullScan, Changes, BlobOn;
    if a.h264Streams == b.h264Streams {
      forall rest | FixedGaps(rest, true)
        ensures Session(codec, a, rest) == FullSession(codec, b, rest)
      {
        FixedIsInStep(codec, a, rest, true);
        PairedSessions(codec, a, b, rest);
      }
    } else {
      var index :| index in (a.h264Streams - b.h264Streams) + (b.h264Streams - a.h264Streams);
      var c := Chunk(BlobOn(index, bytes), true);
      SessionOfOne(codec, a, c);
      SessionOfOne(codec, b, c);
      OneBlobTells(codec, WithGaps(a, true), index, bytes);
      OneBlobTells(codec, WithGaps(b, true), index, bytes);
      assert FixedGaps([c], true) && Session(codec, a, [c]) != FullSession(codec, b, [c]);
    }
  }

  lemma SamePrefix(p: Text, a: Text, b: Text)
    ensures p + a == p + b <==> a == b
  {
    assert (p + a)[|p|..] == a && (p + b)[|p|..] == b;
  }

  /** After any session in step, however gaps went on and off in it, asking for
      gaps gives what the full scan would give, whatever comes, if and only if
      no skipped chunk has left the tracked streams other than the open ones. */
  lemma EarlyReturnShowsIff(codec: SpsCodec, st: State, past: seq<Chunk>, bytes: seq<Byte>)
    requires InStep(codec, st, st.h264Streams, past) && IndicesFit(st.h264Streams) && Changes(codec, bytes)
    ensures (forall rest :: FixedGaps(rest, true) ==>
              Session(codec, st, past + rest) == FullSession(codec, st, past + rest))
            <==> StateAfter(codec, st, past).h264Streams == OpenAfter(st.h264Streams, past)
  {
    hide InStep, Session, FullSession, StateAfter, FullStateAfter, OpenAfter, Changes, FixedGaps, IndicesFit;
    var fast, full := StateAfter(codec, st, past), FullStateAfter(codec, st, past);
    FastPathRefinesFullScan(codec, st, past);
    SessionKeepsPaired(codec, st, st, past);
    FullStreams(codec, st, past);
    SessionIndicesFit(codec, st, past);
    SameFutureIff(codec, fast, full, bytes);
    forall rest
      ensures Session(codec, st, past + rest) == FullSession(codec, st, past + rest)
              <==> Session(codec, fast, rest) == FullSession(codec, full, rest)
    {
      SessionConcat(codec, st, past, rest);
      FullSessionConcat(codec, st, past, rest);
      SamePrefix(FullSession(codec, st, past), Session(codec, fast, rest), FullSession(codec, full, rest));
    }
  }

  /** Chunks skipped by the early return are never missed if and only if the
      streams they open and end cancel out. */
  lemma SkippedChunksShowIff(codec: SpsCodec, st: State, skipped: seq<Chunk>, bytes: seq<Byte>)
    requires Quiet(st) && NoGaps(skipped) && IndicesFit(st.h264Streams) && Changes(codec, bytes)
    ensures (forall rest :: FixedGaps(rest, true) ==>
              Session(codec, st, skipped + rest) == FullSession(codec, st, skipped + rest))
            <==> OpenAfter(st.h264Streams, skipped) == st.h264Streams
  {
    hide Session, FullSession, OpenAfter, Changes, FixedGaps, IndicesFit;
    SkippedChunks(codec, st, st.h264Streams, skipped);
    EarlyReturnShowsIff(codec, st, skipped, bytes);
  }

  lemma StreamInstructionReads(opcode: Text, index: nat)
    requires IsAscii(opcode) && |opcode| <= USIZE_MAX && index <= U32_MAX
    ensures var text := PairInstruction(opcode, Decimal(index));
            HeadAt(text, 0) == Some(Reading(Head(opcode, [Decimal(index)]), |text|))
  {
    hide ParseInstruction, PairInstruction, Decimal;
    DecimalFits(index);
    PairInstructionReads(opcode, Decimal(index));
    assert [opcode, Decimal(index)][1..] == [Decimal(index)];
  }

  /** The two ways to be caught out: a stream opened while skipping, whose SPS
      then goes out unedited, and one ended while skipping, whose index is still
      taken for video. */
  lemma SkippedOpeningOrEndShows(codec: SpsCodec, st: State, opens: bool, index: nat, bytes: seq<Byte>)
    requires Quiet(st) && IndicesFit(st.h264Streams) && Changes(codec, bytes)
    requires index <= U32_MAX && (opens <==> index !in st.h264Streams)
    ensures var opcode := if opens then BlobSplitter.H264 else BlobSplitter.END;
            var skipped := Chunk(PairInstruction(opcode, Decimal(index)), false);
            exists rest :: FixedGaps(rest, true) &&
              Session(codec, st, [skipped] + rest) != FullSession(codec, st, [skipped] + rest)
  {
    hide Session, FullSession, Changes, FixedGaps, HeadAt, IndicesFit, Decimal, ParseUnsigned, PairInstruction;
    var opcode := if opens then BlobSplitter.H264 else BlobSplitter.END;
    var text := PairInstruction(opcode, Decimal(index));
    StreamInstructionReads(opcode, index);
    ParseUnsignedInvertsDecimal(index, U32_MAX);
    assert HeadAt(text, |text|) == None by { NothingAtTheEnd(text); }
    assert [Chunk(text, false)][1..] == [];
    assert OpenAfter(st.h264Streams, [Chunk(text, false)]) == OpenAfter(H264AtEnd(st.h264Streams, text, 0), [])
                                                          == H264AtEnd(st.h264Streams, text, 0);
    var after := H264After(st.h264Streams, Head(opcode, [Decimal(index)]));
    assert H264AtEnd(st.h264Streams, text, 0) == H264AtEnd(after, text, |text|) == after;
    assert index in after <==> opens;
    SkippedChunksShowIff(codec, st, [Chunk(text, false)], bytes);
  }

  // ---- for a fixed setting, chunking does not matter ----

  lemma {:induction false} FullSessionIsOneScan(codec: SpsCodec, st: State, chunks: seq<Chunk>, gaps: bool)
    requires chunks != [] && FixedGaps(chunks, gaps) && CutAtBoundaries(Texts(chunks))
    ensures FullSession(codec, st, chunks) == FullScan(codec, WithGaps(st, gaps), TextOf(chunks), 0).text
    decreases |chunks|
  {
    hide FullScan, Scan;
    TextOfStep(chunks);
    var st', text := WithGaps(st, gaps), chunks[0].text;
    var first := FullScan(codec, st', text, 0);
    if |chunks| == 1 {
      assert chunks[1..] == [];
      assert text + [] == text && first.text + [] == first.text;
      assert TextOf([]) == [];
      assert FullSession(codec, st, chunks) == first.text + FullSession(codec, first.st, []) == first.text;
    } else {
      ScanKeepsGaps(codec, st', text, 0);
      FullSessionIsOneScan(codec, first.st, chunks[1..], gaps);
      FullScanConcat(codec, st', text, TextOf(chunks[1..]), 0);
    }
  }

  /** For a fixed gaps setting, however a stream is divided at instruction
      boundaries, the browser receives what one call, or one full scan, on the
      whole stream would have produced. */
  lemma ChunkedRewriteIsOneScan(codec: SpsCodec, st: State, chunks: seq<Chunk>, gaps: bool)
    requires chunks != [] && FixedGaps(chunks, gaps) && CutAtBoundaries(Texts(chunks))
    ensures Session(codec, st, chunks) == FullScan(codec, WithGaps(st, gaps), TextOf(chunks), 0).text
    ensures Session(codec, st, chunks) == Rewrite(codec, WithGaps(st, gaps), TextOf(chunks)).text
  {
    hide FullScan, Session, FullSession, TextOf;
    var text := TextOf(chunks);
    if Quiet(WithGaps(st, gaps)) {
      QuietScan(codec, WithGaps(st, gaps), text, 0);
      assert text[0..] == text;
    }
    FixedIsInStep(codec, st, chunks, gaps);
    FastPathRefinesFullScan(codec, st, chunks);
    FullSessionIsOneScan(codec, st, chunks, gaps);
  }

  // ---- what an edit does to an instruction ----

  function Replaced(elems: seq<Text>, step: Rewritten): seq<Text>
    requires elems != [] && (step.payload.Some? ==> |elems| >= 2)
  {
    if step.payload == None then elems else [BLOB, elems[1], step.payload.value]
  }

  /** The rewriter on parsed instructions. */
  function RewriteInstrs(codec: SpsCodec, st: State, instrs: seq<seq<Text>>): (out: seq<seq<Text>>)
    requires forall i :: 0 <= i < |instrs| ==> instrs[i] != []
    ensures |out| == |instrs|
    decreases |instrs|
  {
    if instrs == [] then []
    else
      var step := Step(codec, st, HeadOf(instrs[0]));
      [Replaced(instrs[0], step)] + RewriteInstrs(codec, step.st, instrs[1..])
  }

  /** `after` is the blob `before` with only its SPS bytes replaced. */
  ghost predicate OnlySpsReplaced(before: seq<Text>, after: seq<Text>) {
    && |before| >= 3 && |after| == 3 && before[0] == after[0] == BLOB && before[1] == after[1]
    && Base64.Decode(before[2]).Some? && Base64.Decode(after[2]).Some?
    && var x, y := Base64.Decode(before[2]).value, Base64.Decode(after[2]).value;
    && FindSpsRange(x, 0).Some?
    && var sps := FindSpsRange(x, 0).value;
    && |y| >= |x| - (sps.end - sps.start)
    && y[..sps.start] == x[..sps.start]
    && y[|y| - (|x| - sps.end)..] == x[sps.end..]
  }

  /** Every instruction is kept as it was, or is a blob on a stream open at that
      point with only its SPS bytes replaced. */
  ghost predicate Preserves(streams: set<nat>, before: seq<seq<Text>>, after: seq<seq<Text>>)
    decreases |before|
  {
    && |before| == |after|
    && (before != [] ==>
      && before[0] != []
      && (before[0] != after[0] ==>
        && OnlySpsReplaced(before[0], after[0])
        && BlobSplitter.StreamIndex(HeadOf(before[0])).Some?
        && BlobSplitter.StreamIndex(HeadOf(before[0])).value in streams)
      && Preserves(H264After(streams, HeadOf(before[0])), before[1..], after[1..]))
  }

  /** The stream's last `h264` or `end` among these instructions was an `h264`;
      with neither, it is as it was. */
  predicate H264Open(streams: set<nat>, instrs: seq<seq<Text>>, index: nat) {
    if instrs == [] then index in streams
    else
      var last := instrs[|instrs| - 1];
      if BlobSplitter.Concerns(last, index) && last[0] == BlobSplitter.H264 then true
      else if BlobSplitter.Concerns(last, index) && last[0] == BlobSplitter.END then false
      else H264Open(streams, instrs[..|instrs| - 1], index)
  }

  function H264AfterAll(streams: set<nat>, instrs: seq<seq<Text>>): set<nat>
    requires forall i :: 0 <= i < |instrs| ==> instrs[i] != []
    decreases |instrs|
  {
    if instrs == [] then streams
    else H264After(H264AfterAll(streams, instrs[..|instrs| - 1]), HeadOf(instrs[|instrs| - 1]))
  }

  lemma SameOpcode(elems: seq<Text>)
    requires elems != []
    ensures HeadOf(elems).opcode == elems[0]
  {
  }

  /** The streams tracked after any instructions are exactly the ones they leave
      open; `audio`, and whatever else there is, opens none. */
  lemma {:induction false} TrackedIsOpen(streams: set<nat>, instrs: seq<seq<Text>>, index: nat)
    requires forall i :: 0 <= i < |instrs| ==> instrs[i] != []
    ensures index in H264AfterAll(streams, instrs) <==> H264Open(streams, instrs, index)
    decreases |instrs|
  {
    hide HeadOf, BlobSplitter.StreamIndex, BlobSplitter.Concerns;
    if instrs != [] {
      var last := instrs[|instrs| - 1];
      TrackedIsOpen(streams, instrs[..|instrs| - 1], index);
      BlobSplitter.HeadConcerns(last, index);
      SameOpcode(last);
    }
  }

  lemma PayloadEdit(codec: SpsCodec, st: State, payload: Text)
    requires RewritePayload(codec, st, payload).payload.Some?
    ensures var p := RewritePayload(codec, st, payload).payload.value;
            IsAscii(p) && OnlySpsReplaced([BLOB, [], payload], [BLOB, [], p])
  {
    hide FindSpsRange, Base64.Decode, Base64.Encode, Decide, EditSps;
    var bytes := Base64.Decode(payload).value;
    var sps := FindSpsRange(bytes, 0).value;
    var decided := Decide(codec, st, bytes[sps.start..sps.end]).value;
    var spliced := EditSps(codec, decided, bytes[sps.start..sps.end]).edited.value;
    var rebuilt := bytes[..sps.start] + spliced + bytes[sps.end..];
    Base64.DecodeInvertsEncode(rebuilt);
    assert rebuilt[..sps.start] == bytes[..sps.start];
    assert rebuilt[|rebuilt| - (|bytes| - sps.end)..] == bytes[sps.end..];
  }

  lemma StepEdits(codec: SpsCodec, st: State, elems: seq<Text>)
    requires elems != [] && Step(codec, st, HeadOf(elems)).payload.Some?
    ensures var out := Replaced(elems, Step(codec, st, HeadOf(elems)));
            && OnlySpsReplaced(elems, out) && IsAscii(out[1]) && IsAscii(out[2])
            && BlobSplitter.StreamIndex(HeadOf(elems)).Some?
            && BlobSplitter.StreamIndex(HeadOf(elems)).value in st.h264Streams
  {
    hide RewritePayload, FindSpsRange, Base64.Decode;
    PayloadEdit(codec, st, elems[2]);
  }

  lemma UnreplacedIsSame(elems: seq<Text>, step: Rewritten)
    requires elems != [] && step.payload == None
    ensures Replaced(elems, step) == elems
  {
  }

  lemma {:induction false} RewritePreserves(codec: SpsCodec, st: State, instrs: seq<seq<Text>>)
    requires forall i :: 0 <= i < |instrs| ==> instrs[i] != []
    ensures Preserves(st.h264Streams, instrs, RewriteInstrs(codec, st, instrs))
    decreases |instrs|
  {
    hide Step, OnlySpsReplaced, H264After, Replaced;
    if instrs != [] {
      var h := HeadOf(instrs[0]);
      var step := Step(codec, st, h);
      StepStreams(codec, st, h);
      if step.payload.Some? {
        StepEdits(codec, st, instrs[0]);
      } else {
        assert Replaced(instrs[0], step) == instrs[0] by { UnreplacedIsSame(instrs[0], step); }
      }
      RewritePreserves(codec, step.st, instrs[1..]);
      assert RewriteInstrs(codec, st, instrs)[1..] == RewriteInstrs(codec, step.st, instrs[1..]);
    }
  }

  // ---- the output re-parses ----

  lemma PrintedReads(codec: SpsCodec, st: State, s: Text, at: nat, rest: Text)
    requires ParseInstruction(s, at).Some?
    requires var i := ParseInstruction(s, at).value;
             var step := Step(codec, st, HeadOf(i.elems));
             |Printed(s[at..i.end], HeadOf(i.elems), step)| <= USIZE_MAX || step.payload == None
    ensures var i := ParseInstruction(s, at).value;
            var step := Step(codec, st, HeadOf(i.elems));
            var printed := Printed(s[at..i.end], HeadOf(i.elems), step);
            ParseInstruction(printed + rest, 0) == Some(Instr(Replaced(i.elems, step), |printed|))
  {
    hide ParseInstruction, Step, OnlySpsReplaced;
    var i := ParseInstruction(s, at).value;
    var step := Step(codec, st, HeadOf(i.elems));
    var printed := Printed(s[at..i.end], HeadOf(i.elems), step);
    if step.payload == None {
      InstructionCopied(s, at, printed + rest, 0, i.end - at);
    } else {
      StepEdits(codec, st, i.elems);
      assert |i.elems[1]| <= |printed| && |step.payload.value| <= |printed|;
      BlobInstructionReads(i.elems[1], step.payload.value, rest);
    }
  }

  /** The output re-parses to the rewritten instructions, in order, and ends in
      the same malformed tail, byte for byte. */
  lemma {:induction false} OutputReparses(codec: SpsCodec, st: State, s: Text, at: nat)
    requires at <= |s| && |FullScan(codec, st, s, at).text| <= USIZE_MAX
    ensures var before, after := Scan(s, at), Scan(FullScan(codec, st, s, at).text, 0);
            && (forall i :: 0 <= i < |before.instrs| ==> before.instrs[i] != [])
            && after == Scanned(RewriteInstrs(codec, st, before.instrs), before.tail)
    decreases |s| - at
  {
    hide ParseInstruction, Step, Printed, Replaced;
    match HeadAt(s, at)
    case None =>
      var out := s[at..];
      if ParseInstruction(out, 0).Some? {
        InstructionCopied(out, 0, s, at, |out|);
      }
      assert out[0..] == out;
    case Some(r) =>
      var elems := ParseInstruction(s, at).value.elems;
      var step := Step(codec, st, r.head);
      var first, more := Printed(s[at..r.end], r.head, step), FullScan(codec, step.st, s, r.end).text;
      PrintedReads(codec, st, s, at, more);
      OutputReparses(codec, step.st, s, r.end);
      ScanShifted(first, more, 0);
      assert Scan(s, at).instrs[1..] == Scan(s, r.end).instrs;
  }

  // ---- the splitter downstream ----

  /** Same instructions lifted, on the same streams. */
  ghost predicate SameLifts(a: seq<Option<BlobSplitter.Blob>>, b: seq<Option<BlobSplitter.Blob>>) {
    |a| == |b| && forall i :: 0 <= i < |a| ==>
      (a[i].Some? <==> b[i].Some?) && (a[i].Some? ==> a[i].value.index == b[i].value.index)
  }

  lemma EditKeepsLift(streams: set<nat>, before: seq<Text>, after: seq<Text>)
    requires OnlySpsReplaced(before, after)
    ensures before != [] && after != []
    ensures BlobSplitter.StreamsAfter(streams, HeadOf(after)) == BlobSplitter.StreamsAfter(streams, HeadOf(before))
    ensures var a, b := BlobSplitter.Lifted(streams, HeadOf(before)), BlobSplitter.Lifted(streams, HeadOf(after));
            (a.Some? <==> b.Some?) && (a.Some? ==> a.value.index == b.value.index)
  {
    hide Base64.Decode, FindSpsRange, ParseUnsigned;
    assert HeadOf(before).args[0] == HeadOf(after).args[0];
  }

  lemma {:induction false} EditsDoNotChangeLifts(streams: set<nat>, h264: set<nat>,
                                                  before: seq<seq<Text>>, after: seq<seq<Text>>)
    requires Preserves(h264, before, after)
    ensures forall i :: 0 <= i < |before| ==> before[i] != [] && after[i] != []
    ensures SameLifts(BlobSplitter.LiftedList(streams, before), BlobSplitter.LiftedList(streams, after))
    decreases |before|
  {
    hide OnlySpsReplaced, H264After, BlobSplitter.Lifted, BlobSplitter.StreamsAfter, HeadOf, BlobSplitter.LiftedList;
    if before != [] {
      var h := HeadOf(before[0]);
      if before[0] != after[0] {
        EditKeepsLift(streams, before[0], after[0]);
      }
      EditsDoNotChangeLifts(BlobSplitter.StreamsAfter(streams, h), H264After(h264, h), before[1..], after[1..]);
      assert forall i :: 1 <= i < |before| ==> before[i] == before[1..][i - 1] && after[i] == after[1..][i - 1];
      BlobSplitter.LiftedListStep(streams, before);
      BlobSplitter.LiftedListStep(streams, after);
    }
  }

  lemma {:induction false} UnchangedPreserves(streams: set<nat>, instrs: seq<seq<Text>>)
    requires forall i :: 0 <= i < |instrs| ==> instrs[i] != []
    ensures Preserves(streams, instrs, instrs)
    decreases |instrs|
  {
    hide H264After, HeadOf;
    if instrs != [] {
      UnchangedPreserves(H264After(streams, HeadOf(instrs[0])), instrs[1..]);
    }
  }

  /** The rewriter preserves the structure of its input: the same instructions
      in the same order, each as it was or a blob on an open h264 stream with
      only its SPS bytes replaced; the same malformed tail; and the same
      instructions lifted by the splitter downstream. */
  lemma RewritePreservesStructure(codec: SpsCodec, st: State, text: Text, streams: set<nat>)
    requires |Rewrite(codec, st, text).text| <= USIZE_MAX
    ensures var out := Rewrite(codec, st, text).text;
            var before, after := Scan(text, 0), Scan(out, 0);
            && after.tail == before.tail
            && Preserves(if Quiet(st) then {} else st.h264Streams, before.instrs, after.instrs)
            && (forall i :: 0 <= i < |before.instrs| ==> before.instrs[i] != [] && after.instrs[i] != [])
            && SameLifts(BlobSplitter.LiftedList(streams, before.instrs),
                         BlobSplitter.LiftedList(streams, after.instrs))
  {
    hide FullScan, Scan, Preserves, SameLifts, BlobSplitter.LiftedList;
    var before := Scan(text, 0);
    if Quiet(st) {
      BlobSplitter.InstrsAreNonEmpty(text, 0);
      UnchangedPreserves({}, before.instrs);
      EditsDoNotChangeLifts(streams, {}, before.instrs, before.instrs);
    } else {
      OutputReparses(codec, st, text, 0);
      RewritePreserves(codec, st, before.instrs);
      EditsDoNotChangeLifts(streams, st.h264Streams, before.instrs, RewriteInstrs(codec, st, before.instrs));
    }
  }

  // ---- the rewriter and the splitter in a row ----

  /** What `rewrite` makes of each read. */
  function Outputs(codec: SpsCodec, st: State, chunks: seq<Chunk>): (out: seq<Text>)
    ensures |out| == |chunks|
    decreases |chunks|
  {
    if chunks == [] then []
    else
      var o := Rewrite(codec, WithGaps(st, chunks[0].gaps), chunks[0].text);
      [o.text] + Outputs(codec, o.st, chunks[1..])
  }

  lemma {:induction false} OutputsAreSession(codec: SpsCodec, st: State, chunks: seq<Chunk>)
    ensures Concat(Outputs(codec, st, chunks)) == Session(codec, st, chunks)
    decreases |chunks|
  {
    hide Rewrite;
    if chunks != [] {
      OutputsAreSession(codec, Rewrite(codec, WithGaps(st, chunks[0].gaps), chunks[0].text).st, chunks[1..]);
    }
  }

  /** Reads that end on instruction boundaries still do when rewritten. */
  lemma {:induction false} OutputsAreCut(codec: SpsCodec, st: State, chunks: seq<Chunk>)
    requires CutAtBoundaries(Texts(chunks)) && |Session(codec, st, chunks)| <= USIZE_MAX
    ensures CutAtBoundaries(Outputs(codec, st, chunks))
    decreases |chunks|
  {
    hide Rewrite, Scan, Preserves, SameLifts, BlobSplitter.LiftedList;
    if chunks != [] {
      var st', c := WithGaps(st, chunks[0].gaps), chunks[0];
      var o := Rewrite(codec, st', c.text);
      RewritePreservesStructure(codec, st', c.text, {});
      assert forall i :: 0 <= i < |chunks| - 1 ==> Texts(chunks)[i + 1] == Texts(chunks[1..])[i];
      assert |chunks| > 1 ==> Complete(Texts(chunks)[0]);
      OutputsAreCut(codec, o.st, chunks[1..]);
      var out, rest := Outputs(codec, st, chunks), Outputs(codec, o.st, chunks[1..]);
      assert forall i :: 1 <= i < |out| ==> out[i] == rest[i - 1];
    }
  }

  /** The proxy loop, gaps going on and off: each read rewritten and then split
      sends, up to merging adjacent text, the frames of one split of everything
      rewritten. */
  lemma SplitAfterRewrite(codec: SpsCodec, st: State, chunks: seq<Chunk>, streams: set<nat>)
    requires chunks != [] && CutAtBoundaries(Texts(chunks)) && |Session(codec, st, chunks)| <= USIZE_MAX
    ensures BlobSplitter.MergeFrames(BlobSplitter.SplitChunks(streams, Outputs(codec, st, chunks)))
            == BlobSplitter.Split(streams, Session(codec, st, chunks))
  {
    hide Outputs, Session, BlobSplitter.MergeFrames, BlobSplitter.SplitChunks, BlobSplitter.Split;
    OutputsAreSession(codec, st, chunks);
    OutputsAreCut(codec, st, chunks);
    BlobSplitter.ChunkedSplitIsOneSplit(streams, Outputs(codec, st, chunks));
  }

  /** For a fixed gaps setting the frames are those of rewriting and splitting
      the whole stream at once, and the instructions sent as binary frames are
      the very ones a splitter alone would have lifted, on the same streams. */
  lemma PipelineIsOnePass(codec: SpsCodec, st: State, chunks: seq<Chunk>, gaps: bool, streams: set<nat>)
    requires chunks != [] && FixedGaps(chunks, gaps) && CutAtBoundaries(Texts(chunks))
    requires |Rewrite(codec, WithGaps(st, gaps), TextOf(chunks)).text| <= USIZE_MAX
    ensures var out := Rewrite(codec, WithGaps(st, gaps), TextOf(chunks)).text;
            var before, after := Scan(TextOf(chunks), 0).instrs, Scan(out, 0).instrs;
            && BlobSplitter.MergeFrames(BlobSplitter.SplitChunks(streams, Outputs(codec, st, chunks)))
               == BlobSplitter.Split(streams, out)
            && (forall i :: 0 <= i < |before| ==> before[i] != []) && (forall i :: 0 <= i < |after| ==> after[i] != [])
            && SameLifts(BlobSplitter.LiftedList(streams, before), BlobSplitter.LiftedList(streams, after))
  {
    hide Outputs, Session, BlobSplitter.MergeFrames, BlobSplitter.SplitChunks, BlobSplitter.Split, Scan, Rewrite,
      TextOf, FixedGaps, CutAtBoundaries, SameLifts, BlobSplitter.LiftedList;
    ChunkedRewriteIsOneScan(codec, st, chunks, gaps);
    SplitAfterRewrite(codec, st, chunks, streams);
    RewritePreservesStructure(codec, WithGaps(st, gaps), TextOf(chunks), streams);
  }

  // ---- edits are reported once ----

  ghost predicate NoDuplicates(edits: seq<Edit>) {
    forall i, j :: 0 <= i < j < |edits| ==> edits[i] != edits[j]
  }

  /** What has been reported so far and what waits make up what was made. */
  ghost predicate Ledger(st: State, reported: seq<Edit>) {
    reported + st.pendingEdits == st.made && NoDuplicates(st.made)
  }

  lemma NoteKeepsLedger(st: State, edit: Edit, reported: seq<Edit>)
    requires Ledger(st, reported)
    ensures Ledger(Note(st, edit), reported)
  {
    assert reported + (st.pendingEdits + [edit]) == reported + st.pendingEdits + [edit];
  }

  lemma ApplyKeepsLedger(wanted: bool, f: seq<Byte> -> Option<seq<Byte>>, edit: Edit, sps: seq<Byte>, e: Editing,
                         reported: seq<Edit>)
    requires Ledger(e.st, reported)
    ensures Ledger(Apply(wanted, f, edit, sps, e).st, reported)
  {
    hide Note, Ledger;
    NoteKeepsLedger(e.st, edit, reported);
  }

  lemma StepKeepsLedger(codec: SpsCodec, st: State, h: Head, reported: seq<Edit>)
    requires Ledger(st, reported)
    ensures Ledger(Step(codec, st, h).st, reported)
  {
    hide Apply, Base64.Decode, FindSpsRange, Base64.Encode, BlobSplitter.StreamIndex;
    if h.opcode == BLOB && |h.args| >= 2 && Base64.Decode(h.args[1]).Some? {
      var bytes := Base64.Decode(h.args[1]).value;
      if FindSpsRange(bytes, 0).Some? {
        var range := FindSpsRange(bytes, 0).value;
        var sps := bytes[range.start..range.end];
        if Decide(codec, st, sps).Some? {
          var d := Decide(codec, st, sps).value;
          var e0 := Editing(None, d);
          var e1 := Apply(d.colour == Rewriting, codec.completeColour, ColourDescription, sps, e0);
          var e2 := Apply(d.boundReordering, codec.declareNoReordering, NoReordering, sps, e1);
          ApplyKeepsLedger(d.colour == Rewriting, codec.completeColour, ColourDescription, sps, e0, reported);
          ApplyKeepsLedger(d.boundReordering, codec.declareNoReordering, NoReordering, sps, e1, reported);
          ApplyKeepsLedger(d.allowGaps, codec.allowFrameNumGaps, FrameNumGaps, sps, e2, reported);
        }
      }
    }
  }

  lemma {:induction false} ScanKeepsLedger(codec: SpsCodec, st: State, s: Text, at: nat, reported: seq<Edit>)
    requires at <= |s| && Ledger(st, reported)
    ensures Ledger(FullScan(codec, st, s, at).st, reported)
    decreases |s| - at
  {
    hide HeadAt, Step, Ledger;
    match HeadAt(s, at)
    case None =>
    case Some(r) =>
      StepKeepsLedger(codec, st, r.head, reported);
      ScanKeepsLedger(codec, Step(codec, st, r.head).st, s, r.end, reported);
  }

  /** Everything `take_edits` returns over a session, asked after each chunk. */
  function Reports(codec: SpsCodec, st: State, chunks: seq<Chunk>): seq<Edit>
    decreases |chunks|
  {
    if chunks == [] then []
    else
      var after := Rewrite(codec, WithGaps(st, chunks[0].gaps), chunks[0].text).st;
      after.pendingEdits + Reports(codec, after.(pendingEdits := []), chunks[1..])
  }

  /** Over a whole session no edit is reported twice. */
  lemma {:induction false} EachEditReportedOnce(codec: SpsCodec, st: State, chunks: seq<Chunk>, reported: seq<Edit>)
    requires Ledger(st, reported) && st.pendingEdits == []
    ensures NoDuplicates(reported + Reports(codec, st, chunks))
    decreases |chunks|
  {
    hide FullScan;
    if chunks == [] {
      assert reported + [] == reported;
    } else {
      var st' := WithGaps(st, chunks[0].gaps);
      ScanKeepsLedger(codec, st', chunks[0].text, 0, reported);
      var after := Rewrite(codec, st', chunks[0].text).st;
      var rest := Reports(codec, after.(pendingEdits := []), chunks[1..]);
      assert reported + after.pendingEdits + [] == after.made;
      EachEditReportedOnce(codec, after.(pendingEdits := []), chunks[1..], reported + after.pendingEdits);
      assert reported + (after.pendingEdits + rest) == reported + after.pendingEdits + rest;
    }
  }

  // ---- the code ----

  class Rewriter {
    const codec: SpsCodec
    var colour: Colour
    var boundReordering: bool
    var allowGaps: bool
    var pendingEdits: seq<Edit>
    var made: seq<Edit>
    var h264Streams: set<nat>

    constructor (codec: SpsCodec)
      ensures Abs() == State(Undecided, false, false, [], [], {})
    {
      this.codec := codec;
      colour, boundReordering, allowGaps := Undecided, false, false;
      pendingEdits, made, h264Streams := [], [], {};
    }

    function Abs(): State
      reads this
    {
      State(colour, boundReordering, allowGaps, pendingEdits, made, h264Streams)
    }

    method TakeEdits() returns (edits: seq<Edit>)
      modifies this
      ensures edits == old(pendingEdits) && Abs() == old(Abs()).(pendingEdits := [])
    {
      edits := pendingEdits;
      pendingEdits := [];
    }

    method NoteEdit(edit: Edit)
      modifies this
      ensures Abs() == Note(old(Abs()), edit)
    {
      if edit !in made {
        made := made + [edit];
        pendingEdits := pendingEdits + [edit];
      }
    }

    method SetAllowFrameNumGaps(allow: bool)
      modifies this
      ensures Abs() == WithGaps(old(Abs()), allow)
    {
      allowGaps := allow;
    }

    method RewrittenPayload(payload: Text) returns (r: Option<Text>)
      modifies this
      ensures Rewritten(r, Abs()) == RewritePayload(codec, old(Abs()), payload)
    {
      hide Base64.Decode, Base64.Encode, FindSpsRange;
      var decoded := Base64.Decode(payload);
      if decoded == None { return None; }
      var bytes := decoded.value;
      var range := FindSpsRange(bytes, 0);
      if range == None { return None; }
      var sps := bytes[range.value.start..range.value.end];
      if colour == Undecided {
        var needs := codec.needsDescription(sps);
        if needs == None { return None; }
        colour := if needs.value then Rewriting else PassThrough;
        boundReordering := codec.reorderingUnbounded(sps);
      }
      ghost var decided := Abs();
      assert Decide(codec, old(Abs()), sps) == Some(decided);
      var edited: Option<seq<Byte>> := None;
      if colour == Rewriting {
        edited := codec.completeColour(sps);
        if edited.Some? {
          NoteEdit(ColourDescription);
        }
      }
      ghost var e1 := Editing(edited, Abs());
      assert e1 == Apply(decided.colour == Rewriting, codec.completeColour, ColourDescription, sps,
                         Editing(None, decided));
      if boundReordering {
        var bounded := codec.declareNoReordering(if edited.Some? then edited.value else sps);
        if bounded.Some? {
          edited := bounded;
          NoteEdit(NoReordering);
        }
      }
      ghost var e2 := Editing(edited, Abs());
      assert e2 == Apply(decided.boundReordering, codec.declareNoReordering, NoReordering, sps, e1);
      if allowGaps {
        var withGaps := codec.allowFrameNumGaps(if edited.Some? then edited.value else sps);
        if withGaps.Some? {
          edited := withGaps;
          NoteEdit(FrameNumGaps);
        }
      }
      assert Editing(edited, Abs()) == EditSps(codec, decided, sps);
      if edited == None { return None; }
      r := Some(Base64.Encode(bytes[..range.value.start] + edited.value + bytes[range.value.end..]));
    }

    /** `rewrite`: None when nothing needed changing. */
    method RewriteText(text: Text) returns (r: Option<Text>)
      modifies this
      ensures var o := Rewrite(codec, old(Abs()), text);
              && Abs() == o.st
              && r == (if o.edited then Some(o.text) else None)
              && o.text == (if r.Some? then r.value else text)
    {
      hide HeadAt, FullScan, RewritePayload, BlobInstruction, BlobSplitter.StreamIndex;
      if colour == PassThrough && !boundReordering && !allowGaps { return None; }
      var out: Option<Text> := None;
      var pending, pos := 0, 0;
      while pos < |text|
        invariant 0 <= pending <= pos <= |text|
        invariant Loop(codec, Abs(), text, pending, pos, out) == Loop(codec, old(Abs()), text, 0, 0, None)
        decreases |text| - pos
      {
        var reading := ReadInstruction(text, pos);
        if reading == None { break; }
        var start, h := pos, reading.value.head;
        pos := reading.value.end;
        ghost var before := Abs();
        var replacement: Option<Text> := None;
        var index := BlobSplitter.StreamIndex(h);
        if index.Some? {
          if h.opcode == BlobSplitter.H264 {
            h264Streams := h264Streams + {index.value};
          } else if h.opcode == BlobSplitter.END {
            h264Streams := h264Streams - {index.value};
          } else if h.opcode == BLOB && index.value in h264Streams && |h.args| >= 2 {
            replacement := RewrittenPayload(h.args[1]);
          }
        }
        assert Rewritten(replacement, Abs()) == Step(codec, before, h);
        if replacement.Some? {
          out := Some((if out == None then [] else out.value) + text[pending..start]
                      + BlobInstruction(h.args[0], replacement.value));
          pending := pos;
        }
      }
      LoopIsFullScan(codec, old(Abs()), text, 0, 0, None);
      assert text[0..0] == [] && text[0..] == text;
      assert FullScan(codec, old(Abs()), text, 0).text == [] + [] + FullScan(codec, old(Abs()), text, 0).text;
      if out == None {
        UneditedIsInput(codec, old(Abs()), text, 0);
        return None;
      }
      r := Some(out.value + text[pending..]);
    }
  }
}
