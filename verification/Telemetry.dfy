/** The per-session telemetry object: scans each chunk, updates its counters,
    and keeps what `FrameStats` proves of whole runs. */
module Telemetry {
  import opened Bytes
  import opened Wire
  import opened InstructionStarts
  import opened FrameStats
  import Base64

  const SYNC: Text := [115, 121, 110, 99]
  const H264: Text := [104, 50, 54, 52]
  const IMG: Text := [105, 109, 103]
  const COPY: Text := [99, 111, 112, 121]
  const RECT: Text := [114, 101, 99, 116]
  const CFILL: Text := [99, 102, 105, 108, 108]
  const SIZE: Text := [115, 105, 122, 101]
  const DISPOSE: Text := [100, 105, 115, 112, 111, 115, 101]
  const ZERO: Text := [48]

  // ---- what one instruction start says ----

  /** The text from `at` begins with this opcode, its length written plainly, and
      an argument follows. */
  predicate Begins(s: Text, at: nat, opcode: Text) {
    && at + |opcode| + 3 <= |s|
    && s[at] == 48 + |opcode| && s[at + 1] == DOT && s[at + 2 + |opcode|] == COMMA
    && s[at + 2..at + 2 + |opcode|] == opcode
  }

  function SyncAt(s: Text, at: nat): Option<int> {
    if !Begins(s, at, SYNC) then None
    else
      match SplitElement(s, at + |SYNC| + 3)
      case None => None
      case Some(e) => ParseSigned(e.value, I64_MAX)
  }

  datatype H264Frame = H264Frame(layer: int, keyframe: bool)

  /** The access unit these arguments announce. */
  function UnitFrom(layer: Option<Text>, key: Option<Text>): H264Frame {
    var parsed := if layer == None then None else ParseSigned(layer.value, I32_MAX);
    H264Frame(if parsed == None then 0 else parsed.value, key.Some? && key.value != ZERO)
  }

  function H264At(s: Text, at: nat): Option<H264Frame> {
    if !Begins(s, at, H264) then None
    else Some(UnitFrom(NthElement(s, at + |H264| + 3, 1), NthElement(s, at + |H264| + 3, 2)))
  }

  function OpcodeOf(op: DrawOp): (r: Text)
    ensures 3 <= |r| <= 7 && IsAscii(r)
  {
    match op
    case Img => IMG
    case Copy => COPY
    case Rect => RECT
    case Cfill => CFILL
    case Size => SIZE
    case Dispose => DISPOSE
  }

  /** Which argument names the layer, and which are logged. */
  datatype Shape = Shape(layerAt: nat, loggedAt: seq<nat>)

  function ShapeOf(op: DrawOp): Shape {
    match op
    case Img => Shape(2, [4, 5])
    case Copy => Shape(6, [7, 8, 0])
    case Rect => Shape(0, [1, 2, 3, 4])
    case Cfill => Shape(1, [2, 3, 4, 5])
    case Size => Shape(0, [1, 2])
    case Dispose => Shape(0, [])
  }

  /** The draw these arguments announce; an absent one is logged as empty. */
  function DrawFrom(op: DrawOp, layer: Option<Text>, logged: seq<Option<Text>>): Option<Draw> {
    match layer
    case None => None
    case Some(v) =>
      match ParseSigned(v, I32_MAX)
      case None => None
      case Some(l) =>
        Some(Draw(op, l, seq(|logged|, i requires 0 <= i < |logged| =>
          if logged[i] == None then [] else logged[i].value)))
  }

  function OpAt(s: Text, at: nat): (r: Option<DrawOp>)
    ensures r.Some? ==> Begins(s, at, OpcodeOf(r.value))
  {
    if Begins(s, at, IMG) then Some(Img)
    else if Begins(s, at, COPY) then Some(Copy)
    else if Begins(s, at, RECT) then Some(Rect)
    else if Begins(s, at, CFILL) then Some(Cfill)
    else if Begins(s, at, SIZE) then Some(Size)
    else if Begins(s, at, DISPOSE) then Some(Dispose)
    else None
  }

  function DrawAt(s: Text, at: nat): Option<Draw> {
    match OpAt(s, at)
    case None => None
    case Some(op) =>
      var args, shape := at + |OpcodeOf(op)| + 3, ShapeOf(op);
      DrawFrom(op, NthElement(s, args, shape.layerAt),
               seq(|shape.loggedAt|, i requires 0 <= i < |shape.loggedAt| => NthElement(s, args, shape.loggedAt[i])))
  }

  // ---- what one chunk says ----

  /** What `find` makes of each start, in order. */
  function Found<T>(s: Text, starts: seq<nat>, find: (Text, nat) -> Option<T>): seq<T> {
    if starts == [] then []
    else
      var before, last := Found(s, starts[..|starts| - 1], find), find(s, starts[|starts| - 1]);
      if last.None? then before else before + [last.value]
  }

  function Syncs(text: Text): seq<int> { Found(text, Starts(text, 0), SyncAt) }

  function AccessUnits(text: Text): seq<H264Frame> { Found(text, Starts(text, 0), H264At) }

  function Draws(text: Text): seq<Draw> { Found(text, Starts(text, 0), DrawAt) }

  function AddFrame(layers: Layers, f: H264Frame, now: Instant): Layers {
    var was := if f.layer in layers then layers[f.layer] else H264Layer(0, 0, now);
    layers[f.layer := H264Layer(was.frames + 1, was.keyframes + (if f.keyframe then 1 else 0), now)]
  }

  function AddFrames(layers: Layers, frames: seq<H264Frame>, now: Instant): Layers {
    if frames == [] then layers
    else AddFrame(AddFrames(layers, frames[..|frames| - 1], now), frames[|frames| - 1], now)
  }

  function Keyframes(frames: seq<H264Frame>): nat {
    if frames == [] then 0
    else Keyframes(frames[..|frames| - 1]) + if frames[|frames| - 1].keyframe then 1 else 0
  }

  // ---- what is counted are instructions ----

  /** Argument `n` of an instruction. */
  function Arg(elems: seq<Text>, n: nat): Option<Text> { if n + 1 < |elems| then Some(elems[n + 1]) else None }

  /** The timestamp a `sync` instruction carries. */
  function TimestampOf(elems: seq<Text>): Option<int> {
    if |elems| >= 2 && elems[0] == SYNC then ParseSigned(elems[1], I64_MAX) else None
  }

  /** The access unit an `h264` instruction announces. */
  function UnitOf(elems: seq<Text>): Option<H264Frame> {
    if |elems| >= 2 && elems[0] == H264 then Some(UnitFrom(Arg(elems, 1), Arg(elems, 2))) else None
  }

  function OpOf(opcode: Text): (r: Option<DrawOp>)
    ensures r.Some? ==> OpcodeOf(r.value) == opcode
  {
    if opcode == IMG then Some(Img)
    else if opcode == COPY then Some(Copy)
    else if opcode == RECT then Some(Rect)
    else if opcode == CFILL then Some(Cfill)
    else if opcode == SIZE then Some(Size)
    else if opcode == DISPOSE then Some(Dispose)
    else None
  }

  /** The draw a drawing instruction announces. */
  function DrawOf(elems: seq<Text>): Option<Draw> {
    if |elems| < 2 || OpOf(elems[0]) == None then None
    else
      var op := OpOf(elems[0]).value;
      var shape := ShapeOf(op);
      DrawFrom(op, Arg(elems, shape.layerAt),
               seq(|shape.loggedAt|, i requires 0 <= i < |shape.loggedAt| => Arg(elems, shape.loggedAt[i])))
  }

  /** How many elements the telemetry reads of an instruction. */
  function Reach(opcode: Text): nat {
    if opcode == H264 then 4
    else
      match OpOf(opcode)
      case None => 2
      case Some(Img) => 7
      case Some(Copy) => 10
      case Some(Rect) => 6
      case Some(Cfill) => 7
      case Some(Size) => 4
      case Some(Dispose) => 2
  }

  /** The instruction has every argument that is read of it. */
  predicate Full(elems: seq<Text>) { |elems| < 2 || Reach(elems[0]) <= |elems| }

  lemma OpcodesAreSpelled()
    ensures SYNC == Ascii("sync") && H264 == Ascii("h264") && ZERO == Ascii("0")
    ensures OpcodeOf(Img) == Ascii("img") && OpcodeOf(Copy) == Ascii("copy") && OpcodeOf(Rect) == Ascii("rect")
    ensures OpcodeOf(Cfill) == Ascii("cfill") && OpcodeOf(Size) == Ascii("size")
    ensures OpcodeOf(Dispose) == Ascii("dispose")
  {
  }

  /** `sync,<timestamp>,..` and `h264,<stream>,<layer>,<keyframe>,..`: which
      argument is which. A layer that is no number is layer 0, and any flag but
      `0` says keyframe. */
  lemma SyncAndUnitArguments(timestamp: Text, stream: Text, layer: Text, key: Text, more: seq<Text>)
    ensures TimestampOf([SYNC, timestamp] + more) == ParseSigned(timestamp, 0x7FFF_FFFF_FFFF_FFFF)
    ensures var n := ParseSigned(layer, 0x7FFF_FFFF);
            UnitOf([H264, stream, layer, key] + more)
            == Some(H264Frame(if n == None then 0 else n.value, key != Ascii("0")))
  {
    hide ParseSigned;
    OpcodesAreSpelled();
    var elems := [H264, stream, layer, key] + more;
    assert elems[0] == H264 && elems[2] == layer && elems[3] == key;
    var sync := [SYNC, timestamp] + more;
    assert sync[0] == SYNC && sync[1] == timestamp;
  }

  lemma OpOfSpelled(op: DrawOp)
    ensures OpOf(OpcodeOf(op)) == Some(op)
  {
  }

  lemma ImgArguments(layer: Text, n: int, a: Text, b: Text, c: Text, d: Text, e: Text, more: seq<Text>)
    requires ParseSigned(layer, 0x7FFF_FFFF) == Some(n)
    ensures DrawOf([IMG, a, b, layer, c, d, e] + more) == Some(Draw(Img, n, [d, e]))
  {
    hide ParseSigned;
    var elems := [IMG, a, b, layer, c, d, e] + more;
    OpOfSpelled(Img);
    assert elems[0] == OpcodeOf(Img) && Arg(elems, ShapeOf(Img).layerAt) == Some(layer);
    var r := DrawOf(elems).value.args;
    assert r == [d, e];
  }

  lemma CopyArguments(layer: Text, n: int, a: Text, b: Text, c: Text, d: Text, e: Text, f: Text, g: Text, h: Text,
                      more: seq<Text>)
    requires ParseSigned(layer, 0x7FFF_FFFF) == Some(n)
    ensures DrawOf([COPY, a, b, c, d, e, f, layer, g, h] + more) == Some(Draw(Copy, n, [g, h, a]))
  {
    hide ParseSigned;
    var elems := [COPY, a, b, c, d, e, f, layer, g, h] + more;
    OpOfSpelled(Copy);
    assert elems[0] == OpcodeOf(Copy) && Arg(elems, ShapeOf(Copy).layerAt) == Some(layer);
    var r := DrawOf(elems).value.args;
    assert r == [g, h, a];
  }

  lemma RectArguments(layer: Text, n: int, a: Text, b: Text, c: Text, d: Text, more: seq<Text>)
    requires ParseSigned(layer, 0x7FFF_FFFF) == Some(n)
    ensures DrawOf([RECT, layer, a, b, c, d] + more) == Some(Draw(Rect, n, [a, b, c, d]))
  {
    hide ParseSigned;
    var elems := [RECT, layer, a, b, c, d] + more;
    OpOfSpelled(Rect);
    assert elems[0] == OpcodeOf(Rect) && Arg(elems, ShapeOf(Rect).layerAt) == Some(layer);
    var r := DrawOf(elems).value.args;
    assert r == [a, b, c, d];
  }

  lemma CfillArguments(layer: Text, n: int, a: Text, b: Text, c: Text, d: Text, e: Text, more: seq<Text>)
    requires ParseSigned(layer, 0x7FFF_FFFF) == Some(n)
    ensures DrawOf([CFILL, a, layer, b, c, d, e] + more) == Some(Draw(Cfill, n, [b, c, d, e]))
  {
    hide ParseSigned;
    var elems := [CFILL, a, layer, b, c, d, e] + more;
    OpOfSpelled(Cfill);
    assert elems[0] == OpcodeOf(Cfill) && Arg(elems, ShapeOf(Cfill).layerAt) == Some(layer);
    var r := DrawOf(elems).value.args;
    assert r == [b, c, d, e];
  }

  lemma SizeArguments(layer: Text, n: int, a: Text, b: Text, more: seq<Text>)
    requires ParseSigned(layer, 0x7FFF_FFFF) == Some(n)
    ensures DrawOf([SIZE, layer, a, b] + more) == Some(Draw(Size, n, [a, b]))
  {
    hide ParseSigned;
    var elems := [SIZE, layer, a, b] + more;
    OpOfSpelled(Size);
    assert elems[0] == OpcodeOf(Size) && Arg(elems, ShapeOf(Size).layerAt) == Some(layer);
    var r := DrawOf(elems).value.args;
    assert r == [a, b];
  }

  lemma DisposeArguments(layer: Text, n: int, more: seq<Text>)
    requires ParseSigned(layer, 0x7FFF_FFFF) == Some(n)
    ensures DrawOf([DISPOSE, layer] + more) == Some(Draw(Dispose, n, []))
  {
    hide ParseSigned;
    var elems := [DISPOSE, layer] + more;
    OpOfSpelled(Dispose);
    assert elems[0] == OpcodeOf(Dispose) && Arg(elems, ShapeOf(Dispose).layerAt) == Some(layer);
    var r := DrawOf(elems).value.args;
    assert r == [];
  }

  /** The drawing instructions, argument by argument: the layer drawn on, and what
      is logged of each. */
  lemma DrawArguments(layer: Text, n: int, a: Text, b: Text, c: Text, d: Text, e: Text, f: Text, g: Text, h: Text,
                      more: seq<Text>)
    requires ParseSigned(layer, 0x7FFF_FFFF) == Some(n)
    ensures DrawOf([IMG, a, b, layer, c, d, e] + more) == Some(Draw(Img, n, [d, e]))
    ensures DrawOf([COPY, a, b, c, d, e, f, layer, g, h] + more) == Some(Draw(Copy, n, [g, h, a]))
    ensures DrawOf([RECT, layer, a, b, c, d] + more) == Some(Draw(Rect, n, [a, b, c, d]))
    ensures DrawOf([CFILL, a, layer, b, c, d, e] + more) == Some(Draw(Cfill, n, [b, c, d, e]))
    ensures DrawOf([SIZE, layer, a, b] + more) == Some(Draw(Size, n, [a, b]))
    ensures DrawOf([DISPOSE, layer] + more) == Some(Draw(Dispose, n, []))
  {
    hide ParseSigned;
    ImgArguments(layer, n, a, b, c, d, e, more);
    CopyArguments(layer, n, a, b, c, d, e, f, g, h, more);
    RectArguments(layer, n, a, b, c, d, more);
    CfillArguments(layer, n, a, b, c, d, e, more);
    SizeArguments(layer, n, a, b, more);
    DisposeArguments(layer, n, more);
  }

  lemma OneDigit(digits: Text)
    requires AllDigits(digits) && |digits| == 1
    ensures DigitsValue(digits) == digits[0] - 48
  {
    assert digits[..0] == [] && DigitsValue(digits[..0]) == 0;
  }

  lemma OpcodeReads(s: Text, at: nat, opcode: Text)
    requires Begins(s, at, opcode) && IsAscii(opcode) && |opcode| < 10
    ensures ParseElement(s, at) == Some(Element(opcode, at + |opcode| + 3, COMMA))
  {
    hide ParseElement, DigitsValue;
    var end := at + 2 + |opcode|;
    assert forall k :: at + 2 <= k < end ==> s[k] == s[at + 2..end][k - (at + 2)];
    OneDigit(s[at..at + 1]);
    AsciiIsWhole(s, at + 2, end);
    ElementReads(s, at, at + 1, end);
  }

  /** An opcode with a one-digit length and an argument behind it begins the text. */
  lemma ShortOpcodeBegins(s: Text, at: nat)
    requires at + 1 < |s| && s[at + 1] == DOT && ParseElement(s, at).Some?
    requires ParseElement(s, at).value.terminator == COMMA && IsAscii(ParseElement(s, at).value.value)
    ensures Begins(s, at, ParseElement(s, at).value.value)
  {
    hide CharsEnd, DigitsValue;
    var e := ParseElement(s, at).value;
    assert DigitsEnd(s, at) == at + 1;
    var end := at + 2 + |e.value|;
    assert e.next == end + 1 && s[at + 2..end] == e.value;
    assert forall k :: at + 2 <= k < end ==> s[k] == s[at + 2..end][k - (at + 2)];
    CharsEndOfAscii(s, at + 2, DigitsValue(s[at..at + 1]));
    OneDigit(s[at..at + 1]);
  }

  /** The opcode's length is written plainly. */
  predicate Short(s: Text, at: nat) { at + 1 < |s| && s[at + 1] == DOT }

  /** An instruction begins with an opcode, as the telemetry looks for it, if and
      only if it has that opcode, plainly written, and an argument. */
  lemma BeginsIff(s: Text, at: nat, opcode: Text)
    requires ParseInstruction(s, at).Some? && AllAscii(ParseInstruction(s, at).value.elems)
    requires IsAscii(opcode) && |opcode| < 10
    ensures var elems := ParseInstruction(s, at).value.elems;
            Begins(s, at, opcode) <==> Short(s, at) && |elems| >= 2 && elems[0] == opcode
  {
    hide ParseElement, IsAscii;
    var elems := ParseInstruction(s, at).value.elems;
    var e := ParseElement(s, at).value;
    assert ParseInstruction(s, at) == Continue(s, [e.value], e);
    assert elems[0] == e.value;
    if Begins(s, at, opcode) {
      OpcodeReads(s, at, opcode);
    } else if Short(s, at) && |elems| >= 2 && elems[0] == opcode {
      ShortOpcodeBegins(s, at);
    }
  }

  lemma BeginsFits(s: Text, at: nat, opcode: Text)
    requires Begins(s, at, opcode)
    ensures at + |opcode| + 3 <= |s|
  {
  }

  /** Within an instruction, the walk over elements finds its elements. */
  lemma {:induction false} NthIsElement(s: Text, at: nat, n: nat)
    requires ParseInstruction(s, at).Some? && AllAscii(ParseInstruction(s, at).value.elems)
    requires n < |ParseInstruction(s, at).value.elems|
    ensures at <= |s| && NthElement(s, at, n) == Some(ParseInstruction(s, at).value.elems[n])
    decreases n
  {
    hide ParseElement, SplitElement, IsAscii;
    var elems := ParseInstruction(s, at).value.elems;
    var e := ParseElement(s, at).value;
    assert ParseInstruction(s, at) == Continue(s, [e.value], e);
    assert elems[0] == e.value;
    AsciiElementAgrees(s, at);
    if n > 0 {
      var more := ParseInstruction(s, e.next).value.elems;
      assert elems == [e.value] + more;
      assert forall i :: 0 <= i < |more| ==> more[i] == elems[i + 1];
      NthIsElement(s, e.next, n - 1);
    }
  }

  /** Beyond it, the walk goes on in whatever follows. */
  lemma {:induction false} NthGoesOn(s: Text, at: nat, n: nat)
    requires ParseInstruction(s, at).Some? && AllAscii(ParseInstruction(s, at).value.elems)
    requires n >= |ParseInstruction(s, at).value.elems|
    ensures var i := ParseInstruction(s, at).value;
            at <= |s| && NthElement(s, at, n) == NthElement(s, i.end, n - |i.elems|)
    decreases n
  {
    hide ParseElement, SplitElement, IsAscii;
    var elems := ParseInstruction(s, at).value.elems;
    var e := ParseElement(s, at).value;
    assert ParseInstruction(s, at) == Continue(s, [e.value], e);
    assert elems[0] == e.value;
    AsciiElementAgrees(s, at);
    if e.terminator != SEMICOLON {
      var more := ParseInstruction(s, e.next).value.elems;
      assert elems == [e.value] + more;
      assert forall i :: 0 <= i < |more| ==> more[i] == elems[i + 1];
      NthGoesOn(s, e.next, n - 1);
    }
  }

  /** The arguments of an instruction are an instruction text of their own. */
  lemma ArgsParse(s: Text, at: nat, opcode: Text)
    requires ParseInstruction(s, at).Some? && AllAscii(ParseInstruction(s, at).value.elems)
    requires Begins(s, at, opcode) && IsAscii(opcode) && |opcode| < 10
    ensures var i, args := ParseInstruction(s, at).value, at + |opcode| + 3;
            && |i.elems| >= 2 && ParseInstruction(s, args) == Some(Instr(i.elems[1..], i.end))
            && AllAscii(i.elems[1..])
  {
    hide ParseElement, IsAscii;
    OpcodeReads(s, at, opcode);
    var elems := ParseInstruction(s, at).value.elems;
    var e := ParseElement(s, at).value;
    assert ParseInstruction(s, at) == Continue(s, [e.value], e);
    assert elems[1..] == ParseInstruction(s, e.next).value.elems;
    assert forall i :: 0 <= i < |elems[1..]| ==> elems[1..][i] == elems[i + 1];
  }

  lemma NthIsArg(s: Text, at: nat, opcode: Text, n: nat)
    requires ParseInstruction(s, at).Some? && AllAscii(ParseInstruction(s, at).value.elems)
    requires Begins(s, at, opcode) && IsAscii(opcode) && |opcode| < 10
    requires n + 1 < |ParseInstruction(s, at).value.elems|
    ensures NthElement(s, at + |opcode| + 3, n) == Arg(ParseInstruction(s, at).value.elems, n)
  {
    hide ParseInstruction, NthElement, Begins, AllAscii;
    ArgsParse(s, at, opcode);
    NthIsElement(s, at + |opcode| + 3, n);
  }

  /** At an instruction with ASCII values, the telemetry sees a sync exactly
      when the parser does. */
  lemma SyncAtIsTimestamp(s: Text, at: nat)
    requires ParseInstruction(s, at).Some? && AllAscii(ParseInstruction(s, at).value.elems)
    ensures SyncAt(s, at) == if Short(s, at) then TimestampOf(ParseInstruction(s, at).value.elems) else None
  {
    hide ParseInstruction, SplitElement, ParseSigned, Begins, AllAscii;
    BeginsIff(s, at, SYNC);
    if Begins(s, at, SYNC) {
      NthIsArg(s, at, SYNC, 0);
    }
  }

  /** An access unit likewise, if its instruction has every argument read. */
  lemma H264AtIsUnit(s: Text, at: nat)
    requires ParseInstruction(s, at).Some? && AllAscii(ParseInstruction(s, at).value.elems)
    requires Full(ParseInstruction(s, at).value.elems)
    ensures H264At(s, at) == if Short(s, at) then UnitOf(ParseInstruction(s, at).value.elems) else None
  {
    hide ParseInstruction, NthElement, UnitFrom, Begins, AllAscii;
    BeginsIff(s, at, H264);
    if Begins(s, at, H264) {
      NthIsArg(s, at, H264, 1);
      NthIsArg(s, at, H264, 2);
    }
  }

  lemma OpAtIff(s: Text, at: nat)
    requires ParseInstruction(s, at).Some? && AllAscii(ParseInstruction(s, at).value.elems)
    ensures var elems := ParseInstruction(s, at).value.elems;
            OpAt(s, at) == if Short(s, at) && |elems| >= 2 then OpOf(elems[0]) else None
  {
    hide ParseInstruction, Begins, AllAscii;
    BeginsIff(s, at, IMG);
    BeginsIff(s, at, COPY);
    BeginsIff(s, at, RECT);
    BeginsIff(s, at, CFILL);
    BeginsIff(s, at, SIZE);
    BeginsIff(s, at, DISPOSE);
  }

  lemma ReachOfDraw(op: DrawOp)
    ensures OpOf(OpcodeOf(op)) == Some(op) && OpcodeOf(op) != H264
    ensures var shape, reach := ShapeOf(op), Reach(OpcodeOf(op));
            && shape.layerAt + 1 < reach && (forall i :: 0 <= i < |shape.loggedAt| ==> shape.loggedAt[i] + 1 < reach)
            && (reach == shape.layerAt + 2 || exists i :: 0 <= i < |shape.loggedAt| && reach == shape.loggedAt[i] + 2)
  {
    var logged := ShapeOf(op).loggedAt;
    assert op.Img? ==> logged[1] == 5;
    assert op.Copy? ==> logged[1] == 8;
    assert op.Rect? || op.Cfill? ==> logged[3] + 2 == Reach(OpcodeOf(op));
    assert op.Size? ==> logged[1] == 2;
  }

  /** And a draw. */
  lemma DrawAtIsDraw(s: Text, at: nat)
    requires ParseInstruction(s, at).Some? && AllAscii(ParseInstruction(s, at).value.elems)
    requires Full(ParseInstruction(s, at).value.elems)
    ensures DrawAt(s, at) == if Short(s, at) then DrawOf(ParseInstruction(s, at).value.elems) else None
  {
    hide ParseInstruction, NthElement, DrawFrom, Begins, AllAscii, ShapeOf, Reach, OpAt, OpOf, OpcodeOf;
    var elems := ParseInstruction(s, at).value.elems;
    OpAtIff(s, at);
    if OpAt(s, at).Some? {
      var op := OpAt(s, at).value;
      ReachOfDraw(op);
      var args, shape := at + |OpcodeOf(op)| + 3, ShapeOf(op);
      BeginsFits(s, at, OpcodeOf(op));
      NthIsArg(s, at, OpcodeOf(op), shape.layerAt);
      forall i | 0 <= i < |shape.loggedAt|
        ensures NthElement(s, args, shape.loggedAt[i]) == Arg(elems, shape.loggedAt[i])
      {
        NthIsArg(s, at, OpcodeOf(op), shape.loggedAt[i]);
      }
      assert seq(|shape.loggedAt|, i requires 0 <= i < |shape.loggedAt| => NthElement(s, args, shape.loggedAt[i]))
          == seq(|shape.loggedAt|, i requires 0 <= i < |shape.loggedAt| => Arg(elems, shape.loggedAt[i]));
    }
  }

  function Listed<T>(x: Option<T>): seq<T> { if x.None? then [] else [x.value] }

  /** What `of` makes of the instructions the splitter's parser finds from `at`
      on, in order; one whose opcode length has leading zeros is passed over. */
  function Parsed<T>(s: Text, at: nat, of: seq<Text> -> Option<T>): seq<T>
    requires at <= |s|
    decreases |s| - at
  {
    match ParseInstruction(s, at)
    case None => []
    case Some(i) => Listed(if Short(s, at) then of(i.elems) else None) + Parsed(s, i.end, of)
  }

  lemma {:induction false} FoundConcat<T>(s: Text, a: seq<nat>, b: seq<nat>, find: (Text, nat) -> Option<T>)
    ensures Found(s, a + b, find) == Found(s, a, find) + Found(s, b, find)
  {
    if b == [] {
      assert a + b == a;
    } else {
      assert (a + b)[..|a + b| - 1] == a + b[..|b| - 1];
      FoundConcat(s, a, b[..|b| - 1], find);
    }
  }

  /** At this instruction, the telemetry finds what the parser says. */
  ghost predicate Agrees<T>(s: Text, k: nat, find: (Text, nat) -> Option<T>, of: seq<Text> -> Option<T>) {
    ParseInstruction(s, k).Some? ==>
      find(s, k) == if Short(s, k) then of(ParseInstruction(s, k).value.elems) else None
  }

  lemma {:induction false} FoundIsParsed<T>(s: Text, at: nat, find: (Text, nat) -> Option<T>,
                                             of: seq<Text> -> Option<T>)
    requires at <= |s| && Scan(s, at).tail == []
    requires forall k :: k in Boundaries(s, at) ==> Agrees(s, k, find, of)
    ensures Found(s, Boundaries(s, at), find) == Parsed(s, at, of)
    decreases |s| - at
  {
    hide ParseInstruction, Short;
    if at == |s| {
      NothingAtTheEnd(s);
    } else {
      var i := ParseInstruction(s, at).value;
      var rest := Boundaries(s, i.end);
      assert Boundaries(s, at) == [at] + rest;
      assert at in Boundaries(s, at) && forall k :: k in rest ==> k in Boundaries(s, at);
      FoundIsParsed(s, i.end, find, of);
      FoundConcat(s, [at], rest, find);
      assert [at][..0] == [] && Found(s, [at], find) == Listed(find(s, at));
    }
  }

  lemma {:induction false} BoundaryIsInstruction(s: Text, at: nat, k: nat)
    requires at <= |s| && k in Boundaries(s, at)
    ensures ParseInstruction(s, k).Some? && ParseInstruction(s, k).value.elems in Scan(s, at).instrs
    decreases |s| - at
  {
    hide ParseInstruction;
    var i := ParseInstruction(s, at).value;
    var rest := Scan(s, i.end).instrs;
    assert Scan(s, at).instrs == [i.elems] + rest;
    if k != at {
      BoundaryIsInstruction(s, i.end, k);
    } else {
      assert Scan(s, at).instrs[0] == i.elems;
    }
  }

  /** A run of complete instructions with ASCII values. */
  ghost predicate AsciiRun(s: Text) {
    Complete(s) && forall i :: 0 <= i < |Scan(s, 0).instrs| ==> AllAscii(Scan(s, 0).instrs[i])
  }

  /** On any such run, what is counted is the timestamps of its `sync`
      instructions, all of them, in order: nothing inside a value is ever taken
      for one. */
  lemma SyncsAreInstructions(s: Text)
    requires AsciiRun(s)
    ensures Syncs(s) == Parsed(s, 0, TimestampOf)
  {
    hide ParseInstruction, AllAscii, SyncAt, TimestampOf, Short, Starts, Boundaries, Found, Parsed;
    StartsAreBoundaries(s, 0);
    forall k | k in Boundaries(s, 0)
      ensures Agrees(s, k, SyncAt, TimestampOf)
    {
      BoundaryIsInstruction(s, 0, k);
      SyncAtIsTimestamp(s, k);
    }
    FoundIsParsed(s, 0, SyncAt, TimestampOf);
  }

  /** And the access units and draws are those of its own instructions, if each
      has every argument that is read of it. */
  lemma UnitsAndDrawsAreInstructions(s: Text)
    requires AsciiRun(s) && forall i :: 0 <= i < |Scan(s, 0).instrs| ==> Full(Scan(s, 0).instrs[i])
    ensures AccessUnits(s) == Parsed(s, 0, UnitOf) && Draws(s) == Parsed(s, 0, DrawOf)
  {
    hide ParseInstruction, AllAscii, H264At, DrawAt, UnitOf, DrawOf, Short, Starts, Boundaries, Found, Parsed, Full;
    StartsAreBoundaries(s, 0);
    forall k | k in Boundaries(s, 0)
      ensures Agrees(s, k, H264At, UnitOf) && Agrees(s, k, DrawAt, DrawOf)
    {
      BoundaryIsInstruction(s, 0, k);
      H264AtIsUnit(s, k);
      DrawAtIsDraw(s, k);
    }
    FoundIsParsed(s, 0, H264At, UnitOf);
    FoundIsParsed(s, 0, DrawAt, DrawOf);
  }

  // ---- from the printed instructions ----

  /** What `of` makes of a list of instructions, in order. */
  function Made<T>(instrs: seq<seq<Text>>, of: seq<Text> -> Option<T>): seq<T> {
    if instrs == [] then [] else Listed(of(instrs[0])) + Made(instrs[1..], of)
  }

  lemma {:induction false} ParsedShifted<T>(a: Text, b: Text, at: nat, of: seq<Text> -> Option<T>)
    requires at <= |b|
    ensures Parsed(a + b, |a| + at, of) == Parsed(b, at, of)
    decreases |b| - at
  {
    hide ParseInstruction, Listed;
    var s := a + b;
    assert s == a + b && |s| == |a| + |b| && forall k :: 0 <= k < |b| ==> s[|a| + k] == b[k];
    InstructionShifted(a, b, at);
    match ParseInstruction(b, at)
    case None =>
    case Some(i) =>
      assert at + 1 < |b| ==> s[|a| + (at + 1)] == b[at + 1];
      ParsedShifted(a, b, i.end, of);
  }

  lemma PrintedLengthIsShort(elems: seq<Text>, rest: Text)
    requires elems != [] && AllUtf8(elems) && |elems[0]| < 10
    ensures Short(PrintInstruction(elems) + rest, 0)
  {
    hide CharsIn, WholeChars;
    assert PrintElement(elems[0])[1] == DOT;
  }

  /** Each instruction can be printed, and parsed back. */
  ghost predicate Printable(instrs: seq<seq<Text>>) {
    forall i :: 0 <= i < |instrs| ==> instrs[i] != [] && AllUtf8(instrs[i]) && Fit(instrs[i])
  }

  /** Only opcodes of fewer than ten characters mean anything to `of`. */
  ghost predicate ShortOpcodesOnly<T>(of: seq<Text> -> Option<T>) {
    forall elems :: of(elems).Some? ==> elems != [] && |elems[0]| < 10
  }

  lemma FirstPrinted<T>(elems: seq<Text>, more: Text, of: seq<Text> -> Option<T>)
    requires elems != [] && AllUtf8(elems) && Fit(elems) && ShortOpcodesOnly(of)
    ensures Parsed(PrintInstruction(elems) + more, 0, of) == Listed(of(elems)) + Parsed(more, 0, of)
  {
    hide ParseInstruction, PrintInstruction, AllUtf8, Fit, Short, Listed;
    var first := PrintInstruction(elems);
    ParserInvertsPrinter(elems, more);
    ParsedShifted(first, more, 0, of);
    if of(elems).Some? {
      PrintedLengthIsShort(elems, more);
    }
  }

  lemma NothingParsed<T>(of: seq<Text> -> Option<T>)
    ensures Parsed([], 0, of) == []
  {
    hide ParseInstruction;
    NothingAtTheEnd([]);
  }

  lemma {:induction false} PrintedParsed<T>(instrs: seq<seq<Text>>, of: seq<Text> -> Option<T>)
    requires Printable(instrs) && ShortOpcodesOnly(of)
    ensures Parsed(PrintAll(instrs), 0, of) == Made(instrs, of)
  {
    hide Parsed, PrintInstruction, AllUtf8, Fit, Listed, ShortOpcodesOnly;
    if instrs == [] {
      assert Parsed([], 0, of) == [] by { NothingParsed(of); }
    } else {
      FirstPrinted(instrs[0], PrintAll(instrs[1..]), of);
      PrintedParsed(instrs[1..], of);
    }
  }

  lemma PrintedScan(instrs: seq<seq<Text>>)
    requires Printable(instrs)
    ensures Scan(PrintAll(instrs), 0) == Scanned(instrs, [])
  {
    hide AllUtf8, Fit, PrintAll, ParseInstruction;
    ScanInvertsPrint(instrs, []);
    assert PrintAll(instrs) + [] == PrintAll(instrs);
    NothingAtTheEnd([]);
    assert Scan([], 0) == Scanned([], [][0..]) && instrs + [] == instrs;
  }

  lemma ShortOpcodes()
    ensures ShortOpcodesOnly(TimestampOf) && ShortOpcodesOnly(UnitOf) && ShortOpcodesOnly(DrawOf)
  {
    hide DrawFrom, UnitFrom, ParseSigned;
  }

  /** Print any instructions with ASCII values, whatever those contain: the
      telemetry counts exactly the syncs among them, and, if each has the
      arguments read of it, exactly their access units and draws. */
  lemma PrintedChunkIsCounted(instrs: seq<seq<Text>>)
    requires Printable(instrs) && forall i :: 0 <= i < |instrs| ==> AllAscii(instrs[i])
    ensures Syncs(PrintAll(instrs)) == Made(instrs, TimestampOf)
    ensures (forall i :: 0 <= i < |instrs| ==> Full(instrs[i])) ==>
              AccessUnits(PrintAll(instrs)) == Made(instrs, UnitOf) && Draws(PrintAll(instrs)) == Made(instrs, DrawOf)
  {
    hide Parsed, Made, AllAscii, PrintAll, Scan, Full, TimestampOf, UnitOf, DrawOf, Syncs, AccessUnits, Draws,
      AllUtf8, Fit, ShortOpcodesOnly;
    var text := PrintAll(instrs);
    PrintedScan(instrs);
    ShortOpcodes();
    PrintedParsed(instrs, TimestampOf);
    SyncsAreInstructions(text);
    if forall i :: 0 <= i < |instrs| ==> Full(instrs[i]) {
      PrintedParsed(instrs, UnitOf);
      PrintedParsed(instrs, DrawOf);
      UnitsAndDrawsAreInstructions(text);
    }
  }

  // ---- an instruction too short to be read ----

  const ONE: Text := [49]

  /** `n` instructions `1.1;` */
  function Ones(n: nat): Text { if n == 0 then [] else [49, DOT, 49, SEMICOLON] + Ones(n - 1) }

  lemma {:induction false} OnesRead(p: Text, n: nat, m: nat)
    requires m < n
    ensures NthElement(p + Ones(n), |p|, m) == Some(ONE)
    decreases m
  {
    hide SplitElement, ParseElement;
    var s := p + Ones(n);
    var q := p + [49, DOT, 49, SEMICOLON];
    assert s == q + Ones(n - 1);
    assert s[|p|] == 49 && s[|p| + 1] == DOT && s[|p| + 2] == 49 && s[|p| + 3] == SEMICOLON;
    OneDigit(s[|p|..|p| + 1]);
    AsciiIsWhole(s, |p| + 2, |p| + 3);
    ElementReads(s, |p|, |p| + 1, |p| + 3);
    assert s[|p| + 2..|p| + 3] == ONE;
    AsciiElementAgrees(s, |p|);
    if m > 0 {
      OnesRead(q, n - 1, m - 1);
    }
  }

  /** One complete instruction with ASCII values and a plain opcode length. */
  ghost predicate OneInstruction(s: Text, elems: seq<Text>) {
    ParseInstruction(s, 0) == Some(Instr(elems, |s|)) && AllAscii(elems) && Short(s, 0)
  }

  lemma ReadsBefore(s: Text, elems: seq<Text>, rest: Text)
    requires OneInstruction(s, elems)
    ensures ParseInstruction(s + rest, 0) == Some(Instr(elems, |s|)) && Short(s + rest, 0)
  {
    hide ParseInstruction, AllAscii;
    InstructionCopied(s, 0, s + rest, 0, |s|);
  }

  lemma FirstIsAscii(elems: seq<Text>)
    requires AllAscii(elems) && elems != []
    ensures IsAscii(elems[0])
  {
  }

  /** Argument `n`, read with a row of ones behind the instruction. */
  lemma ArgOrOne(s: Text, elems: seq<Text>, opcode: Text, n: nat)
    requires OneInstruction(s, elems) && |elems| >= 2 && elems[0] == opcode && |opcode| < 10 && n < 9
    ensures |opcode| + 3 <= |s|
    ensures NthElement(s + Ones(9), |opcode| + 3, n) == Some(if n + 1 < |elems| then elems[n + 1] else ONE)
  {
    hide ParseInstruction, Begins, AllAscii, NthElement, Ones;
    var t := s + Ones(9);
    assert IsAscii(opcode) by { FirstIsAscii(elems); }
    ReadsBefore(s, elems, Ones(9));
    BeginsIff(s, 0, opcode);
    BeginsIff(t, 0, opcode);
    BeginsFits(s, 0, opcode);
    if n + 1 < |elems| {
      NthIsArg(t, 0, opcode, n);
    } else {
      ArgsParse(t, 0, opcode);
      NthGoesOn(t, |opcode| + 3, n);
      OnesRead(s, 9, n - (|elems| - 1));
    }
  }

  /** Whatever follows it, an `h264` instruction announces its own access unit if
      and only if it has the three arguments read: else what follows can make a
      keyframe of it. */
  lemma UnitIsItsOwnIff(s: Text, elems: seq<Text>)
    requires OneInstruction(s, elems) && |elems| >= 2 && elems[0] == H264
    ensures (forall rest :: H264At(s + rest, 0) == UnitOf(elems)) <==> Full(elems)
  {
    hide ParseInstruction, AllAscii, NthElement, Begins, Short, Ones;
    if Full(elems) {
      forall rest
        ensures H264At(s + rest, 0) == UnitOf(elems)
      {
        ReadsBefore(s, elems, rest);
        H264AtIsUnit(s + rest, 0);
      }
    } else {
      ReadsBefore(s, elems, Ones(9));
      BeginsIff(s + Ones(9), 0, H264);
      ArgOrOne(s, elems, H264, 2);
      assert H264At(s + Ones(9), 0).value.keyframe && !UnitOf(elems).value.keyframe;
    }
  }

  lemma OneParses()
    ensures ParseSigned(ONE, I32_MAX) == Some(1)
  {
    OneDigit(ONE);
  }

  /** The layer argument is there and is no number, so there is no draw. */
  predicate NoLayer(elems: seq<Text>, op: DrawOp) {
    var layer := Arg(elems, ShapeOf(op).layerAt);
    layer.Some? && ParseSigned(layer.value, I32_MAX) == None
  }

  lemma NoLayerNoDraw(s: Text, at: nat, op: DrawOp)
    requires ParseInstruction(s, at).Some? && AllAscii(ParseInstruction(s, at).value.elems) && OpAt(s, at) == Some(op)
    requires NoLayer(ParseInstruction(s, at).value.elems, op)
    ensures DrawAt(s, at) == None
  {
    hide ParseInstruction, NthElement, Begins, AllAscii, ShapeOf, OpAt, ParseSigned;
    NthIsArg(s, at, OpcodeOf(op), ShapeOf(op).layerAt);
  }

  lemma ReachIsShort(op: DrawOp)
    ensures Reach(OpcodeOf(op)) <= 10
  {
  }

  /** With a row of ones behind it, a drawing instruction that lacks an argument
      is read as a draw on layer 1, or logs a one for it. */
  lemma ShortDrawBorrows(s: Text, elems: seq<Text>, op: DrawOp)
    requires OneInstruction(s, elems) && |elems| >= 2 && OpOf(elems[0]) == Some(op)
    requires !Full(elems) && !NoLayer(elems, op)
    ensures DrawAt(s + Ones(9), 0) != DrawOf(elems)
  {
    hide ParseInstruction, NthElement, Begins, AllAscii, ShapeOf, Reach, OpAt, OpOf, OpcodeOf, Ones, Short, ParseSigned;
    var t, shape, opcode := s + Ones(9), ShapeOf(op), OpcodeOf(op);
    ReadsBefore(s, elems, Ones(9));
    OpAtIff(t, 0);
    ReachOfDraw(op);
    ReachIsShort(op);
    ArgOrOne(s, elems, opcode, shape.layerAt);
    OneParses();
    if Arg(elems, shape.layerAt).Some? {
      var i :| 0 <= i < |shape.loggedAt| && Reach(opcode) == shape.loggedAt[i] + 2;
      ArgOrOne(s, elems, opcode, shape.loggedAt[i]);
      assert DrawAt(t, 0).value.args[i] == ONE && DrawOf(elems).value.args[i] == [];
    }
  }

  /** Likewise a drawing instruction, unless what names its layer is no number. */
  lemma DrawIsItsOwnIff(s: Text, elems: seq<Text>, op: DrawOp)
    requires OneInstruction(s, elems) && |elems| >= 2 && OpOf(elems[0]) == Some(op)
    ensures (forall rest :: DrawAt(s + rest, 0) == DrawOf(elems)) <==> Full(elems) || NoLayer(elems, op)
  {
    hide ParseInstruction, AllAscii, DrawAt, ShapeOf, Reach, OpAt, OpOf, Short, Ones;
    if Full(elems) || NoLayer(elems, op) {
      forall rest
        ensures DrawAt(s + rest, 0) == DrawOf(elems)
      {
        ReadsBefore(s, elems, rest);
        OpAtIff(s + rest, 0);
        if Full(elems) {
          DrawAtIsDraw(s + rest, 0);
        } else {
          NoLayerNoDraw(s + rest, 0, op);
        }
      }
    } else {
      ShortDrawBorrows(s, elems, op);
    }
  }

  const FIVE: Text := [53]

  /** `4.h264,1.0;`, with no layer and no keyframe flag. */
  function BareH264(): Text { PairInstruction(H264, ZERO) }

  /** `4.sync,1.5;` */
  function SyncFive(): Text { PairInstruction(SYNC, FIVE) }

  lemma ShortPair()
    ensures Short(BareH264(), 0)
  {
    hide ParseInstruction;
    assert AsciiElement(H264, COMMA)[1] == DOT;
  }

  lemma BareH264Reads()
    ensures OneInstruction(BareH264(), [H264, ZERO])
  {
    hide ParseInstruction, AsciiElement;
    PairInstructionReads(H264, ZERO);
    ShortPair();
  }

  lemma SyncIsNoNumber()
    ensures ParseSigned(SYNC, I32_MAX) == None
  {
    assert !IsDigit(SYNC[0]);
  }

  /** A bare `h264` and a sync behind it: a keyframe is counted that nobody sent. */
  lemma BorrowedKeyframe()
    ensures OneInstruction(BareH264(), [H264, ZERO]) && UnitOf([H264, ZERO]) == Some(H264Frame(0, false))
    ensures H264At(BareH264() + SyncFive(), 0) == Some(H264Frame(0, true))
  {
    hide ParseInstruction, NthElement, ParseSigned, PairInstruction, Begins, Short;
    var t, end := BareH264() + SyncFive(), |BareH264()|;
    BareH264Reads();
    ReadsBefore(BareH264(), [H264, ZERO], SyncFive());
    PairInstructionReads(SYNC, FIVE);
    InstructionShifted(BareH264(), SyncFive(), 0);
    BeginsIff(t, 0, H264);
    ArgsParse(t, 0, H264);
    assert [H264, ZERO][1..] == [ZERO];
    NthGoesOn(t, 7, 1);
    NthGoesOn(t, 7, 2);
    NthIsElement(t, end, 0);
    NthIsElement(t, end, 1);
    SyncIsNoNumber();
  }

  // ---- everything a session object has seen ----

  /** One call, and the clock when it took the lock. */
  datatype Observation = ToBrowser(text: Text, now: Instant) | ToGuacd(text: Text, now: Instant)

  function Sends(timestamps: seq<int>, now: Instant): seq<Event> {
    seq(|timestamps|, i requires 0 <= i < |timestamps| => Sent(timestamps[i], now))
  }

  function Acks(timestamps: seq<int>, now: Instant): seq<Event> {
    seq(|timestamps|, i requires 0 <= i < |timestamps| => Acked(timestamps[i], now))
  }

  /** The handshake events in what was seen. */
  function EventsOf(seen: seq<Observation>): seq<Event> {
    if seen == [] then []
    else
      var before, last := EventsOf(seen[..|seen| - 1]), seen[|seen| - 1];
      match last
      case ToBrowser(text, now) => before + Sends(Syncs(text), now)
      case ToGuacd(text, now) => before + Acks(Syncs(text), now)
  }

  /** The sync timestamps that went to the browser, and those that came back. */
  function SentTimestamps(seen: seq<Observation>): seq<int> {
    if seen == [] then []
    else
      var before, last := SentTimestamps(seen[..|seen| - 1]), seen[|seen| - 1];
      if last.ToBrowser? then before + Syncs(last.text) else before
  }

  function AckedTimestamps(seen: seq<Observation>): seq<int> {
    if seen == [] then []
    else
      var before, last := AckedTimestamps(seen[..|seen| - 1]), seen[|seen| - 1];
      if last.ToGuacd? then before + Syncs(last.text) else before
  }

  /** The access units passed through. */
  function UnitsOf(seen: seq<Observation>): seq<H264Frame> {
    if seen == [] then []
    else
      var before, last := UnitsOf(seen[..|seen| - 1]), seen[|seen| - 1];
      if last.ToBrowser? then before + AccessUnits(last.text) else before
  }

  function LayersOf(seen: seq<Observation>): Layers {
    if seen == [] then map[]
    else
      var before, last := LayersOf(seen[..|seen| - 1]), seen[|seen| - 1];
      if last.ToBrowser? then AddFrames(before, AccessUnits(last.text), last.now) else before
  }

  /** The chunks as the overpaint report got them: draws only once an earlier
      chunk had passed an access unit through. */
  function PaintsOf(seen: seq<Observation>): seq<Chunk> {
    if seen == [] then []
    else
      var earlier, last := seen[..|seen| - 1], seen[|seen| - 1];
      var draws := if UnitsOf(earlier) == [] then [] else Draws(last.text);
      if last.ToGuacd? then PaintsOf(earlier)
      else PaintsOf(earlier) + [Chunk(LayersOf(seen), draws, last.now)]
  }

  lemma {:induction false} ReplaySends(events: seq<Event>, timestamps: seq<int>, now: Instant)
    ensures var r, r' := Replay(events), Replay(events + Sends(timestamps, now));
            && r'.st == SendAll(r.st, timestamps, now) && r'.acks == r.acks
            && |r'.sent| == |r.sent| + |timestamps|
            && (forall i :: 0 <= i < |r.sent| ==> r'.sent[i] == r.sent[i])
            && (forall i :: 0 <= i < |timestamps| ==> r'.sent[|r.sent| + i].timestamp == timestamps[i])
    decreases |timestamps|
  {
    hide Send, Ack;
    if timestamps == [] {
      assert events + Sends(timestamps, now) == events;
    } else {
      var earlier, last := timestamps[..|timestamps| - 1], timestamps[|timestamps| - 1];
      var all := events + Sends(timestamps, now);
      assert all[..|all| - 1] == events + Sends(earlier, now);
      ReplaySends(events, earlier, now);
    }
  }

  lemma {:induction false} ReplayAcks(events: seq<Event>, timestamps: seq<int>, now: Instant)
    ensures var r, r' := Replay(events), Replay(events + Acks(timestamps, now));
            && r'.st == AckAll(r.st, timestamps, now) && r'.acks == r.acks + |timestamps| && r'.sent == r.sent
    decreases |timestamps|
  {
    hide Send, Ack;
    if timestamps == [] {
      assert events + Acks(timestamps, now) == events;
    } else {
      var earlier, last := timestamps[..|timestamps| - 1], timestamps[|timestamps| - 1];
      var all := events + Acks(timestamps, now);
      assert all[..|all| - 1] == events + Acks(earlier, now);
      ReplayAcks(events, earlier, now);
    }
  }

  lemma EmptyReplay()
    ensures Replay([]) == Run(IDLE, [], [], [], 0)
  {
  }

  /** The run is over exactly the syncs of the texts: those sent, in order, and
      as many acks as came back. */
  lemma {:induction false} EventsAreTheSyncs(seen: seq<Observation>)
    ensures var r, sent := Replay(EventsOf(seen)), SentTimestamps(seen);
            && |r.sent| == |sent| && (forall i :: 0 <= i < |sent| ==> r.sent[i].timestamp == sent[i])
            && r.acks == |AckedTimestamps(seen)|
  {
    hide Syncs, Replay, Sends, Acks;
    if seen == [] {
      EmptyReplay();
    } else {
      var earlier, last := seen[..|seen| - 1], seen[|seen| - 1];
      EventsAreTheSyncs(earlier);
      ReplaySends(EventsOf(earlier), Syncs(last.text), last.now);
      ReplayAcks(EventsOf(earlier), Syncs(last.text), last.now);
    }
  }

  /** How many units went to a layer, and how many of them were keyframes. */
  function UnitsOn(units: seq<H264Frame>, layer: int): nat {
    if units == [] then 0
    else UnitsOn(units[..|units| - 1], layer) + if units[|units| - 1].layer == layer then 1 else 0
  }

  function KeyframesOn(units: seq<H264Frame>, layer: int): nat {
    if units == [] then 0
    else
      var last := units[|units| - 1];
      KeyframesOn(units[..|units| - 1], layer) + if last.layer == layer && last.keyframe then 1 else 0
  }

  /** A layer is known exactly if units went to it, and its figures count them. */
  ghost predicate Tallied(layers: Layers, units: seq<H264Frame>) {
    && (forall l :: l in layers <==> UnitsOn(units, l) > 0)
    && (forall l :: l in layers ==>
          layers[l].frames == UnitsOn(units, l) && layers[l].keyframes == KeyframesOn(units, l))
  }

  lemma {:induction false} UntouchedHasNoKeyframes(units: seq<H264Frame>)
    ensures forall l :: UnitsOn(units, l) == 0 ==> KeyframesOn(units, l) == 0
  {
    if units != [] {
      UntouchedHasNoKeyframes(units[..|units| - 1]);
    }
  }

  lemma {:induction false} FramesStayTallied(layers: Layers, units: seq<H264Frame>, more: seq<H264Frame>, now: Instant)
    requires Tallied(layers, units)
    ensures Tallied(AddFrames(layers, more, now), units + more)
    decreases |more|
  {
    if more == [] {
      assert units + more == units;
    } else {
      var earlier, last := more[..|more| - 1], more[|more| - 1];
      FramesStayTallied(layers, units, earlier, now);
      assert (units + more)[..|units + more| - 1] == units + earlier;
      UntouchedHasNoKeyframes(units + earlier);
    }
  }

  lemma NothingTallied()
    ensures Tallied(map[], [])
  {
  }

  lemma {:induction false} LayersAreTallied(seen: seq<Observation>)
    ensures Tallied(LayersOf(seen), UnitsOf(seen))
  {
    hide Tallied, AccessUnits;
    if seen == [] {
      assert Tallied(map[], []) by { NothingTallied(); }
    } else {
      var earlier, last := seen[..|seen| - 1], seen[|seen| - 1];
      LayersAreTallied(earlier);
      FramesStayTallied(LayersOf(earlier), UnitsOf(earlier), AccessUnits(last.text), last.now);
    }
  }

  /** When the last access unit on a layer was seen. */
  function LastSeen(seen: seq<Observation>, layer: int): Option<Instant> {
    if seen == [] then None
    else
      var last := seen[|seen| - 1];
      if last.ToBrowser? && UnitsOn(AccessUnits(last.text), layer) > 0 then Some(last.now)
      else LastSeen(seen[..|seen| - 1], layer)
  }

  lemma {:induction false} FramesSetTime(layers: Layers, units: seq<H264Frame>, now: Instant, layer: int)
    ensures var after := AddFrames(layers, units, now);
            && (UnitsOn(units, layer) > 0 ==> layer in after && after[layer].lastFrame == now)
            && (UnitsOn(units, layer) == 0 ==>
                  (layer in after <==> layer in layers) && (layer in layers ==> after[layer] == layers[layer]))
    decreases |units|
  {
    if units != [] {
      FramesSetTime(layers, units[..|units| - 1], now, layer);
    }
  }

  lemma {:induction false} LayersKnowTheirTime(seen: seq<Observation>, layer: int)
    ensures layer in LayersOf(seen) <==> LastSeen(seen, layer).Some?
    ensures layer in LayersOf(seen) ==> LastSeen(seen, layer) == Some(LayersOf(seen)[layer].lastFrame)
  {
    hide AccessUnits, UnitsOn, AddFrames;
    if seen != [] {
      var earlier, last := seen[..|seen| - 1], seen[|seen| - 1];
      LayersKnowTheirTime(earlier, layer);
      FramesSetTime(LayersOf(earlier), AccessUnits(last.text), last.now, layer);
    }
  }

  lemma {:induction false} KeyframesAreCounted(units: seq<H264Frame>)
    ensures Keyframes(units) == |set i | 0 <= i < |units| && units[i].keyframe|
  {
    var keys := set i | 0 <= i < |units| && units[i].keyframe;
    if units != [] {
      var before, n := units[..|units| - 1], |units| - 1;
      KeyframesAreCounted(before);
      var earlier := set i | 0 <= i < |before| && before[i].keyframe;
      assert keys == earlier + if units[n].keyframe then {n} else {};
    }
  }

  ghost predicate ClockForward(seen: seq<Observation>) {
    forall i, j :: 0 <= i < j < |seen| ==> seen[i].now <= seen[j].now
  }

  lemma {:induction false} PaintsMoveForward(seen: seq<Observation>)
    requires ClockForward(seen)
    ensures ClockMovesForward(PaintsOf(seen)) && (PaintsOf(seen) != [] ==> seen != [])
    ensures forall i :: 0 <= i < |PaintsOf(seen)| ==> PaintsOf(seen)[i].now <= seen[|seen| - 1].now
  {
    hide LayersOf, UnitsOf, Draws;
    if seen != [] {
      PaintsMoveForward(seen[..|seen| - 1]);
    }
  }

  // ---- the code ----

  lemma OnlyOpcode(s: Text, at: nat, a: Text, b: Text)
    requires a != b
    ensures !Begins(s, at, a) || !Begins(s, at, b)
  {
  }

  /** No instruction is at once a sync, an access unit or a draw. */
  lemma OpcodesDiffer(s: Text, at: nat)
    ensures SyncAt(s, at).Some? ==> H264At(s, at) == None && DrawAt(s, at) == None
    ensures H264At(s, at).Some? ==> DrawAt(s, at) == None
  {
    hide SplitElement, ParseSigned, NthElement, DrawFrom, UnitFrom, Begins;
    assert SYNC[0] != H264[0];
    OnlyOpcode(s, at, SYNC, H264);
    if OpAt(s, at).Some? {
      var opcode := OpcodeOf(OpAt(s, at).value);
      assert opcode[0] != H264[0] && (opcode[0] != SYNC[0] || opcode[1] != SYNC[1]);
      OnlyOpcode(s, at, SYNC, opcode);
      OnlyOpcode(s, at, H264, opcode);
    }
  }

  /** The scan of `observe_to_browser`: syncs and access units always, draws
      only while watching for them. */
  method ScanChunk(text: Text, watching: bool) returns (syncs: seq<int>, frames: seq<H264Frame>, draws: seq<Draw>)
    ensures syncs == Syncs(text)
    ensures frames == AccessUnits(text)
    ensures draws == if watching then Draws(text) else []
  {
    hide SyncAt, H264At, DrawAt, Starts;
    syncs, frames, draws := [], [], [];
    var starts := CollectStarts(text);
    for i := 0 to |starts|
      invariant syncs == Found(text, starts[..i], SyncAt)
      invariant frames == Found(text, starts[..i], H264At)
      invariant draws == if watching then Found(text, starts[..i], DrawAt) else []
    {
      assert starts[..i + 1][..i] == starts[..i];
      OpcodesDiffer(text, starts[i]);
      var sync := SyncAt(text, starts[i]);
      var frame := H264At(text, starts[i]);
      if sync.Some? {
        syncs := syncs + [sync.value];
      } else if frame.Some? {
        frames := frames + [frame.value];
      } else if watching {
        var draw := DrawAt(text, starts[i]);
        if draw.Some? {
          draws := draws + [draw.value];
        }
      }
    }
    assert starts[..|starts|] == starts;
  }

  lemma {:induction false} KeyframesConcat(a: seq<H264Frame>, b: seq<H264Frame>)
    ensures Keyframes(a + b) == Keyframes(a) + Keyframes(b)
  {
    if b == [] {
      assert a + b == a;
    } else {
      assert (a + b)[..|a + b| - 1] == a + b[..|b| - 1];
      KeyframesConcat(a, b[..|b| - 1]);
    }
  }

  lemma PaintStep(chunks: seq<Chunk>, c: Chunk)
    ensures var r, r' := PaintReplay(chunks), PaintReplay(chunks + [c]);
            var (o, lines) := NoteOverpaint(r.o, c.layers, c.draws, c.now);
            r'.o == o && r'.logs == r.logs + lines
  {
    hide NoteOverpaint, Hits;
    assert (chunks + [c])[..|chunks|] == chunks;
  }

  /** What one more chunk for the browser adds to a run. */
  lemma SeenToBrowser(seen: seq<Observation>, text: Text, now: Instant)
    ensures var seen' := seen + [ToBrowser(text, now)];
            var units := AccessUnits(text);
            && Replay(EventsOf(seen')).st == SendAll(Replay(EventsOf(seen)).st, Syncs(text), now)
            && LayersOf(seen') == AddFrames(LayersOf(seen), units, now)
            && UnitsOf(seen') == UnitsOf(seen) + units
            && Keyframes(UnitsOf(seen')) == Keyframes(UnitsOf(seen)) + Keyframes(units)
            && var r, r' := PaintReplay(PaintsOf(seen)), PaintReplay(PaintsOf(seen'));
            && var draws := if UnitsOf(seen) == [] then [] else Draws(text);
            && var (o, lines) := NoteOverpaint(r.o, LayersOf(seen'), draws, now);
            && r'.o == o && r'.logs == r.logs + lines
  {
    hide Syncs, AccessUnits, Draws, NoteOverpaint, SendAll, AddFrames, Keyframes, Replay, PaintReplay, Sends, Acks;
    var seen' := seen + [ToBrowser(text, now)];
    assert seen'[..|seen'| - 1] == seen;
    ReplaySends(EventsOf(seen), Syncs(text), now);
    KeyframesConcat(UnitsOf(seen), AccessUnits(text));
    PaintStep(PaintsOf(seen), Chunk(LayersOf(seen'), if UnitsOf(seen) == [] then [] else Draws(text), now));
  }

  lemma SeenToGuacd(seen: seq<Observation>, text: Text, now: Instant)
    ensures var seen' := seen + [ToGuacd(text, now)];
            && Replay(EventsOf(seen')).st == AckAll(Replay(EventsOf(seen)).st, Syncs(text), now)
            && LayersOf(seen') == LayersOf(seen) && UnitsOf(seen') == UnitsOf(seen) && PaintsOf(seen') == PaintsOf(seen)
  {
    hide Syncs, AccessUnits, Draws, AckAll, Replay, Sends, Acks;
    var seen' := seen + [ToGuacd(text, now)];
    assert seen'[..|seen'| - 1] == seen;
    ReplayAcks(EventsOf(seen), Syncs(text), now);
  }

  class Stats {
    var pending: seq<PendingFrame>
    var framesSent: nat
    var framesAcked: nat
    var unmatchedAcks: nat
    var maxOutstanding: nat
    var lastLag: nat
    var maxLag: nat
    var ewma: real
    var h264Frames: nat
    var h264Keyframes: nat
    var bytesToBrowser: nat
    var bytesToGuacd: nat
    var binaryBlobFrames: nat
    var binaryBlobBytes: nat
    var binaryBlobSaved: nat
    var h264Layers: Layers
    var overpaint: Overpaint
    var h264Seen: bool
    /** Every call so far and every line handed out, which the code does not keep. */
    ghost var seen: seq<Observation>
    ghost var logged: seq<LogLine>

    /** The fields are what the run over everything seen says. */
    ghost predicate Valid()
      reads this
    {
      && Handshake() == Replay(EventsOf(seen)).st
      && h264Layers == LayersOf(seen)
      && h264Frames == |UnitsOf(seen)| && h264Keyframes == Keyframes(UnitsOf(seen))
      && (h264Seen <==> UnitsOf(seen) != [])
      && var paint := PaintReplay(PaintsOf(seen));
      && overpaint == paint.o && logged == paint.logs
    }

    function Handshake(): Sync
      reads `pending, `framesSent, `framesAcked, `unmatchedAcks, `maxOutstanding, `lastLag, `maxLag, `ewma
    {
      Sync(pending, framesSent, framesAcked, unmatchedAcks, maxOutstanding, lastLag, maxLag, ewma)
    }

    constructor ()
      ensures Valid() && seen == [] && logged == []
      ensures Handshake() == IDLE && overpaint == UNPAINTED && h264Layers == map[] && !h264Seen
      ensures h264Frames == h264Keyframes == bytesToBrowser == bytesToGuacd == 0
      ensures binaryBlobFrames == binaryBlobBytes == binaryBlobSaved == 0
    {
      pending, framesSent, framesAcked, unmatchedAcks := [], 0, 0, 0;
      maxOutstanding, lastLag, maxLag, ewma := 0, 0, 0, 0.0;
      h264Frames, h264Keyframes, bytesToBrowser, bytesToGuacd := 0, 0, 0, 0;
      binaryBlobFrames, binaryBlobBytes, binaryBlobSaved := 0, 0, 0;
      h264Layers, overpaint, h264Seen := map[], UNPAINTED, false;
      seen, logged := [], [];
    }

    /** `note_overpaint`. */
    method ReportOverpaint(draws: seq<Draw>, now: Instant) returns (logs: Option<seq<LogLine>>)
      modifies this`overpaint
      ensures var (o, lines) := NoteOverpaint(old(overpaint), h264Layers, draws, now);
              overpaint == o && logs == if lines == [] then None else Some(lines)
    {
      hide NoteDraw, Summarise;
      var lines: seq<LogLine> := [];
      for i := 0 to |draws|
        invariant (overpaint, lines) == NoteDraws(old(overpaint), h264Layers, draws[..i], now)
      {
        assert draws[..i + 1][..i] == draws[..i];
        var (o, l) := NoteDraw(overpaint, h264Layers, draws[i], now);
        overpaint := o;
        lines := lines + l;
      }
      assert draws[..|draws|] == draws;
      var (o, l) := Summarise(overpaint, now);
      overpaint := o;
      lines := lines + l;
      logs := if lines == [] then None else Some(lines);
    }

    method CountFrames(frames: seq<H264Frame>, now: Instant)
      modifies this`h264Frames, this`h264Keyframes, this`h264Layers
      ensures h264Layers == AddFrames(old(h264Layers), frames, now)
      ensures h264Frames == old(h264Frames) + |frames|
      ensures h264Keyframes == old(h264Keyframes) + Keyframes(frames)
    {
      for i := 0 to |frames|
        invariant h264Layers == AddFrames(old(h264Layers), frames[..i], now)
        invariant h264Frames == old(h264Frames) + i
        invariant h264Keyframes == old(h264Keyframes) + Keyframes(frames[..i])
      {
        assert frames[..i + 1][..i] == frames[..i];
        h264Frames := h264Frames + 1;
        if frames[i].keyframe {
          h264Keyframes := h264Keyframes + 1;
        }
        h264Layers := AddFrame(h264Layers, frames[i], now);
      }
      assert frames[..|frames|] == frames;
    }

    method SendFrames(timestamps: seq<int>, now: Instant)
      modifies this`pending, this`framesSent, this`maxOutstanding
      ensures Handshake() == SendAll(old(Handshake()), timestamps, now)
    {
      for i := 0 to |timestamps|
        invariant Handshake() == SendAll(old(Handshake()), timestamps[..i], now)
      {
        assert timestamps[..i + 1][..i] == timestamps[..i];
        framesSent := framesSent + 1;
        if |pending| >= MAX_PENDING {
          pending := pending[1..];
        }
        pending := pending + [PendingFrame(timestamps[i], now)];
        if |pending| > maxOutstanding {
          maxOutstanding := |pending|;
        }
      }
      assert timestamps[..|timestamps|] == timestamps;
    }

    /** `observe_to_browser`, field by field. */
    method CountChunk(text: Text, now: Instant) returns (logs: Option<seq<LogLine>>)
      modifies this
      ensures Handshake() == SendAll(old(Handshake()), Syncs(text), now)
      ensures h264Layers == AddFrames(old(h264Layers), AccessUnits(text), now)
      ensures h264Frames == old(h264Frames) + |AccessUnits(text)|
      ensures h264Keyframes == old(h264Keyframes) + Keyframes(AccessUnits(text))
      ensures h264Seen == (old(h264Seen) || AccessUnits(text) != [])
      ensures var draws := if old(h264Seen) then Draws(text) else [];
              var (o, lines) := NoteOverpaint(old(overpaint), h264Layers, draws, now);
              overpaint == o && logs == if lines == [] then None else Some(lines)
      ensures bytesToBrowser == old(bytesToBrowser) + |text| && bytesToGuacd == old(bytesToGuacd)
      ensures binaryBlobFrames == old(binaryBlobFrames) && binaryBlobBytes == old(binaryBlobBytes)
              && binaryBlobSaved == old(binaryBlobSaved)
      ensures seen == old(seen) && logged == old(logged)
    {
      hide *;
      ghost var handshake := Handshake();
      var syncs, frames, draws := ScanChunk(text, h264Seen);
      h264Seen := h264Seen || frames != [];
      bytesToBrowser := bytesToBrowser + |text|;
      CountFrames(frames, now);
      logs := ReportOverpaint(draws, now);
      assert Handshake() == handshake;
      SendFrames(syncs, now);
    }

    /** `observe_to_browser`. */
    method ObserveToBrowser(text: Text, now: Instant) returns (logs: Option<seq<LogLine>>)
      requires Valid()
      modifies this
      ensures Valid() && seen == old(seen) + [ToBrowser(text, now)]
      ensures logged == old(logged) + (if logs == None then [] else logs.value)
      ensures bytesToBrowser == old(bytesToBrowser) + |text| && bytesToGuacd == old(bytesToGuacd)
      ensures binaryBlobFrames == old(binaryBlobFrames) && binaryBlobBytes == old(binaryBlobBytes)
              && binaryBlobSaved == old(binaryBlobSaved)
    {
      hide Syncs, AccessUnits, Draws, NoteOverpaint, SendAll, AddFrames, Keyframes, Replay, PaintReplay,
        EventsOf, UnitsOf, LayersOf, PaintsOf;
      SeenToBrowser(seen, text, now);
      logs := CountChunk(text, now);
      seen := seen + [ToBrowser(text, now)];
      logged := logged + (if logs == None then [] else logs.value);
    }

    method AcknowledgeFrame(timestamp: int, now: Instant)
      modifies this`pending, this`framesAcked, this`unmatchedAcks, this`lastLag, this`maxLag, this`ewma
      ensures Handshake() == Ack(old(Handshake()), timestamp, now)
    {
      hide LagMs;
      var index := 0;
      while index < |pending| && pending[index].timestamp != timestamp
        invariant index <= |pending|
        invariant forall k :: 0 <= k < index ==> pending[k].timestamp != timestamp
      {
        index := index + 1;
      }
      assert index == Position(pending, timestamp);
      if index == |pending| {
        unmatchedAcks := unmatchedAcks + 1;
        return;
      }
      var lag := LagMs(now, pending[index].sentAt);
      pending := pending[index + 1..];
      framesAcked := framesAcked + 1;
      lastLag := lag;
      if lag > maxLag {
        maxLag := lag;
      }
      ewma := if framesAcked == 1 then lag as real
              else LAG_EWMA_ALPHA * (lag as real) + (1.0 - LAG_EWMA_ALPHA) * ewma;
    }

    method AcknowledgeAll(acks: seq<int>, now: Instant)
      modifies this`pending, this`framesAcked, this`unmatchedAcks, this`lastLag, this`maxLag, this`ewma
      ensures Handshake() == AckAll(old(Handshake()), acks, now)
    {
      hide Ack;
      for i := 0 to |acks|
        invariant Handshake() == AckAll(old(Handshake()), acks[..i], now)
      {
        assert acks[..i + 1][..i] == acks[..i];
        AcknowledgeFrame(acks[i], now);
      }
      assert acks[..|acks|] == acks;
    }

    /** `observe_to_guacd`. */
    method ObserveToGuacd(text: Text, now: Instant)
      requires Valid()
      modifies this
      ensures Valid() && seen == old(seen) + [ToGuacd(text, now)] && logged == old(logged)
      ensures bytesToGuacd == old(bytesToGuacd) + |text| && bytesToBrowser == old(bytesToBrowser)
      ensures binaryBlobFrames == old(binaryBlobFrames) && binaryBlobBytes == old(binaryBlobBytes)
              && binaryBlobSaved == old(binaryBlobSaved)
    {
      hide Syncs, AccessUnits, Draws, AckAll, Replay, PaintReplay, Keyframes, EventsOf, UnitsOf, LayersOf, PaintsOf;
      var acks, _, _ := ScanChunk(text, false);
      bytesToGuacd := bytesToGuacd + |text|;
      AcknowledgeAll(acks, now);
      SeenToGuacd(seen, text, now);
      seen := seen + [ToGuacd(text, now)];
    }

    /** `observe_binary_blob`: the saving is exactly what base64 would have
        added to this payload. */
    method ObserveBinaryBlob(payload: seq<Byte>)
      requires Valid()
      modifies this`binaryBlobFrames, this`binaryBlobBytes, this`binaryBlobSaved
      ensures Valid() && binaryBlobFrames == old(binaryBlobFrames) + 1
      ensures binaryBlobBytes == old(binaryBlobBytes) + |payload|
      ensures binaryBlobSaved == old(binaryBlobSaved) + |Base64.Encode(payload)| - |payload|
    {
      var base64Len := (|payload| + 2) / 3 * 4;
      binaryBlobFrames := binaryBlobFrames + 1;
      binaryBlobBytes := binaryBlobBytes + |payload|;
      binaryBlobSaved := binaryBlobSaved + (base64Len - |payload|);
    }
  }

  // ---- what the object says at any moment ----

  /** After any calls whatever, the object's handshake figures are right about
      the texts it was shown: frames sent are the syncs that went out, pending
      are the newest of them, acks are each counted once, the acks that matched
      name frames each sent once, in order and no longer pending, and the peak is
      the largest backlog of any moment. */
  lemma SessionAccounting(stats: Stats)
    requires stats.Valid()
    ensures var sent, p := SentTimestamps(stats.seen), stats.pending;
            && stats.framesSent == |sent| && |p| <= MAX_PENDING && |p| <= |sent|
            && (forall i :: 0 <= i < |p| ==> p[i].timestamp == sent[|sent| - |p| + i])
            && stats.framesAcked + |p| <= stats.framesSent
            && stats.framesAcked + stats.unmatchedAcks == |AckedTimestamps(stats.seen)|
            && var events := EventsOf(stats.seen);
            && var matched := Replay(events).matched;
            && |matched| == |MatchedBy(events)| == stats.framesAcked && StrictlyIncreasing(matched)
            && (forall i :: 0 <= i < |matched| ==>
                  0 <= matched[i] < |sent| - |p| && sent[matched[i]] == MatchedBy(events)[i].timestamp)
            && (forall k :: 0 <= k <= |events| ==> Backlog(events, k) <= stats.maxOutstanding)
            && (exists k :: 0 <= k <= |events| && Backlog(events, k) == stats.maxOutstanding)
  {
    hide Replay, Backlog, EventsOf, SentTimestamps, AckedTimestamps, StrictlyIncreasing, PaintReplay, LayersOf, UnitsOf,
      MatchedBy;
    var events := EventsOf(stats.seen);
    EventsAreTheSyncs(stats.seen);
    HandshakeAccounting(events);
    assert stats.Handshake() == Replay(events).st;
    assert stats.pending == Replay(events).st.pending;
  }

  /** And its lag figures are those of the acks that matched: the last, the
      largest, and the weighted mean, which stays between the smallest and the
      largest of them. */
  lemma SessionLags(stats: Stats, lo: nat)
    requires stats.Valid() && stats.framesAcked > 0
    requires forall i :: 0 <= i < |Replay(EventsOf(stats.seen)).lags| ==> lo <= Replay(EventsOf(stats.seen)).lags[i]
    ensures var lags := Replay(EventsOf(stats.seen)).lags;
            && |lags| == stats.framesAcked && stats.lastLag == lags[|lags| - 1] && stats.maxLag in lags
            && stats.ewma == Average(lags) && lo as real <= stats.ewma <= stats.maxLag as real
  {
    hide Replay, EventsOf, PaintReplay, LayersOf, UnitsOf, Average, QueueSound, AcksSound;
    var events := EventsOf(stats.seen);
    EveryRunIsSound(events);
    assert stats.Handshake() == Replay(events).st;
    LagFigures(events, lo, stats.maxLag);
  }

  /** A layer is watched exactly if an access unit went to it, and its figures
      and the totals count those units. */
  lemma SessionLayers(stats: Stats)
    requires stats.Valid()
    ensures Tallied(stats.h264Layers, UnitsOf(stats.seen)) && stats.h264Frames == |UnitsOf(stats.seen)|
    ensures stats.h264Seen <==> UnitsOf(stats.seen) != []
    ensures var units := UnitsOf(stats.seen); stats.h264Keyframes == |set i | 0 <= i < |units| && units[i].keyframe|
    ensures forall l :: l in stats.h264Layers ==> LastSeen(stats.seen, l) == Some(stats.h264Layers[l].lastFrame)
  {
    hide UnitsOf, LayersOf, LastSeen, Tallied, Replay, EventsOf, PaintReplay;
    LayersAreTallied(stats.seen);
    KeyframesAreCounted(UnitsOf(stats.seen));
    forall l
      ensures l in LayersOf(stats.seen) ==> LastSeen(stats.seen, l) == Some(LayersOf(stats.seen)[l].lastFrame)
    {
      LayersKnowTheirTime(stats.seen, l);
    }
  }

  /** What the lines of a session's overpaint report obey, at time `now`. */
  ghost predicate Bounded(o: Overpaint, logs: seq<LogLine>, hits: nat, first: Option<Instant>, now: Instant) {
    && o.total == hits == SumOf(o.counts)
    && (o.total == 0 ==> logs == [])
    && (o.total <= 20 ==> Details(logs) == o.total)
    && (o.total > 0 ==>
      && first.Some? && first.value <= now
      && var t := now - first.value;
      && 1 <= Summaries(logs) <= t / 30_000_000_000 + 1
      && Details(logs) <= 20 * (t / 60_000_000_000 + 1))
  }

  lemma BoundedLater(o: Overpaint, logs: seq<LogLine>, hits: nat, first: Option<Instant>, t: Instant, now: Instant)
    requires Bounded(o, logs, hits, first, t) && t <= now
    ensures Bounded(o, logs, hits, first, now)
  {
    hide SumOf, Details;
    if first.Some? && first.value <= t {
      assert (t - first.value) / 60_000_000_000 <= (now - first.value) / 60_000_000_000;
      assert (t - first.value) / 30_000_000_000 <= (now - first.value) / 30_000_000_000;
    }
  }

  lemma NothingPainted(now: Instant)
    ensures var r := PaintReplay([]); Bounded(r.o, r.logs, r.hits, r.first, now)
  {
  }

  lemma PaintsAreBounded(chunks: seq<Chunk>)
    requires chunks != [] && ClockMovesForward(chunks)
    ensures var r := PaintReplay(chunks); Bounded(r.o, r.logs, r.hits, r.first, chunks[|chunks| - 1].now)
  {
    hide PaintReplay, SumOf, Details, ClockMovesForward;
    OverpaintLoggingIsBounded(chunks);
  }

  /** With a clock that never goes back, the lines handed out obey the rate
      limits, counted from the first overpaint, and the total is the number of
      draws that hit an H.264 layer and the sum of the counts. */
  lemma SessionLogging(stats: Stats, now: Instant)
    requires stats.Valid() && ClockForward(stats.seen)
    requires stats.seen != [] ==> stats.seen[|stats.seen| - 1].now <= now
    ensures var r := PaintReplay(PaintsOf(stats.seen));
            Bounded(stats.overpaint, stats.logged, r.hits, r.first, now)
  {
    hide PaintReplay, PaintsOf, Bounded, Replay, EventsOf, LayersOf, UnitsOf, Keyframes;
    var chunks := PaintsOf(stats.seen);
    PaintsMoveForward(stats.seen);
    if chunks == [] {
      NothingPainted(now);
    } else {
      PaintsAreBounded(chunks);
      var r := PaintReplay(chunks);
      BoundedLater(r.o, r.logs, r.hits, r.first, chunks[|chunks| - 1].now, now);
    }
  }
}
