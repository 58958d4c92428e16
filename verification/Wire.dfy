/** The Guacamole wire format: `LENGTH.VALUE` elements separated by `,` and
    ended by `;`, where LENGTH counts code points. */
module Wire {
  import opened Bytes

  /** An element as read: what it says, where the next one would start, and
      whether `,` or `;` ended it. */
  datatype Element = Element(value: Text, next: nat, terminator: Byte)

  /** One complete instruction: opcode and arguments, and the offset it ends at. */
  datatype Instr = Instr(elems: seq<Text>, end: nat)

  /** A text as complete instructions followed by what did not parse. */
  datatype Scanned = Scanned(instrs: seq<seq<Text>>, tail: Text)

  // ---- specification of the parser ----

  /** Where the run of digits starting at `at` stops. */
  function DigitsEnd(s: Text, at: nat): (d: nat)
    requires at <= |s|
    ensures at <= d <= |s|
    ensures AllDigits(s[at..d])
    ensures d < |s| ==> !IsDigit(s[d])
    decreases |s| - at
  {
    if at == |s| || !IsDigit(s[at]) then at else DigitsEnd(s, at + 1)
  }

  /** Where `n` code points starting at `at` stop, going by lead bytes alone. */
  function CharsEnd(s: Text, at: nat, n: nat): (r: Option<nat>)
    requires at <= |s|
    ensures r.Some? ==> at + n <= r.value <= |s|
    decreases n
  {
    if n == 0 then Some(at)
    else if at == |s| || LeadWidth(s[at]) == 0 || at + LeadWidth(s[at]) > |s| then None
    else CharsEnd(s, at + LeadWidth(s[at]), n - 1)
  }

  function ParseElement(s: Text, at: nat): (r: Option<Element>)
    ensures r.Some? ==> at + |r.value.value| + 2 < r.value.next <= |s|
    ensures r.Some? ==> r.value.terminator == COMMA || r.value.terminator == SEMICOLON
  {
    if at > |s| then None
    else
      var d := DigitsEnd(s, at);
      if d == at || d == |s| || s[d] != DOT || DigitsValue(s[at..d]) > USIZE_MAX then None
      else
        match CharsEnd(s, d + 1, DigitsValue(s[at..d]))
        case None => None
        case Some(end) =>
          if end == |s| || (s[end] != COMMA && s[end] != SEMICOLON) then None
          else Some(Element(s[d + 1..end], end + 1, s[end]))
  }

  /** The instruction at `at`, if a complete one is there. */
  function ParseInstruction(s: Text, at: nat): (r: Option<Instr>)
    ensures r.Some? ==> r.value.elems != [] && at < r.value.end <= |s|
    decreases |s| - at, 0
  {
    match ParseElement(s, at)
    case None => None
    case Some(e) => Continue(s, [e.value], e)
  }

  /** The instruction whose elements so far are `read`, the last of them `e`. */
  function Continue(s: Text, read: seq<Text>, e: Element): (r: Option<Instr>)
    requires read != [] && e.next <= |s|
    ensures r.Some? ==> r.value.elems != [] && e.next <= r.value.end <= |s|
    decreases |s| - e.next, 1
  {
    if e.terminator == SEMICOLON then Some(Instr(read, e.next))
    else
      match ParseInstruction(s, e.next)
      case None => None
      case Some(i) => Some(Instr(read + i.elems, i.end))
  }

  lemma NothingAtTheEnd(s: Text)
    ensures ParseInstruction(s, |s|) == None
  {
  }

  function Scan(s: Text, at: nat): Scanned
    requires at <= |s|
    decreases |s| - at
  {
    match ParseInstruction(s, at)
    case None => Scanned([], s[at..])
    case Some(i) =>
      var rest := Scan(s, i.end);
      Scanned([i.elems] + rest.instrs, rest.tail)
  }

  /** A run of complete instructions, which is what the proxy loop hands on. */
  predicate Complete(s: Text) { Scan(s, 0).tail == [] }

  function Concat(ts: seq<Text>): Text {
    if ts == [] then [] else ts[0] + Concat(ts[1..])
  }

  /** Reads of a stream, each but the last a run of complete instructions. */
  ghost predicate CutAtBoundaries(chunks: seq<Text>) { forall i :: 0 <= i < |chunks| - 1 ==> Complete(chunks[i]) }

  // ---- the parser only looks at what it consumes ----

  lemma {:induction false} DigitsEndCopied(s: Text, i: nat, t: Text, j: nat, n: nat)
    requires Agree(s, i, t, j, n) && DigitsEnd(s, i) < i + n
    ensures DigitsEnd(t, j) == DigitsEnd(s, i) - i + j
    decreases n
  {
    if IsDigit(s[i]) {
      DigitsEndCopied(s, i + 1, t, j + 1, n - 1);
    }
  }

  lemma {:induction false} CharsEndCopied(s: Text, i: nat, t: Text, j: nat, n: nat, chars: nat)
    requires Agree(s, i, t, j, n) && CharsEnd(s, i, chars).Some? && CharsEnd(s, i, chars).value <= i + n
    ensures CharsEnd(t, j, chars) == Some(CharsEnd(s, i, chars).value - i + j)
    decreases chars
  {
    if chars > 0 {
      var w := LeadWidth(s[i]);
      CharsEndCopied(s, i + w, t, j + w, n - w, chars - 1);
    }
  }

  /** An element reads the same wherever its bytes are copied. */
  lemma ElementCopied(s: Text, i: nat, t: Text, j: nat, n: nat)
    requires Agree(s, i, t, j, n) && ParseElement(s, i).Some? && ParseElement(s, i).value.next <= i + n
    ensures var e := ParseElement(s, i).value;
            ParseElement(t, j) == Some(Element(e.value, e.next - i + j, e.terminator))
  {
    hide DigitsEnd, CharsEnd, DigitsValue;
    var d := DigitsEnd(s, i);
    DigitsEndCopied(s, i, t, j, n);
    assert t[j..d - i + j] == s[i..d];
    var chars := DigitsValue(s[i..d]);
    CharsEndCopied(s, d + 1, t, d - i + j + 1, n - (d - i) - 1, chars);
    var end := CharsEnd(s, d + 1, chars).value;
    assert t[d - i + j + 1..end - i + j] == s[d + 1..end];
  }

  lemma AgreeSuffix(s: Text, i: nat, t: Text, j: nat, n: nat, skip: nat)
    requires Agree(s, i, t, j, n) && skip <= n
    ensures Agree(s, i + skip, t, j + skip, n - skip)
  {
  }

  lemma {:induction false} InstructionCopied(s: Text, i: nat, t: Text, j: nat, n: nat)
    requires Agree(s, i, t, j, n) && ParseInstruction(s, i).Some? && ParseInstruction(s, i).value.end <= i + n
    ensures var x := ParseInstruction(s, i).value;
            ParseInstruction(t, j) == Some(Instr(x.elems, x.end - i + j))
    decreases n
  {
    hide ParseElement, Agree;
    ElementCopied(s, i, t, j, n);
    var e := ParseElement(s, i).value;
    if e.terminator != SEMICOLON {
      AgreeSuffix(s, i, t, j, n, e.next - i);
      InstructionCopied(s, e.next, t, e.next - i + j, n - (e.next - i));
    }
  }

  /** A text put in front changes nothing about how the rest reads. */
  lemma InstructionShifted(a: Text, b: Text, at: nat)
    requires at <= |b|
    ensures ParseInstruction(a + b, |a| + at) ==
            match ParseInstruction(b, at) case None => None case Some(i) => Some(Instr(i.elems, |a| + i.end))
  {
    hide ParseInstruction;
    if ParseInstruction(b, at).Some? {
      InstructionCopied(b, at, a + b, |a| + at, |b| - at);
    } else if ParseInstruction(a + b, |a| + at).Some? {
      InstructionCopied(a + b, |a| + at, b, at, |b| - at);
    }
  }

  lemma {:induction false} ScanShifted(a: Text, b: Text, at: nat)
    requires at <= |b|
    ensures Scan(a + b, |a| + at) == Scan(b, at)
    decreases |b| - at
  {
    hide ParseInstruction;
    InstructionShifted(a, b, at);
    if ParseInstruction(b, at).Some? {
      ScanShifted(a, b, ParseInstruction(b, at).value.end);
    } else {
      assert (a + b)[|a| + at..] == b[at..];
    }
  }

  /** Reading a run of complete instructions and then more equals reading both
      together. */
  lemma {:induction false} ScanConcat(a: Text, b: Text, at: nat)
    requires at <= |a| && Scan(a, at).tail == []
    ensures Scan(a + b, at) == Scanned(Scan(a, at).instrs + Scan(b, 0).instrs, Scan(b, 0).tail)
    decreases |a| - at
  {
    hide ParseInstruction;
    if at == |a| {
      ScanShifted(a, b, 0);
    } else {
      InstructionCopied(a, at, a + b, at, |a| - at);
      var end := ParseInstruction(a, at).value.end;
      ScanConcat(a, b, end);
      var x := ParseInstruction(a, at).value.elems;
      assert [x] + (Scan(a, end).instrs + Scan(b, 0).instrs) == Scan(a, at).instrs + Scan(b, 0).instrs;
    }
  }

  // ---- the printer, and the parser after it ----

  predicate AllUtf8(elems: seq<Text>) { forall i :: 0 <= i < |elems| ==> ValidUtf8(elems[i]) }

  /** Values no longer than a `usize` length prefix can say. */
  predicate Fit(elems: seq<Text>) { forall i :: 0 <= i < |elems| ==> |elems[i]| <= USIZE_MAX }

  function PrintElement(v: Text): Text
    requires ValidUtf8(v)
  {
    Decimal(CharCount(v)) + [DOT] + v
  }

  function PrintInstruction(elems: seq<Text>): (r: Text)
    requires elems != [] && AllUtf8(elems)
    ensures r != []
  {
    if |elems| == 1 then PrintElement(elems[0]) + [SEMICOLON]
    else PrintElement(elems[0]) + [COMMA] + PrintInstruction(elems[1..])
  }

  function PrintAll(instrs: seq<seq<Text>>): Text
    requires forall i :: 0 <= i < |instrs| ==> instrs[i] != [] && AllUtf8(instrs[i])
  {
    if instrs == [] then [] else PrintInstruction(instrs[0]) + PrintAll(instrs[1..])
  }

  lemma {:induction false} DigitsEndIs(s: Text, at: nat, d: nat)
    requires at <= d < |s| && !IsDigit(s[d])
    requires forall k :: at <= k < d ==> IsDigit(s[k])
    ensures DigitsEnd(s, at) == d
    decreases d - at
  {
    if at < d {
      DigitsEndIs(s, at + 1, d);
    }
  }

  lemma {:induction false} CharsEndIs(s: Text, at: nat, end: nat)
    requires at <= end <= |s| && WholeChars(s, at, end)
    ensures CharsEnd(s, at, CharsIn(s, at, end)) == Some(end)
    decreases end - at
  {
    if at < end {
      CharsEndIs(s, at + LeadWidth(s[at]), end);
    }
  }

  /** The bytes at `at` are a numeral ending at `d`, a dot, as many code points
      as the numeral says, and a terminator at `end`. */
  predicate ElementAt(s: Text, at: nat, d: nat, end: nat) {
    && at < d < end < |s|
    && AllDigits(s[at..d]) && s[d] == DOT
    && WholeChars(s, d + 1, end) && DigitsValue(s[at..d]) == CharsIn(s, d + 1, end) <= USIZE_MAX
    && (s[end] == COMMA || s[end] == SEMICOLON)
  }

  lemma ElementReads(s: Text, at: nat, d: nat, end: nat)
    requires ElementAt(s, at, d, end)
    ensures ParseElement(s, at) == Some(Element(s[d + 1..end], end + 1, s[end]))
  {
    assert forall k :: at <= k < d ==> s[k] == s[at..d][k - at];
    DigitsEndIs(s, at, d);
    CharsEndIs(s, d + 1, end);
  }

  lemma PrintedElementReads(v: Text, t: Byte, rest: Text)
    requires ValidUtf8(v) && |v| <= USIZE_MAX && (t == COMMA || t == SEMICOLON)
    ensures ParseElement(PrintElement(v) + [t] + rest, 0) == Some(Element(v, |PrintElement(v)| + 1, t))
  {
    hide DigitsValue, Decimal, WholeChars, CharsIn, ParseElement;
    var digits := Decimal(CharCount(v));
    var s := PrintElement(v) + [t] + rest;
    var d, end := |digits|, |PrintElement(v)|;
    assert s[0..d] == digits;
    assert s[d + 1..end] == v;
    assert forall k :: d + 1 <= k < end ==> s[k] == v[k - (d + 1)];
    WholeCharsCopied(v, 0, |v|, s, d + 1);
    DecimalValue(CharCount(v));
    ElementReads(s, 0, d, end);
  }

  /** Parsing a printed instruction gives the instruction back, whatever its
      values contain and whatever follows it. */
  lemma {:induction false} ParserInvertsPrinter(elems: seq<Text>, rest: Text)
    requires elems != [] && AllUtf8(elems) && Fit(elems)
    ensures ParseInstruction(PrintInstruction(elems) + rest, 0) == Some(Instr(elems, |PrintInstruction(elems)|))
  {
    hide ParseElement, PrintElement;
    var v := elems[0];
    if |elems| == 1 {
      PrintedElementReads(v, SEMICOLON, rest);
      assert elems == [v];
    } else {
      var first, more := PrintElement(v) + [COMMA], PrintInstruction(elems[1..]) + rest;
      assert PrintInstruction(elems) + rest == first + more;
      PrintedElementReads(v, COMMA, more);
      ParserInvertsPrinter(elems[1..], rest);
      InstructionShifted(first, more, 0);
      assert elems == [v] + elems[1..];
    }
  }

  /** Scanning printed instructions gives exactly those, then the rest. */
  lemma {:induction false} ScanInvertsPrint(instrs: seq<seq<Text>>, rest: Text)
    requires forall i :: 0 <= i < |instrs| ==> instrs[i] != [] && AllUtf8(instrs[i]) && Fit(instrs[i])
    ensures Scan(PrintAll(instrs) + rest, 0) == Scanned(instrs + Scan(rest, 0).instrs, Scan(rest, 0).tail)
  {
    hide ParseInstruction, PrintInstruction;
    if instrs == [] {
      assert PrintAll(instrs) + rest == rest;
    } else {
      var first, more := PrintInstruction(instrs[0]), PrintAll(instrs[1..]) + rest;
      assert PrintAll(instrs) + rest == first + more;
      ParserInvertsPrinter(instrs[0], more);
      ScanShifted(first, more, 0);
      ScanInvertsPrint(instrs[1..], rest);
      assert [instrs[0]] + (instrs[1..] + Scan(rest, 0).instrs) == instrs + Scan(rest, 0).instrs;
    }
  }

  // ---- the parser cuts valid text only between code points ----

  lemma {:induction false} CharsEndIsBoundary(s: Text, at: nat, n: nat)
    requires at <= |s| && WholeChars(s, at, |s|) && CharsEnd(s, at, n).Some?
    ensures var end := CharsEnd(s, at, n).value;
            WholeChars(s, at, end) && CharsIn(s, at, end) == n && WholeChars(s, end, |s|)
    decreases n
  {
    if n > 0 {
      CharsEndIsBoundary(s, at + LeadWidth(s[at]), n - 1);
    }
  }

  /** Every element accepted in valid text has the printed shape, so its value
      is sliced between code points wherever the scan was started. */
  lemma ElementSlicesOnBoundaries(s: Text, at: nat)
    requires ValidUtf8(s) && ParseElement(s, at).Some?
    ensures var e := ParseElement(s, at).value;
            && ElementAt(s, at, e.next - |e.value| - 2, e.next - 1)
            && s[e.next - |e.value| - 1..e.next - 1] == e.value && s[e.next - 1] == e.terminator
            && WholeChars(s, 0, e.next - |e.value| - 1) && WholeChars(s, 0, e.next - 1)
  {
    hide DigitsEnd, CharsEnd, DigitsValue, CharsIn;
    var d, e := DigitsEnd(s, at), ParseElement(s, at).value;
    CutAtLead(s, 0, d, |s|);
    CharsEndIsBoundary(s, d + 1, DigitsValue(s[at..d]));
    CutAtLead(s, 0, e.next - 1, |s|);
    CutAtLead(s, 0, d + 1, |s|);
  }

  // ---- canonical `blob` instructions ----

  const BLOB: Text := [98, 108, 111, 98]

  /** `LENGTH.VALUE` with the length in bytes, which for ASCII is code points. */
  function AsciiElement(v: Text, terminator: Byte): Text {
    Decimal(|v|) + [DOT] + v + [terminator]
  }

  /** `4.blob,<len>.<index>,<len>.<payload>;` */
  function BlobInstruction(index: Text, payload: Text): Text {
    AsciiElement(BLOB, COMMA) + AsciiElement(index, COMMA) + AsciiElement(payload, SEMICOLON)
  }

  lemma AsciiElementIsPrinted(v: Text, terminator: Byte)
    requires IsAscii(v)
    ensures ValidUtf8(v) && PrintElement(v) + [terminator] == AsciiElement(v, terminator)
  {
    AsciiIsWhole(v, 0, |v|);
  }

  /** `<len>.<opcode>,<len>.<value>;` */
  function PairInstruction(opcode: Text, v: Text): Text { AsciiElement(opcode, COMMA) + AsciiElement(v, SEMICOLON) }

  lemma PairInstructionReads(opcode: Text, v: Text)
    requires IsAscii(opcode) && IsAscii(v) && |opcode| <= USIZE_MAX && |v| <= USIZE_MAX
    ensures ParseInstruction(PairInstruction(opcode, v), 0) == Some(Instr([opcode, v], |PairInstruction(opcode, v)|))
  {
    hide ParseInstruction, AsciiElement, PrintElement, ValidUtf8;
    AsciiElementIsPrinted(opcode, COMMA);
    AsciiElementIsPrinted(v, SEMICOLON);
    var elems, text := [opcode, v], PairInstruction(opcode, v);
    assert elems[1..] == [v];
    assert PrintInstruction([v]) == AsciiElement(v, SEMICOLON);
    assert PrintInstruction(elems) == text;
    ParserInvertsPrinter(elems, []);
    assert text + [] == text;
  }

  lemma BlobInstructionReads(index: Text, payload: Text, rest: Text)
    requires IsAscii(index) && IsAscii(payload) && |index| <= USIZE_MAX && |payload| <= USIZE_MAX
    ensures ParseInstruction(BlobInstruction(index, payload) + rest, 0)
            == Some(Instr([BLOB, index, payload], |BlobInstruction(index, payload)|))
  {
    hide ParseInstruction, PrintElement, AsciiElement, ValidUtf8;
    AsciiElementIsPrinted(BLOB, COMMA);
    AsciiElementIsPrinted(index, COMMA);
    AsciiElementIsPrinted(payload, SEMICOLON);
    var elems := [BLOB, index, payload];
    assert elems[1..] == [index, payload] && elems[1..][1..] == [payload];
    assert PrintInstruction([payload]) == AsciiElement(payload, SEMICOLON);
    assert PrintInstruction([index, payload]) == AsciiElement(index, COMMA) + AsciiElement(payload, SEMICOLON);
    assert PrintInstruction(elems) == BlobInstruction(index, payload);
    ParserInvertsPrinter(elems, rest);
  }

  lemma {:induction false} CharsEndOfAscii(s: Text, at: nat, n: nat)
    requires at <= |s| && CharsEnd(s, at, n).Some?
    requires forall k :: at <= k < CharsEnd(s, at, n).value ==> s[k] < 128
    ensures CharsEnd(s, at, n).value == at + n
    decreases n
  {
    if n > 0 {
      CharsEndOfAscii(s, at + LeadWidth(s[at]), n - 1);
    }
  }

  /** The printed form is the only shortest way to write an ASCII element. */
  lemma AsciiElementIsMinimal(s: Text, at: nat)
    requires ParseElement(s, at).Some? && IsAscii(ParseElement(s, at).value.value)
    ensures var e := ParseElement(s, at).value;
            var printed := AsciiElement(e.value, e.terminator);
            && |printed| <= e.next - at
            && (|printed| == e.next - at ==> s[at..e.next] == printed)
  {
    hide DigitsEnd, CharsEnd, DigitsValue, Decimal;
    var d, e := DigitsEnd(s, at), ParseElement(s, at).value;
    assert forall k :: d + 1 <= k < e.next - 1 ==> s[k] == e.value[k - (d + 1)];
    CharsEndOfAscii(s, d + 1, DigitsValue(s[at..d]));
    DecimalIsMinimal(s[at..d]);
    assert s[at..e.next] == s[at..d] + [DOT] + e.value + [e.terminator];
  }

  lemma AsciiElementLength(v: Text, t: Byte, u: Byte)
    ensures |AsciiElement(v, t)| == |AsciiElement(v, u)|
  {
  }

  /** A complete instruction whose first three elements are ASCII is at least
      as long as the canonical print of those three, and as long only if it is
      that print. */
  lemma BlobInstructionIsMinimal(s: Text)
    requires ParseInstruction(s, 0).Some? && ParseInstruction(s, 0).value.end == |s|
    requires var elems := ParseInstruction(s, 0).value.elems;
             |elems| >= 3 && elems[0] == BLOB && IsAscii(elems[1]) && IsAscii(elems[2])
    ensures var elems := ParseInstruction(s, 0).value.elems;
            var printed := BlobInstruction(elems[1], elems[2]);
            && |printed| <= |s|
            && (|printed| == |s| ==> s == printed && |elems| == 3)
  {
    hide ParseElement, AsciiElement;
    var elems := ParseInstruction(s, 0).value.elems;
    var e0 := ParseElement(s, 0).value;
    assert ParseInstruction(s, 0) == Continue(s, [e0.value], e0);
    var e1 := ParseElement(s, e0.next).value;
    assert ParseInstruction(s, e0.next) == Continue(s, [e1.value], e1);
    var e2 := ParseElement(s, e1.next).value;
    assert ParseInstruction(s, e1.next) == Continue(s, [e2.value], e2);
    assert elems[0] == e0.value && elems[1] == e1.value && elems[2] == e2.value;
    AsciiElementIsMinimal(s, 0);
    AsciiElementIsMinimal(s, e0.next);
    AsciiElementIsMinimal(s, e1.next);
    AsciiElementLength(e2.value, e2.terminator, SEMICOLON);
    if |BlobInstruction(elems[1], elems[2])| == |s| {
      assert s == s[..e0.next] + s[e0.next..e1.next] + s[e1.next..e2.next];
    }
  }

  // ---- the code ----

  /** `element`, with its two scanning loops. */
  method ReadElement(text: Text, at: nat) returns (r: Option<Element>)
    ensures r == ParseElement(text, at)
  {
    if at > |text| { return None; }
    var pos := at;
    while pos < |text| && IsDigit(text[pos])
      invariant at <= pos <= |text|
      invariant DigitsEnd(text, at) == DigitsEnd(text, pos)
    {
      pos := pos + 1;
    }
    if pos == at || pos >= |text| || text[pos] != DOT { return None; }
    var len := DigitsValue(text[at..pos]);
    if len > USIZE_MAX { return None; }
    pos := pos + 1;

    var start := pos;
    var chars := 0;
    while chars < len
      invariant start <= pos <= |text| && chars <= len
      invariant CharsEnd(text, start, len) == CharsEnd(text, pos, len - chars)
    {
      if pos >= |text| { return None; }
      var width := LeadWidth(text[pos]);
      if width == 0 || pos + width > |text| { return None; }
      pos := pos + width;
      chars := chars + 1;
    }
    if pos >= |text| || (text[pos] != COMMA && text[pos] != SEMICOLON) { return None; }
    return Some(Element(text[start..pos], pos + 1, text[pos]));
  }

  /** The part of an instruction that the splitter and the rewriter look at:
      the opcode and at most two arguments. */
  datatype Head = Head(opcode: Text, args: seq<Text>)

  /** A head read from a text, and where its instruction ends. */
  datatype Reading = Reading(head: Head, end: nat)

  function HeadOf(elems: seq<Text>): Head
    requires elems != []
  {
    Head(elems[0], if |elems| <= 3 then elems[1..] else elems[1..3])
  }

  function HeadAt(s: Text, at: nat): (r: Option<Reading>)
    ensures r.Some? ==> at < r.value.end <= |s|
  {
    match ParseInstruction(s, at)
    case None => None
    case Some(i) => Some(Reading(HeadOf(i.elems), i.end))
  }

  lemma ContinueStep(s: Text, read: seq<Text>, e: Element)
    requires read != [] && e.next <= |s| && e.terminator != SEMICOLON && ParseElement(s, e.next).Some?
    ensures var f := ParseElement(s, e.next).value;
            Continue(s, read, e) == Continue(s, read + [f.value], f)
  {
    hide ParseElement;
    var f := ParseElement(s, e.next).value;
    assert ParseInstruction(s, e.next) == Continue(s, [f.value], f);
    if f.terminator != SEMICOLON && ParseInstruction(s, f.next).Some? {
      var more := ParseInstruction(s, f.next).value.elems;
      assert read + ([f.value] + more) == read + [f.value] + more;
    }
  }

  method ReadInstruction(text: Text, pos: nat) returns (r: Option<Reading>)
    ensures r == HeadAt(text, pos)
  {
    hide ParseElement;
    var e := ReadElement(text, pos);
    if e == None { return None; }
    var opcode, next, terminator := e.value.value, e.value.next, e.value.terminator;
    ghost var read := [opcode];
    var args: seq<Text> := [];
    while terminator == COMMA && |args| < 2
      invariant e.Some? && e.value.next == next <= |text| && e.value.terminator == terminator
      invariant terminator == COMMA || terminator == SEMICOLON
      invariant |args| <= 2 && read == [opcode] + args
      invariant ParseInstruction(text, pos) == Continue(text, read, e.value)
      decreases |text| - next
    {
      ghost var before := e.value;
      e := ReadElement(text, next);
      if e == None { return None; }
      ContinueStep(text, read, before);
      read, args := read + [e.value.value], args + [e.value.value];
      next, terminator := e.value.next, e.value.terminator;
    }
    while terminator == COMMA
      invariant e.Some? && e.value.next == next <= |text| && e.value.terminator == terminator
      invariant terminator == COMMA || terminator == SEMICOLON
      invariant read != [] && read[0] == opcode && Head(opcode, args) == HeadOf(read)
      invariant terminator == COMMA ==> |args| == 2
      invariant ParseInstruction(text, pos) == Continue(text, read, e.value)
      decreases |text| - next
    {
      ghost var before := e.value;
      e := ReadElement(text, next);
      if e == None { return None; }
      ContinueStep(text, read, before);
      read := read + [e.value.value];
      next, terminator := e.value.next, e.value.terminator;
    }
    return Some(Reading(Head(opcode, args), next));
  }

  /** `encode_instruction`: builds the parts and joins them with commas. */
  method EncodeInstruction(opcode: Text, args: seq<Text>) returns (r: Text)
    requires ValidUtf8(opcode) && AllUtf8(args)
    ensures r == PrintInstruction([opcode] + args)
  {
    var parts := [PrintElement(opcode)];
    ghost var elems := [opcode] + args;
    for i := 0 to |args|
      invariant |parts| == i + 1 && forall j :: 0 <= j <= i ==> parts[j] == PrintElement(elems[j])
    {
      parts := parts + [PrintElement(args[i])];
    }
    r := parts[|parts| - 1] + [SEMICOLON];
    var k := |parts| - 1;
    while k > 0
      invariant 0 <= k < |parts|
      invariant r == PrintInstruction(elems[k..])
    {
      k := k - 1;
      r := parts[k] + [COMMA] + r;
    }
  }
}
