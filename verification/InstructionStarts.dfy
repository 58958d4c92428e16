/** The telemetry's own, cheaper walk over the instruction stream, and its
    agreement with the splitter's parser. */
module InstructionStarts {
  import opened Bytes
  import opened Wire

  // ---- specification ----

  function FindDot(s: Text, at: nat): (r: Option<nat>)
    requires at <= |s|
    ensures r.Some? ==> at <= r.value < |s| && s[r.value] == DOT
    decreases |s| - at
  {
    if at == |s| then None else if s[at] == DOT then Some(at) else FindDot(s, at + 1)
  }

  /** `split_element` on the text from `at`: skips LENGTH bytes, where the
      splitter skips LENGTH code points. */
  function SplitElement(s: Text, at: nat): (r: Option<Element>)
    requires at <= |s|
    ensures r.Some? ==> at < r.value.next <= |s|
  {
    match FindDot(s, at)
    case None => None
    case Some(dot) =>
      match ParseUnsigned(s[at..dot], USIZE_MAX)
      case None => None
      case Some(len) =>
        var end := dot + 1 + len;
        if end >= |s| || (s[end] != COMMA && s[end] != SEMICOLON) then None
        else Some(Element(s[dot + 1..end], end + 1, s[end]))
  }

  /** Where the instruction at `at` ends, or the end of the text if malformed. */
  function NextStart(s: Text, at: nat): (next: nat)
    requires at < |s|
    ensures at < next <= |s|
    decreases |s| - at
  {
    match SplitElement(s, at)
    case None => |s|
    case Some(e) => if e.terminator == SEMICOLON || e.next == |s| then e.next else NextStart(s, e.next)
  }

  /** The offsets the iterator yields. */
  function Starts(s: Text, at: nat): (r: seq<nat>)
    requires at <= |s|
    ensures forall i :: 0 <= i < |r| ==> at <= r[i] < |s|
    decreases |s| - at
  {
    if at == |s| then [] else [at] + Starts(s, NextStart(s, at))
  }

  /** The offsets at which the splitter reads an instruction. */
  function Boundaries(s: Text, at: nat): seq<nat>
    requires at <= |s|
    decreases |s| - at
  {
    match ParseInstruction(s, at)
    case None => []
    case Some(i) => [at] + Boundaries(s, i.end)
  }

  /** The element at position `index` of the instruction text at `at`. */
  function NthElement(s: Text, at: nat, index: nat): Option<Text>
    requires at <= |s|
    decreases index
  {
    match SplitElement(s, at)
    case None => None
    case Some(e) => if index == 0 then Some(e.value) else NthElement(s, e.next, index - 1)
  }

  // ---- agreement ----

  lemma {:induction false} FindDotIs(s: Text, at: nat, dot: nat)
    requires at <= dot < |s| && s[dot] == DOT && forall k :: at <= k < dot ==> s[k] != DOT
    ensures FindDot(s, at) == Some(dot)
    decreases dot - at
  {
    if at < dot {
      FindDotIs(s, at + 1, dot);
    }
  }

  lemma FirstDotEndsTheNumeral(s: Text, at: nat)
    requires ParseElement(s, at).Some?
    ensures var d := DigitsEnd(s, at);
            && at <= |s| && at < d < |s| && FindDot(s, at) == Some(d)
            && ParseUnsigned(s[at..d], USIZE_MAX) == Some(DigitsValue(s[at..d]))
  {
    hide DigitsEnd, CharsEnd, DigitsValue;
    var d := DigitsEnd(s, at);
    var digits := s[at..d];
    assert forall k :: at <= k < d ==> s[k] == digits[k - at];
    assert IsDigit(digits[0]);
    FindDotIs(s, at, d);
  }

  lemma AsciiElementAgrees(s: Text, at: nat)
    requires ParseElement(s, at).Some? && IsAscii(ParseElement(s, at).value.value)
    ensures at < |s| && SplitElement(s, at) == ParseElement(s, at)
  {
    hide DigitsEnd, CharsEnd, DigitsValue, FindDot, ParseUnsigned;
    FirstDotEndsTheNumeral(s, at);
    var d, e := DigitsEnd(s, at), ParseElement(s, at).value;
    assert forall k :: d + 1 <= k < e.next - 1 ==> s[k] == e.value[k - (d + 1)];
    CharsEndOfAscii(s, d + 1, DigitsValue(s[at..d]));
  }

  lemma AgreementMeansAscii(s: Text, at: nat)
    requires ValidUtf8(s) && ParseElement(s, at).Some?
    requires at <= |s| && SplitElement(s, at) == ParseElement(s, at)
    ensures IsAscii(ParseElement(s, at).value.value)
  {
    hide DigitsEnd, CharsEnd, DigitsValue, FindDot, ParseUnsigned, WholeChars, CharsIn, ParseElement;
    FirstDotEndsTheNumeral(s, at);
    ElementSlicesOnBoundaries(s, at);
    var e := ParseElement(s, at).value;
    var start, end := e.next - |e.value| - 1, e.next - 1;
    assert CharsIn(s, start, end) == end - start;
    CountIsLengthOnlyForAscii(s, start, end);
    assert forall k :: 0 <= k < |e.value| ==> e.value[k] == s[k + start];
  }

  /** On any element the splitter accepts in valid text, the two parsers agree
      exactly when the value is ASCII. */
  lemma ParsersAgreeOnAscii(s: Text, at: nat)
    requires ValidUtf8(s) && ParseElement(s, at).Some?
    ensures at <= |s|
    ensures SplitElement(s, at) == ParseElement(s, at) <==> IsAscii(ParseElement(s, at).value.value)
  {
    hide ParseElement, SplitElement, IsAscii, ValidUtf8;
    if IsAscii(ParseElement(s, at).value.value) {
      AsciiElementAgrees(s, at);
    }
    if SplitElement(s, at) == ParseElement(s, at) {
      AgreementMeansAscii(s, at);
    }
  }

  ghost predicate AllAscii(elems: seq<Text>) { forall i :: 0 <= i < |elems| ==> IsAscii(elems[i]) }

  lemma {:induction false} NextStartIsEnd(s: Text, at: nat)
    requires ParseInstruction(s, at).Some? && AllAscii(ParseInstruction(s, at).value.elems)
    ensures at < |s| && NextStart(s, at) == ParseInstruction(s, at).value.end
    decreases |s| - at
  {
    hide ParseElement, SplitElement, IsAscii;
    var e := ParseElement(s, at).value;
    var elems := ParseInstruction(s, at).value.elems;
    assert ParseInstruction(s, at) == Continue(s, [e.value], e);
    assert elems[0] == e.value;
    AsciiElementAgrees(s, at);
    if e.terminator != SEMICOLON {
      var more := ParseInstruction(s, e.next).value.elems;
      assert elems == [e.value] + more;
      assert forall i :: 0 <= i < |more| ==> more[i] == elems[i + 1];
      NextStartIsEnd(s, e.next);
    }
  }

  /** On any run of complete instructions with ASCII values, whatever they
      contain, the iterator yields exactly the boundaries the splitter walks. */
  lemma {:induction false} StartsAreBoundaries(s: Text, at: nat)
    requires at <= |s| && Scan(s, at).tail == []
    requires forall i :: 0 <= i < |Scan(s, at).instrs| ==> AllAscii(Scan(s, at).instrs[i])
    ensures Starts(s, at) == Boundaries(s, at)
    decreases |s| - at
  {
    hide ParseInstruction, NextStart, AllAscii;
    if at < |s| {
      var i := ParseInstruction(s, at).value;
      var rest := Scan(s, i.end).instrs;
      assert Scan(s, at).instrs == [i.elems] + rest;
      assert Scan(s, at).instrs[0] == i.elems;
      assert forall k :: 0 <= k < |rest| ==> rest[k] == Scan(s, at).instrs[k + 1];
      NextStartIsEnd(s, at);
      StartsAreBoundaries(s, i.end);
    }
  }

  lemma TerminatorIsThere(s: Text, at: nat)
    requires at <= |s| && SplitElement(s, at).Some?
    ensures s[SplitElement(s, at).value.next - 1] == SplitElement(s, at).value.terminator
  {
    hide FindDot, ParseUnsigned;
  }

  lemma {:induction false} NextStartFollowsSemicolon(s: Text, at: nat)
    requires at < |s|
    ensures NextStart(s, at) < |s| ==> s[NextStart(s, at) - 1] == SEMICOLON
    decreases |s| - at
  {
    hide SplitElement;
    if SplitElement(s, at).Some? {
      var e := SplitElement(s, at).value;
      TerminatorIsThere(s, at);
      if e.terminator != SEMICOLON && e.next < |s| {
        NextStartFollowsSemicolon(s, e.next);
      }
    }
  }

  lemma MalformedEndsTheWalk(s: Text, at: nat)
    requires at < |s|
    ensures SplitElement(s, at) == None ==> NextStart(s, at) == |s|
  {
  }

  /** Whatever the text, every start after the first stands right behind a `;`,
      and a malformed instruction is the last one yielded. */
  lemma {:induction false} StartsFollowSemicolons(s: Text, at: nat)
    requires at <= |s|
    ensures forall i :: 0 <= i < |Starts(s, at)| ==>
              var k := Starts(s, at)[i];
              (i > 0 ==> s[k - 1] == SEMICOLON) && (SplitElement(s, k) == None ==> i == |Starts(s, at)| - 1)
    decreases |s| - at
  {
    hide SplitElement, NextStart;
    if at < |s| {
      NextStartFollowsSemicolon(s, at);
      MalformedEndsTheWalk(s, at);
      var next := NextStart(s, at);
      StartsFollowSemicolons(s, next);
      var rest := Starts(s, next);
      assert Starts(s, at) == [at] + rest;
      assert rest != [] ==> rest[0] == next;
    }
  }

  // ---- the code ----

  /** The iterator; the source's `rest` is `text[at..]`. */
  class Iterator {
    const text: Text
    var at: nat

    ghost predicate Valid()
      reads this
    {
      at <= |text|
    }

    constructor (text: Text)
      ensures Valid() && this.text == text && at == 0
    {
      this.text, at := text, 0;
    }

    /** `next`: the start of the next instruction, or None at the end. */
    method Next() returns (r: Option<nat>)
      requires Valid()
      modifies this
      ensures Valid()
      ensures r == if old(at) == |text| then None else Some(old(at))
      ensures at == if old(at) == |text| then old(at) else NextStart(text, old(at))
    {
      hide SplitElement;
      if at == |text| { return None; }
      var start, cursor := at, at;
      while true
        invariant start <= cursor < |text| && at == start
        invariant NextStart(text, start) == NextStart(text, cursor)
        decreases |text| - cursor
      {
        var e := SplitElement(text, cursor);
        if e == None {
          at := |text|;
          break;
        }
        if e.value.terminator == SEMICOLON || e.value.next == |text| {
          at := e.value.next;
          break;
        }
        cursor := e.value.next;
      }
      return Some(start);
    }
  }

  /** Everything the iterator yields. */
  method CollectStarts(text: Text) returns (r: seq<nat>)
    ensures r == Starts(text, 0)
  {
    hide NextStart;
    var it := new Iterator(text);
    r := [];
    var start := it.Next();
    while start.Some?
      invariant it.Valid() && it.text == text && fresh(it)
      invariant start.Some? ==> start.value < |text| && it.at == NextStart(text, start.value)
      invariant start.Some? ==> Starts(text, 0) == r + Starts(text, start.value)
      invariant start.None? ==> Starts(text, 0) == r
      decreases if start.Some? then |text| - start.value else -1
    {
      Regroup(r, [start.value], Starts(text, it.at));
      r := r + [start.value];
      start := it.Next();
    }
  }
}
