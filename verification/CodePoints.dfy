/** Text as lists of code points: the UTF-8 encoding, written out by the ranges of
    section 3 of RFC 3629, against the byte-wise rules the parser goes by. */
module CodePoints {
  import opened Bytes
  import opened Wire

  /** A Unicode scalar value. */
  type Scalar = c: int | 0 <= c <= 0x10FFFF && !(0xD800 <= c <= 0xDFFF)

  function EncodeChar(c: Scalar): (r: Text)
    ensures 1 <= |r| <= 4
  {
    if c <= 0x7F then [c]
    else if c <= 0x7FF then [0xC0 + c / 64, 0x80 + c % 64]
    else if c <= 0xFFFF then [0xE0 + c / 64 / 64, 0x80 + c / 64 % 64, 0x80 + c % 64]
    else [0xF0 + c / 64 / 64 / 64, 0x80 + c / 64 / 64 % 64, 0x80 + c / 64 % 64, 0x80 + c % 64]
  }

  function Utf8(cs: seq<Scalar>): Text {
    if cs == [] then [] else EncodeChar(cs[0]) + Utf8(cs[1..])
  }

  // ---- encoded text is what the parser takes for valid ----

  lemma EncodedCharIsValid(c: Scalar, rest: Text)
    ensures var s := EncodeChar(c) + rest;
            LeadWidth(s[0]) == |EncodeChar(c)| && ValidChar(s, 0, |EncodeChar(c)|)
  {
    if 0x800 <= c <= 0xFFFF {
      assert c / 64 / 64 == 0 ==> c / 64 % 64 >= 32;
      assert c / 64 / 64 == 13 ==> c / 64 % 64 < 32;
    } else if c > 0xFFFF {
      assert c / 64 / 64 / 64 <= 4;
      assert c / 64 / 64 / 64 == 0 ==> c / 64 / 64 % 64 >= 16;
      assert c / 64 / 64 / 64 == 4 ==> c / 64 / 64 % 64 < 16;
    }
  }

  /** Encoding any code points gives valid UTF-8 with that many of them. */
  lemma {:induction false} EncodedIsValid(cs: seq<Scalar>)
    ensures ValidUtf8(Utf8(cs)) && CharCount(Utf8(cs)) == |cs|
  {
    hide EncodeChar, ValidChar, LeadWidth;
    if cs != [] {
      var first, rest := EncodeChar(cs[0]), Utf8(cs[1..]);
      var s := first + rest;
      EncodedCharIsValid(cs[0], rest);
      EncodedIsValid(cs[1..]);
      WholeCharsCopied(rest, 0, |rest|, s, |first|);
    }
  }

  /** The six bits of a continuation byte. */
  function Bits(b: Byte): int { b - 0x80 }

  function DecodeChar(s: Text, i: nat, w: nat): Scalar
    requires ValidChar(s, i, w)
  {
    var lead: int := s[i];
    if w == 1 then lead
    else if w == 2 then (lead - 0xC0) * 64 + Bits(s[i + 1])
    else if w == 3 then ((lead - 0xE0) * 64 + Bits(s[i + 1])) * 64 + Bits(s[i + 2])
    else (((lead - 0xF0) * 64 + Bits(s[i + 1])) * 64 + Bits(s[i + 2])) * 64 + Bits(s[i + 3])
  }

  lemma TakeBits(high: nat, low: nat)
    requires low < 64
    ensures (high * 64 + low) / 64 == high && (high * 64 + low) % 64 == low
  {
  }

  lemma ThreeBytes(high: nat, b: nat, c: nat)
    requires high < 16 && b < 64 && c < 64 && (high == 0 ==> b >= 32) && (high == 13 ==> b < 32)
    ensures EncodeChar((high * 64 + b) * 64 + c) == [0xE0 + high, 0x80 + b, 0x80 + c]
  {
    TakeBits(high, b);
    TakeBits(high * 64 + b, c);
  }

  lemma FourBytes(high: nat, b: nat, c: nat, d: nat)
    requires high <= 4 && b < 64 && c < 64 && d < 64 && (high == 0 ==> b >= 16) && (high == 4 ==> b < 16)
    ensures EncodeChar(((high * 64 + b) * 64 + c) * 64 + d) == [0xF0 + high, 0x80 + b, 0x80 + c, 0x80 + d]
  {
    TakeBits(high, b);
    TakeBits(high * 64 + b, c);
    TakeBits((high * 64 + b) * 64 + c, d);
  }

  lemma ValidCharIsEncoded(s: Text, i: nat, w: nat)
    requires ValidChar(s, i, w)
    ensures EncodeChar(DecodeChar(s, i, w)) == s[i..i + w]
  {
    var lead: int := s[i];
    if w == 1 {
      assert EncodeChar(lead) == [lead];
    } else if w == 2 {
      TakeBits(lead - 0xC0, Bits(s[i + 1]));
    } else {
      hide EncodeChar;
      if w == 3 {
        ThreeBytes(lead - 0xE0, Bits(s[i + 1]), Bits(s[i + 2]));
      } else {
        FourBytes(lead - 0xF0, Bits(s[i + 1]), Bits(s[i + 2]), Bits(s[i + 3]));
      }
    }
  }

  lemma {:induction false} ValidIsEncoded(s: Text, i: nat, j: nat) returns (cs: seq<Scalar>)
    requires i <= j <= |s| && WholeChars(s, i, j)
    ensures Utf8(cs) == s[i..j]
    decreases j - i
  {
    hide EncodeChar, ValidChar, LeadWidth, DecodeChar;
    if i == j {
      cs := [];
    } else {
      var w := LeadWidth(s[i]);
      var c := DecodeChar(s, i, w);
      ValidCharIsEncoded(s, i, w);
      var rest := ValidIsEncoded(s, i + w, j);
      cs := [c] + rest;
      assert cs[1..] == rest && s[i..j] == s[i..i + w] + s[i + w..j];
    }
  }

  /** Valid text is exactly the encodings of lists of code points. */
  lemma ValidIffEncoded(s: Text)
    ensures ValidUtf8(s) <==> exists cs :: Utf8(cs) == s
  {
    hide WholeChars, Utf8;
    if ValidUtf8(s) {
      var cs := ValidIsEncoded(s, 0, |s|);
      assert s[0..|s|] == s;
    }
    if cs :| Utf8(cs) == s {
      EncodedIsValid(cs);
    }
  }

  // ---- the wire format on code points ----

  /** `LENGTH.VALUE` elements, the length in code points, joined by `,` and ended
      by `;`. */
  function PrintCodePoints(elems: seq<seq<Scalar>>): Text
    requires elems != []
  {
    var first := Decimal(|elems[0]|) + [DOT] + Utf8(elems[0]);
    if |elems| == 1 then first + [SEMICOLON] else first + [COMMA] + PrintCodePoints(elems[1..])
  }

  function Encoded(elems: seq<seq<Scalar>>): (r: seq<Text>)
    ensures |r| == |elems| && forall i :: 0 <= i < |r| ==> r[i] == Utf8(elems[i])
  {
    seq(|elems|, i requires 0 <= i < |elems| => Utf8(elems[i]))
  }

  lemma EncodedIsAllUtf8(elems: seq<seq<Scalar>>)
    ensures AllUtf8(Encoded(elems))
  {
    hide Utf8, ValidUtf8;
    forall i | 0 <= i < |elems|
      ensures ValidUtf8(Utf8(elems[i]))
    {
      EncodedIsValid(elems[i]);
    }
  }

  lemma {:induction false} PrintIsPrint(elems: seq<seq<Scalar>>)
    requires elems != []
    ensures AllUtf8(Encoded(elems)) && PrintCodePoints(elems) == PrintInstruction(Encoded(elems))
  {
    hide Utf8, Decimal, ValidUtf8, CharCount;
    EncodedIsAllUtf8(elems);
    EncodedIsValid(elems[0]);
    assert PrintElement(Encoded(elems)[0]) == Decimal(|elems[0]|) + [DOT] + Utf8(elems[0]);
    if |elems| > 1 {
      PrintIsPrint(elems[1..]);
      assert Encoded(elems)[1..] == Encoded(elems[1..]);
    }
  }

  /** Whatever code points the values hold, emoji and `;` alike, printing them
      with their code point counts and parsing gives exactly their encodings. */
  lemma ParserReadsCodePoints(elems: seq<seq<Scalar>>, rest: Text)
    requires elems != [] && Fit(Encoded(elems))
    ensures ParseInstruction(PrintCodePoints(elems) + rest, 0) == Some(Instr(Encoded(elems), |PrintCodePoints(elems)|))
  {
    hide ParseInstruction, PrintCodePoints, PrintInstruction, Encoded;
    PrintIsPrint(elems);
    ParserInvertsPrinter(Encoded(elems), rest);
  }
}
