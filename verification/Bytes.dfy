/** Byte strings, decimal numerals and UTF-8, as the wire format uses them. */
module Bytes {
  datatype Option<+T> = None | Some(value: T)

  type Byte = b: int | 0 <= b < 256

  /** A Rust `&str` or `String` seen as its bytes. */
  type Text = seq<Byte>

  const DOT: Byte := 46
  const COMMA: Byte := 44
  const SEMICOLON: Byte := 59
  const PLUS: Byte := 43
  const MINUS: Byte := 45

  /** `usize` on the 64-bit targets the program ships for. */
  const USIZE_MAX: nat := 0xFFFF_FFFF_FFFF_FFFF
  const U32_MAX: nat := 0xFFFF_FFFF
  const I32_MAX: nat := 0x7FFF_FFFF
  const I64_MAX: nat := 0x7FFF_FFFF_FFFF_FFFF

  predicate IsDigit(b: Byte) { 48 <= b <= 57 }

  predicate AllDigits(s: Text) { forall i :: 0 <= i < |s| ==> IsDigit(s[i]) }

  predicate IsAscii(s: Text) { forall i :: 0 <= i < |s| ==> s[i] < 128 }

  /** A literal as its bytes. */
  function Ascii(s: string): (t: Text)
    requires forall i :: 0 <= i < |s| ==> s[i] < 128 as char
    ensures |t| == |s| && forall i :: 0 <= i < |t| ==> t[i] == s[i] as int
  {
    seq(|s|, i requires 0 <= i < |s| => s[i] as int)
  }

  lemma Regroup<T>(a: seq<T>, b: seq<T>, c: seq<T>)
    ensures a + (b + c) == a + b + c
  {
  }

  /** Where `x` first occurs. */
  function FirstAt<T(==)>(xs: seq<T>, x: T): (i: nat)
    requires x in xs
    ensures i < |xs| && xs[i] == x && x !in xs[..i]
  {
    if xs[0] == x then 0
    else
      assert xs == [xs[0]] + xs[1..];
      var later := FirstAt(xs[1..], x);
      assert xs[..1 + later] == [xs[0]] + xs[1..][..later];
      1 + later
  }

  /** The elements of `ys` stand in the order in which `xs` first mentions them. */
  predicate InFirstOrder<T(==)>(ys: seq<T>, xs: seq<T>) {
    && (forall i :: 0 <= i < |ys| ==> ys[i] in xs)
    && forall i, j :: 0 <= i < j < |ys| ==> FirstAt(xs, ys[i]) < FirstAt(xs, ys[j])
  }

  // ---- decimal numerals ----

  /** What `{}` prints for an unsigned number. */
  function Decimal(n: nat): (s: Text)
    ensures s != [] && AllDigits(s)
  {
    if n < 10 then [48 + n] else Decimal(n / 10) + [48 + n % 10]
  }

  function DigitsValue(s: Text): nat
    requires AllDigits(s)
  {
    if s == [] then 0 else DigitsValue(s[..|s| - 1]) * 10 + (s[|s| - 1] - 48)
  }

  lemma {:induction false} DecimalValue(n: nat)
    ensures DigitsValue(Decimal(n)) == n
  {
    if n >= 10 {
      DecimalValue(n / 10);
      assert Decimal(n)[..|Decimal(n)| - 1] == Decimal(n / 10);
    }
  }

  /** Among all numerals for a number, the printed one is the only shortest. */
  lemma {:induction false} DecimalIsMinimal(s: Text)
    requires s != [] && AllDigits(s)
    ensures |Decimal(DigitsValue(s))| <= |s|
    ensures |Decimal(DigitsValue(s))| == |s| ==> s == Decimal(DigitsValue(s))
  {
    var p, d := s[..|s| - 1], s[|s| - 1] - 48;
    assert s == p + [48 + d];
    if p != [] {
      DecimalIsMinimal(p);
      assert DigitsValue(s) == DigitsValue(p) * 10 + d;
      if DigitsValue(s) >= 10 {
        assert DigitsValue(s) / 10 == DigitsValue(p) && DigitsValue(s) % 10 == d;
      }
    } else {
      assert DigitsValue(p) == 0;
    }
  }

  /** A numeral written plainly: digits only, with no leading zero. */
  predicate Plain(s: Text) { s != [] && AllDigits(s) && (|s| == 1 || s[0] != 48) }

  lemma {:induction false} PlainIsPositive(s: Text)
    requires AllDigits(s) && s != [] && s[0] != 48
    ensures DigitsValue(s) > 0
  {
    if |s| > 1 {
      PlainIsPositive(s[..|s| - 1]);
    } else {
      assert s[..0] == [];
    }
  }

  lemma {:induction false} DecimalLeads(n: nat)
    ensures |Decimal(n)| > 1 ==> Decimal(n)[0] != 48
    ensures n > 0 ==> Decimal(n)[0] != 48
  {
    if n >= 10 {
      DecimalLeads(n / 10);
    }
  }

  lemma LeadingZero(s: Text)
    requires |s| > 1 && AllDigits(s) && s[0] == 48
    ensures s != Decimal(DigitsValue(s))
  {
    DecimalLeads(DigitsValue(s));
  }

  /** Numerals written plainly are exactly the printed ones. */
  lemma {:induction false} PlainIsDecimal(s: Text)
    requires s != [] && AllDigits(s)
    ensures Plain(s) <==> s == Decimal(DigitsValue(s))
  {
    var p, d := s[..|s| - 1], s[|s| - 1] - 48;
    if p == [] {
      assert DigitsValue(p) == 0;
      assert s == [48 + d];
    } else {
      PlainIsDecimal(p);
      assert s == p + [48 + d] && DigitsValue(s) == DigitsValue(p) * 10 + d;
      if s[0] != 48 {
        PlainIsPositive(p);
        assert DigitsValue(s) / 10 == DigitsValue(p) && DigitsValue(s) % 10 == d;
      } else {
        LeadingZero(s);
      }
    }
  }

  lemma {:induction false} DecimalLengthMonotone(m: nat, n: nat)
    requires m <= n
    ensures |Decimal(m)| <= |Decimal(n)|
  {
    if n >= 10 && m >= 10 {
      DecimalLengthMonotone(m / 10, n / 10);
    }
  }

  /** `str::parse` for an unsigned type whose largest value is `max`: an
      optional `+`, then at least one digit. */
  function ParseUnsigned(s: Text, max: nat): (r: Option<nat>)
    ensures r.Some? ==> IsAscii(s) && r.value <= max && |Decimal(r.value)| <= |s|
  {
    var digits := if s != [] && s[0] == PLUS then s[1..] else s;
    if digits == [] || !AllDigits(digits) || DigitsValue(digits) > max then None
    else
      DecimalIsMinimal(digits);
      assert forall i :: 0 < i < |s| && digits == s[1..] ==> s[i] == digits[i - 1];
      Some(DigitsValue(digits))
  }

  lemma ParseUnsignedInvertsDecimal(n: nat, max: nat)
    requires n <= max
    ensures ParseUnsigned(Decimal(n), max) == Some(n)
  {
    assert IsDigit(Decimal(n)[0]);
    DecimalValue(n);
  }

  /** `str::parse` for a signed type with this largest value. */
  function ParseSigned(s: Text, max: nat): Option<int> {
    if s != [] && s[0] == MINUS then
      var digits := s[1..];
      if digits == [] || !AllDigits(digits) || DigitsValue(digits) > max + 1 then None
      else
        var value := 0 - DigitsValue(digits);
        Some(value)
    else
      match ParseUnsigned(s, max)
      case None => None
      case Some(n) => Some(n)
  }

  /** A numeral of this value. */
  ghost predicate Numeral(digits: Text, n: nat) { digits != [] && AllDigits(digits) && DigitsValue(digits) == n }

  /** An unsigned number is read from exactly its numerals, leading zeros and a
      single `+` allowed, up to the type's maximum. */
  lemma ParseUnsignedIff(s: Text, max: nat, n: nat)
    ensures ParseUnsigned(s, max) == Some(n)
            <==> n <= max && exists digits :: Numeral(digits, n) && (s == digits || s == [PLUS] + digits)
  {
    var digits := if s != [] && s[0] == PLUS then s[1..] else s;
    if ParseUnsigned(s, max) == Some(n) {
      assert Numeral(digits, n) && (s == digits || s == [PLUS] + digits);
    }
    if n <= max {
      forall d | Numeral(d, n) && (s == d || s == [PLUS] + d)
        ensures digits == d
      {
        assert IsDigit(d[0]);
      }
    }
  }

  /** A signed one likewise, or from `-` and a numeral, down to one below minus
      the maximum. */
  lemma ParseSignedIff(s: Text, max: nat, n: int)
    ensures ParseSigned(s, max) == Some(n)
            <==> || (0 <= n <= max && exists digits :: Numeral(digits, n) && (s == digits || s == [PLUS] + digits))
                 || (0 <= -n <= max + 1 && exists digits :: Numeral(digits, -n) && s == [MINUS] + digits)
  {
    hide DigitsValue, ParseUnsigned;
    if s != [] && s[0] == MINUS {
      assert s == [MINUS] + s[1..];
      assert forall d :: [MINUS] + d == s ==> d == s[1..];
      assert forall d :: Numeral(d, if n < 0 then 0 else n) ==> IsDigit(d[0]);
      if ParseSigned(s, max) == Some(n) {
        assert Numeral(s[1..], -n);
      }
    } else if n >= 0 {
      ParseUnsignedIff(s, max, n);
    }
  }

  // ---- UTF-8 (section 4 of RFC 3629) ----

  /** The byte is not a continuation byte: `str::is_char_boundary` at that byte. */
  predicate IsLead(b: Byte) { b < 0x80 || b >= 0xC0 }

  predicate IsContinuation(b: Byte) { 0x80 <= b < 0xC0 }

  /** Width announced by a lead byte, 0 for a continuation byte. */
  function LeadWidth(b: Byte): (w: nat)
    ensures w <= 4
  {
    if b < 0x80 then 1 else if b < 0xC0 then 0 else if b < 0xE0 then 2 else if b < 0xF0 then 3 else 4
  }

  /** The `n` bytes of `t` at `j` are those of `s` at `i`. */
  ghost predicate Agree(s: Text, i: nat, t: Text, j: nat, n: nat) {
    && i + n <= |s| && j + n <= |t|
    && forall k :: j <= k < j + n ==> t[k] == s[k - j + i]
  }

  /** One well-formed code point of `w` bytes at `i`: no overlong form, no
      surrogate, at most U+10FFFF. */
  predicate ValidChar(s: Text, i: nat, w: nat) {
    && 0 < w && i + w <= |s|
    && w == LeadWidth(s[i])
    && (forall k :: i < k < i + w ==> IsContinuation(s[k]))
    && s[i] != 0xC0 && s[i] != 0xC1
    && s[i] <= 0xF4
    && (s[i] == 0xE0 ==> s[i + 1] >= 0xA0)
    && (s[i] == 0xED ==> s[i + 1] < 0xA0)
    && (s[i] == 0xF0 ==> s[i + 1] >= 0x90)
    && (s[i] == 0xF4 ==> s[i + 1] < 0x90)
  }

  /** `s[i..j]` is a sequence of whole code points. */
  predicate WholeChars(s: Text, i: nat, j: nat)
    requires i <= j <= |s|
    decreases j - i
  {
    i == j ||
    var w := LeadWidth(s[i]);
    i + w <= j && ValidChar(s, i, w) && WholeChars(s, i + w, j)
  }

  predicate ValidUtf8(s: Text) { WholeChars(s, 0, |s|) }

  /** Number of code points of `s[i..j]`, `guac_utf8_strlen`. */
  function CharsIn(s: Text, i: nat, j: nat): (n: nat)
    requires i <= j <= |s| && WholeChars(s, i, j)
    ensures n <= j - i
    decreases j - i
  {
    if i == j then 0 else 1 + CharsIn(s, i + LeadWidth(s[i]), j)
  }

  function CharCount(s: Text): nat
    requires ValidUtf8(s)
  {
    CharsIn(s, 0, |s|)
  }

  /** Whole code points stay whole, and as many, wherever they are copied. */
  lemma {:induction false} WholeCharsCopied(s: Text, i: nat, j: nat, t: Text, m: nat)
    requires i <= j <= |s| && WholeChars(s, i, j) && Agree(s, i, t, m, j - i)
    ensures WholeChars(t, m, m + j - i) && CharsIn(t, m, m + j - i) == CharsIn(s, i, j)
    decreases j - i
  {
    if i < j {
      WholeCharsCopied(s, i + LeadWidth(s[i]), j, t, m + LeadWidth(s[i]));
    }
  }

  lemma {:induction false} AsciiIsWhole(s: Text, i: nat, j: nat)
    requires i <= j <= |s| && forall k :: i <= k < j ==> s[k] < 128
    ensures WholeChars(s, i, j) && CharsIn(s, i, j) == j - i
    decreases j - i
  {
    if i < j {
      AsciiIsWhole(s, i + 1, j);
    }
  }

  /** A code point count equal to the byte count means ASCII throughout. */
  lemma {:induction false} CountIsLengthOnlyForAscii(s: Text, i: nat, j: nat)
    requires i <= j <= |s| && WholeChars(s, i, j) && CharsIn(s, i, j) == j - i
    ensures forall k :: i <= k < j ==> s[k] < 128
    decreases j - i
  {
    if i < j {
      assert CharsIn(s, i + LeadWidth(s[i]), j) <= j - i - LeadWidth(s[i]);
      CountIsLengthOnlyForAscii(s, i + 1, j);
    }
  }

  /** Whole code points may be cut at any byte that is not a continuation byte. */
  lemma {:induction false} CutAtLead(s: Text, i: nat, k: nat, j: nat)
    requires i <= k <= j <= |s| && WholeChars(s, i, j) && (k < j ==> IsLead(s[k]))
    ensures WholeChars(s, i, k) && WholeChars(s, k, j)
    decreases j - i
  {
    if i < k {
      assert i + LeadWidth(s[i]) <= k;
      CutAtLead(s, i + LeadWidth(s[i]), k, j);
    }
  }
}
