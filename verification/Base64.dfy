/** The strict standard engine of the base64 crate: the alphabet of section 4 of
    RFC 4648, padding required, unused bits zero. */
module Base64 {
  import opened Bytes

  const PAD: Byte := 61

  function Sextet(c: Byte): (r: Option<nat>)
    ensures r.Some? ==> r.value < 64
  {
    if 65 <= c <= 90 then Some(c - 65)
    else if 97 <= c <= 122 then Some(c - 71)
    else if 48 <= c <= 57 then Some(c + 4)
    else if c == 43 then Some(62)
    else if c == 47 then Some(63)
    else None
  }

  function Symbol(v: nat): (c: Byte)
    requires v < 64
    ensures Sextet(c) == Some(v) && c < 128 && c != PAD
  {
    if v < 26 then 65 + v else if v < 52 then 71 + v else if v < 62 then v - 4 else if v == 62 then 43 else 47
  }

  /** Three bytes as four symbols. */
  function Quad(x: Byte, y: Byte, z: Byte): (q: Text)
    ensures |q| == 4 && IsAscii(q) && forall i :: 0 <= i < 4 ==> q[i] != PAD
  {
    [Symbol(x / 4), Symbol(x % 4 * 16 + y / 16), Symbol(y % 16 * 4 + z / 64), Symbol(z % 64)]
  }

  /** Four symbols as three bytes; None if one is outside the alphabet. */
  function Triple(p: Text): (r: Option<seq<Byte>>)
    requires |p| == 4
    ensures r.Some? ==> |r.value| == 3
  {
    var (a, b, c, d) := (Sextet(p[0]), Sextet(p[1]), Sextet(p[2]), Sextet(p[3]));
    if a.None? || b.None? || c.None? || d.None? then None
    else Some([a.value * 4 + b.value / 16, b.value % 16 * 16 + c.value / 4, c.value % 4 * 64 + d.value])
  }

  lemma QuadInvertsTriple(p: Text)
    requires |p| == 4 && Triple(p).Some?
    ensures var t := Triple(p).value; Quad(t[0], t[1], t[2]) == p
  {
    var a, b, c, d := Sextet(p[0]).value, Sextet(p[1]).value, Sextet(p[2]).value, Sextet(p[3]).value;
    var t := Triple(p).value;
    assert t[0] / 4 == a && t[0] % 4 == b / 16 && t[1] / 16 == b % 16;
    assert t[1] % 16 == c / 4 && t[2] / 64 == c % 4 && t[2] % 64 == d;
    assert Symbol(a) == p[0] && Symbol(b) == p[1] && Symbol(c) == p[2] && Symbol(d) == p[3];
  }

  lemma TripleInvertsQuad(x: Byte, y: Byte, z: Byte)
    ensures Triple(Quad(x, y, z)) == Some([x, y, z])
  {
    var b, c := x % 4 * 16 + y / 16, y % 16 * 4 + z / 64;
    assert b / 16 == x % 4 && b % 16 == y / 16 && c / 4 == y % 16 && c % 4 == z / 64;
  }

  // ---- the alphabet and the order of the bits ----

  /** The 64 letters in order of their values: A to Z, a to z, 0 to 9, `+`, `/`. */
  function Letter(v: nat): char
    requires v < 64
  {
    if v < 26 then 'A' + v as char
    else if v < 52 then 'a' + (v - 26) as char
    else if v < 62 then '0' + (v - 52) as char
    else if v == 62 then '+' else '/'
  }

  /** The alphabet is the one of the standard, and nothing else has a value. */
  lemma AlphabetIsExact(c: Byte, v: nat)
    ensures Sextet(c) == Some(v) <==> v < 64 && Letter(v) as int == c
    ensures v < 64 ==> Symbol(v) == Letter(v) as int
  {
  }

  /** Three bytes, most significant first, as one number of 24 bits. */
  function Bits24(x: Byte, y: Byte, z: Byte): nat {
    x as int * 65536 + y as int * 256 + z as int
  }

  function Value(c: Byte): nat {
    match Sextet(c)
    case None => 0
    case Some(v) => v
  }

  /** The values of the four symbols are its digits in base 64, most significant
      first. */
  lemma QuadIsBase64(x: Byte, y: Byte, z: Byte)
    ensures var q := Quad(x, y, z);
            Value(q[0]) * 262144 + Value(q[1]) * 4096 + Value(q[2]) * 64 + Value(q[3]) == Bits24(x, y, z)
  {
    hide Symbol, Sextet;
    var q := Quad(x, y, z);
    assert Value(q[0]) == x / 4 && Value(q[1]) == x % 4 * 16 + y / 16;
    assert Value(q[2]) == y % 16 * 4 + z / 64 && Value(q[3]) == z % 64;
  }

  function Encode(b: seq<Byte>): (p: Text)
    ensures |p| == (|b| + 2) / 3 * 4 && IsAscii(p)
  {
    if |b| == 0 then []
    else if |b| == 1 then Quad(b[0], 0, 0)[..2] + [PAD, PAD]
    else if |b| == 2 then Quad(b[0], b[1], 0)[..3] + [PAD]
    else Quad(b[0], b[1], b[2]) + Encode(b[3..])
  }

  /** The first group of an encoding, missing bytes taken as zero; a symbol that
      carries no bit of the input is `=`. */
  function Group(b: seq<Byte>): Text
    requires b != []
  {
    var q := Quad(b[0], if |b| > 1 then b[1] else 0, if |b| > 2 then b[2] else 0);
    [q[0], q[1], if |b| > 1 then q[2] else PAD, if |b| > 2 then q[3] else PAD]
  }

  lemma EncodeStep(b: seq<Byte>)
    requires b != []
    ensures |Encode(b)| >= 4 && Encode(b)[..4] == Group(b)
    ensures Encode(b)[4..] == if |b| <= 3 then [] else Encode(b[3..])
  {
    hide Quad;
    if |b| == 3 {
      assert b[3..] == [];
    }
  }

  lemma {:induction false} EncodeGroup(b: seq<Byte>, k: nat)
    requires 3 * k < |b|
    ensures 4 * k + 4 <= |Encode(b)| && Encode(b)[4 * k..4 * k + 4] == Group(b[3 * k..])
  {
    hide Encode, Group;
    EncodeStep(b);
    if k == 0 {
      assert b[0..] == b && Encode(b)[0..4] == Encode(b)[..4];
    } else {
      EncodeGroup(b[3..], k - 1);
      assert b[3..][3 * (k - 1)..] == b[3 * k..];
      assert Encode(b)[4..][4 * (k - 1)..4 * (k - 1) + 4] == Encode(b)[4 * k..4 * k + 4];
    }
  }

  /** One padded group: two or three symbols whose unused bits are zero. */
  function DecodeLast(p: Text): (r: Option<seq<Byte>>)
    requires |p| == 4 && p[3] == PAD
  {
    var zero := Symbol(0);
    if p[2] == PAD then
      match Triple(p[..2] + [zero, zero])
      case None => None
      case Some(t) => if t[1] == 0 then Some([t[0]]) else None
    else
      match Triple(p[..3] + [zero])
      case None => None
      case Some(t) => if t[2] == 0 then Some([t[0], t[1]]) else None
  }

  function Decode(p: Text): Option<seq<Byte>> {
    if p == [] then Some([])
    else if |p| < 4 then None
    else if |p| == 4 && p[3] == PAD then DecodeLast(p)
    else
      match (Triple(p[..4]), Decode(p[4..]))
      case (Some(t), Some(rest)) => Some(t + rest)
      case _ => None
  }

  lemma QuadOfZero(x: Byte, y: Byte)
    ensures Quad(x, 0, 0)[2] == Symbol(0) && Quad(x, y, 0)[3] == Symbol(0)
  {
  }

  lemma OneByteRoundTrip(x: Byte)
    ensures DecodeLast(Quad(x, 0, 0)[..2] + [PAD, PAD]) == Some([x])
  {
    hide Triple, Quad, Symbol;
    QuadOfZero(x, 0);
    TripleInvertsQuad(x, 0, 0);
    var q := Quad(x, 0, 0);
    assert (q[..2] + [PAD, PAD])[..2] + [Symbol(0), Symbol(0)] == q;
  }

  lemma TwoByteRoundTrip(x: Byte, y: Byte)
    ensures DecodeLast(Quad(x, y, 0)[..3] + [PAD]) == Some([x, y])
  {
    hide Triple, Quad, Symbol;
    QuadOfZero(x, y);
    TripleInvertsQuad(x, y, 0);
    var q := Quad(x, y, 0);
    assert (q[..3] + [PAD])[..3] + [Symbol(0)] == q;
  }

  lemma {:induction false} DecodeInvertsEncode(b: seq<Byte>)
    ensures Decode(Encode(b)) == Some(b)
  {
    hide Triple, Quad, DecodeLast;
    if |b| == 1 {
      OneByteRoundTrip(b[0]);
      assert b == [b[0]];
    } else if |b| == 2 {
      TwoByteRoundTrip(b[0], b[1]);
      assert b == [b[0], b[1]];
    } else if |b| >= 3 {
      DecodeInvertsEncode(b[3..]);
      TripleInvertsQuad(b[0], b[1], b[2]);
      var p := Encode(b);
      assert p[..4] == Quad(b[0], b[1], b[2]);
      assert p[4..] == Encode(b[3..]);
      assert b == [b[0], b[1], b[2]] + b[3..];
    }
  }

  lemma LastIsCanonical(p: Text)
    requires |p| == 4 && p[3] == PAD && DecodeLast(p).Some?
    ensures Encode(DecodeLast(p).value) == p
  {
    var zero := Symbol(0);
    if p[2] == PAD {
      var q := p[..2] + [zero, zero];
      var t := Triple(q).value;
      QuadInvertsTriple(q);
      assert t[2] == 0 by { assert Sextet(q[2]) == Some(0) && Sextet(q[3]) == Some(0); }
      assert Quad(t[0], 0, 0) == q && q[..2] == p[..2];
      assert p == q[..2] + [PAD, PAD];
    } else {
      var q := p[..3] + [zero];
      var t := Triple(q).value;
      QuadInvertsTriple(q);
      assert Quad(t[0], t[1], 0) == q && q[..3] == p[..3];
      assert p == q[..3] + [PAD];
    }
  }

  /** The strict engine accepts only canonical text: what decodes is exactly
      what encoding the result prints. */
  lemma {:induction false} EncodeInvertsDecode(p: Text)
    requires Decode(p).Some?
    ensures Encode(Decode(p).value) == p
  {
    hide Triple, Quad, DecodeLast;
    if p != [] {
      if |p| == 4 && p[3] == PAD {
        LastIsCanonical(p);
      } else {
        EncodeInvertsDecode(p[4..]);
        QuadInvertsTriple(p[..4]);
        var t, rest := Triple(p[..4]).value, Decode(p[4..]).value;
        assert Decode(p).value == t + rest && (t + rest)[3..] == rest;
        assert Encode(t + rest) == Quad(t[0], t[1], t[2]) + Encode(rest) == p[..4] + p[4..];
      }
    }
  }
}
