/** The UTF-8 encoding that `update(text, "utf8")` applies before hashing. */
module Utf8 {
  import opened Wrappers
  import opened CanonicalJson

  type Byte = b: int | 0 <= b < 256

  /** Every surrogate is half of a pair. */
  predicate WellPaired(t: Text) {
    t == [] ||
    if Leading(t[0]) then |t| > 1 && Trailing(t[1]) && WellPaired(t[2..])
    else !Trailing(t[0]) && WellPaired(t[1..])
  }

  predicate IsCodePoint(c: int) {
    0 <= c <= 0x10_FFFF
  }

  function PairValue(lead: CodeUnit, trail: CodeUnit): int {
    0x1_0000 + (lead - 0xD800) * 0x400 + (trail - 0xDC00)
  }

  function Encoded(c: int): seq<Byte>
    requires IsCodePoint(c)
  {
    if c < 0x80 then [c]
    else if c < 0x800 then [0xC0 + c / 64, 0x80 + c % 64]
    else if c < 0x1_0000 then [0xE0 + c / 4096, 0x80 + c / 64 % 64, 0x80 + c % 64]
    else [0xF0 + c / 262_144, 0x80 + c / 4096 % 64, 0x80 + c / 64 % 64, 0x80 + c % 64]
  }

  /** A surrogate on its own becomes U+FFFD. */
  function Encode(t: Text): seq<Byte> {
    if t == [] then []
    else if |t| > 1 && Leading(t[0]) && Trailing(t[1]) then Encoded(PairValue(t[0], t[1])) + Encode(t[2..])
    else if Leading(t[0]) || Trailing(t[0]) then Encoded(0xFFFD) + Encode(t[1..])
    else Encoded(t[0]) + Encode(t[1..])
  }

  // ---------- decoding ----------

  /** How many bytes a character with this first byte has; 0 if none starts with it. */
  function Length(first: Byte): nat {
    if first < 0x80 then 1
    else if first < 0xC0 then 0
    else if first < 0xE0 then 2
    else if first < 0xF0 then 3
    else if first < 0xF8 then 4
    else 0
  }

  function CodePoint(b: seq<Byte>): int
    requires b != [] && |b| == Length(b[0])
  {
    if |b| == 1 then b[0]
    else if |b| == 2 then 64 * Minus(b[0], 0xC0) + Minus(b[1], 0x80)
    else if |b| == 3 then 4096 * Minus(b[0], 0xE0) + 64 * Minus(b[1], 0x80) + Minus(b[2], 0x80)
    else 262_144 * Minus(b[0], 0xF0) + 4096 * Minus(b[1], 0x80) + 64 * Minus(b[2], 0x80) + Minus(b[3], 0x80)
  }

  /** Section 3 of RFC 3629: continuation bytes have their marker, no shorter form exists, and surrogates
    * are not characters.
    */
  predicate ValidCharacter(b: seq<Byte>) {
    b != [] && |b| == Length(b[0]) &&
    (forall i | 1 <= i < |b| :: 0x80 <= b[i] < 0xC0) &&
    var c := CodePoint(b);
    (if |b| == 1 then 0 else if |b| == 2 then 0x80 else if |b| == 3 then 0x800 else 0x1_0000) <= c <= 0x10_FFFF &&
    !(0xD800 <= c < 0xE000)
  }

  /** The payload bits of a byte with the given marker. */
  function Minus(b: Byte, marker: int): int {
    b as int - marker
  }

  function Units(c: int): Text
    requires IsCodePoint(c)
  {
    if c < 0x1_0000 then [c] else [0xD800 + (c - 0x1_0000) / 0x400, 0xDC00 + (c - 0x1_0000) % 0x400]
  }

  function Decode(b: seq<Byte>): Option<Text>
    decreases |b|
  {
    if b == [] then Some([])
    else
      var n := Length(b[0]);
      if n == 0 || |b| < n || !ValidCharacter(b[..n]) then None
      else
        match Decode(b[n..])
        case Some(rest) => Some(Units(CodePoint(b[..n])) + rest)
        case None => None
  }

  lemma TwoDigits(c: int)
    requires 0 <= c
    ensures c == 64 * (c / 64) + c % 64 && 0 <= c % 64 < 64
  {}

  lemma ThreeDigits(c: int)
    requires 0 <= c
    ensures c / 64 == 64 * (c / 4096) + c / 64 % 64
  {
    assert c / 64 / 64 == c / 4096;
  }

  lemma FourDigits(c: int)
    requires 0 <= c
    ensures c / 4096 == 64 * (c / 262_144) + c / 4096 % 64
  {
    assert c / 4096 / 64 == c / 262_144;
  }

  lemma EncodedDecodes(c: int)
    requires IsCodePoint(c)
    ensures Length(Encoded(c)[0]) == |Encoded(c)| && CodePoint(Encoded(c)) == c
    ensures !(0xD800 <= c < 0xE000) ==> ValidCharacter(Encoded(c))
  {
    TwoDigits(c);
    ThreeDigits(c);
    FourDigits(c);
  }

  lemma PairUnits(lead: CodeUnit, trail: CodeUnit)
    requires Leading(lead) && Trailing(trail)
    ensures 0x1_0000 <= PairValue(lead, trail) && IsCodePoint(PairValue(lead, trail))
    ensures Units(PairValue(lead, trail)) == [lead, trail]
  {
    var c := PairValue(lead, trail) - 0x1_0000;
    assert c == 0x400 * (lead - 0xD800) + (trail - 0xDC00);
    assert c / 0x400 == lead - 0xD800 && c % 0x400 == trail - 0xDC00;
  }

  /** One encoded character in front of more bytes. */
  lemma DecodeStep(c: int, b: seq<Byte>)
    requires IsCodePoint(c) && !(0xD800 <= c < 0xE000) && Decode(b).Some?
    ensures Decode(Encoded(c) + b) == Some(Units(c) + Decode(b).value)
  {
    hide Encoded, CodePoint, Units;
    EncodedDecodes(c);
    var e := Encoded(c);
    assert e != [] && (e + b)[0] == e[0];
    assert (e + b)[..|e|] == e && (e + b)[|e|..] == b;
  }

  /** Encoding well-formed text loses nothing. */
  lemma {:induction false} DecodeEncode(t: Text)
    requires WellPaired(t)
    ensures Decode(Encode(t)) == Some(t)
    decreases |t|
  {
    hide Encoded, Units, PairValue;
    if t == [] {
    } else if Leading(t[0]) {
      DecodeEncode(t[2..]);
      PairUnits(t[0], t[1]);
      DecodeStep(PairValue(t[0], t[1]), Encode(t[2..]));
      assert t == [t[0], t[1]] + t[2..];
    } else {
      DecodeEncode(t[1..]);
      DecodeStep(t[0], Encode(t[1..]));
      assert Units(t[0]) == [t[0]] by { BasicUnits(t[0]); }
      assert t == [t[0]] + t[1..];
    }
  }

  lemma BasicUnits(c: CodeUnit)
    ensures Units(c) == [c]
  {}

  lemma SplitOff(q: int, r: int)
    requires 0 <= r < 64
    ensures (64 * q + r) / 64 == q && (64 * q + r) % 64 == r
  {}

  lemma EncodedOfTwo(b: seq<Byte>)
    requires ValidCharacter(b) && |b| == 2
    ensures IsCodePoint(CodePoint(b)) && Encoded(CodePoint(b)) == b
  {
    SplitOff(Minus(b[0], 0xC0), Minus(b[1], 0x80));
  }

  lemma EncodedOfThree(b: seq<Byte>)
    requires ValidCharacter(b) && |b| == 3
    ensures IsCodePoint(CodePoint(b)) && Encoded(CodePoint(b)) == b
  {
    var x, y, z := Minus(b[0], 0xE0), Minus(b[1], 0x80), Minus(b[2], 0x80);
    SplitOff(64 * x + y, z);
    SplitOff(x, y);
    ThreeDigits(CodePoint(b));
  }

  lemma EncodedOfFour(b: seq<Byte>)
    requires ValidCharacter(b) && |b| == 4
    ensures IsCodePoint(CodePoint(b)) && Encoded(CodePoint(b)) == b
  {
    var w, x, y, z := Minus(b[0], 0xF0), Minus(b[1], 0x80), Minus(b[2], 0x80), Minus(b[3], 0x80);
    SplitOff(64 * (64 * w + x) + y, z);
    SplitOff(64 * w + x, y);
    SplitOff(w, x);
    ThreeDigits(CodePoint(b));
    FourDigits(CodePoint(b));
  }

  lemma EncodedOfValid(b: seq<Byte>)
    requires ValidCharacter(b)
    ensures IsCodePoint(CodePoint(b)) && Encoded(CodePoint(b)) == b
  {
    if |b| == 2 { EncodedOfTwo(b); }
    else if |b| == 3 { EncodedOfThree(b); }
    else if |b| == 4 { EncodedOfFour(b); }
  }

  lemma UnitsOfValid(c: int, t: Text)
    requires IsCodePoint(c) && !(0xD800 <= c < 0xE000)
    ensures Encode(Units(c) + t) == Encoded(c) + Encode(t)
    ensures WellPaired(t) ==> WellPaired(Units(c) + t)
  {
    var u := Units(c) + t;
    if c < 0x1_0000 {
      assert u[1..] == t;
    } else {
      assert u[2..] == t;
      assert PairValue(u[0], u[1]) == c;
    }
  }

  /** The first character of a valid byte sequence, and the rest. */
  lemma DecodeSplits(b: seq<Byte>)
    requires b != [] && Decode(b).Some?
    ensures var n := Length(b[0]);
            && 0 < n <= |b| && ValidCharacter(b[..n]) && Decode(b[n..]).Some?
            && IsCodePoint(CodePoint(b[..n])) && !(0xD800 <= CodePoint(b[..n]) < 0xE000)
            && Decode(b).value == Units(CodePoint(b[..n])) + Decode(b[n..]).value
  {
    hide CodePoint, Units;
    NoSurrogate(b[..Length(b[0])]);
  }

  lemma FirstEncodes(first: seq<Byte>, rest: Text)
    requires ValidCharacter(first) && WellPaired(rest)
    ensures IsCodePoint(CodePoint(first))
    ensures WellPaired(Units(CodePoint(first)) + rest)
    ensures Encode(Units(CodePoint(first)) + rest) == first + Encode(rest)
  {
    hide Encode, Encoded, WellPaired, Units, Minus;
    EncodedOfValid(first);
    NoSurrogate(first);
    UnitsOfValid(CodePoint(first), rest);
  }

  lemma NothingEncodes()
    ensures Decode([]) == Some([]) && WellPaired([]) && Encode([]) == []
  {}

  lemma {:induction false} EncodeDecode(b: seq<Byte>)
    requires Decode(b).Some?
    ensures WellPaired(Decode(b).value) && Encode(Decode(b).value) == b
    decreases |b|
  {
    hide *;
    if b == [] {
      NothingEncodes();
    } else {
      DecodeSplits(b);
      var n := Length(b[0]);
      EncodeDecode(b[n..]);
      FirstEncodes(b[..n], Decode(b[n..]).value);
      assert b == b[..n] + b[n..];
    }
  }

  lemma NoSurrogate(b: seq<Byte>)
    requires ValidCharacter(b)
    ensures !(0xD800 <= CodePoint(b) < 0xE000)
  {}

  /** Encoding and decoding are inverse to each other: between the well-formed texts and the valid byte
    * sequences.
    */
  lemma DecodeIsInverse(t: Text, b: seq<Byte>)
    ensures Decode(b) == Some(t) <==> WellPaired(t) && Encode(t) == b
  {
    if Decode(b).Some? { EncodeDecode(b); }
    if WellPaired(t) { DecodeEncode(t); }
  }

  lemma EncodeIsInjective(t: Text, u: Text)
    requires WellPaired(t) && WellPaired(u)
    ensures Encode(t) == Encode(u) <==> t == u
  {
    DecodeEncode(t);
    DecodeEncode(u);
  }

  /** On other text it does lose something. */
  lemma LoneSurrogatesCollide()
    ensures Encode([0xD800]) == Encode([0xDFFF])
  {
    var a: Text, b: Text := [0xD800], [0xDFFF];
    assert a[1..] == b[1..] == [];
  }
}
