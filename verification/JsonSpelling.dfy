/** Which of the JSON texts of a value the canonical printer writes: QuoteJSONString of ECMA-262 described by
  * what it is for, without its table of escapes.
  */
module JsonSpelling {
  import opened Wrappers
  import opened CanonicalJson
  import opened JsonReader
  import opened Utf8
  import opened RequestHash

  // ---------- strings ----------

  /** The digits of every `\u` escape are 0 to 9 and a to f. */
  predicate LowerHex(t: Text) {
    if t == [] then true
    else if t[0] == BACKSLASH && |t| >= 6 && t[1] == 117 then
      (forall i | 2 <= i < 6 :: 48 <= t[i] <= 57 || 97 <= t[i] <= 102) && LowerHex(t[6..])
    else if t[0] == BACKSLASH && |t| >= 2 then LowerHex(t[2..])
    else LowerHex(t[1..])
  }

  /** t, up to its closing quote, is a well-formed text that a reader takes for the string s. */
  predicate Spells(t: Text, s: Text) {
    ReadString(t) == Some((s, [])) && WellPaired(t)
  }

  /** What follows an escape, and how long the escape is, backslash included. */
  lemma EscapeLength(t: Text)
    requires ReadEscape(t).Some?
    ensures t != []
    ensures t[0] == 117 ==> |t| >= 5 && ReadEscape(t).value.1 == t[5..]
    ensures t[0] != 117 ==> ReadEscape(t).value.1 == t[1..]
  {}

  lemma HexIsBasic(c: CodeUnit)
    requires HexValue(c).Some?
    ensures 32 <= c && !Leading(c) && !Trailing(c) && c != BACKSLASH && c != QUOTE
  {}

  lemma PairedTail(t: Text)
    requires t != [] && WellPaired(t) && !Leading(t[0])
    ensures !Trailing(t[0]) && WellPaired(t[1..])
  {}

  lemma PairedAfterEscape(t: Text)
    requires t != [] && t[0] == BACKSLASH && ReadEscape(t[1..]).Some? && WellPaired(t)
    ensures WellPaired(ReadEscape(t[1..]).value.1)
  {
    EscapeLength(t[1..]);
    PairedTail(t);
    PairedTail(t[1..]);
    if t[1] == 117 {
      HexIsBasic(t[2]);
      HexIsBasic(t[3]);
      HexIsBasic(t[4]);
      HexIsBasic(t[5]);
      PairedTail(t[2..]);
      PairedTail(t[3..]);
      PairedTail(t[4..]);
      PairedTail(t[5..]);
      assert t[1..][5..] == t[5..][1..];
    } else {
      assert t[1..][1..] == t[2..];
    }
  }

  lemma HexDigitsOf(w: int, x: int, y: int, z: int)
    requires 0 <= w < 16 && 0 <= x < 16 && 0 <= y < 16 && 0 <= z < 16
    ensures var c := 4096 * w + 256 * x + 16 * y + z;
            c / 4096 == w && c / 256 % 16 == x && c / 16 % 16 == y && c % 16 == z
  {
    var c := 4096 * w + 256 * x + 16 * y + z;
    assert c / 256 == 16 * w + x;
    assert c / 16 == 16 * (16 * w + x) + y;
  }

  lemma LowerDigit(c: CodeUnit)
    requires HexValue(c).Some? && (48 <= c <= 57 || 97 <= c <= 102)
    ensures HexDigit(HexValue(c).value) == c
  {}

  /** A `\u` escape in lower case is the one the printer would write for the code unit. */
  lemma LowerEscape(t: Text)
    requires |t| >= 6 && t[0] == BACKSLASH && t[1] == 117 && ReadEscape(t[1..]).Some?
    requires forall i | 2 <= i < 6 :: 48 <= t[i] <= 57 || 97 <= t[i] <= 102
    ensures t[..6] == UnicodeEscape(ReadEscape(t[1..]).value.0)
  {
    hide HexValue, HexDigit;
    LowerDigit(t[2]);
    LowerDigit(t[3]);
    LowerDigit(t[4]);
    LowerDigit(t[5]);
    HexDigitsOf(HexValue(t[2]).value, HexValue(t[3]).value, HexValue(t[4]).value, HexValue(t[5]).value);
  }

  lemma ShortEscapeIsNoShorter(t: Text)
    requires |t| >= 2 && t[0] == BACKSLASH && t[1] != 117 && ReadEscape(t[1..]).Some?
    ensures ReadEscape(t[1..]).value.1 == t[2..]
    ensures var c := ReadEscape(t[1..]).value.0;
            |Escaped(c)| <= 2 && !Leading(c) && !Trailing(c) && (|Escaped(c)| == 2 ==> t[..2] == Escaped(c))
    ensures LowerHex(t) ==> LowerHex(t[2..])
  {
    EscapeLength(t[1..]);
    assert t[1..][1..] == t[2..];
  }

  lemma LongEscapeIsNoShorter(t: Text)
    requires |t| >= 2 && t[0] == BACKSLASH && t[1] == 117 && ReadEscape(t[1..]).Some?
    ensures |t| >= 6 && ReadEscape(t[1..]).value.1 == t[6..]
    ensures var c := ReadEscape(t[1..]).value.0;
            |Escaped(c)| <= 6 && (|Escaped(c)| == 6 && LowerHex(t) ==> t[..6] == Escaped(c))
    ensures LowerHex(t) ==> LowerHex(t[6..])
  {
    hide ReadEscape, Escaped;
    EscapeLength(t[1..]);
    assert t[1..][5..] == t[6..];
    EscapedHead(ReadEscape(t[1..]).value.0);
    if LowerHex(t) { LowerEscape(t); }
  }

  /** No escape is shorter than what the printer writes for its code unit, and one of the same length in
    * lower case is that.
    */
  lemma EscapeIsNoShorter(t: Text)
    requires t != [] && t[0] == BACKSLASH && ReadEscape(t[1..]).Some?
    ensures var (c, rest) := ReadEscape(t[1..]).value;
            && |Escaped(c)| <= |t| - |rest| && 2 <= |t| - |rest| && t[|t| - |rest|..] == rest
            && (LowerHex(t) ==> LowerHex(rest))
            && (|Escaped(c)| == |t| - |rest| && LowerHex(t) ==> t[..|Escaped(c)|] == Escaped(c))
            && (Leading(c) || Trailing(c) ==> |t| - |rest| == 6)
  {
    hide *;
    EscapeLength(t[1..]);
    if t[1] == 117 { LongEscapeIsNoShorter(t); } else { ShortEscapeIsNoShorter(t); }
  }

  lemma ReadStringStep(t: Text, s: Text)
    requires ReadString(t) == Some((s, [])) && t[0] != QUOTE
    ensures s != []
    ensures t[0] == BACKSLASH ==>
              ReadEscape(t[1..]).Some? && ReadEscape(t[1..]).value.0 == s[0] &&
              ReadString(ReadEscape(t[1..]).value.1) == Some((s[1..], []))
    ensures t[0] != BACKSLASH ==> t[0] >= 32 && s[0] == t[0] && ReadString(t[1..]) == Some((s[1..], []))
  {
    hide ReadEscape;
  }

  /** What the printer writes for a lone surrogate has six code units, and for other units it has fewer. */
  lemma EscapedSize(c: CodeUnit)
    ensures Leading(c) || Trailing(c) ==> |Escaped(c)| == 6
    ensures c >= 32 && c != QUOTE && c != BACKSLASH && !Leading(c) && !Trailing(c) ==> Escaped(c) == [c]
  {}

  /** Every spelling of s is at least as long as the printed one, and one of that length in lower case is the
    * printed one.
    */
  lemma {:induction false} SpellingIsNoShorter(t: Text, s: Text)
    requires Spells(t, s)
    ensures |QuoteBody(s)| + 1 <= |t|
    ensures |QuoteBody(s)| + 1 == |t| && LowerHex(t) ==> t == QuoteBody(s) + [QUOTE]
    decreases |t|
  {
    if t[0] == QUOTE {
      assert s == [] && t == [QUOTE];
    } else if t[0] == BACKSLASH {
      EscapedFirst(t, s);
    } else if Leading(t[0]) {
      PairFirst(t, s);
    } else {
      PlainFirst(t, s);
    }
  }

  lemma {:induction false} EscapedFirst(t: Text, s: Text)
    requires Spells(t, s) && t[0] == BACKSLASH
    ensures |QuoteBody(s)| + 1 <= |t|
    ensures |QuoteBody(s)| + 1 == |t| && LowerHex(t) ==> t == QuoteBody(s) + [QUOTE]
    decreases |t|, 0
  {
    hide ReadString, ReadEscape, LowerHex, Escaped, WellPaired;
    ReadStringStep(t, s);
    EscapeIsNoShorter(t);
    PairedAfterEscape(t);
    var rest := ReadEscape(t[1..]).value.1;
    var n := |t| - |rest|;
    SpellingIsNoShorter(rest, s[1..]);
    EscapedSize(s[0]);
    if |s| > 1 && Leading(s[0]) && Trailing(s[1]) {
      EscapedSize(s[1]);
      assert s[1..][0] == s[1] && s[1..][1..] == s[2..];
    } else {
      assert t == t[..n] + rest;
    }
  }

  lemma {:induction false} PairFirst(t: Text, s: Text)
    requires Spells(t, s) && Leading(t[0])
    ensures |QuoteBody(s)| + 1 <= |t|
    ensures |QuoteBody(s)| + 1 == |t| && LowerHex(t) ==> t == QuoteBody(s) + [QUOTE]
    decreases |t|, 0
  {
    hide ReadString, ReadEscape;
    ReadStringStep(t, s);
    assert Trailing(t[1]) && WellPaired(t[2..]);
    ReadStringStep(t[1..], s[1..]);
    assert t[1..][1..] == t[2..] && s[1..][1..] == s[2..];
    SpellingIsNoShorter(t[2..], s[2..]);
    assert t == [t[0], t[1]] + t[2..];
    assert LowerHex(t) ==> LowerHex(t[1..]);
    assert LowerHex(t[1..]) ==> LowerHex(t[1..][1..]);
  }

  lemma {:induction false} PlainFirst(t: Text, s: Text)
    requires Spells(t, s) && t[0] != QUOTE && t[0] != BACKSLASH && !Leading(t[0])
    ensures |QuoteBody(s)| + 1 <= |t|
    ensures |QuoteBody(s)| + 1 == |t| && LowerHex(t) ==> t == QuoteBody(s) + [QUOTE]
    decreases |t|, 0
  {
    hide ReadString, ReadEscape, Escaped;
    ReadStringStep(t, s);
    PairedTail(t);
    EscapedSize(s[0]);
    SpellingIsNoShorter(t[1..], s[1..]);
    assert t == [t[0]] + t[1..];
    assert LowerHex(t) ==> LowerHex(t[1..]);
  }

  lemma EscapedIsLower(c: CodeUnit, t: Text)
    requires LowerHex(t)
    ensures LowerHex(Escaped(c) + t)
  {
    var u := Escaped(c) + t;
    EscapedHead(c);
    if Escaped(c) == [c] {
      assert u[1..] == t;
    } else if |Escaped(c)| == 2 {
      assert u[2..] == t;
    } else {
      HexParts(c);
      assert u[6..] == t;
    }
  }

  lemma {:induction false} QuoteBodyIsLower(s: Text)
    ensures LowerHex(QuoteBody(s) + [QUOTE])
    decreases |s|
  {
    hide Escaped;
    if s == [] {
    } else if |s| > 1 && Leading(s[0]) && Trailing(s[1]) {
      QuoteBodyIsLower(s[2..]);
      var t := QuoteBody(s[2..]) + [QUOTE];
      assert (QuoteBody(s) + [QUOTE])[1..][1..] == t;
    } else {
      QuoteBodyIsLower(s[1..]);
      EscapedIsLower(s[0], QuoteBody(s[1..]) + [QUOTE]);
      assert QuoteBody(s) + [QUOTE] == Escaped(s[0]) + (QuoteBody(s[1..]) + [QUOTE]);
    }
  }

  /** The printed form of any string, lone surrogates included, is its one shortest spelling with lower-case
    * hexadecimal digits among the well-formed texts.
    */
  lemma QuoteIsShortest(s: Text, t: Text)
    ensures t == QuoteBody(s) + [QUOTE] <==>
            Spells(t, s) && LowerHex(t) && forall u | Spells(u, s) :: |t| <= |u|
  {
    var printed := QuoteBody(s) + [QUOTE];
    PrintedSpells(s);
    QuoteBodyIsLower(s);
    forall u | Spells(u, s) ensures |printed| <= |u| {
      SpellingIsNoShorter(u, s);
    }
    if Spells(t, s) && LowerHex(t) && forall u | Spells(u, s) :: |t| <= |u| {
      SpellingIsNoShorter(t, s);
    }
  }

  lemma PrintedSpells(s: Text)
    ensures Spells(QuoteBody(s) + [QUOTE], s)
  {
    QuoteBodyReads(s, []);
    QuoteBodyIsPaired(s);
    BasicIsPaired([QUOTE]);
    PairedConcat(QuoteBody(s), [QUOTE]);
    assert QuoteBody(s) + [QUOTE] + [] == QuoteBody(s) + [QUOTE];
  }

  // ---------- integers ----------

  lemma {:induction false} DigitsAreUnique(t: Text, acc: nat, n: nat)
    requires acc > 0 && ReadDigits(t, acc) == (n, [])
    ensures PrintNat(n) == PrintNat(acc) + t && n >= acc
  {
    if t != [] {
      var d := t[0] - 48;
      assert (10 * acc + d) / 10 == acc && (10 * acc + d) % 10 == d;
      DigitsAreUnique(t[1..], 10 * acc + d, n);
      assert t == [t[0]] + t[1..];
    }
  }

  lemma NatIsUnique(t: Text, n: nat)
    requires ReadNat(t) == Some((n, []))
    ensures t == PrintNat(n)
  {
    assert t == [t[0]] + t[1..];
    if t[0] != 48 { DigitsAreUnique(t[1..], t[0] - 48, n); }
  }

  /** The printed form of an integer is its one JSON spelling, but for "-0". */
  lemma IntIsUnique(t: Text, n: int)
    ensures t == PrintInt(n) <==> ReadValue(t) == Some((JNum(n), [])) && t != [MINUS, 48]
  {
    if t == PrintInt(n) {
      IntReads(n, []);
      assert PrintInt(n) + [] == PrintInt(n);
      if n < 0 { NoLeadingZero(-n); }
    }
    if ReadValue(t) == Some((JNum(n), [])) && t != [MINUS, 48] {
      if t[0] == MINUS {
        var m := ReadNat(t[1..]).value.0;
        NatIsUnique(t[1..], m);
        assert t == [MINUS] + t[1..];
      } else {
        NatIsUnique(t, n);
      }
    }
  }

  // ---------- the other branches of the printer ----------

  /** An object is printed as its members that are neither undefined nor a function or a symbol, in ascending
    * order of their keys, whatever order they have in the object.
    */
  lemma ObjectText(props: seq<Property>) returns (keys: seq<Text>)
    requires DistinctKeys(props)
    ensures Ascending(keys)
    ensures forall k :: k in keys <==> exists i | 0 <= i < |props| :: Prints(props[i], k)
    ensures forall k | k in keys :: k in Keys(props)
    ensures Print(Obj(props)) == [123] + Join(Entries(keys, props)) + [125]
  {
    PrintedKeysAscend(props);
    keys := PrintedKeys(props);
    forall k ensures k in keys <==> exists i | 0 <= i < |props| :: Prints(props[i], k) {
      KeptProperty(props, k);
    }
  }

  ghost predicate Prints(p: Property, k: Text) {
    p.key == k && !p.val.Undefined? && !p.val.Callable?
  }

  lemma KeptProperty(props: seq<Property>, k: Text)
    requires DistinctKeys(props)
    ensures k in PrintedKeys(props) <==> exists i | 0 <= i < |props| :: Prints(props[i], k)
  {
    PrintedKeysAscend(props);
    MeaningOfPropsAt(props, k);
    if k in Keys(props) {
      var i := Find(props, k);
      assert props[i].key == k;
      if Prints(props[i], k) { assert k in PrintedKeys(props); }
    }
    if i :| 0 <= i < |props| && Prints(props[i], k) {
      assert Keys(props)[i] == k;
      assert Find(props, k) == i;
    }
  }

  /** The fixed texts, and what a function or a symbol prints outside objects. */
  lemma SpecialTexts(source: Text)
    ensures Print(Null) == Print(Undefined) == Print(NotFinite) == TextOf("null")
    ensures Print(Bool(true)) == TextOf("true") && Print(Bool(false)) == TextOf("false")
    ensures Print(Callable(source)) == Print(Str(source))
    ensures Print(Num(-1)) == TextOf("-1") && QuoteBody([10]) == TextOf("\\n")
  {}

  /** The punctuation of strings, arrays and objects. */
  lemma PunctuationTexts(v: Value, w: Value, key: Text)
    ensures Print(Arr([v, w])) == [91] + (Print(v) + [44] + Print(w)) + [93]
    ensures Print(Str(key)) == [34] + QuoteBody(key) + [34]
    ensures Skipped(v) || Print(Obj([Property(key, v)])) == [123] + (Quote(key) + [58] + Print(v)) + [125]
  {
    assert Print(Str(key)) == [QUOTE] + QuoteBody(key) + [QUOTE];
    hide Print, Quote, QuoteBody;
    TwoItems(v, w);
    if !Skipped(v) { OneProperty(v, key); }
  }

  lemma TwoItems(v: Value, w: Value)
    ensures Print(Arr([v, w])) == [OPEN_BRACKET] + (Print(v) + [COMMA] + Print(w)) + [CLOSE_BRACKET]
  {
    hide Print, Join;
    PrintArray([v, w]);
    ItemsCons(v, [w]);
    ItemsCons(w, []);
    assert [w] + [] == [w] && [v] + [w] == [v, w];
    assert PrintItems([v, w]) == [Print(v), Print(w)];
    JoinTwo(Print(v), Print(w));
  }

  lemma PrintArray(items: seq<Value>)
    ensures Print(Arr(items)) == [OPEN_BRACKET] + Join(PrintItems(items)) + [CLOSE_BRACKET]
  {}

  lemma ItemsCons(v: Value, items: seq<Value>)
    ensures PrintItems([v] + items) == [Print(v)] + PrintItems(items)
    ensures PrintItems([]) == []
  {
    assert ([v] + items)[1..] == items;
  }

  lemma JoinTwo(a: Text, b: Text)
    ensures Join([a, b]) == a + [COMMA] + b
  {
    assert [a, b][1..] == [b];
  }

  lemma OneProperty(v: Value, key: Text)
    requires !Skipped(v)
    ensures Print(Obj([Property(key, v)])) == [OPEN_BRACE] + (Quote(key) + [COLON] + Print(v)) + [CLOSE_BRACE]
  {
    hide Print, Quote;
    var props := [Property(key, v)];
    assert Keys(props) == [key] && [key][1..] == [];
    assert Sorted(Keys(props)) == [key];
    KeptOne(key, props);
    assert Entries([key], props) == [Quote(key) + [COLON] + Print(v)];
    PrintObject(props);
  }

  lemma KeptOne(key: Text, props: seq<Property>)
    requires key in Keys(props) && !Skipped(Get(props, key))
    ensures Kept([key], props) == [key]
  {
    assert [key][1..] == [];
  }

  lemma PrintObject(props: seq<Property>)
    ensures Print(Obj(props)) == [OPEN_BRACE] + Join(Entries(PrintedKeys(props), props)) + [CLOSE_BRACE]
  {}

  /** The code units of an ASCII text. */
  function TextOf(s: string): Text
    requires forall i | 0 <= i < |s| :: s[i] < 128 as char
  {
    seq(|s|, i requires 0 <= i < |s| => s[i] as int)
  }

  /** A nullish payload is hashed as `{}`, and any other as its own text. */
  lemma PayloadText(payload: Value)
    ensures HashedBytes(payload) ==
            if payload == Null || payload == Undefined then [123, 125] else Encode(Print(payload))
  {
    if payload == Null || payload == Undefined {
      assert Keys([]) == [];
      var t := Print(Obj([]));
      assert t == [123, 125];
      assert t[1..] == [125] && t[1..][1..] == [];
    }
  }
}
