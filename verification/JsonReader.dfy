/** A reader for the JSON grammar of RFC 8259, without insignificant whitespace, fractions and
  * exponents, and the proof that the canonical printer writes text that reads back as the printed
  * value. It follows that canonical text, and a collision-free hash of it, identifies a value.
  */
module JsonReader {
  import opened Wrappers
  import opened CanonicalJson

  // ---------- strings (section 7 of RFC 8259) ----------

  function HexValue(c: CodeUnit): (r: Option<int>)
    ensures r.Some? ==> 0 <= r.value < 16
  {
    if 48 <= c <= 57 then Some(c - 48)
    else if 97 <= c <= 102 then Some(c - 87)
    else if 65 <= c <= 70 then Some(c - 55)
    else None
  }

  function HexFour(a: CodeUnit, b: CodeUnit, c: CodeUnit, d: CodeUnit): Option<CodeUnit> {
    match (HexValue(a), HexValue(b), HexValue(c), HexValue(d))
    case (Some(w), Some(x), Some(y), Some(z)) =>
      var r: int := 4096 * w + 256 * x + 16 * y + z;
      Some(r)
    case _ => None
  }

  /** The code unit an escape stands for, and the text after it; `t` follows the backslash. */
  function ReadEscape(t: Text): (r: Option<(CodeUnit, Text)>)
    ensures r.Some? ==> |r.value.1| < |t|
  {
    if t == [] then None
    else if t[0] == QUOTE || t[0] == BACKSLASH || t[0] == 47 then Some((t[0], t[1..]))
    else if t[0] == 98 then Some((8, t[1..]))
    else if t[0] == 102 then Some((12, t[1..]))
    else if t[0] == 110 then Some((10, t[1..]))
    else if t[0] == 114 then Some((13, t[1..]))
    else if t[0] == 116 then Some((9, t[1..]))
    else if t[0] == 117 && |t| >= 5 then
      var c := HexFour(t[1], t[2], t[3], t[4]);
      if c.None? then None else Some((c.value, t[5..]))
    else None
  }

  /** The rest of a string after its opening quote. */
  function ReadString(t: Text): (r: Option<(Text, Text)>)
    ensures r.Some? ==> |r.value.1| < |t|
    decreases |t|
  {
    if t == [] || t[0] < 32 then None
    else if t[0] == QUOTE then Some(([], t[1..]))
    else
      var head := if t[0] == BACKSLASH then ReadEscape(t[1..]) else Some((t[0], t[1..]));
      if head.None? then None
      else
        var tail := ReadString(head.value.1);
        if tail.None? then None else Some(([head.value.0] + tail.value.0, tail.value.1))
  }

  // ---------- numbers ----------

  function ReadDigits(t: Text, acc: nat): (r: (nat, Text))
    ensures |r.1| <= |t|
    decreases |t|
  {
    if t != [] && IsDigit(t[0]) then ReadDigits(t[1..], 10 * acc + (t[0] - 48)) else (acc, t)
  }

  /** An integer part: no leading zeros. */
  function ReadNat(t: Text): (r: Option<(nat, Text)>)
    ensures r.Some? ==> |r.value.1| < |t|
  {
    if t == [] || !IsDigit(t[0]) then None
    else if t[0] == 48 then Some((0, t[1..]))
    else Some(ReadDigits(t[1..], t[0] - 48))
  }

  // ---------- values ----------

  function ReadValue(t: Text): (r: Option<(Json, Text)>)
    ensures r.Some? ==> |r.value.1| < |t|
    decreases |t|, 0
  {
    if t == [] then None
    else if t[0] == 110 && NULL_TEXT <= t then Some((JNull, t[4..]))
    else if t[0] == 116 && TRUE_TEXT <= t then Some((JBool(true), t[4..]))
    else if t[0] == 102 && FALSE_TEXT <= t then Some((JBool(false), t[5..]))
    else if t[0] == QUOTE then
      match ReadString(t[1..])
      case Some((s, rest)) => Some((JStr(s), rest))
      case None => None
    else if t[0] == MINUS then
      match ReadNat(t[1..])
      case Some((n, rest)) => Some((JNum(0 - n), rest))
      case None => None
    else if t[0] == OPEN_BRACKET then
      if |t| > 1 && t[1] == CLOSE_BRACKET then Some((JArr([]), t[2..]))
      else
        match ReadItems(t[1..])
        case Some((items, rest)) => Some((JArr(items), rest))
        case None => None
    else if t[0] == OPEN_BRACE then
      if |t| > 1 && t[1] == CLOSE_BRACE then Some((JObj(map[]), t[2..]))
      else
        match ReadMembers(t[1..])
        case Some((members, rest)) => Some((JObj(members), rest))
        case None => None
    else
      match ReadNat(t)
      case Some((n, rest)) => Some((JNum(n), rest))
      case None => None
  }

  /** One or more items up to the closing bracket. */
  function ReadItems(t: Text): (r: Option<(seq<Json>, Text)>)
    ensures r.Some? ==> |r.value.1| < |t|
    decreases |t|, 1
  {
    match ReadValue(t)
    case Some((item, rest)) => ReadMoreItems(item, rest)
    case None => None
  }

  /** What follows an item: the closing bracket, or a comma and more items. */
  function ReadMoreItems(item: Json, t: Text): (r: Option<(seq<Json>, Text)>)
    ensures r.Some? ==> |r.value.1| < |t|
    decreases |t|, 2
  {
    if t == [] then None
    else if t[0] == CLOSE_BRACKET then Some(([item], t[1..]))
    else if t[0] != COMMA then None
    else
      match ReadItems(t[1..])
      case Some((more, rest)) => Some(([item] + more, rest))
      case None => None
  }

  /** One or more members up to the closing brace. */
  function ReadMembers(t: Text): (r: Option<(map<Text, Json>, Text)>)
    ensures r.Some? ==> |r.value.1| < |t|
    decreases |t|, 1
  {
    if t == [] || t[0] != QUOTE then None
    else
      var key := ReadString(t[1..]);
      if key.None? || key.value.1 == [] || key.value.1[0] != COLON then None
      else
        var val := ReadValue(key.value.1[1..]);
        if val.None? then None else ReadMoreMembers(key.value.0, val.value.0, val.value.1)
  }

  /** What follows a member: the closing brace, or a comma and more members. */
  function ReadMoreMembers(key: Text, val: Json, t: Text): (r: Option<(map<Text, Json>, Text)>)
    ensures r.Some? ==> |r.value.1| < |t|
    decreases |t|, 2
  {
    if t == [] then None
    else if t[0] == CLOSE_BRACE then Some((map[key := val], t[1..]))
    else if t[0] != COMMA then None
    else
      match ReadMembers(t[1..])
      case Some((more, rest)) => Some((map[key := val] + more, rest))
      case None => None
  }

  /** A whole text. */
  function Read(t: Text): Option<Json> {
    match ReadValue(t)
    case Some((j, rest)) => if rest == [] then Some(j) else None
    case None => None
  }

  // ---------- strings read back ----------

  lemma HexRoundTrip(d: int)
    requires 0 <= d < 16
    ensures HexValue(HexDigit(d)) == Some(d)
  {}

  lemma HexParts(c: CodeUnit)
    ensures 0 <= c / 4096 < 16
    ensures c == 4096 * (c / 4096) + 256 * (c / 256 % 16) + 16 * (c / 16 % 16) + c % 16
  {
    assert c / 256 == 16 * (c / 4096) + c / 256 % 16;
    assert c / 16 == 16 * (c / 256) + c / 16 % 16;
    assert c == 16 * (c / 16) + c % 16;
  }

  lemma UnicodeEscapeReads(c: CodeUnit, rest: Text)
    ensures ReadEscape(UnicodeEscape(c)[1..] + rest) == Some((c, rest))
  {
    HexParts(c);
    HexEscapeReads(c / 4096, c / 256 % 16, c / 16 % 16, c % 16, rest);
    assert UnicodeEscape(c)[1..] + rest ==
           [117, HexDigit(c / 4096), HexDigit(c / 256 % 16), HexDigit(c / 16 % 16), HexDigit(c % 16)] + rest;
  }

  lemma HexEscapeReads(a: int, b: int, x: int, y: int, rest: Text)
    requires 0 <= a < 16 && 0 <= b < 16 && 0 <= x < 16 && 0 <= y < 16
    ensures ReadEscape([117, HexDigit(a), HexDigit(b), HexDigit(x), HexDigit(y)] + rest) ==
            Some((4096 * a + 256 * b + 16 * x + y, rest))
  {
    hide HexDigit, HexValue;
    var t: Text := [117, HexDigit(a), HexDigit(b), HexDigit(x), HexDigit(y)] + rest;
    HexRoundTrip(a);
    HexRoundTrip(b);
    HexRoundTrip(x);
    HexRoundTrip(y);
    assert t[5..] == rest;
  }

  lemma ShortEscapeReads(c: CodeUnit, t: Text)
    requires |Escaped(c)| == 2
    ensures ReadEscape(Escaped(c)[1..] + t) == Some((c, t))
  {
    assert (Escaped(c)[1..] + t)[1..] == t;
  }

  /** One escape in front of the rest of a string. */
  lemma EscapeStep(e: Text, c: CodeUnit, t: Text)
    requires e != [] && e[0] == BACKSLASH && ReadEscape(e[1..] + t) == Some((c, t))
    requires ReadString(t).Some?
    ensures ReadString(e + t) == Some(([c] + ReadString(t).value.0, ReadString(t).value.1))
  {
    hide ReadEscape;
    assert (e + t)[1..] == e[1..] + t;
  }

  /** One unescaped code unit in front of the rest of a string. */
  lemma PlainStep(c: CodeUnit, t: Text)
    requires c >= 32 && c != QUOTE && c != BACKSLASH && ReadString(t).Some?
    ensures ReadString([c] + t) == Some(([c] + ReadString(t).value.0, ReadString(t).value.1))
  {
    assert ([c] + t)[1..] == t;
  }

  lemma EscapedReads(c: CodeUnit, t: Text)
    requires ReadString(t).Some?
    ensures ReadString(Escaped(c) + t) == Some(([c] + ReadString(t).value.0, ReadString(t).value.1))
  {
    hide ReadString, ReadEscape, UnicodeEscape, Escaped;
    EscapedHead(c);
    if Escaped(c) == [c] {
      PlainStep(c, t);
    } else {
      if |Escaped(c)| == 2 { ShortEscapeReads(c, t); } else { UnicodeEscapeReads(c, t); }
      EscapeStep(Escaped(c), c, t);
    }
  }

  lemma EscapedHead(c: CodeUnit)
    ensures Escaped(c) == [c] || (Escaped(c) != [] && Escaped(c)[0] == BACKSLASH)
    ensures Escaped(c) == [c] ==> c >= 32 && c != QUOTE && c != BACKSLASH
    ensures Escaped(c) == [c] || |Escaped(c)| == 2 || Escaped(c) == UnicodeEscape(c)
  {}

  lemma {:induction false} QuoteBodyReads(s: Text, rest: Text)
    ensures ReadString(QuoteBody(s) + [QUOTE] + rest) == Some((s, rest))
    decreases |s|
  {
    if s == [] {
      assert QuoteBody(s) + [QUOTE] + rest == [QUOTE] + rest;
      assert ([QUOTE] + rest)[1..] == rest;
    } else if |s| > 1 && Leading(s[0]) && Trailing(s[1]) {
      hide ReadString, Escaped;
      var t := QuoteBody(s[2..]) + [QUOTE] + rest;
      QuoteBodyReads(s[2..], rest);
      PairStep(s[0], s[1], t);
      Regroup([s[0], s[1]], QuoteBody(s[2..]), [QUOTE], rest);
      assert s == [s[0], s[1]] + s[2..];
    } else {
      hide ReadString, Escaped;
      var t := QuoteBody(s[1..]) + [QUOTE] + rest;
      QuoteBodyReads(s[1..], rest);
      EscapedReads(s[0], t);
      Regroup(Escaped(s[0]), QuoteBody(s[1..]), [QUOTE], rest);
      assert s == [s[0]] + s[1..];
    }
  }

  lemma Regroup<T>(a: seq<T>, b: seq<T>, c: seq<T>, d: seq<T>)
    ensures a + b + c + d == a + (b + c + d)
  {}

  lemma RegroupJoined<T>(a: seq<T>, b: seq<T>, c: seq<T>, d: seq<T>, e: seq<T>)
    ensures a + b + c + d + e == a + (b + (c + d + e))
  {}

  lemma RegroupPair<T>(a: T, b: T, c: seq<T>)
    ensures [a, b] + c == [a] + ([b] + c)
  {}

  lemma PairStep(c: CodeUnit, d: CodeUnit, t: Text)
    requires Leading(c) && Trailing(d) && ReadString(t).Some?
    ensures ReadString([c, d] + t) == Some(([c, d] + ReadString(t).value.0, ReadString(t).value.1))
  {
    hide ReadString;
    PlainStep(d, t);
    PlainStep(c, [d] + t);
    RegroupPair(c, d, t);
    RegroupPair(c, d, ReadString(t).value.0);
  }

  lemma QuoteReads(s: Text, rest: Text)
    ensures (Quote(s) + rest)[0] == QUOTE
    ensures ReadString((Quote(s) + rest)[1..]) == Some((s, rest))
  {
    QuoteBodyReads(s, rest);
    assert (Quote(s) + rest)[1..] == QuoteBody(s) + [QUOTE] + rest;
  }

  // ---------- numbers read back ----------

  /** Text that does not continue a number. */
  predicate NoDigit(rest: Text) {
    rest == [] || !IsDigit(rest[0])
  }

  function Shifted(acc: nat, n: nat): nat {
    if n < 10 then 10 * acc + n else 10 * Shifted(acc, n / 10) + n % 10
  }

  lemma {:induction false} DigitsRead(n: nat, acc: nat, t: Text)
    ensures ReadDigits(PrintNat(n) + t, acc) == ReadDigits(t, Shifted(acc, n))
  {
    if n < 10 {
      assert (PrintNat(n) + t)[1..] == t;
    } else {
      var u := [48 + n % 10] + t;
      assert PrintNat(n) + t == PrintNat(n / 10) + u && u[1..] == t;
      DigitsRead(n / 10, acc, u);
    }
  }

  lemma {:induction false} ShiftedZero(n: nat)
    ensures Shifted(0, n) == n
  {
    if n >= 10 { ShiftedZero(n / 10); }
  }

  lemma {:induction false} NoLeadingZero(n: nat)
    ensures PrintNat(n)[0] == 48 ==> n == 0
  {
    if n >= 10 { NoLeadingZero(n / 10); }
  }

  lemma NatReads(n: nat, rest: Text)
    requires NoDigit(rest)
    ensures ReadNat(PrintNat(n) + rest) == Some((n, rest))
  {
    var t := PrintNat(n) + rest;
    NoLeadingZero(n);
    if n == 0 {
      assert t[1..] == rest;
    } else {
      DigitsRead(n, 0, rest);
      ShiftedZero(n);
      assert ReadDigits(t, 0) == ReadDigits(t[1..], t[0] - 48);
    }
  }

  // ---------- values read back ----------

  /** The first code unit of a printed value tells which branch of the reader applies. */
  lemma PrintHead(v: Value)
    ensures Print(v) != [] && Print(v)[0] != CLOSE_BRACKET
  {}

  lemma LiteralsRead(rest: Text)
    ensures ReadValue(NULL_TEXT + rest) == Some((JNull, rest))
    ensures ReadValue(TRUE_TEXT + rest) == Some((JBool(true), rest))
    ensures ReadValue(FALSE_TEXT + rest) == Some((JBool(false), rest))
  {
    assert (NULL_TEXT + rest)[4..] == rest;
    var t, f := TRUE_TEXT + rest, FALSE_TEXT + rest;
    assert t[0] == 116 && t[4..] == rest && TRUE_TEXT <= t;
    assert f[0] == 102 && f[5..] == rest && FALSE_TEXT <= f;
  }

  lemma IntReads(n: int, rest: Text)
    requires NoDigit(rest)
    ensures ReadValue(PrintInt(n) + rest) == Some((JNum(n), rest))
  {
    hide ReadNat, PrintNat;
    if n < 0 {
      assert (PrintInt(n) + rest)[1..] == PrintNat(-n) + rest;
      NatReads(-n, rest);
    } else {
      NatReads(n, rest);
    }
  }

  lemma StringReads(s: Text, rest: Text)
    ensures ReadValue(Quote(s) + rest) == Some((JStr(s), rest))
  {
    hide ReadString;
    QuoteReads(s, rest);
    assert Quote(s) + rest != [];
  }

  lemma ArrayReads(u: Text, items: seq<Json>, rest: Text)
    requires u != [] && if items == [] then u == [CLOSE_BRACKET] + rest
                        else u[0] != CLOSE_BRACKET && ReadItems(u) == Some((items, rest))
    ensures ReadValue([OPEN_BRACKET] + u) == Some((JArr(items), rest))
  {
    hide ReadItems;
    var t := [OPEN_BRACKET] + u;
    assert t[1..] == u;
    assert t[2..] == u[1..];
  }

  lemma ObjectReads(u: Text, members: map<Text, Json>, rest: Text)
    requires u != [] && if members == map[] then u == [CLOSE_BRACE] + rest
                        else u[0] != CLOSE_BRACE && ReadMembers(u) == Some((members, rest))
    ensures ReadValue([OPEN_BRACE] + u) == Some((JObj(members), rest))
  {
    hide ReadMembers;
    var t := [OPEN_BRACE] + u;
    assert t[1..] == u;
    assert t[2..] == u[1..];
  }

  lemma {:induction false} PrintReads(v: Value, rest: Text)
    requires WellFormed(v) && NoDigit(rest)
    ensures ReadValue(Print(v) + rest) == Some((Meaning(v), rest))
    decreases v, 1
  {
    hide ReadValue, ReadItems, ReadMembers, Quote, PrintInt, NoDigit;
    LiteralsRead(rest);
    match v
    case Null | Undefined | NotFinite | Bool(_) =>
    case Num(n) =>
      IntReads(n, rest);
    case Str(s) =>
      StringReads(s, rest);
    case Callable(source) =>
      StringReads(source, rest);
    case Arr(items) =>
      var u := Join(PrintItems(items)) + [CLOSE_BRACKET] + rest;
      if items != [] {
        ItemsRead(items, rest);
        ItemsHead(items);
      }
      ArrayReads(u, MeaningOfItems(items), rest);
      Regroup([OPEN_BRACKET], Join(PrintItems(items)), [CLOSE_BRACKET], rest);
    case Obj(props) =>
      ObjectPrintReads(props, rest);
  }

  lemma ItemsHead(items: seq<Value>)
    requires items != []
    ensures Join(PrintItems(items)) != [] && Join(PrintItems(items))[0] != CLOSE_BRACKET
  {
    PrintHead(items[0]);
  }

  lemma {:induction false} ItemsRead(items: seq<Value>, rest: Text)
    requires items != [] && forall i :: 0 <= i < |items| ==> WellFormed(items[i])
    ensures ReadItems(Join(PrintItems(items)) + [CLOSE_BRACKET] + rest) == Some((MeaningOfItems(items), rest))
    decreases items, 0
  {
    hide ReadValue, Print, Meaning, Join;
    var texts := PrintItems(items);
    var after := AfterFirst(texts, CLOSE_BRACKET, rest);
    JoinSplit(texts, CLOSE_BRACKET, rest);
    PrintReads(items[0], after);
    if |items| == 1 {
      assert MeaningOfItems(items) == [Meaning(items[0])];
    } else {
      ItemsRead(items[1..], rest);
    }
  }

  /** The text after the first of some joined texts and a closing code unit. */
  function AfterFirst(texts: seq<Text>, close: CodeUnit, rest: Text): (r: Text)
    requires texts != []
    ensures r != [] && r[0] == (if |texts| == 1 then close else COMMA)
    ensures r[1..] == if |texts| == 1 then rest else Join(texts[1..]) + [close] + rest
  {
    if |texts| == 1 then [close] + rest else [COMMA] + (Join(texts[1..]) + [close] + rest)
  }

  lemma JoinSplit(texts: seq<Text>, close: CodeUnit, rest: Text)
    requires texts != []
    ensures Join(texts) + [close] + rest == texts[0] + AfterFirst(texts, close, rest)
  {
    if |texts| > 1 {
      RegroupJoined(texts[0], [COMMA], Join(texts[1..]), [close], rest);
    }
  }

  lemma {:induction false} ObjectPrintReads(props: seq<Property>, rest: Text)
    requires WellFormed(Obj(props))
    ensures ReadValue(Print(Obj(props)) + rest) == Some((JObj(MeaningOfProps(props)), rest))
    decreases props, 1
  {
    hide ReadValue, ReadMembers, PrintedKeys, Meaning, MeaningOfProps;
    PrintedKeysAscend(props);
    var keys := PrintedKeys(props);
    var body := Join(Entries(keys, props));
    if keys == [] {
      assert MeaningOfProps(props) == map[];
      assert body + [CLOSE_BRACE] + rest == [CLOSE_BRACE] + rest;
    } else {
      assert keys[0] in MeaningOfProps(props);
      MembersRead(keys, props, rest);
      EntryHead(keys, props);
      MembersAreMeaning(keys, props);
    }
    ObjectReads(body + [CLOSE_BRACE] + rest, MeaningOfProps(props), rest);
    Regroup([OPEN_BRACE], body, [CLOSE_BRACE], rest);
  }

  /** The members the printed entries stand for. */
  function Members(keys: seq<Text>, props: seq<Property>): map<Text, Json>
    requires forall k | k in keys :: k in Keys(props)
  {
    if keys == [] then map[]
    else map[keys[0] := Meaning(Get(props, keys[0]))] + Members(keys[1..], props)
  }

  lemma {:induction false} MembersAt(keys: seq<Text>, props: seq<Property>)
    requires forall k | k in keys :: k in Keys(props)
    ensures forall k :: k in Members(keys, props) <==> k in keys
    ensures forall k :: k in Members(keys, props) ==> Members(keys, props)[k] == Meaning(Get(props, k))
  {
    if keys != [] {
      MembersAt(keys[1..], props);
      assert keys == [keys[0]] + keys[1..];
    }
  }

  lemma MembersAreMeaning(keys: seq<Text>, props: seq<Property>)
    requires DistinctKeys(props) && forall k | k in keys :: k in Keys(props)
    requires forall k :: k in keys <==> k in MeaningOfProps(props)
    ensures Members(keys, props) == MeaningOfProps(props)
  {
    MembersAt(keys, props);
    forall k | k in keys ensures Members(keys, props)[k] == MeaningOfProps(props)[k] {
      MeaningOfPropsAt(props, k);
    }
  }

  lemma EntryHead(keys: seq<Text>, props: seq<Property>)
    requires keys != [] && forall k | k in keys :: k in Keys(props)
    ensures Join(Entries(keys, props)) != [] && Join(Entries(keys, props))[0] == QUOTE
  {}

  lemma {:induction false} MembersRead(keys: seq<Text>, props: seq<Property>, rest: Text)
    requires keys != [] && WellFormed(Obj(props)) && forall k | k in keys :: k in Keys(props)
    ensures ReadMembers(Join(Entries(keys, props)) + [CLOSE_BRACE] + rest) == Some((Members(keys, props), rest))
    decreases props, 0, |keys|
  {
    hide ReadMembers, ReadValue, Print, Quote, Meaning, Join, AfterFirst;
    var key, val, texts := keys[0], Get(props, keys[0]), Entries(keys, props);
    var after := AfterFirst(texts, CLOSE_BRACE, rest);
    JoinSplit(texts, CLOSE_BRACE, rest);
    PrintReads(val, after);
    MemberStep(key, val, after);
    assert Quote(key) + [COLON] + Print(val) + after == Quote(key) + ([COLON] + (Print(val) + after));
    if |keys| == 1 {
      assert Members(keys, props) == map[key := Meaning(val)];
    } else {
      MembersRead(keys[1..], props, rest);
    }
  }

  lemma MemberStep(key: Text, val: Value, after: Text)
    requires ReadValue(Print(val) + after) == Some((Meaning(val), after))
    ensures ReadMembers(Quote(key) + ([COLON] + (Print(val) + after))) == ReadMoreMembers(key, Meaning(val), after)
  {
    hide ReadString, ReadValue, Quote, Print, ReadMoreMembers;
    var afterKey := [COLON] + (Print(val) + after);
    assert afterKey[1..] == Print(val) + after;
    QuoteReads(key, afterKey);
  }

  // ---------- theorems ----------

  /** Canonical text is JSON, and reads back as the value it was printed from. */
  lemma CanonicalTextReadsBack(v: Value)
    requires WellFormed(v)
    ensures Read(Print(v)) == Some(Meaning(v))
  {
    PrintReads(v, []);
    assert Print(v) + [] == Print(v);
  }

  /** Two values print to the same text exactly when they mean the same: equal up to the order of
    * object keys and the properties that are left out.
    */
  lemma SamePrintIffSameMeaning(v: Value, w: Value)
    requires WellFormed(v) && WellFormed(w)
    ensures Print(v) == Print(w) <==> Meaning(v) == Meaning(w)
  {
    CanonicalTextReadsBack(v);
    CanonicalTextReadsBack(w);
    if Meaning(v) == Meaning(w) {
      SameMeaningSamePrint(v, w);
    }
  }
}
