/** The canonical JSON printer of canonical-hash.util.ts. Text is a sequence of UTF-16 code units. */
module CanonicalJson {
  type CodeUnit = c: int | 0 <= c < 0x1_0000
  type Text = seq<CodeUnit>

  /** Integers that a JavaScript number holds exactly. */
  type SafeInt = n: int | -0x1F_FFFF_FFFF_FFFF <= n <= 0x1F_FFFF_FFFF_FFFF

  /** JavaScript values. NotFinite is NaN or an infinity. Callable is a function or a symbol, with
    * the text `String` makes of it. Obj lists the own enumerable string-keyed properties.
    */
  datatype Value =
    | Null
    | Undefined
    | Bool(b: bool)
    | Num(n: SafeInt)
    | NotFinite
    | Str(s: Text)
    | Callable(source: Text)
    | Arr(items: seq<Value>)
    | Obj(props: seq<Property>)

  datatype Property = Property(key: Text, val: Value)

  /** An object has one property per key, at every depth. */
  ghost predicate WellFormed(v: Value) {
    match v
    case Arr(items) => forall i :: 0 <= i < |items| ==> WellFormed(items[i])
    case Obj(props) => DistinctKeys(props) && forall i :: 0 <= i < |props| ==> WellFormed(props[i].val)
    case _ => true
  }

  ghost predicate DistinctKeys(props: seq<Property>) {
    forall i, j :: 0 <= i < j < |props| ==> props[i].key != props[j].key
  }

  // ---------- the JSON value a JavaScript value stands for ----------

  /** JSON values. The members of an object are a map, so they have no order. */
  datatype Json =
    | JNull
    | JBool(b: bool)
    | JNum(n: int)
    | JStr(s: Text)
    | JArr(items: seq<Json>)
    | JObj(members: map<Text, Json>)

  /** Properties the printer leaves out. */
  predicate Skipped(v: Value) {
    v.Undefined? || v.Callable?
  }

  function Meaning(v: Value): Json {
    match v
    case Null => JNull
    case Undefined => JNull
    case Bool(b) => JBool(b)
    case Num(n) => JNum(n)
    case NotFinite => JNull
    case Str(s) => JStr(s)
    case Callable(source) => JStr(source)
    case Arr(items) => JArr(MeaningOfItems(items))
    case Obj(props) => JObj(MeaningOfProps(props))
  }

  function MeaningOfItems(items: seq<Value>): (r: seq<Json>)
    ensures |r| == |items|
  {
    if items == [] then [] else [Meaning(items[0])] + MeaningOfItems(items[1..])
  }

  function MeaningOfProps(props: seq<Property>): map<Text, Json> {
    if props == [] then map[]
    else
      var rest := MeaningOfProps(props[1..]);
      if Skipped(props[0].val) then rest else rest[props[0].key := Meaning(props[0].val)]
  }

  // ---------- scalars ----------

  const QUOTE: CodeUnit := 34
  const BACKSLASH: CodeUnit := 92
  const COMMA: CodeUnit := 44
  const COLON: CodeUnit := 58
  const MINUS: CodeUnit := 45
  const OPEN_BRACKET: CodeUnit := 91
  const CLOSE_BRACKET: CodeUnit := 93
  const OPEN_BRACE: CodeUnit := 123
  const CLOSE_BRACE: CodeUnit := 125
  const NULL_TEXT: Text := [110, 117, 108, 108]
  const TRUE_TEXT: Text := [116, 114, 117, 101]
  const FALSE_TEXT: Text := [102, 97, 108, 115, 101]

  function PrintNat(n: nat): (r: Text)
    ensures r != [] && IsDigit(r[0])
  {
    if n < 10 then [48 + n] else PrintNat(n / 10) + [48 + n % 10]
  }

  function PrintInt(n: int): Text {
    if n < 0 then [MINUS] + PrintNat(-n) else PrintNat(n)
  }

  predicate IsDigit(c: CodeUnit) {
    48 <= c <= 57
  }

  predicate Leading(c: CodeUnit) {
    0xD800 <= c < 0xDC00
  }

  predicate Trailing(c: CodeUnit) {
    0xDC00 <= c < 0xE000
  }

  function HexDigit(d: int): CodeUnit
    requires 0 <= d < 16
  {
    if d < 10 then 48 + d else 87 + d
  }

  function UnicodeEscape(c: CodeUnit): Text {
    [BACKSLASH, 117, HexDigit(c / 4096), HexDigit(c / 256 % 16), HexDigit(c / 16 % 16), HexDigit(c % 16)]
  }

  /** QuoteJSONString of ECMA-262 on one code unit that is not half of a surrogate pair. */
  function Escaped(c: CodeUnit): Text {
    if c == 8 then [BACKSLASH, 98]
    else if c == 9 then [BACKSLASH, 116]
    else if c == 10 then [BACKSLASH, 110]
    else if c == 12 then [BACKSLASH, 102]
    else if c == 13 then [BACKSLASH, 114]
    else if c == QUOTE || c == BACKSLASH then [BACKSLASH, c]
    else if c < 32 || Leading(c) || Trailing(c) then UnicodeEscape(c)
    else [c]
  }

  function QuoteBody(s: Text): Text {
    if s == [] then []
    else if |s| > 1 && Leading(s[0]) && Trailing(s[1]) then [s[0], s[1]] + QuoteBody(s[2..])
    else Escaped(s[0]) + QuoteBody(s[1..])
  }

  /** `JSON.stringify` of a string. */
  function Quote(s: Text): Text {
    [QUOTE] + QuoteBody(s) + [QUOTE]
  }

  // ---------- key order ----------

  /** The default order of `Array.prototype.sort`: by code units. */
  predicate Before(a: Text, b: Text) {
    if b == [] then false
    else if a == [] then true
    else a[0] < b[0] || (a[0] == b[0] && Before(a[1..], b[1..]))
  }

  /** The first difference decides, and a proper prefix comes first. */
  lemma {:induction false} BeforeIsLexicographic(a: Text, b: Text)
    ensures Before(a, b) <==>
            a < b || exists i | 0 <= i < |a| && i < |b| :: a[..i] == b[..i] && a[i] < b[i]
  {
    if a != [] && b != [] && a[0] == b[0] {
      var s, t := a[1..], b[1..];
      BeforeIsLexicographic(s, t);
      assert a == [a[0]] + s && b == [b[0]] + t;
      if i :| 0 <= i < |s| && i < |t| && s[..i] == t[..i] && s[i] < t[i] {
        assert a[..i + 1] == [a[0]] + s[..i] && b[..i + 1] == [b[0]] + t[..i];
        assert a[i + 1] < b[i + 1];
      }
      if i :| 0 <= i < |a| && i < |b| && a[..i] == b[..i] && a[i] < b[i] {
        assert i > 0 && s[..i - 1] == a[..i][1..] && t[..i - 1] == b[..i][1..];
        assert s[i - 1] < t[i - 1];
      }
    } else if a != [] && b != [] {
      forall i | 0 < i < |a| && i < |b| ensures a[..i] != b[..i] {
        assert a[..i][0] == a[0] && b[..i][0] == b[0];
      }
      if a[0] < b[0] { assert a[..0] == b[..0]; }
    }
  }

  lemma {:induction false} BeforeIsTotal(a: Text, b: Text)
    ensures Before(a, b) || Before(b, a) || a == b
    ensures !(Before(a, b) && Before(b, a)) && !Before(a, a)
  {
    if a != [] { BeforeIsTotal(a[1..], a[1..]); }
    if a != [] && b != [] {
      BeforeIsTotal(a[1..], b[1..]);
      assert a == [a[0]] + a[1..] && b == [b[0]] + b[1..];
    }
  }

  lemma {:induction false} BeforeIsTransitive(a: Text, b: Text, c: Text)
    requires Before(a, b) && Before(b, c)
    ensures Before(a, c)
  {
    if a != [] && a[0] == b[0] == c[0] {
      BeforeIsTransitive(a[1..], b[1..], c[1..]);
    }
  }

  ghost predicate Ascending(keys: seq<Text>) {
    forall i, j :: 0 <= i < j < |keys| ==> Before(keys[i], keys[j])
  }

  ghost predicate Distinct(keys: seq<Text>) {
    forall i, j :: 0 <= i < j < |keys| ==> keys[i] != keys[j]
  }

  /** `Array.prototype.sort` on strings. */
  function Sorted(keys: seq<Text>): seq<Text> {
    if keys == [] then [] else Inserted(keys[0], Sorted(keys[1..]))
  }

  function Inserted(k: Text, keys: seq<Text>): seq<Text> {
    if keys == [] || !Before(keys[0], k) then [k] + keys
    else [keys[0]] + Inserted(k, keys[1..])
  }

  lemma {:induction false} InsertedKeys(k: Text, keys: seq<Text>)
    ensures forall x :: x in Inserted(k, keys) <==> x == k || x in keys
    ensures Ascending(keys) && k !in keys ==> Ascending(Inserted(k, keys))
  {
    if keys != [] {
      BeforeIsTotal(keys[0], k);
      assert keys == [keys[0]] + keys[1..];
      if Before(keys[0], k) {
        InsertedKeys(k, keys[1..]);
        if Ascending(keys) && k !in keys {
          ConsAscending(keys[0], Inserted(k, keys[1..]));
        }
      } else if Ascending(keys) && k !in keys {
        forall x | x in keys ensures Before(k, x) {
          var i :| 0 <= i < |keys| && keys[i] == x;
          if i > 0 { BeforeIsTransitive(k, keys[0], x); }
        }
        ConsAscending(k, keys);
      }
    }
  }

  lemma ConsAscending(k: Text, keys: seq<Text>)
    requires Ascending(keys) && forall x | x in keys :: Before(k, x)
    ensures Ascending([k] + keys)
  {
    var r := [k] + keys;
    forall i, j | 0 <= i < j < |r| ensures Before(r[i], r[j]) {
      if i == 0 { assert r[j] in keys; }
    }
  }

  lemma {:induction false} SortedKeys(keys: seq<Text>)
    ensures forall x :: x in Sorted(keys) <==> x in keys
    ensures Distinct(keys) ==> Ascending(Sorted(keys))
  {
    if keys != [] {
      assert keys == [keys[0]] + keys[1..];
      SortedKeys(keys[1..]);
      InsertedKeys(keys[0], Sorted(keys[1..]));
    }
  }

  /** A set of keys has one ascending list. */
  lemma {:induction false} AscendingIsUnique(a: seq<Text>, b: seq<Text>)
    requires Ascending(a) && Ascending(b)
    requires forall x :: x in a <==> x in b
    ensures a == b
  {
    SameEmptiness(a, b);
    if a != [] {
      assert a[0] in b && b[0] in a;
      BeforeIsTotal(a[0], b[0]);
      assert a[0] == b[0];
      forall x ensures x in a[1..] <==> x in b[1..] {
        TailKeys(a, x);
        TailKeys(b, x);
      }
      AscendingIsUnique(a[1..], b[1..]);
      assert a == [a[0]] + a[1..] && b == [b[0]] + b[1..];
    }
  }

  lemma SameEmptiness(a: seq<Text>, b: seq<Text>)
    requires forall x :: x in a <==> x in b
    ensures a == [] <==> b == []
  {
    assert a != [] ==> (a[0] in a <==> a[0] in b);
    assert b != [] ==> (b[0] in a <==> b[0] in b);
  }

  lemma TailKeys(a: seq<Text>, x: Text)
    requires a != [] && Ascending(a)
    ensures x in a[1..] <==> x in a && x != a[0]
  {
    BeforeIsTotal(a[0], a[0]);
    if x in a[1..] {
      var i :| 0 <= i < |a[1..]| && a[1..][i] == x;
      assert Before(a[0], a[i + 1]);
    }
    if x in a && x != a[0] {
      var i :| 0 <= i < |a| && a[i] == x;
      assert a[1..][i - 1] == x;
    }
  }

  // ---------- the printer ----------

  function Keys(props: seq<Property>): (r: seq<Text>)
    ensures |r| == |props|
    ensures forall i :: 0 <= i < |props| ==> r[i] == props[i].key
  {
    seq(|props|, i requires 0 <= i < |props| => props[i].key)
  }

  /** Where the property named `key` is. */
  function Find(props: seq<Property>, key: Text): (i: nat)
    requires key in Keys(props)
    ensures i < |props| && props[i].key == key
  {
    if props[0].key == key then 0
    else
      assert key in Keys(props[1..]) by {
        var j :| 0 <= j < |props| && Keys(props)[j] == key;
        assert Keys(props[1..])[j - 1] == key;
      }
      1 + Find(props[1..], key)
  }

  /** `obj[key]` */
  function Get(props: seq<Property>, key: Text): Value
    requires key in Keys(props)
  {
    props[Find(props, key)].val
  }

  /** The keys whose values are printed. */
  function Kept(keys: seq<Text>, props: seq<Property>): (r: seq<Text>)
    requires forall k | k in keys :: k in Keys(props)
    ensures forall k :: k in r <==> k in keys && !Skipped(Get(props, k))
  {
    if keys == [] then []
    else (if Skipped(Get(props, keys[0])) then [] else [keys[0]]) + Kept(keys[1..], props)
  }

  function Join(texts: seq<Text>): Text {
    if texts == [] then []
    else if |texts| == 1 then texts[0]
    else texts[0] + [COMMA] + Join(texts[1..])
  }

  function Print(v: Value): Text
    decreases v, 1
  {
    match v
    case Null => NULL_TEXT
    case Undefined => NULL_TEXT
    case Bool(b) => if b then TRUE_TEXT else FALSE_TEXT
    case Num(n) => PrintInt(n)
    case NotFinite => NULL_TEXT
    case Str(s) => Quote(s)
    case Callable(source) => Quote(source)
    case Arr(items) => [OPEN_BRACKET] + Join(PrintItems(items)) + [CLOSE_BRACKET]
    case Obj(props) => [OPEN_BRACE] + Join(Entries(PrintedKeys(props), props)) + [CLOSE_BRACE]
  }

  function PrintItems(items: seq<Value>): (r: seq<Text>)
    ensures |r| == |items|
    decreases items, 0
  {
    if items == [] then [] else [Print(items[0])] + PrintItems(items[1..])
  }

  /** The keys of an object in the order they are printed. */
  function PrintedKeys(props: seq<Property>): (r: seq<Text>)
    ensures forall k | k in r :: k in Keys(props)
  {
    SortedKeys(Keys(props));
    Kept(Sorted(Keys(props)), props)
  }

  function Entries(keys: seq<Text>, props: seq<Property>): (r: seq<Text>)
    requires forall k | k in keys :: k in Keys(props)
    ensures |r| == |keys|
    decreases props, 0, |keys|
  {
    if keys == [] then []
    else [Quote(keys[0]) + [COLON] + Print(Get(props, keys[0]))] + Entries(keys[1..], props)
  }

  // ---------- printed keys ----------

  lemma KeysAreDistinct(props: seq<Property>)
    requires DistinctKeys(props)
    ensures Distinct(Keys(props))
  {}

  lemma {:induction false} KeptIsAscending(keys: seq<Text>, props: seq<Property>)
    requires Ascending(keys) && forall k | k in keys :: k in Keys(props)
    ensures Ascending(Kept(keys, props))
  {
    if keys != [] {
      KeptIsAscending(keys[1..], props);
      forall k | k in keys[1..] ensures Before(keys[0], k) {
        var i :| 0 <= i < |keys[1..]| && keys[1..][i] == k;
        assert Before(keys[0], keys[i + 1]);
      }
      if !Skipped(Get(props, keys[0])) {
        ConsAscending(keys[0], Kept(keys[1..], props));
      }
    }
  }

  lemma KeysOfTail(props: seq<Property>, k: Text)
    requires props != []
    ensures k in Keys(props) <==> k == props[0].key || k in Keys(props[1..])
  {
    assert Keys(props) == [props[0].key] + Keys(props[1..]);
  }

  lemma {:induction false} MeaningOfPropsAt(props: seq<Property>, k: Text)
    requires DistinctKeys(props)
    ensures k in MeaningOfProps(props) <==> k in Keys(props) && !Skipped(Get(props, k))
    ensures k in MeaningOfProps(props) ==> MeaningOfProps(props)[k] == Meaning(Get(props, k))
  {
    if props != [] {
      MeaningOfPropsAt(props[1..], k);
      KeysOfTail(props, k);
      forall j | 0 <= j < |props[1..]| ensures props[1..][j].key != props[0].key {
        assert props[1..][j] == props[j + 1];
      }
    }
  }

  /** The printed keys of an object are strictly increasing, and are exactly its members. */
  lemma PrintedKeysAscend(props: seq<Property>)
    requires DistinctKeys(props)
    ensures Ascending(PrintedKeys(props))
    ensures forall k :: k in PrintedKeys(props) <==> k in MeaningOfProps(props)
  {
    KeysAreDistinct(props);
    SortedKeys(Keys(props));
    KeptIsAscending(Sorted(Keys(props)), props);
    forall k ensures k in PrintedKeys(props) <==> k in MeaningOfProps(props) {
      MeaningOfPropsAt(props, k);
    }
  }

  // ---------- values that mean the same print the same ----------

  lemma {:induction false} SameMeaningSamePrint(v: Value, w: Value)
    requires WellFormed(v) && WellFormed(w) && Meaning(v) == Meaning(w)
    ensures Print(v) == Print(w)
    decreases v, 1
  {
    match v
    case Arr(items) =>
      SameItemsSamePrint(items, w.items);
    case Obj(props) =>
      PrintedKeysAscend(props);
      PrintedKeysAscend(w.props);
      AscendingIsUnique(PrintedKeys(props), PrintedKeys(w.props));
      SameEntries(PrintedKeys(props), props, w.props);
    case _ =>
  }

  lemma {:induction false} SameItemsSamePrint(items: seq<Value>, others: seq<Value>)
    requires forall i :: 0 <= i < |items| ==> WellFormed(items[i])
    requires forall i :: 0 <= i < |others| ==> WellFormed(others[i])
    requires MeaningOfItems(items) == MeaningOfItems(others)
    ensures PrintItems(items) == PrintItems(others)
    decreases items, 0
  {
    if items != [] {
      var a, b := MeaningOfItems(items), MeaningOfItems(others);
      assert Meaning(items[0]) == a[0] == b[0] == Meaning(others[0]);
      assert MeaningOfItems(items[1..]) == a[1..] == b[1..] == MeaningOfItems(others[1..]);
      SameMeaningSamePrint(items[0], others[0]);
      SameItemsSamePrint(items[1..], others[1..]);
    }
  }

  lemma {:induction false} SameEntries(keys: seq<Text>, props: seq<Property>, others: seq<Property>)
    requires WellFormed(Obj(props)) && WellFormed(Obj(others))
    requires MeaningOfProps(props) == MeaningOfProps(others)
    requires forall k | k in keys :: k in MeaningOfProps(props)
    requires forall k | k in keys :: k in Keys(props) && k in Keys(others)
    ensures Entries(keys, props) == Entries(keys, others)
    decreases props, 0, |keys|
  {
    if keys != [] {
      MeaningOfPropsAt(props, keys[0]);
      MeaningOfPropsAt(others, keys[0]);
      assert keys[0] in keys;
      SameMeaningSamePrint(Get(props, keys[0]), Get(others, keys[0]));
      SameEntries(keys[1..], props, others);
    }
  }
}
