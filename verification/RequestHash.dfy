/** The printer as the loops of canonical-hash.util.ts, the request hash on top of it, and what edits
  * of a request leave both unchanged.
  */
module RequestHash {
  import opened CanonicalJson
  import opened JsonReader
  import opened Utf8

  // ---------- canonicalJsonStringify ----------

  lemma {:induction false} PrintItemsSnoc(items: seq<Value>, v: Value)
    ensures PrintItems(items + [v]) == PrintItems(items) + [Print(v)]
  {
    if items == [] {
      assert items + [v] == [v];
    } else {
      PrintItemsSnoc(items[1..], v);
      assert (items + [v])[1..] == items[1..] + [v];
    }
  }

  lemma {:induction false} KeptSnoc(keys: seq<Text>, k: Text, props: seq<Property>)
    requires k in Keys(props) && forall x | x in keys :: x in Keys(props)
    ensures Kept(keys + [k], props) == Kept(keys, props) + if Skipped(Get(props, k)) then [] else [k]
  {
    hide Get, Skipped, Keys;
    if keys == [] {
      assert keys + [k] == [k];
    } else {
      assert (keys + [k])[1..] == keys[1..] + [k];
      KeptSnoc(keys[1..], k, props);
    }
  }

  lemma {:induction false} EntriesSnoc(keys: seq<Text>, k: Text, props: seq<Property>)
    requires k in Keys(props) && forall x | x in keys :: x in Keys(props)
    ensures Entries(keys + [k], props) == Entries(keys, props) + [Quote(k) + [COLON] + Print(Get(props, k))]
  {
    if keys == [] {
      assert keys + [k] == [k];
    } else {
      assert (keys + [k])[1..] == keys[1..] + [k];
      EntriesSnoc(keys[1..], k, props);
    }
  }

  method CanonicalJsonStringify(value: Value) returns (text: Text)
    ensures text == Print(value)
    decreases value, 2
  {
    match value {
      case Null | Undefined | NotFinite => text := NULL_TEXT;
      case Bool(b) => text := if b then TRUE_TEXT else FALSE_TEXT;
      case Num(n) => text := PrintInt(n);
      case Str(s) => text := Quote(s);
      case Callable(source) => text := Quote(source);
      case Arr(items) => text := StringifyArray(items);
      case Obj(props) => text := StringifyObject(props);
    }
  }

  method StringifyArray(value: seq<Value>) returns (text: Text)
    ensures text == Print(Arr(value))
    decreases value, 1
  {
    var items: seq<Text> := [];
    for i := 0 to |value|
      invariant items == PrintItems(value[..i])
    {
      var item := CanonicalJsonStringify(value[i]);
      assert value[..i + 1] == value[..i] + [value[i]];
      PrintItemsSnoc(value[..i], value[i]);
      items := items + [item];
    }
    assert value[..|value|] == value;
    text := [OPEN_BRACKET] + Join(items) + [CLOSE_BRACKET];
  }

  method StringifyObject(obj: seq<Property>) returns (text: Text)
    ensures text == Print(Obj(obj))
    decreases obj, 1
  {
    var sortedKeys := Sorted(Keys(obj));
    SortedKeys(Keys(obj));
    var entries: seq<Text> := [];
    ghost var kept: seq<Text> := [];
    for i := 0 to |sortedKeys|
      invariant forall k | k in kept :: k in Keys(obj)
      invariant kept == Kept(sortedKeys[..i], obj)
      invariant entries == Entries(kept, obj)
    {
      var key := sortedKeys[i];
      assert sortedKeys[..i + 1] == sortedKeys[..i] + [key];
      KeptSnoc(sortedKeys[..i], key, obj);
      var val := Get(obj, key);
      if !Skipped(val) {
        var printed := CanonicalJsonStringify(val);
        EntriesSnoc(kept, key, obj);
        entries := entries + [Quote(key) + [COLON] + printed];
        kept := kept + [key];
      }
    }
    assert sortedKeys[..|sortedKeys|] == sortedKeys;
    text := [OPEN_BRACE] + Join(entries) + [CLOSE_BRACE];
  }

  // ---------- the text is well-formed UTF-16 ----------

  lemma {:induction false} PairedConcat(a: Text, b: Text)
    requires WellPaired(a) && WellPaired(b)
    ensures WellPaired(a + b)
    decreases |a|
  {
    if a == [] {
      assert a + b == b;
    } else if Leading(a[0]) {
      PairedConcat(a[2..], b);
      assert (a + b)[2..] == a[2..] + b;
    } else {
      PairedConcat(a[1..], b);
      assert (a + b)[1..] == a[1..] + b;
    }
  }

  lemma {:induction false} BasicIsPaired(t: Text)
    requires forall i :: 0 <= i < |t| ==> t[i] < 0xD800
    ensures WellPaired(t)
  {
    if t != [] { BasicIsPaired(t[1..]); }
  }

  lemma {:induction false} NatIsPaired(n: nat)
    ensures WellPaired(PrintNat(n))
  {
    BasicIsPaired([48 + n % 10]);
    if n >= 10 {
      NatIsPaired(n / 10);
      PairedConcat(PrintNat(n / 10), [48 + n % 10]);
    }
  }

  lemma EscapedIsPaired(c: CodeUnit)
    ensures WellPaired(Escaped(c))
  {
    if Escaped(c) == UnicodeEscape(c) {
      BasicIsPaired(UnicodeEscape(c));
    } else {
      BasicIsPaired(Escaped(c)[1..]);
    }
  }

  lemma {:induction false} QuoteBodyIsPaired(s: Text)
    ensures WellPaired(QuoteBody(s))
    decreases |s|
  {
    if s == [] {
    } else if |s| > 1 && Leading(s[0]) && Trailing(s[1]) {
      QuoteBodyIsPaired(s[2..]);
      assert ([s[0], s[1]] + QuoteBody(s[2..]))[2..] == QuoteBody(s[2..]);
    } else {
      EscapedIsPaired(s[0]);
      QuoteBodyIsPaired(s[1..]);
      PairedConcat(Escaped(s[0]), QuoteBody(s[1..]));
    }
  }

  lemma EnclosedIsPaired(open: CodeUnit, t: Text, close: CodeUnit)
    requires WellPaired(t) && open < 0xD800 && close < 0xD800
    ensures WellPaired([open] + t + [close])
  {
    BasicIsPaired([open]);
    BasicIsPaired([close]);
    PairedConcat([open], t);
    PairedConcat([open] + t, [close]);
  }

  lemma QuoteIsPaired(s: Text)
    ensures WellPaired(Quote(s))
  {
    QuoteBodyIsPaired(s);
    EnclosedIsPaired(QUOTE, QuoteBody(s), QUOTE);
  }

  lemma {:induction false} JoinIsPaired(texts: seq<Text>)
    requires forall i :: 0 <= i < |texts| ==> WellPaired(texts[i])
    ensures WellPaired(Join(texts))
  {
    if |texts| > 1 {
      JoinIsPaired(texts[1..]);
      BasicIsPaired([COMMA]);
      PairedConcat(texts[0], [COMMA]);
      PairedConcat(texts[0] + [COMMA], Join(texts[1..]));
    }
  }

  /** Canonical text is well-formed UTF-16, whatever surrogates the strings of the value contain. */
  lemma {:induction false} PrintIsPaired(v: Value)
    ensures WellPaired(Print(v))
    decreases v, 1
  {
    match v
    case Null | Undefined | NotFinite => BasicIsPaired(NULL_TEXT);
    case Bool(b) => BasicIsPaired(if b then TRUE_TEXT else FALSE_TEXT);
    case Num(n) =>
      NatIsPaired(if n < 0 then -n else n);
      BasicIsPaired([MINUS]);
      if n < 0 { PairedConcat([MINUS], PrintNat(-n)); }
    case Str(s) => QuoteIsPaired(s);
    case Callable(source) => QuoteIsPaired(source);
    case Arr(items) =>
      ItemsArePaired(items);
      JoinIsPaired(PrintItems(items));
      EnclosedIsPaired(OPEN_BRACKET, Join(PrintItems(items)), CLOSE_BRACKET);
    case Obj(props) =>
      var keys := PrintedKeys(props);
      EntriesArePaired(keys, props);
      JoinIsPaired(Entries(keys, props));
      EnclosedIsPaired(OPEN_BRACE, Join(Entries(keys, props)), CLOSE_BRACE);
  }

  lemma {:induction false} ItemsArePaired(items: seq<Value>)
    ensures forall i :: 0 <= i < |items| ==> WellPaired(PrintItems(items)[i])
    decreases items, 0
  {
    if items != [] {
      PrintIsPaired(items[0]);
      ItemsArePaired(items[1..]);
    }
  }

  lemma {:induction false} EntriesArePaired(keys: seq<Text>, props: seq<Property>)
    requires forall k | k in keys :: k in Keys(props)
    ensures forall i :: 0 <= i < |keys| ==> WellPaired(Entries(keys, props)[i])
    decreases props, 0, |keys|
  {
    if keys != [] {
      QuoteIsPaired(keys[0]);
      PrintIsPaired(Get(props, keys[0]));
      BasicIsPaired([COLON]);
      PairedConcat(Quote(keys[0]), [COLON]);
      PairedConcat(Quote(keys[0]) + [COLON], Print(Get(props, keys[0])));
      EntriesArePaired(keys[1..], props);
    }
  }

  // ---------- computeCanonicalRequestHash ----------

  /** `payload ?? {}` */
  function OrEmpty(payload: Value): Value {
    if payload.Null? || payload.Undefined? then Obj([]) else payload
  }

  /** The hash function on bytes is left open. */
  function Hash(payload: Value, sha256: seq<Byte> -> Text): Text {
    sha256(HashedBytes(payload))
  }

  /** The canonical text in UTF-8. */
  function HashedBytes(payload: Value): seq<Byte> {
    Encode(Print(OrEmpty(payload)))
  }

  /** The hashed bytes are the same exactly for payloads that mean the same. */
  lemma BytesIdentifyRequests(v: Value, w: Value)
    requires WellFormed(v) && WellFormed(w)
    ensures HashedBytes(v) == HashedBytes(w) <==> Meaning(OrEmpty(v)) == Meaning(OrEmpty(w))
  {
    SamePrintIffSameMeaning(OrEmpty(v), OrEmpty(w));
    PrintIsPaired(OrEmpty(v));
    PrintIsPaired(OrEmpty(w));
    EncodeIsInjective(Print(OrEmpty(v)), Print(OrEmpty(w)));
  }

  /** Payloads that mean the same have the same hash, whatever the hash function; and two payloads that
    * mean different things but hash alike are a collision of the hash function.
    */
  lemma HashIdentifiesRequests(v: Value, w: Value, sha256: seq<Byte> -> Text)
    requires WellFormed(v) && WellFormed(w)
    ensures Meaning(OrEmpty(v)) == Meaning(OrEmpty(w)) ==> Hash(v, sha256) == Hash(w, sha256)
    ensures Meaning(OrEmpty(v)) != Meaning(OrEmpty(w)) && Hash(v, sha256) == Hash(w, sha256) ==>
              HashedBytes(v) != HashedBytes(w) && sha256(HashedBytes(v)) == sha256(HashedBytes(w))
  {
    BytesIdentifyRequests(v, w);
  }

  // ---------- edits that keep the text ----------

  datatype Step = Item(i: nat) | Prop(i: nat)

  /** A path from a value to one of its parts. */
  predicate HasPath(v: Value, path: seq<Step>)
    decreases |path|
  {
    path == [] ||
    match path[0]
    case Item(i) => v.Arr? && i < |v.items| && HasPath(v.items[i], path[1..])
    case Prop(i) => v.Obj? && i < |v.props| && HasPath(v.props[i].val, path[1..])
  }

  function At(v: Value, path: seq<Step>): Value
    requires HasPath(v, path)
    decreases |path|
  {
    if path == [] then v
    else match path[0]
      case Item(i) => At(v.items[i], path[1..])
      case Prop(i) => At(v.props[i].val, path[1..])
  }

  /** v with the part at `path` replaced by w. */
  function Put(v: Value, path: seq<Step>, w: Value): Value
    requires HasPath(v, path)
    decreases |path|
  {
    if path == [] then w
    else match path[0]
      case Item(i) => Arr(v.items[i := Put(v.items[i], path[1..], w)])
      case Prop(i) => Obj(v.props[i := Property(v.props[i].key, Put(v.props[i].val, path[1..], w))])
  }

  /** Two parts that read alike in the place a path leads to: as a property value both may be left out,
    * and a part that is left out differs from one that is printed.
    */
  predicate Alike(path: seq<Step>, v: Value, w: Value) {
    if path != [] && path[|path| - 1].Prop? && (Skipped(v) || Skipped(w)) then Skipped(v) && Skipped(w)
    else Meaning(v) == Meaning(w)
  }

  lemma {:induction false} ItemsUpdated(items: seq<Value>, i: nat, w: Value)
    requires i < |items|
    ensures MeaningOfItems(items[i := w]) == MeaningOfItems(items)[i := Meaning(w)]
    ensures MeaningOfItems(items)[i] == Meaning(items[i])
  {
    if i > 0 {
      ItemsUpdated(items[1..], i - 1, w);
      assert items[i := w][1..] == items[1..][i - 1 := w];
    } else {
      assert items[i := w][1..] == items[1..];
    }
  }

  lemma FindIsUnique(props: seq<Property>, i: nat)
    requires DistinctKeys(props) && i < |props|
    ensures props[i].key in Keys(props) && Find(props, props[i].key) == i
  {
    assert Keys(props)[i] == props[i].key;
  }

  /** Updating a value changes what its key finds, and nothing else. */
  lemma UpdatedKeys(props: seq<Property>, i: nat, w: Value)
    requires i < |props| && DistinctKeys(props)
    ensures var updated := props[i := Property(props[i].key, w)];
            && DistinctKeys(updated) && Keys(updated) == Keys(props)
            && props[i].key in Keys(props) && Get(props, props[i].key) == props[i].val
            && Get(updated, props[i].key) == w
  {
    var updated := props[i := Property(props[i].key, w)];
    assert Keys(updated) == Keys(props);
    FindIsUnique(props, i);
    FindIsUnique(updated, i);
  }

  lemma OtherKeys(props: seq<Property>, i: nat, w: Value, k: Text)
    requires i < |props| && DistinctKeys(props) && k in Keys(props) && k != props[i].key
    ensures k in Keys(props[i := Property(props[i].key, w)])
    ensures Get(props[i := Property(props[i].key, w)], k) == Get(props, k)
  {
    var updated := props[i := Property(props[i].key, w)];
    UpdatedKeys(props, i, w);
    var j := Find(props, k);
    assert updated[j] == props[j];
    FindIsUnique(updated, j);
  }

  lemma PropsUpdated(props: seq<Property>, i: nat, w: Value)
    requires i < |props| && DistinctKeys(props)
    ensures MeaningOfProps(props[i := Property(props[i].key, w)]) == MeaningOfProps(props) <==>
            Alike([Prop(i)], props[i].val, w)
  {
    var key := props[i].key;
    var updated := props[i := Property(key, w)];
    UpdatedKeys(props, i, w);
    MeaningOfPropsAt(props, key);
    MeaningOfPropsAt(updated, key);
    if Alike([Prop(i)], props[i].val, w) {
      forall k ensures k in MeaningOfProps(props) <==> k in MeaningOfProps(updated)
               ensures k in MeaningOfProps(props) && k in MeaningOfProps(updated) ==>
                         MeaningOfProps(props)[k] == MeaningOfProps(updated)[k]
      {
        MeaningOfPropsAt(props, k);
        MeaningOfPropsAt(updated, k);
        if k in Keys(props) && k != key { OtherKeys(props, i, w, k); }
      }
    }
  }

  lemma {:induction false} PutIsWellFormed(v: Value, path: seq<Step>, w: Value)
    requires WellFormed(v) && WellFormed(w) && HasPath(v, path)
    ensures WellFormed(Put(v, path, w)) && WellFormed(At(v, path))
    ensures path != [] ==> !Skipped(v) && !Skipped(Put(v, path, w))
    decreases |path|
  {
    if path != [] {
      match path[0]
      case Item(i) =>
        PutIsWellFormed(v.items[i], path[1..], w);
      case Prop(i) =>
        PutIsWellFormed(v.props[i].val, path[1..], w);
        UpdatedKeys(v.props, i, Put(v.props[i].val, path[1..], w));
    }
  }

  lemma AlikeInside(path: seq<Step>, v: Value, w: Value)
    requires path != []
    ensures Alike(path, v, w) <==> if |path| == 1 then Alike([path[0]], v, w) else Alike(path[1..], v, w)
  {
    if |path| == 1 { assert path == [path[0]]; }
  }

  lemma ItemPut(items: seq<Value>, i: nat, u: Value)
    requires i < |items|
    ensures Meaning(Arr(items[i := u])) == Meaning(Arr(items)) <==> Meaning(u) == Meaning(items[i])
  {
    hide MeaningOfItems;
    ItemsUpdated(items, i, u);
    var r := MeaningOfItems(items);
    assert r[i := r[i]] == r;
    assert r[i := Meaning(u)][i] == Meaning(u);
  }

  /** Replacing a part at any depth keeps the meaning of the whole exactly when the two parts read alike
    * where they stand.
    */
  lemma {:induction false} PutKeepsMeaning(v: Value, path: seq<Step>, w: Value)
    requires WellFormed(v) && WellFormed(w) && HasPath(v, path)
    ensures Meaning(Put(v, path, w)) == Meaning(v) <==> Alike(path, At(v, path), w)
    decreases |path|
  {
    if path != [] {
      AlikeInside(path, At(v, path), w);
      match path[0]
      case Item(i) => PutInItem(v, path, w, i);
      case Prop(i) => PutInProp(v, path, w, i);
    }
  }

  lemma {:induction false} PutInItem(v: Value, path: seq<Step>, w: Value, i: nat)
    requires WellFormed(v) && WellFormed(w) && HasPath(v, path) && path != [] && path[0] == Item(i)
    ensures Meaning(Put(v, path, w)) == Meaning(v) <==>
            if |path| == 1 then Alike([path[0]], At(v, path), w) else Alike(path[1..], At(v, path), w)
    decreases |path|, 0
  {
    hide Meaning, Skipped;
    PutKeepsMeaning(v.items[i], path[1..], w);
    ItemPut(v.items, i, Put(v.items[i], path[1..], w));
  }

  lemma {:induction false} PutInProp(v: Value, path: seq<Step>, w: Value, i: nat)
    requires WellFormed(v) && WellFormed(w) && HasPath(v, path) && path != [] && path[0] == Prop(i)
    ensures Meaning(Put(v, path, w)) == Meaning(v) <==>
            if |path| == 1 then Alike([path[0]], At(v, path), w) else Alike(path[1..], At(v, path), w)
    decreases |path|, 0
  {
    hide MeaningOfProps, Skipped;
    var u := Put(v.props[i].val, path[1..], w);
    PutKeepsMeaning(v.props[i].val, path[1..], w);
    PutIsWellFormed(v.props[i].val, path[1..], w);
    PropsUpdated(v.props, i, u);
    assert Meaning(Put(v, path, w)) == Meaning(v) <==> Alike([path[0]], v.props[i].val, u);
  }

  /** The properties that are printed. */
  function Printed(props: seq<Property>): seq<Property> {
    if props == [] then []
    else (if Skipped(props[0].val) then [] else [props[0]]) + Printed(props[1..])
  }

  lemma {:induction false} PrintedProps(props: seq<Property>)
    ensures forall p :: p in Printed(props) <==> p in props && !Skipped(p.val)
  {
    if props != [] {
      PrintedProps(props[1..]);
      assert props == [props[0]] + props[1..];
    }
  }

  lemma MemberOfPrinted(props: seq<Property>, k: Text)
    requires DistinctKeys(props)
    ensures k in MeaningOfProps(props) ==>
              exists p | p in Printed(props) :: p.key == k && Meaning(p.val) == MeaningOfProps(props)[k]
    ensures forall p | p in Printed(props) && p.key == k ::
              k in MeaningOfProps(props) && MeaningOfProps(props)[k] == Meaning(p.val)
  {
    MeaningOfPropsAt(props, k);
    PrintedProps(props);
    if k in MeaningOfProps(props) {
      assert props[Find(props, k)] in Printed(props);
    }
    forall p | p in Printed(props) && p.key == k
      ensures k in MeaningOfProps(props) && MeaningOfProps(props)[k] == Meaning(p.val)
    {
      var j :| 0 <= j < |props| && props[j] == p;
      assert Keys(props)[j] == k;
      var i := Find(props, k);
      assert i == j;
    }
  }

  /** The order of the properties, and any that are left out, do not change what an object means. */
  lemma RearrangedMeansTheSame(props: seq<Property>, others: seq<Property>)
    requires DistinctKeys(props) && DistinctKeys(others)
    requires multiset(Printed(props)) == multiset(Printed(others))
    ensures MeaningOfProps(props) == MeaningOfProps(others)
  {
    var a, b := MeaningOfProps(props), MeaningOfProps(others);
    assert forall p :: p in Printed(props) <==> p in multiset(Printed(props));
    assert forall p :: p in Printed(others) <==> p in multiset(Printed(others));
    forall k ensures k in a <==> k in b
             ensures k in a && k in b ==> a[k] == b[k]
    {
      MemberOfPrinted(props, k);
      MemberOfPrinted(others, k);
    }
  }

  lemma DistinctInside(props: seq<Property>)
    requires WellFormed(Obj(props))
    ensures DistinctKeys(props)
  {}

  /** A rearranged value is nullish only if it was. */
  lemma RootStaysObject(v: Value, path: seq<Step>, others: seq<Property>)
    requires HasPath(v, path) && At(v, path).Obj?
    ensures OrEmpty(v) == v && OrEmpty(Put(v, path, Obj(others))) == Put(v, path, Obj(others))
  {}

  /** At any depth: permuting the properties of an object, or adding and removing properties whose
    * value is undefined, a function or a symbol, changes neither the text nor the hash.
    */
  lemma RearrangingKeepsText(v: Value, path: seq<Step>, others: seq<Property>, sha256: seq<Byte> -> Text)
    requires WellFormed(v) && HasPath(v, path) && At(v, path).Obj?
    requires WellFormed(Obj(others))
    requires multiset(Printed(At(v, path).props)) == multiset(Printed(others))
    ensures Print(Put(v, path, Obj(others))) == Print(v)
    ensures Hash(Put(v, path, Obj(others)), sha256) == Hash(v, sha256)
  {
    hide Put, MeaningOfProps, Print, Printed, WellFormed;
    PutIsWellFormed(v, path, v);
    DistinctInside(At(v, path).props);
    DistinctInside(others);
    RearrangedMeansTheSame(At(v, path).props, others);
    PutIsWellFormed(v, path, Obj(others));
    PutKeepsMeaning(v, path, Obj(others));
    SameMeaningSamePrint(Put(v, path, Obj(others)), v);
    RootStaysObject(v, path, others);
  }
}
