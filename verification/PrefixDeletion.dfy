/** Tenant keys and prefix deletion in redis.service.ts, against Redis's SCAN and glob patterns. */
module PrefixDeletion {
  import opened Wrappers

  // ---------- buildKey ----------

  function JoinColon(parts: seq<string>): string {
    if parts == [] then "" else if |parts| == 1 then parts[0] else parts[0] + ":" + JoinColon(parts[1..])
  }

  /** `parts.filter(Boolean)` */
  function NonEmpty(parts: seq<string>): seq<string> {
    if parts == [] then []
    else (if parts[0] == "" then [] else [parts[0]]) + NonEmpty(parts[1..])
  }

  function BuildKey(org: string, namespace: string, parts: seq<string>): string {
    "bookpro:" + org + ":" + namespace + ":" + JoinColon(NonEmpty(parts))
  }

  /** The first colon separates. */
  lemma {:induction false} FirstColon(a: string, x: string, b: string, y: string)
    requires ':' !in a && ':' !in b
    ensures a + ":" + x <= b + ":" + y <==> a == b && x <= y
  {
    var s, t := a + ":" + x, b + ":" + y;
    if a == [] || b == [] {
      assert a == [] ==> s[0] == ':';
      assert b == [] ==> t[0] == ':';
      assert a != [] ==> s[0] == a[0] && a[0] in a;
      assert b != [] ==> t[0] == b[0] && b[0] in b;
      if a == [] && b == [] {
        assert s[1..] == x && t[1..] == y;
        PrefixTail(s, t);
      }
    } else {
      assert s[1..] == a[1..] + ":" + x && t[1..] == b[1..] + ":" + y;
      assert a == [a[0]] + a[1..] && b == [b[0]] + b[1..];
      FirstColon(a[1..], x, b[1..], y);
      PrefixTail(s, t);
    }
  }

  lemma PrefixTail(s: string, t: string)
    requires s != [] && t != []
    ensures s <= t <==> s[0] == t[0] && s[1..] <= t[1..]
  {
    if s[0] == t[0] && s[1..] <= t[1..] {
      assert s == [s[0]] + s[1..] && t == [t[0]] + t[1..];
    }
  }

  lemma {:induction false} CommonPrefix(p: string, s: string, t: string)
    ensures p + s <= p + t <==> s <= t
  {
    if p == [] {
      assert p + s == s && p + t == t;
    } else {
      CommonPrefix(p[1..], s, t);
      assert (p + s)[1..] == p[1..] + s && (p + t)[1..] == p[1..] + t;
      PrefixTail(p + s, p + t);
    }
  }

  /** Among colon-free organisations and namespaces, the prefix of one matches its own keys only. */
  lemma PrefixIdentifiesTenant(org: string, ns: string, org2: string, ns2: string, parts: seq<string>)
    requires ':' !in org && ':' !in ns && ':' !in org2 && ':' !in ns2
    ensures BuildKey(org, ns, []) <= BuildKey(org2, ns2, parts) <==> org == org2 && ns == ns2
  {
    var rest := JoinColon(NonEmpty(parts));
    var s, t := org + ":" + (ns + ":" + ""), org2 + ":" + (ns2 + ":" + rest);
    assert BuildKey(org, ns, []) == "bookpro:" + s;
    assert BuildKey(org2, ns2, parts) == "bookpro:" + t;
    CommonPrefix("bookpro:", s, t);
    FirstColon(org, ns + ":" + "", org2, ns2 + ":" + rest);
    FirstColon(ns, "", ns2, rest);
  }

  /** With a colon in an organisation or a namespace, two tenants can share a prefix. */
  lemma ColonsMixTenants()
    ensures BuildKey("a:b", "c", []) == BuildKey("a", "b:c", [])
  {}

  /** The parts of s before and after its first colon. */
  function SplitColon(s: string): (r: (string, string))
    requires ':' in s
    ensures s == r.0 + ":" + r.1 && ':' !in r.0
  {
    if s[0] == ':' then ("", s[1..])
    else
      assert s == [s[0]] + s[1..];
      var (a, b) := SplitColon(s[1..]);
      ([s[0]] + a, b)
  }

  /** With a third colon, s is two colon-free names and something after them. */
  lemma SplitTwice(org: string, ns: string) returns (org2: string, ns2: string, part: string)
    requires ':' in org || ':' in ns
    ensures ':' !in org2 && ':' !in ns2 && part != ""
    ensures org + ":" + (ns + ":") == org2 + ":" + (ns2 + ":" + part)
  {
    if ':' in org {
      var (a, b) := SplitColon(org);
      var rest := b + ":" + (ns + ":");
      var (c, d) := SplitColon(rest);
      assert d != "" by { assert rest[|b|] == ':' && rest[..|c|] == c; }
      assert org + ":" + (ns + ":") == a + ":" + rest;
      org2, ns2, part := a, c, d;
    } else {
      var (c, d) := SplitColon(ns);
      assert ns + ":" == c + ":" + (d + ":");
      org2, ns2, part := org, c, d + ":";
    }
  }

  /** A colon in a name makes its prefix the key of a colon-free tenant. */
  lemma ColonsGiveTheKeyAway(org: string, ns: string) returns (org2: string, ns2: string, part: string)
    requires ':' in org || ':' in ns
    ensures ':' !in org2 && ':' !in ns2 && !(org == org2 && ns == ns2)
    ensures BuildKey(org, ns, []) == BuildKey(org2, ns2, [part])
  {
    org2, ns2, part := SplitTwice(org, ns);
    assert NonEmpty([part]) == [part];
    assert BuildKey(org2, ns2, [part]) == "bookpro:" + (org2 + ":" + (ns2 + ":" + part));
    assert BuildKey(org, ns, []) == "bookpro:" + (org + ":" + (ns + ":"));
  }

  /** A prefix matches only its own tenant's keys, among those of all colon-free tenants, exactly when
    * neither of its own names has a colon.
    */
  lemma PrefixIsTenantSafe(org: string, ns: string)
    ensures (forall org2: string, ns2: string, parts: seq<string> |
               ':' !in org2 && ':' !in ns2 && BuildKey(org, ns, []) <= BuildKey(org2, ns2, parts) ::
               org == org2 && ns == ns2) <==>
            ':' !in org && ':' !in ns
  {
    if ':' !in org && ':' !in ns {
      forall org2: string, ns2: string, parts: seq<string> |
        ':' !in org2 && ':' !in ns2 && BuildKey(org, ns, []) <= BuildKey(org2, ns2, parts)
        ensures org == org2 && ns == ns2
      {
        PrefixIdentifiesTenant(org, ns, org2, ns2, parts);
      }
    } else {
      var org2, ns2, part := ColonsGiveTheKeyAway(org, ns);
      assert BuildKey(org, ns, []) <= BuildKey(org2, ns2, [part]);
    }
  }

  // ---------- what a key says ----------

  /** The parts of s between its colons. */
  function SplitColons(s: string): (r: seq<string>)
    ensures r != []
  {
    if s == [] then [""]
    else
      var rest := SplitColons(s[1..]);
      if s[0] == ':' then [""] + rest else [[s[0]] + rest[0]] + rest[1..]
  }

  lemma {:induction false} SplitLeaf(a: string)
    requires ':' !in a
    ensures SplitColons(a) == [a]
  {
    if a != [] {
      assert a == [a[0]] + a[1..];
      SplitLeaf(a[1..]);
    }
  }

  lemma {:induction false} SplitBehind(a: string, x: string)
    requires ':' !in a
    ensures SplitColons(a + ":" + x) == [a] + SplitColons(x)
  {
    var s := a + ":" + x;
    if a == [] {
      assert s[0] == ':' && s[1..] == x;
    } else {
      assert a == [a[0]] + a[1..];
      assert s[0] == a[0] && s[1..] == a[1..] + ":" + x;
      SplitBehind(a[1..], x);
      assert [a[0]] + a[1..] == a;
    }
  }

  ghost predicate ColonFree(parts: seq<string>) {
    forall i | 0 <= i < |parts| :: ':' !in parts[i]
  }

  lemma {:induction false} SplitJoined(parts: seq<string>)
    requires ColonFree(parts)
    ensures SplitColons(JoinColon(parts)) == if parts == [] then [""] else parts
  {
    if |parts| == 1 {
      SplitLeaf(parts[0]);
    } else if |parts| > 1 {
      SplitBehind(parts[0], JoinColon(parts[1..]));
      SplitJoined(parts[1..]);
      assert parts == [parts[0]] + parts[1..];
    }
  }

  /** `filter(Boolean)` goes part by part, and leaves out exactly the empty ones. */
  lemma {:induction false} NonEmptyFilters(parts: seq<string>, more: seq<string>, part: string)
    ensures NonEmpty(parts + more) == NonEmpty(parts) + NonEmpty(more)
    ensures NonEmpty([part]) == (if part == "" then [] else [part]) && NonEmpty([]) == []
    ensures ColonFree(parts) ==> ColonFree(NonEmpty(parts))
    ensures "" !in NonEmpty(parts)
  {
    assert [part][1..] == [];
    if parts == [] {
      assert parts + more == more;
    } else {
      NonEmptyFilters(parts[1..], more, part);
      assert (parts + more)[1..] == parts[1..] + more;
      if ColonFree(parts) {
        forall i | 0 <= i < |parts[1..]| ensures ':' !in parts[1..][i] { assert parts[1..][i] == parts[i + 1]; }
      }
    }
  }

  lemma SplitThree(a: string, b: string, c: string, x: string)
    requires ':' !in a && ':' !in b && ':' !in c
    ensures SplitColons(a + ":" + (b + ":" + (c + ":" + x))) == [a, b, c] + SplitColons(x)
  {
    hide *;
    SplitBehind(c, x);
    SplitBehind(b, c + ":" + x);
    SplitBehind(a, b + ":" + (c + ":" + x));
    assert [a] + ([b] + ([c] + SplitColons(x))) == [a, b, c] + SplitColons(x);
  }

  lemma KeyNested(org: string, ns: string, parts: seq<string>)
    ensures BuildKey(org, ns, parts) == "bookpro" + ":" + (org + ":" + (ns + ":" + JoinColon(NonEmpty(parts))))
  {
    hide NonEmpty, JoinColon;
  }

  /** A key of colon-free names and parts says what it was built from: "bookpro", the organisation, the
    * namespace, and the non-empty parts in order, or one empty part if there is none.
    */
  lemma KeySplits(org: string, ns: string, parts: seq<string>)
    requires ':' !in org && ':' !in ns && ColonFree(parts)
    ensures SplitColons(BuildKey(org, ns, parts)) ==
            ["bookpro", org, ns] + if NonEmpty(parts) == [] then [""] else NonEmpty(parts)
  {
    hide *;
    NonEmptyFilters(parts, [], "");
    SplitJoined(NonEmpty(parts));
    KeyNested(org, ns, parts);
    SplitThree("bookpro", org, ns, JoinColon(NonEmpty(parts)));
  }

  /** Two such keys are equal exactly when they name the same tenant and the same non-empty parts. */
  lemma KeysAreEqual(org: string, ns: string, parts: seq<string>, org2: string, ns2: string, parts2: seq<string>)
    requires ':' !in org && ':' !in ns && ColonFree(parts)
    requires ':' !in org2 && ':' !in ns2 && ColonFree(parts2)
    ensures BuildKey(org, ns, parts) == BuildKey(org2, ns2, parts2) <==>
            org == org2 && ns == ns2 && NonEmpty(parts) == NonEmpty(parts2)
  {
    hide *;
    KeySplits(org, ns, parts);
    KeySplits(org2, ns2, parts2);
    NonEmptyFilters(parts, [], "");
    NonEmptyFilters(parts2, [], "");
    var s, t := SplitColons(BuildKey(org, ns, parts)), SplitColons(BuildKey(org2, ns2, parts2));
    var kept, kept2 := NonEmpty(parts), NonEmpty(parts2);
    if s == t {
      assert s[1] == org && s[2] == ns && t[1] == org2 && t[2] == ns2;
      assert s[3..] == (if kept == [] then [""] else kept) && t[3..] == (if kept2 == [] then [""] else kept2);
    }
    if org == org2 && ns == ns2 && kept == kept2 {
      SameParts(org, ns, parts, parts2);
    }
  }

  lemma SameParts(org: string, ns: string, parts: seq<string>, parts2: seq<string>)
    requires NonEmpty(parts) == NonEmpty(parts2)
    ensures BuildKey(org, ns, parts) == BuildKey(org, ns, parts2)
  {}

  // ---------- Redis glob patterns ----------

  /** A character class after its `[` and `^`: whether c is in it, and the pattern after it. */
  function InClass(p: string, c: char, found: bool): (r: (bool, string))
    ensures |r.1| <= |p| && r.1 == p[|p| - |r.1|..]
    ensures p != [] ==> |r.1| < |p|
  {
    if p == [] then (found, p)
    else if |p| >= 2 && p[0] == '\\' then InClass(p[2..], c, found || p[1] == c)
    else if p[0] == ']' then (found, p[1..])
    else if |p| >= 3 && p[1] == '-' then
      InClass(p[3..], c, found || p[0] <= c <= p[2] || p[2] <= c <= p[0])
    else InClass(p[1..], c, found || p[0] == c)
  }

  /** What is left of a pattern after its first element matched c. */
  function Eat(p: string, c: char): (r: Option<string>)
    requires p != [] && p[0] != '*'
    ensures r.Some? ==> |r.value| < |p| && r.value == p[|p| - |r.value|..]
    ensures r.Some? && |p| > 1 && p[0] in "[\\" ==> |r.value| <= |p| - 2
  {
    if p[0] == '?' then Some(p[1..])
    else if p[0] == '[' then
      var negated := |p| > 1 && p[1] == '^';
      var (found, rest) := InClass(if negated then p[2..] else p[1..], c, false);
      if found != negated then Some(rest) else None
    else if p[0] == '\\' && |p| > 1 then
      if p[1] == c then Some(p[2..]) else None
    else if p[0] == c then Some(p[1..])
    else None
  }

  predicate Glob(p: string, s: string)
    decreases |p| + |s|
  {
    if p == [] then s == []
    else if p[0] == '*' then Glob(p[1..], s) || (s != [] && Glob(p, s[1..]))
    else s != [] && Eat(p, s[0]).Some? && Glob(Eat(p, s[0]).value, s[1..])
  }

  predicate GlobFree(s: string) {
    forall i :: 0 <= i < |s| ==> s[i] !in "*?[\\"
  }

  /** The documented patterns of KEYS on one character: any, one of a class, none of a class, a range and an
    * escaped character.
    */
  lemma PatternsOfOneCharacter(c: char, d: char, x: char)
    requires c !in "]\\^-" && d !in "]\\-"
    ensures Glob(['?'], [x])
    ensures Glob(['[', c, ']'], [x]) <==> x == c
    ensures Glob(['[', '^', c, ']'], [x]) <==> x != c
    ensures Glob(['[', c, '-', d, ']'], [x]) <==> c <= x <= d || d <= x <= c
    ensures Glob(['\\', d], [x]) <==> x == d
  {
    hide Glob, Eat, InClass;
    EatOne(c, x);
    EatRange(c, d, x);
    EatBasic(d, x);
    OneElement(['?'], x);
    OneElement(['[', c, ']'], x);
    OneElement(['[', '^', c, ']'], x);
    OneElement(['[', c, '-', d, ']'], x);
    OneElement(['\\', d], x);
  }

  lemma OneElement(p: string, x: char)
    requires p != [] && p[0] != '*' && (Eat(p, x).Some? ==> Eat(p, x).value == [])
    ensures Glob(p, [x]) <==> Eat(p, x).Some?
  {
    hide Eat;
  }

  lemma EatOne(c: char, x: char)
    requires c !in "]\\^-"
    ensures Eat(['[', c, ']'], x) == if x == c then Some([]) else None
    ensures Eat(['[', '^', c, ']'], x) == if x != c then Some([]) else None
  {
    assert [c, ']'][1..] == [']'] && [']'][1..] == [];
    assert InClass([c, ']'], x, false) == InClass([']'], x, c == x) == (c == x, []);
    assert ['[', c, ']'][1..] == [c, ']'] && ['[', '^', c, ']'][2..] == [c, ']'];
  }

  lemma EatRange(c: char, d: char, x: char)
    requires c !in "]\\^-" && d !in "]\\-"
    ensures Eat(['[', c, '-', d, ']'], x) == if c <= x <= d || d <= x <= c then Some([]) else None
  {
    var p := [c, '-', d, ']'];
    assert p[3..] == [']'] && [']'][1..] == [];
    assert InClass(p, x, false) == InClass([']'], x, c <= x <= d || d <= x <= c);
    assert ['[', c, '-', d, ']'][1..] == p;
  }

  lemma EatBasic(d: char, x: char)
    ensures Eat(['?'], x) == Some([])
    ensures Eat(['\\', d], x) == if x == d then Some([]) else None
  {}

  lemma {:induction false} StarMatchesAll(s: string)
    ensures Glob("*", s)
  {
    assert "*"[1..] == "";
    if s != [] { StarMatchesAll(s[1..]); }
  }

  /** A prefix without special characters, followed by a star, matches what starts with the prefix. */
  lemma {:induction false} GlobPrefix(prefix: string, s: string)
    requires GlobFree(prefix)
    ensures Glob(prefix + "*", s) <==> prefix <= s
  {
    if prefix == [] {
      assert prefix + "*" == "*";
      StarMatchesAll(s);
    } else {
      assert prefix[0] !in "*?[\\";
      assert (prefix + "*")[1..] == prefix[1..] + "*";
      if s != [] {
        GlobPrefix(prefix[1..], s[1..]);
        PrefixTail(prefix, s);
      }
    }
  }

  /** If a pattern that ends in a star matches anything, it matches something no longer than what is
    * before the star.
    */
  lemma {:induction false} ShortMatch(q: string, s: string) returns (t: string)
    requires Glob(q + "*", s)
    ensures Glob(q + "*", t) && |t| <= |q|
    decreases |q| + |s|
  {
    var p := q + "*";
    if q == [] {
      t := [];
      StarMatchesAll(t);
    } else if q[0] == '*' {
      assert p[1..] == q[1..] + "*";
      if Glob(p[1..], s) {
        t := ShortMatch(q[1..], s);
      } else {
        t := ShortMatch(q, s[1..]);
      }
    } else {
      t := ShortMatchAfter(q, s);
    }
  }

  lemma {:induction false} ShortMatchAfter(q: string, s: string) returns (t: string)
    requires q != [] && q[0] != '*' && Glob(q + "*", s)
    ensures Glob(q + "*", t) && |t| <= |q|
    ensures Eat(q + "*", s[0]).value != [] ==> |t| <= |Eat(q + "*", s[0]).value|
    decreases |q| + |s|, 0
  {
    var p := q + "*";
    var rest := Eat(p, s[0]).value;
    if rest == [] {
      t := s;
    } else {
      var n := |p| - |rest|;
      assert rest == q[n..] + "*";
      t := ShortMatch(q[n..], s[1..]);
      t := [s[0]] + t;
    }
  }

  /** A prefix with a special character as its first one is not matched literally: some string tells. */
  lemma SpecialFirst(prefix: string) returns (s: string)
    requires prefix != [] && prefix[0] in "*?[\\"
    ensures Glob(prefix + "*", s) != (prefix <= s)
  {
    var p := prefix + "*";
    s := prefix;
    if Glob(p, prefix) {
      if prefix[0] == '*' {
        s := "x" + prefix;
        assert s[1..] == prefix;
      } else if prefix[0] == '?' {
        s := "x" + prefix[1..];
        assert s[1..] == prefix[1..];
      } else if Eat(p, prefix[0]).value == [] {
        s := prefix + "x";
      } else {
        s := ShortMatchAfter(prefix, prefix);
      }
    }
  }

  lemma {:induction false} SpecialSomewhere(prefix: string) returns (s: string)
    requires !GlobFree(prefix)
    ensures Glob(prefix + "*", s) != (prefix <= s)
  {
    if prefix[0] in "*?[\\" {
      s := SpecialFirst(prefix);
    } else {
      assert prefix == [prefix[0]] + prefix[1..];
      assert (prefix + "*")[1..] == prefix[1..] + "*";
      var t := SpecialSomewhere(prefix[1..]);
      s := [prefix[0]] + t;
      PrefixTail(prefix, s);
      assert s[1..] == t;
    }
  }

  /** A prefix followed by a star matches exactly what starts with the prefix if and only if the prefix has
    * no special character.
    */
  lemma GlobIsPrefix(prefix: string)
    ensures GlobFree(prefix) <==> forall s :: Glob(prefix + "*", s) <==> prefix <= s
  {
    if GlobFree(prefix) {
      forall s ensures Glob(prefix + "*", s) <==> prefix <= s { GlobPrefix(prefix, s); }
    } else {
      var s := SpecialSomewhere(prefix);
    }
  }

  // ---------- delPrefix ----------

  /** The DEL of a page is carried out, or refused, or carried out although its reply fails. */
  datatype Del = Done | Refused | ReplyLost

  /** What Redis answers to one SCAN and, if it found keys, to the DEL that follows. */
  datatype Reply = ScanFails | Page(cursor: string, keys: seq<string>, del: Del)

  predicate Fails(r: Reply) {
    r.ScanFails? || (r.keys != [] && r.del != Done)
  }

  function DeletedBy(r: Reply): set<string> {
    if r.Page? && r.del != Refused then set k | k in r.keys else {}
  }

  predicate Ends(r: Reply) {
    Fails(r) || r.cursor == "0"
  }

  /** The replies up to the one that ends the scan. */
  ghost predicate Complete(replies: seq<Reply>) {
    replies != [] && Ends(replies[|replies| - 1]) && forall i | 0 <= i < |replies| - 1 :: !Ends(replies[i])
  }

  ghost predicate Failed(replies: seq<Reply>)
    requires replies != []
  {
    Fails(replies[|replies| - 1])
  }

  /** The keys that were deleted. */
  ghost function Deleted(replies: seq<Reply>): set<string> {
    if replies == [] then {}
    else
      var last := replies[|replies| - 1];
      Deleted(replies[..|replies| - 1]) + DeletedBy(last)
  }

  /** How many keys the loop counts. */
  function Counted(replies: seq<Reply>): nat {
    if replies == [] then 0
    else
      var last := replies[|replies| - 1];
      Counted(replies[..|replies| - 1]) + if Fails(last) then 0 else |last.keys|
  }

  /** What delPrefix returns: its `catch` returns 0, whatever earlier pages deleted. */
  ghost function Returned(replies: seq<Reply>): nat
    requires replies != []
  {
    if Failed(replies) then 0 else Counted(replies)
  }

  class RedisService {
    var isConnected: bool
    /** The keys of the database. */
    var database: set<string>

    constructor (keys: set<string>)
      ensures isConnected && database == keys
    {
      isConnected, database := true, keys;
    }

    /** delPrefix against given replies. */
    method DelPrefix(prefix: string, replies: seq<Reply>) returns (totalDeleted: nat)
      requires Complete(replies)
      modifies this`database
      ensures !isConnected ==> database == old(database) && totalDeleted == 0
      ensures isConnected ==> database == old(database) - Deleted(replies)
      ensures isConnected ==> totalDeleted == Returned(replies)
      ensures isConnected && !Failed(replies) && ScanContract(old(database), prefix + "*", replies) ==>
                database == set k | k in old(database) && !Glob(prefix + "*", k)
      ensures isConnected && GlobFree(prefix) && ScanContract(old(database), prefix + "*", replies) ==>
                && (forall k | k in old(database) && !(prefix <= k) :: k in database)
                && (!Failed(replies) ==> database == set k | k in old(database) && !(prefix <= k))
      ensures isConnected ==>
                (|old(database) - database| <= totalDeleted <==>
                   !Failed(replies) || old(database) * Deleted(replies) == {})
    {
      if !isConnected { return 0; }
      totalDeleted := ScanAndDelete(prefix, replies);
      if ScanContract(old(database), prefix + "*", replies) {
        DelPrefixLeaves(old(database), prefix, replies);
        if GlobFree(prefix) { DelPrefixIsExact(old(database), prefix, replies); }
      }
      CountIsEnough(old(database), replies);
    }

    /** The SCAN loop of delPrefix. */
    method ScanAndDelete(prefix: string, replies: seq<Reply>) returns (totalDeleted: nat)
      requires Complete(replies)
      modifies this`database
      ensures database == old(database) - Deleted(replies)
      ensures totalDeleted == Returned(replies)
    {
      var cursor := "0";
      totalDeleted := 0;
      var n := 0;
      var first := true;
      assert replies[..|replies|] == replies;
      while first || cursor != "0"
        invariant 0 <= n <= |replies| && (first <==> n == 0)
        invariant n < |replies| || cursor == "0"
        invariant n > 0 ==> !Fails(replies[n - 1]) && cursor == replies[n - 1].cursor
        invariant database == old(database) - Deleted(replies[..n])
        invariant totalDeleted == Counted(replies[..n])
        decreases |replies| - n
      {
        var reply := replies[n];
        assert replies[..n + 1][..n] == replies[..n];
        assert n < |replies| - 1 ==> !Ends(reply);
        if reply.ScanFails? {
          assert Deleted(replies) == Deleted(replies[..n]);
          return 0;
        }
        cursor := reply.cursor;
        if |reply.keys| > 0 {
          database := database - DeletedBy(reply);
          if reply.del != Done { return 0; }
          totalDeleted := totalDeleted + |reply.keys|;
        }
        n := n + 1;
        first := false;
      }
    }
  }

  /** The database when the i-th SCAN is made, with no concurrent writers. */
  ghost function DatabaseAt(database: set<string>, replies: seq<Reply>, i: nat): set<string>
    requires i <= |replies|
  {
    database - Deleted(replies[..i])
  }

  /** SCAN's guarantees: every listed key matches the pattern and, when the scan runs to cursor "0", a
    * matching key that is in the database at every SCAN is listed at least once.
    */
  ghost predicate ScanContract(database: set<string>, pattern: string, replies: seq<Reply>)
    requires replies != []
  {
    && (forall i | 0 <= i < |replies| && replies[i].Page? :: forall k | k in replies[i].keys :: Glob(pattern, k))
    && (!Failed(replies) ==>
         forall k | Glob(pattern, k) && forall i | 0 <= i < |replies| :: k in DatabaseAt(database, replies, i) ::
           exists i | 0 <= i < |replies| && replies[i].Page? :: k in replies[i].keys)
  }

  lemma {:induction false} DeletedOnSomePage(replies: seq<Reply>, k: string)
    ensures k in Deleted(replies) <==> exists i | 0 <= i < |replies| :: k in DeletedBy(replies[i])
  {
    if replies != [] {
      var n := |replies| - 1;
      var front := replies[..n];
      DeletedOnSomePage(front, k);
      if k in Deleted(front) {
        var i :| 0 <= i < n && k in DeletedBy(front[i]);
        assert front[i] == replies[i];
      }
      if i :| 0 <= i < |replies| && k in DeletedBy(replies[i]) {
        assert i < n ==> front[i] == replies[i];
      }
    }
  }

  lemma DeletedGrows(replies: seq<Reply>, i: nat)
    requires i <= |replies|
    ensures Deleted(replies[..i]) <= Deleted(replies)
  {
    forall k | k in Deleted(replies[..i]) ensures k in Deleted(replies) {
      DeletedOnSomePage(replies[..i], k);
      DeletedOnSomePage(replies, k);
      var j :| 0 <= j < i && k in DeletedBy(replies[..i][j]);
      assert replies[..i][j] == replies[j];
    }
  }

  /** What delPrefix leaves, for any prefix: without failures, exactly the keys that the pattern does not
    * match; with one, at least those.
    */
  lemma DelPrefixLeaves(database: set<string>, prefix: string, replies: seq<Reply>)
    requires Complete(replies) && ScanContract(database, prefix + "*", replies)
    ensures forall k | k in database && !Glob(prefix + "*", k) :: k in database - Deleted(replies)
    ensures !Failed(replies) ==> forall k | k in database - Deleted(replies) :: !Glob(prefix + "*", k)
  {
    forall k | k in Deleted(replies) ensures Glob(prefix + "*", k) {
      DeletedOnSomePage(replies, k);
    }
    if !Failed(replies) {
      forall k | k in database && Glob(prefix + "*", k) ensures k in Deleted(replies) {
        DeletedOnSomePage(replies, k);
        if forall i | 0 <= i < |replies| :: k in DatabaseAt(database, replies, i) {
          var i :| 0 <= i < |replies| && replies[i].Page? && k in replies[i].keys;
          assert !Fails(replies[i]);
          assert k in DeletedBy(replies[i]);
        } else {
          var i :| 0 <= i < |replies| && k !in DatabaseAt(database, replies, i);
          DeletedGrows(replies, i);
        }
      }
    }
  }

  /** So without special characters in the prefix: exactly the keys that do not start with it. */
  lemma DelPrefixIsExact(database: set<string>, prefix: string, replies: seq<Reply>)
    requires GlobFree(prefix) && Complete(replies) && ScanContract(database, prefix + "*", replies)
    ensures forall k | k in database && !(prefix <= k) :: k in database - Deleted(replies)
    ensures !Failed(replies) ==> forall k | k in database - Deleted(replies) :: !(prefix <= k)
  {
    DelPrefixLeaves(database, prefix, replies);
    forall k | k in database
      ensures !(prefix <= k) ==> k in database - Deleted(replies)
      ensures !Failed(replies) && k in database - Deleted(replies) ==> !(prefix <= k)
    {
      GlobPrefix(prefix, k);
    }
  }

  /** The returned count is at least the number of keys removed, exactly when the scan does not fail after
    * it deleted something.
    */
  lemma CountIsEnough(database: set<string>, replies: seq<Reply>)
    requires Complete(replies)
    ensures |database - (database - Deleted(replies))| <= Returned(replies) <==>
            !Failed(replies) || database * Deleted(replies) == {}
  {
    assert database - (database - Deleted(replies)) == database * Deleted(replies);
    if !Failed(replies) {
      CountsAllKeys(replies);
      DistinctCount(AllKeys(replies));
      RemovedSize(database, Deleted(replies));
    }
  }

  /** The keys of all pages, in order. */
  ghost function AllKeys(replies: seq<Reply>): seq<string> {
    if replies == [] then []
    else
      var last := replies[|replies| - 1];
      AllKeys(replies[..|replies| - 1]) + if last.Page? then last.keys else []
  }

  ghost predicate NoRepeats(keys: seq<string>) {
    forall i, j | 0 <= i < j < |keys| :: keys[i] != keys[j]
  }

  lemma {:induction false} DistinctCount(keys: seq<string>)
    ensures |set k | k in keys| <= |keys|
    ensures |set k | k in keys| == |keys| <==> NoRepeats(keys)
  {
    var all := set k | k in keys;
    if keys == [] {
      assert all == {};
    } else {
      var front, last := keys[..|keys| - 1], keys[|keys| - 1];
      DistinctCount(front);
      assert keys == front + [last];
      assert all == (set k | k in front) + {last};
      if last in front {
        var i :| 0 <= i < |front| && front[i] == last;
        assert keys[i] == keys[|keys| - 1];
      } else {
        assert NoRepeats(front) <==> NoRepeats(keys);
      }
    }
  }

  lemma {:induction false} CountsAllKeys(replies: seq<Reply>)
    requires forall i | 0 <= i < |replies| :: !Fails(replies[i])
    ensures Counted(replies) == |AllKeys(replies)|
    ensures Deleted(replies) == set k | k in AllKeys(replies)
  {
    if replies != [] {
      CountsAllKeys(replies[..|replies| - 1]);
    }
  }

  /** Without failures, the returned count is the number of keys removed exactly when no key is listed twice
    * and every listed key was in the database.
    */
  lemma CountIsExact(database: set<string>, replies: seq<Reply>)
    requires Complete(replies) && !Failed(replies)
    ensures |database - (database - Deleted(replies))| == Returned(replies) <==>
            NoRepeats(AllKeys(replies)) && forall k | k in AllKeys(replies) :: k in database
  {
    CountsAllKeys(replies);
    DistinctCount(AllKeys(replies));
    RemovedSize(database, Deleted(replies));
    assert forall k :: k in Deleted(replies) <==> k in AllKeys(replies);
  }

  lemma RemovedSize(database: set<string>, keys: set<string>)
    ensures |database - (database - keys)| <= |keys|
    ensures |database - (database - keys)| == |keys| <==> forall k | k in keys :: k in database
  {
    var removed := database - (database - keys);
    assert keys == removed + (keys - database);
    assert keys - database == {} <==> forall k | k in keys :: k in database;
    assert |keys| == |removed| + |keys - database|;
  }

  /** A scan that fails on its second page has deleted the key of the first one, and returns 0. */
  lemma FailureUndercounts()
    ensures var replies := [Page("5", ["k"], Done), ScanFails];
            && Complete(replies) && ScanContract({"k"}, "k" + "*", replies)
            && Returned(replies) == 0 && {"k"} - Deleted(replies) == {}
  {
    var replies := [Page("5", ["k"], Done), ScanFails];
    GlobPrefix("k", "k");
    DeletedOnSomePage(replies, "k");
    assert "k" in DeletedBy(replies[0]);
  }

  /** Invalidating one tenant's namespace removes all its keys and no other tenant's. */
  lemma TenantKeysAreRemovedExactly(database: set<string>, org: string, ns: string, replies: seq<Reply>,
                                    org2: string, ns2: string, parts: seq<string>)
    requires ':' !in org && ':' !in ns && ':' !in org2 && ':' !in ns2
    requires GlobFree(org) && GlobFree(ns)
    requires Complete(replies) && !Failed(replies)
    requires ScanContract(database, BuildKey(org, ns, []) + "*", replies)
    requires BuildKey(org2, ns2, parts) in database
    ensures BuildKey(org2, ns2, parts) in database - Deleted(replies) <==> !(org == org2 && ns == ns2)
  {
    var prefix := BuildKey(org, ns, []);
    assert GlobFree(prefix) by {
      assert GlobFree("bookpro:") && GlobFree(":");
      assert prefix == "bookpro:" + org + ":" + ns + ":";
    }
    DelPrefixIsExact(database, prefix, replies);
    PrefixIdentifiesTenant(org, ns, org2, ns2, parts);
  }
}
