/**
 Store keys of `src/budget.rs`. Counters, settle markers and rollback markers live side by side in one
 Redis keyspace, and only the spelling of the keys keeps windows, tenants and markers apart.
 */
module BudgetKeys {
  import opened Wrappers
  import Decimal

  datatype Unit = Tokens | UsdMicros

  datatype Scope = Global | PerKey | PerModel | PerTeam | PerClaim

  datatype Budget = Budget(name: string, scope: Scope, claim: string, unit: Unit, limit: nat, windowSecs: nat)

  /** What a request is accounted under; `claims` are the scalar claims of its token, as text. */
  datatype Dims = Dims(principal: Option<string>, model: string, team: Option<string>, claims: map<string, string>)

  const CLAIM_KEY_MAX: nat := 200

  predicate Control(c: char) {
    c < ' ' || '\U{7f}' <= c <= '\U{9f}'
  }

  function Cleaned(value: string): (r: string)
    ensures |r| == |value|
    ensures forall i :: 0 <= i < |r| ==> r[i] == (if value[i] == ':' || Control(value[i]) then '_' else value[i])
  {
    seq(|value|, i requires 0 <= i < |value| => if value[i] == ':' || Control(value[i]) then '_' else value[i])
  }

  /** A claim's value as a key: no `:` and no control characters, cut to a bounded length. */
  function ClaimKey(claims: map<string, string>, name: string): (r: string)
    ensures |r| <= 200 && forall i :: 0 <= i < |r| ==> r[i] != ':' && !Control(r[i])
    ensures name in claims ==> |r| == if |claims[name]| < 200 then |claims[name]| else 200
  {
    if name !in claims then "_none"
    else
      var value := Cleaned(claims[name]);
      if |value| <= CLAIM_KEY_MAX then value else value[..CLAIM_KEY_MAX]
  }

  function Dimension(b: Budget, dims: Dims): string {
    match b.scope
    case Global => "_"
    case PerKey => if dims.principal.Some? then dims.principal.value else "_anon"
    case PerModel => dims.model
    case PerTeam => if dims.team.Some? then dims.team.value else "_none"
    case PerClaim => ClaimKey(dims.claims, b.claim)
  }

  function KeyOf(prefix: string, name: string, dim: string, window: nat): string {
    prefix + ":budget:" + name + ":" + dim + ":" + Decimal.Text(window)
  }

  /** `Budget::key`: the window's index is part of the key, so a new window starts from nothing. */
  function Key(b: Budget, prefix: string, dims: Dims, nowSecs: nat): string
    requires b.windowSecs > 0
  {
    KeyOf(prefix, b.name, Dimension(b, dims), nowSecs / b.windowSecs)
  }

  function Amount(b: Budget, tokens: nat, costMicros: nat): nat {
    match b.unit
    case Tokens => tokens
    case UsdMicros => costMicros
  }

  /** A hyphenated version-4 UUID, as text. */
  predicate Uuid(id: string) {
    && |id| == 36
    && id[8] == '-' && id[13] == '-' && id[18] == '-' && id[23] == '-'
    && (forall i :: 0 <= i < 36 ==> id[i] == '-' || '0' <= id[i] <= '9' || 'a' <= id[i] <= 'f')
  }

  function SettleMarker(key: string, id: string): string {
    key + ":s:" + id
  }

  function RollbackMarker(key: string, id: string): string {
    key + ":rb:" + id
  }

  ghost predicate IsMarker(k: string) {
    exists key: string, id: string :: Uuid(id) && (k == SettleMarker(key, id) || k == RollbackMarker(key, id))
  }

  // ---- Keys -------------------------------------------------------------------------------------

  /** What follows the last `:` is determined, and so is what comes before it. */
  lemma LastColon(a: string, x: string, b: string, y: string)
    requires a + ":" + x == b + ":" + y && ':' !in x && ':' !in y
    ensures a == b && x == y
  {
    var s := a + ":" + x;
    assert s[|a|] == ':' && s[|b|] == ':';
    assert forall i :: |a| < i < |s| ==> s[i] == x[i - |a| - 1];
    assert forall i :: |b| < i < |s| ==> s[i] == y[i - |b| - 1];
    assert |a| == |b|;
    assert a == s[..|a|] == b;
    assert x == s[|a| + 1..] == y;
  }

  /** What comes before the first `:` is determined, and so is what follows it. */
  lemma FirstColon(a: string, x: string, b: string, y: string)
    requires a + ":" + x == b + ":" + y && ':' !in a && ':' !in b
    ensures a == b && x == y
  {
    var s := a + ":" + x;
    assert s[|a|] == ':' && s[|b|] == ':';
    assert forall i :: 0 <= i < |a| ==> s[i] == a[i];
    assert forall i :: 0 <= i < |b| ==> s[i] == b[i];
    assert |a| == |b|;
    assert a == s[..|a|] == b;
    assert x == s[|a| + 1..] == y;
  }

  lemma KeySplit(prefix: string, name: string, dim: string, window: nat)
    ensures KeyOf(prefix, name, dim, window) == prefix + ":budget:" + name + ":" + dim + ":" + Decimal.Text(window)
    ensures KeyOf(prefix, name, dim, window) == prefix + ":budget:" + (name + ":" + dim) + ":" + Decimal.Text(window)
    ensures ':' !in Decimal.Text(window)
  {
    var a := prefix + ":budget:";
    assert a + name + ":" + dim == a + (name + ":" + dim);
  }

  lemma DropPrefix(a: string, x: string, y: string)
    requires a + x == a + y
    ensures x == y
  {
    assert x == (a + x)[|a|..];
    assert y == (a + y)[|a|..];
  }

  /** Two counters share a key exactly when name and dimension run together alike and the window is the same. */
  lemma KeysEqual(prefix: string, n1: string, d1: string, w1: nat, n2: string, d2: string, w2: nat)
    ensures KeyOf(prefix, n1, d1, w1) == KeyOf(prefix, n2, d2, w2) <==> n1 + ":" + d1 == n2 + ":" + d2 && w1 == w2
  {
    hide Decimal.Text, KeyOf;
    KeySplit(prefix, n1, d1, w1);
    KeySplit(prefix, n2, d2, w2);
    var a := prefix + ":budget:";
    if KeyOf(prefix, n1, d1, w1) == KeyOf(prefix, n2, d2, w2) {
      LastColon(a + (n1 + ":" + d1), Decimal.Text(w1), a + (n2 + ":" + d2), Decimal.Text(w2));
      DropPrefix(a, n1 + ":" + d1, n2 + ":" + d2);
      Decimal.TextInjective(w1, w2);
    }
  }

  /** A window runs from a multiple of its length up to the next: one counter for all of it, and for nothing else. */
  lemma WindowExact(b: Budget, prefix: string, d: Dims, start: nat, t: nat)
    requires b.windowSecs > 0 && start % b.windowSecs == 0
    ensures Key(b, prefix, d, start) == Key(b, prefix, d, t) <==> start <= t < start + b.windowSecs
  {
    SameQuotient(start, t, b.windowSecs);
    if Key(b, prefix, d, start) == Key(b, prefix, d, t) {
      OneBudgetInjective(b, prefix, d, start, d, t);
    }
    hide KeyOf, Dimension;
  }

  lemma SameQuotient(start: nat, t: nat, w: nat)
    requires w > 0 && start % w == 0
    ensures start / w == t / w <==> start <= t < start + w
  {
    var d := t / w - start / w;
    assert start == start / w * w && t == t / w * w + t % w;
    assert d * w == t / w * w - start / w * w;
    assert d >= 1 ==> d * w >= w;
    assert d <= -1 ==> d * w <= 0 - w;
  }

  /** One budget's keys tell its dimensions and windows apart. */
  lemma OneBudgetInjective(b: Budget, prefix: string, d1: Dims, t1: nat, d2: Dims, t2: nat)
    requires b.windowSecs > 0
    requires Key(b, prefix, d1, t1) == Key(b, prefix, d2, t2)
    ensures Dimension(b, d1) == Dimension(b, d2)
    ensures t1 / b.windowSecs == t2 / b.windowSecs
  {
    hide KeyOf, Dimension;
    var x, y := Dimension(b, d1), Dimension(b, d2);
    KeysEqual(prefix, b.name, x, t1 / b.windowSecs, b.name, y, t2 / b.windowSecs);
    assert b.name + ":" + x == (b.name + ":") + x && b.name + ":" + y == (b.name + ":") + y;
    DropPrefix(b.name + ":", x, y);
  }

  // ---- Who shares a counter of one budget -------------------------------------------------------

  lemma SameDimension(b: Budget, prefix: string, d1: Dims, d2: Dims, t: nat)
    requires b.windowSecs > 0
    ensures Key(b, prefix, d1, t) == Key(b, prefix, d2, t) <==> Dimension(b, d1) == Dimension(b, d2)
  {
    hide KeyOf, Dimension;
    if Key(b, prefix, d1, t) == Key(b, prefix, d2, t) {
      OneBudgetInjective(b, prefix, d1, t, d2, t);
    }
  }

  /** Callers share a per-caller counter exactly when they are one, or one is anonymous and the other is `_anon`. */
  lemma CallersApart(b: Budget, prefix: string, d1: Dims, d2: Dims, t: nat)
    requires b.windowSecs > 0 && b.scope == PerKey
    ensures Key(b, prefix, d1, t) == Key(b, prefix, d2, t)
            <==> d1.principal == d2.principal || {d1.principal, d2.principal} == {None, Some("_anon")}
  {
    SameDimension(b, prefix, d1, d2, t);
    hide Key;
    if {d1.principal, d2.principal} == {None, Some("_anon")} {
      assert d1.principal in {None, Some("_anon")} && d2.principal in {None, Some("_anon")};
    }
  }

  /** Models share a per-model counter exactly when they are one, and a global counter is shared by all. */
  lemma ModelsApart(b: Budget, prefix: string, d1: Dims, d2: Dims, t: nat)
    requires b.windowSecs > 0
    ensures b.scope == PerModel ==> (Key(b, prefix, d1, t) == Key(b, prefix, d2, t) <==> d1.model == d2.model)
    ensures b.scope == Global ==> Key(b, prefix, d1, t) == Key(b, prefix, d2, t)
  {
    SameDimension(b, prefix, d1, d2, t);
    hide Key;
  }

  /** Teams share a per-team counter exactly when they are one, or there is none and the other is `_none`. */
  lemma TeamsApart(b: Budget, prefix: string, d1: Dims, d2: Dims, t: nat)
    requires b.windowSecs > 0 && b.scope == PerTeam
    ensures Key(b, prefix, d1, t) == Key(b, prefix, d2, t)
            <==> d1.team == d2.team || {d1.team, d2.team} == {None, Some("_none")}
  {
    SameDimension(b, prefix, d1, d2, t);
    hide Key;
    if {d1.team, d2.team} == {None, Some("_none")} {
      assert d1.team in {None, Some("_none")} && d2.team in {None, Some("_none")};
    }
  }

  /** Characters a claim's key does not tell apart. */
  predicate Blurred(c: char) {
    c == '_' || c == ':' || Control(c)
  }

  /** A claim's value, `_none` standing in for a missing one. */
  function ClaimText(claims: map<string, string>, name: string): string {
    if name in claims then claims[name] else "_none"
  }

  /** Up to the cut the two are as long, and differ only where both have a blurred character. */
  predicate ReadAlike(a: string, b: string) {
    var n, m := if |a| < 200 then |a| else 200, if |b| < 200 then |b| else 200;
    n == m && forall i :: 0 <= i < n ==> a[i] == b[i] || (Blurred(a[i]) && Blurred(b[i]))
  }

  lemma ClaimKeyText(claims: map<string, string>, name: string)
    ensures var text, key := ClaimText(claims, name), ClaimKey(claims, name);
            && |key| == (if |text| < 200 then |text| else 200)
            && forall i :: 0 <= i < |key| ==> key[i] == if Blurred(text[i]) then '_' else text[i]
  {
  }

  /** Claims share a per-claim counter exactly when their values read alike. */
  lemma ClaimsApart(b: Budget, prefix: string, d1: Dims, d2: Dims, t: nat)
    requires b.windowSecs > 0 && b.scope == PerClaim
    ensures Key(b, prefix, d1, t) == Key(b, prefix, d2, t)
            <==> ReadAlike(ClaimText(d1.claims, b.claim), ClaimText(d2.claims, b.claim))
  {
    SameDimension(b, prefix, d1, d2, t);
    ClaimKeyText(d1.claims, b.claim);
    ClaimKeyText(d2.claims, b.claim);
    var k1, k2 := ClaimKey(d1.claims, b.claim), ClaimKey(d2.claims, b.claim);
    assert Dimension(b, d1) == k1 && Dimension(b, d2) == k2;
    hide Key, ClaimKey, ClaimText, Dimension;
    if k1 == k2 {
      assert forall i :: 0 <= i < |k1| ==> k1[i] == k2[i];
    }
    if ReadAlike(ClaimText(d1.claims, b.claim), ClaimText(d2.claims, b.claim)) {
      assert forall i :: 0 <= i < |k1| ==> k1[i] == k2[i];
    }
  }

  /** Budgets with colon-free names never share a key. */
  lemma ColonFreeNamesSeparate(prefix: string, n1: string, d1: string, w1: nat, n2: string, d2: string, w2: nat)
    requires ':' !in n1 && ':' !in n2
    requires KeyOf(prefix, n1, d1, w1) == KeyOf(prefix, n2, d2, w2)
    ensures n1 == n2 && d1 == d2 && w1 == w2
  {
    hide KeyOf;
    KeysEqual(prefix, n1, d1, w1, n2, d2, w2);
    FirstColon(n1, d1, n2, d2);
  }

  // ---- Budgets that can share a counter ---------------------------------------------------------

  /** Some requests at some times charge the two budgets to one counter. */
  ghost predicate CanCollide(prefix: string, a: Budget, b: Budget)
    requires a.windowSecs > 0 && b.windowSecs > 0
  {
    exists d1: Dims, d2: Dims, t1: nat, t2: nat :: Key(a, prefix, d1, t1) == Key(b, prefix, d2, t2)
  }

  /** The scopes whose dimension is a text the request brings, colons and all. */
  predicate FreeScope(s: Scope) {
    s == PerKey || s == PerModel || s == PerTeam
  }

  /** `outer`, with a free scope, can spell what follows its own name in the name of `inner`. */
  predicate Spells(outer: Budget, inner: Budget) {
    outer.name + ":" <= inner.name && FreeScope(outer.scope)
  }

  /** Whether two budgets can ever share a counter can be read off their names and scopes. */
  lemma CollisionExact(prefix: string, a: Budget, b: Budget)
    requires a.windowSecs > 0 && b.windowSecs > 0
    ensures CanCollide(prefix, a, b) <==> a.name == b.name || Spells(a, b) || Spells(b, a)
  {
    hide Key;
    if CanCollide(prefix, a, b) {
      var d1: Dims, d2: Dims, t1: nat, t2: nat :| Key(a, prefix, d1, t1) == Key(b, prefix, d2, t2);
      CollidingNames(prefix, a, b, d1, d2, t1, t2);
    }
    if a.name == b.name {
      SameNameCollides(prefix, a, b);
    }
    if Spells(a, b) {
      SpelledCollides(prefix, a, b);
    }
    if Spells(b, a) {
      SpelledCollides(prefix, b, a);
      var d1: Dims, d2: Dims, t1: nat, t2: nat :| Key(b, prefix, d1, t1) == Key(a, prefix, d2, t2);
      assert Key(a, prefix, d2, t2) == Key(b, prefix, d1, t1);
    }
  }

  lemma CollidingNames(prefix: string, a: Budget, b: Budget, d1: Dims, d2: Dims, t1: nat, t2: nat)
    requires a.windowSecs > 0 && b.windowSecs > 0 && Key(a, prefix, d1, t1) == Key(b, prefix, d2, t2)
    ensures a.name == b.name || Spells(a, b) || Spells(b, a)
  {
    var x, y := Dimension(a, d1), Dimension(b, d2);
    ColonMeansFree(a, d1);
    ColonMeansFree(b, d2);
    KeysEqual(prefix, a.name, x, t1 / a.windowSecs, b.name, y, t2 / b.windowSecs);
    hide KeyOf, Dimension;
    if a.name != b.name {
      NamesNest(a.name, x, b.name, y);
    }
  }

  /** Only a free scope's dimension can hold a colon. */
  lemma ColonMeansFree(b: Budget, d: Dims)
    ensures ':' in Dimension(b, d) ==> FreeScope(b.scope)
  {
  }

  lemma NamesNest(n1: string, d1: string, n2: string, d2: string)
    requires n1 + ":" + d1 == n2 + ":" + d2 && n1 != n2
    ensures (n1 + ":" <= n2 && ':' in d1) || (n2 + ":" <= n1 && ':' in d2)
  {
    var s := n1 + ":" + d1;
    assert s[..|n1|] == n1 && s[..|n2|] == n2;
    assert s[|n1|] == ':' && s[|n2|] == ':';
    if |n1| < |n2| {
      assert n2[..|n1|] == n1 && n2[|n1|] == ':';
      assert d1[|n2| - |n1| - 1] == ':';
    } else if |n2| < |n1| {
      assert n1[..|n2|] == n2 && n1[|n2|] == ':';
      assert d2[|n1| - |n2| - 1] == ':';
    }
  }

  /** A request with this one text for every dimension. */
  function Plain(b: Budget, text: string): Dims {
    Dims(Some(text), text, Some(text), map[b.claim := text])
  }

  lemma SameNameCollides(prefix: string, a: Budget, b: Budget)
    requires a.windowSecs > 0 && b.windowSecs > 0 && a.name == b.name
    ensures CanCollide(prefix, a, b)
  {
    assert Dimension(a, Plain(a, "_")) == "_" && Dimension(b, Plain(b, "_")) == "_";
    hide Dimension;
    assert Key(a, prefix, Plain(a, "_"), 0) == Key(b, prefix, Plain(b, "_"), 0);
  }

  lemma SpelledCollides(prefix: string, outer: Budget, inner: Budget)
    requires outer.windowSecs > 0 && inner.windowSecs > 0 && Spells(outer, inner)
    ensures CanCollide(prefix, outer, inner)
  {
    var y := Dimension(inner, Plain(inner, "_"));
    var x := inner.name[|outer.name| + 1..] + ":" + y;
    assert Dimension(outer, Plain(outer, x)) == x;
    hide Dimension;
    assert outer.name + ":" + x == inner.name + ":" + y;
    KeysEqual(prefix, outer.name, x, 0, inner.name, y, 0);
    assert Key(outer, prefix, Plain(outer, x), 0) == Key(inner, prefix, Plain(inner, "_"), 0);
  }

  /** One and the same request can charge the two budgets to one counter. */
  ghost predicate CanCollideAtOnce(prefix: string, a: Budget, b: Budget)
    requires a.windowSecs > 0 && b.windowSecs > 0
  {
    exists d: Dims, t: nat :: Key(a, prefix, d, t) == Key(b, prefix, d, t)
  }

  /** Of two budgets with one scope the dimensions are the same, so then only equal names will do. */
  lemma SameRequestExact(prefix: string, a: Budget, b: Budget)
    requires a.windowSecs > 0 && b.windowSecs > 0
    ensures CanCollideAtOnce(prefix, a, b)
            <==> a.name == b.name || (a.scope != b.scope && (Spells(a, b) || Spells(b, a)))
  {
    hide Key;
    if CanCollideAtOnce(prefix, a, b) {
      var d: Dims, t: nat :| Key(a, prefix, d, t) == Key(b, prefix, d, t);
      CollidingNames(prefix, a, b, d, d, t, t);
      if a.name != b.name {
        OneScopeOneDimension(prefix, a, b, d, t);
      }
    }
    if a.name == b.name {
      EqualNamesAtOnce(prefix, a, b);
    } else if a.scope != b.scope {
      if Spells(a, b) {
        SpelledAtOnce(prefix, a, b);
      }
      if Spells(b, a) {
        SpelledAtOnce(prefix, b, a);
        var d: Dims, t: nat :| Key(b, prefix, d, t) == Key(a, prefix, d, t);
        assert Key(a, prefix, d, t) == Key(b, prefix, d, t);
      }
    }
  }

  lemma OneScopeOneDimension(prefix: string, a: Budget, b: Budget, d: Dims, t: nat)
    requires a.windowSecs > 0 && b.windowSecs > 0 && Key(a, prefix, d, t) == Key(b, prefix, d, t) && a.name != b.name
    requires Spells(a, b) || Spells(b, a)
    ensures a.scope != b.scope
  {
    var x, y := Dimension(a, d), Dimension(b, d);
    KeysEqual(prefix, a.name, x, t / a.windowSecs, b.name, y, t / b.windowSecs);
    assert |a.name + ":" + x| == |b.name + ":" + y| && |a.name| != |b.name|;
    assert |x| != |y|;
  }

  lemma EqualNamesAtOnce(prefix: string, a: Budget, b: Budget)
    requires a.windowSecs > 0 && b.windowSecs > 0 && a.name == b.name
    ensures CanCollideAtOnce(prefix, a, b)
  {
    var d := Dims(Some("_"), "_", Some("_"), map[a.claim := "_", b.claim := "_"]);
    assert Dimension(a, d) == "_" && Dimension(b, d) == "_";
    hide Dimension;
    assert Key(a, prefix, d, 0) == Key(b, prefix, d, 0);
  }

  lemma SpelledAtOnce(prefix: string, outer: Budget, inner: Budget)
    requires outer.windowSecs > 0 && inner.windowSecs > 0 && Spells(outer, inner) && outer.scope != inner.scope
    ensures CanCollideAtOnce(prefix, outer, inner)
  {
    var x := inner.name[|outer.name| + 1..] + ":_";
    var d := Dims(Some(if outer.scope == PerKey then x else "_"), if outer.scope == PerModel then x else "_",
                  Some(if outer.scope == PerTeam then x else "_"), map[inner.claim := "_"]);
    assert Dimension(outer, d) == x && Dimension(inner, d) == "_";
    hide Dimension;
    assert outer.name + ":" + x == inner.name + ":" + "_";
    KeysEqual(prefix, outer.name, x, 0, inner.name, "_", 0);
    assert Key(outer, prefix, d, 0) == Key(inner, prefix, d, 0);
  }

  /** A marker tells its counter and its id, and settle markers are not rollback markers. */
  lemma MarkerInjective(k1: string, i1: string, k2: string, i2: string)
    requires Uuid(i1) && Uuid(i2)
    ensures SettleMarker(k1, i1) == SettleMarker(k2, i2) ==> k1 == k2 && i1 == i2
    ensures RollbackMarker(k1, i1) == RollbackMarker(k2, i2) ==> k1 == k2 && i1 == i2
    ensures SettleMarker(k1, i1) != RollbackMarker(k2, i2)
  {
    var s, t := SettleMarker(k1, i1), RollbackMarker(k2, i2);
    assert s[|s| - 38] == 's' && t[|t| - 38] == 'b';
    assert s[..|s| - 39] == k1 && s[|s| - 36..] == i1;
    assert t[..|t| - 40] == k2 && t[|t| - 36..] == i2;
    var s2, t1 := SettleMarker(k2, i2), RollbackMarker(k1, i1);
    assert s2[..|s2| - 39] == k2 && s2[|s2| - 36..] == i2;
    assert t1[..|t1| - 40] == k1 && t1[|t1| - 36..] == i1;
  }

  /** No marker is ever a counter. */
  lemma CountersAreNotMarkers(prefix: string, name: string, dim: string, window: nat)
    ensures !IsMarker(KeyOf(prefix, name, dim, window))
  {
    hide Decimal.Text, KeyOf;
    KeySplit(prefix, name, dim, window);
    var front := prefix + ":budget:" + (name + ":" + dim);
    var k := KeyOf(prefix, name, dim, window);
    forall key: string, id: string | Uuid(id)
      ensures k != SettleMarker(key, id) && k != RollbackMarker(key, id)
    {
      NotThisMarker(front, Decimal.Text(window), key + ":s", id);
      assert key + ":s" + ":" + id == SettleMarker(key, id);
      NotThisMarker(front, Decimal.Text(window), key + ":rb", id);
      assert key + ":rb" + ":" + id == RollbackMarker(key, id);
    }
  }

  lemma NotThisMarker(a: string, digits: string, b: string, id: string)
    requires Uuid(id) && forall i :: 0 <= i < |digits| ==> '0' <= digits[i] <= '9'
    ensures a + ":" + digits != b + ":" + id
  {
    if a + ":" + digits == b + ":" + id {
      LastColon(a, digits, b, id);
      assert false;
    }
  }
}
