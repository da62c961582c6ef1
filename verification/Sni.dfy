/**
 The certificate index of `src/certstore.rs`: built from a list of certificates and the hosts they claim,
 asked on every handshake. A certificate store is known by a number here.
 */
module Sni {
  import opened Wrappers
  import opened Strings

  // ---- Host patterns ----------------------------------------------------------------------------

  datatype Host = Exact(name: string) | Wildcard(suffix: string)

  function TrimDots(s: string): string {
    if s != "" && s[|s| - 1] == '.' then TrimDots(s[..|s| - 1]) else s
  }

  function ParseHost(raw: string): Result<Host> {
    var h := Lower(TrimDots(Trim(raw)));
    if "*." <= h then
      var suffix := h[2..];
      if suffix == "" || '*' in suffix || '.' !in suffix then Err else Ok(Wildcard("." + suffix))
    else if h == "" || '*' in h then Err
    else Ok(Exact(h))
  }

  function Normal(name: string): string {
    Lower(TrimDots(name))
  }

  /** What it is for a host pattern to match a normalised name: itself, or one label before the suffix. */
  ghost predicate Matches(h: Host, name: string) {
    match h
    case Exact(n) => name == n
    case Wildcard(suffix) => exists first :: '.' !in first && name == first + suffix
  }

  /** A wildcard matches exactly when its suffix is the name from its first dot. */
  lemma WildcardExact(raw: string, name: string)
    requires ParseHost(raw).Ok? && ParseHost(raw).value.Wildcard?
    ensures var suffix := ParseHost(raw).value.suffix;
            Matches(Wildcard(suffix), name) <==> IndexOf(name, '.') >= 0 && name[IndexOf(name, '.')..] == suffix
  {
    var suffix := ParseHost(raw).value.suffix;
    assert suffix[0] == '.';
    hide ParseHost;
    var dot := IndexOf(name, '.');
    if dot >= 0 && name[dot..] == suffix {
      assert '.' !in name[..dot] && name == name[..dot] + suffix;
    }
    if Matches(Wildcard(suffix), name) {
      var first :| '.' !in first && name == first + suffix;
      assert name[|first|] == '.';
      assert forall k :: 0 <= k < |first| ==> name[k] == first[k] && first[k] != '.';
      assert dot == |first|;
      assert name[dot..] == suffix;
    }
  }

  // ---- The resolver -----------------------------------------------------------------------------

  datatype SniCert = SniCert(hosts: seq<string>, store: nat)

  datatype Resolver = Resolver(fallback: nat, certs: seq<SniCert>, exact: map<string, nat>, wildcard: seq<(string, nat)>)

  /** One claim: a host pattern and the position of the certificate that makes it. */
  datatype Claim = Claim(host: Result<Host>, index: nat)

  function HostClaims(hosts: seq<string>, index: nat): (r: seq<Claim>)
    ensures |r| == |hosts| && forall j :: 0 <= j < |hosts| ==> r[j] == Claim(ParseHost(hosts[j]), index)
  {
    seq(|hosts|, j requires 0 <= j < |hosts| => Claim(ParseHost(hosts[j]), index))
  }

  /** Every claim of the list from `from` on, in order. */
  function Claims(certs: seq<SniCert>, from: nat := 0): seq<Claim>
    requires from <= |certs|
    decreases |certs| - from
  {
    if from == |certs| then [] else HostClaims(certs[from].hosts, from) + Claims(certs, from + 1)
  }

  predicate Unclaimed(host: Result<Host>, claims: seq<Claim>) {
    forall k :: 0 <= k < |claims| ==> claims[k].host != host
  }

  predicate AllParse(claims: seq<Claim>) {
    forall k :: 0 <= k < |claims| ==> claims[k].host.Ok?
  }

  predicate Distinct(claims: seq<Claim>) {
    forall a, b :: 0 <= a < b < |claims| ==> claims[a].host != claims[b].host
  }

  predicate Listed(certs: seq<SniCert>) {
    forall i :: 0 <= i < |certs| ==> certs[i].hosts != []
  }

  /** What the resolver demands of a configuration. */
  predicate Accepted(certs: seq<SniCert>) {
    Listed(certs) && AllParse(Claims(certs)) && Distinct(Claims(certs))
  }

  /** The map and the list hold just the claims. */
  predicate Indexed(exact: map<string, nat>, wildcard: seq<(string, nat)>, claims: seq<Claim>) {
    && (forall k :: 0 <= k < |claims| ==> InIndex(exact, wildcard, claims[k]))
    && (forall n :: n in exact ==> Claim(Ok(Exact(n)), exact[n]) in claims)
    && (forall w :: w in wildcard ==> Claim(Ok(Wildcard(w.0)), w.1) in claims)
  }

  predicate InIndex(exact: map<string, nat>, wildcard: seq<(string, nat)>, c: Claim) {
    match c.host
    case Err => false
    case Ok(Exact(n)) => n in exact && exact[n] == c.index
    case Ok(Wildcard(s)) => (s, c.index) in wildcard
  }

  function Keyed(wildcard: seq<(string, nat)>, suffix: string): (r: Option<nat>)
    ensures r.Some? ==> (suffix, r.value) in wildcard
    ensures r == None ==> forall w :: w in wildcard ==> w.0 != suffix
  {
    if wildcard == [] then None
    else if wildcard[0].0 == suffix then Some(wildcard[0].1)
    else Keyed(wildcard[1..], suffix)
  }

  lemma IndexExact(exact: map<string, nat>, wildcard: seq<(string, nat)>, claims: seq<Claim>, n: string, i: nat)
    requires Indexed(exact, wildcard, claims) && n !in exact
    ensures Unclaimed(Ok(Exact(n)), claims)
    ensures Indexed(exact[n := i], wildcard, claims + [Claim(Ok(Exact(n)), i)])
  {
    var c := Claim(Ok(Exact(n)), i);
    forall k | 0 <= k < |claims| ensures claims[k].host != Ok(Exact(n)) && InIndex(exact[n := i], wildcard, claims[k]) {
      assert InIndex(exact, wildcard, claims[k]);
    }
    assert (claims + [c])[|claims|] == c;
  }

  lemma IndexWildcard(exact: map<string, nat>, wildcard: seq<(string, nat)>, claims: seq<Claim>, s: string, i: nat)
    requires Indexed(exact, wildcard, claims) && Keyed(wildcard, s) == None
    ensures Unclaimed(Ok(Wildcard(s)), claims)
    ensures Indexed(exact, wildcard + [(s, i)], claims + [Claim(Ok(Wildcard(s)), i)])
  {
    var c := Claim(Ok(Wildcard(s)), i);
    forall k | 0 <= k < |claims| ensures claims[k].host != Ok(Wildcard(s)) && InIndex(exact, wildcard + [(s, i)], claims[k]) {
      assert InIndex(exact, wildcard, claims[k]);
    }
    assert (claims + [c])[|claims|] == c;
    forall w | w in wildcard + [(s, i)] ensures Claim(Ok(Wildcard(w.0)), w.1) in claims + [c] {
      if w !in wildcard {
        assert w == (s, i);
      }
    }
  }

  lemma DistinctStep(done: seq<Claim>, c: Claim)
    requires Distinct(done) && AllParse(done) && c.host.Ok? && Unclaimed(c.host, done)
    ensures Distinct(done + [c]) && AllParse(done + [c])
  {
  }

  lemma RefusedClaim(done: seq<Claim>, c: Claim, later: seq<Claim>)
    requires c.host == Err || !Unclaimed(c.host, done)
    ensures !(AllParse(done + [c] + later) && Distinct(done + [c] + later))
  {
    var all := done + [c] + later;
    assert all[|done|] == c;
    if c.host.Ok? {
      var k :| 0 <= k < |done| && done[k].host == c.host;
      assert all[k] == done[k];
    }
  }

  lemma ClaimNext(done: seq<Claim>, certs: seq<SniCert>, i: nat, j: nat)
    requires i < |certs| && j < |certs[i].hosts|
    requires done + HostClaims(certs[i].hosts, i)[j..] + Claims(certs, i + 1) == Claims(certs)
    ensures var c := Claim(ParseHost(certs[i].hosts[j]), i);
            && done + [c] + HostClaims(certs[i].hosts, i)[j + 1..] + Claims(certs, i + 1) == Claims(certs)
            && done + [c] + (HostClaims(certs[i].hosts, i)[j + 1..] + Claims(certs, i + 1)) == Claims(certs)
  {
    hide ParseHost, Claims;
    var hs := HostClaims(certs[i].hosts, i);
    assert hs[j..] == [hs[j]] + hs[j + 1..];
  }

  lemma ExactClaimed(exact: map<string, nat>, wildcard: seq<(string, nat)>, claims: seq<Claim>, n: string)
    requires Indexed(exact, wildcard, claims) && n in exact
    ensures !Unclaimed(Ok(Exact(n)), claims)
  {
    assert Claim(Ok(Exact(n)), exact[n]) in claims;
  }

  lemma WildcardClaimed(exact: map<string, nat>, wildcard: seq<(string, nat)>, claims: seq<Claim>, suffix: string)
    requires Indexed(exact, wildcard, claims) && Keyed(wildcard, suffix).Some?
    ensures !Unclaimed(Ok(Wildcard(suffix)), claims)
  {
    var w := (suffix, Keyed(wildcard, suffix).value);
    assert w in wildcard;
    assert Claim(Ok(Wildcard(w.0)), w.1) in claims;
  }

  lemma ClaimsBegin(certs: seq<SniCert>)
    ensures [] + Claims(certs, 0) == Claims(certs) && Indexed(map[], [], []) && Distinct([]) && AllParse([])
  {
  }

  lemma ClaimsStep(done: seq<Claim>, certs: seq<SniCert>, i: nat)
    requires i < |certs| && done + Claims(certs, i) == Claims(certs)
    ensures done + HostClaims(certs[i].hosts, i)[0..] + Claims(certs, i + 1) == Claims(certs)
  {
    var hs := HostClaims(certs[i].hosts, i);
    hide HostClaims;
    assert hs[0..] == hs && done + hs + Claims(certs, i + 1) == done + Claims(certs, i);
  }

  lemma ClaimsEnd(done: seq<Claim>, certs: seq<SniCert>)
    requires done + Claims(certs, |certs|) == Claims(certs)
    ensures done == Claims(certs)
  {
    assert done + [] == done;
  }

  predicate Building(exact: map<string, nat>, wildcard: seq<(string, nat)>, done: seq<Claim>) {
    Indexed(exact, wildcard, done) && Distinct(done) && AllParse(done)
  }

  /** Built exactly when every host parses and none is claimed twice; then the index holds just the claims. */
  method New(fallback: nat, certs: seq<SniCert>) returns (r: Result<Resolver>)
    ensures r.Ok? <==> Accepted(certs)
    ensures r.Ok? ==> r.value.fallback == fallback && r.value.certs == certs && Ready(r.value)
  {
    var exact: map<string, nat> := map[];
    var wildcard: seq<(string, nat)> := [];
    ghost var done: seq<Claim> := [];
    ClaimsBegin(certs);
    hide Indexed, Distinct, AllParse, Claims, HostClaims;
    for i := 0 to |certs|
      invariant done + Claims(certs, i) == Claims(certs) && Building(exact, wildcard, done)
      invariant forall k :: 0 <= k < i ==> certs[k].hosts != []
    {
      var hosts := certs[i].hosts;
      if hosts == [] {
        return Err;
      }
      ClaimsStep(done, certs, i);
      for j := 0 to |hosts|
        invariant done + HostClaims(hosts, i)[j..] + Claims(certs, i + 1) == Claims(certs) && Building(exact, wildcard, done)
      {
        var host := ParseHost(hosts[j]);
        hide ParseHost, Listed;
        ghost var c := Claim(host, i);
        ClaimNext(done, certs, i, j);
        ghost var later := HostClaims(hosts, i)[j + 1..] + Claims(certs, i + 1);
        if host == Err {
          RefusedClaim(done, c, later);
          return Err;
        } else if host.value.Wildcard? {
          var key := host.value.suffix;
          if Keyed(wildcard, key).Some? {
            WildcardClaimed(exact, wildcard, done, key);
            RefusedClaim(done, c, later);
            return Err;
          }
          IndexWildcard(exact, wildcard, done, key, i);
          wildcard := wildcard + [(key, i)];
        } else {
          var name := host.value.name;
          if name in exact {
            ExactClaimed(exact, wildcard, done, name);
            RefusedClaim(done, c, later);
            return Err;
          }
          IndexExact(exact, wildcard, done, name, i);
          exact := exact[name := i];
        }
        DistinctStep(done, c);
        done := done + [c];
      }
      assert HostClaims(hosts, i)[|hosts|..] == [] && done + [] == done;
    }
    ClaimsEnd(done, certs);
    return Ok(Resolver(fallback, certs, exact, wildcard));
  }

  /** The index fits the list, so lookups stay in range. */
  predicate Ready(r: Resolver) {
    Accepted(r.certs) && Indexed(r.exact, r.wildcard, Claims(r.certs))
  }

  lemma {:induction false} ClaimIndex(certs: seq<SniCert>, from: nat, c: Claim)
    requires from <= |certs| && c in Claims(certs, from)
    ensures from <= c.index < |certs|
    ensures exists j :: 0 <= j < |certs[c.index].hosts| && ParseHost(certs[c.index].hosts[j]) == c.host
    decreases |certs| - from
  {
    hide ParseHost;
    var hs := HostClaims(certs[from].hosts, from);
    if c in hs {
      var j :| 0 <= j < |hs| && hs[j] == c;
      assert ParseHost(certs[from].hosts[j]) == c.host;
    } else {
      ClaimIndex(certs, from + 1, c);
    }
  }

  lemma ReadyInRange(r: Resolver)
    requires Ready(r)
    ensures forall n :: n in r.exact ==> r.exact[n] < |r.certs|
    ensures forall w :: w in r.wildcard ==> w.1 < |r.certs|
  {
    hide Accepted, Claims, InIndex;
    forall n | n in r.exact ensures r.exact[n] < |r.certs| {
      ClaimIndex(r.certs, 0, Claim(Ok(Exact(n)), r.exact[n]));
    }
    forall w | w in r.wildcard ensures w.1 < |r.certs| {
      ClaimIndex(r.certs, 0, Claim(Ok(Wildcard(w.0)), w.1));
    }
  }

  function Select(r: Resolver, serverName: Option<string>): nat
    requires Ready(r)
  {
    ReadyInRange(r);
    if serverName == None then r.fallback
    else
      var name := Normal(serverName.value);
      if name in r.exact then r.certs[r.exact[name]].store
      else
        var dot := IndexOf(name, '.');
        if dot < 0 then r.fallback
        else
          var i := Keyed(r.wildcard, name[dot..]);
          if i.Some? then r.certs[i.value].store else r.fallback
  }

  // ---- The plain rule ---------------------------------------------------------------------------

  /** Certificate `i` lists a host that parses to `h`. */
  predicate ClaimedBy(certs: seq<SniCert>, h: Host, i: int) {
    0 <= i < |certs| && exists j :: 0 <= j < |certs[i].hosts| && ParseHost(certs[i].hosts[j]) == Ok(h)
  }

  function StoreOf(certs: seq<SniCert>, i: int): nat {
    if 0 <= i < |certs| then certs[i].store else 0
  }

  lemma {:induction false} ClaimListed(certs: seq<SniCert>, from: nat, h: Host, i: nat)
    requires from <= i && ClaimedBy(certs, h, i)
    ensures Claim(Ok(h), i) in Claims(certs, from)
    decreases |certs| - from
  {
    hide ParseHost;
    if from == i {
      var j :| 0 <= j < |certs[i].hosts| && ParseHost(certs[i].hosts[j]) == Ok(h);
      assert HostClaims(certs[i].hosts, i)[j] == Claim(Ok(h), i);
    } else {
      ClaimListed(certs, from + 1, h, i);
    }
  }

  /** Nobody claims a pattern of this kind that matches `name`. */
  ghost predicate NoneMatch(certs: seq<SniCert>, name: string, wild: bool) {
    forall h, i :: ClaimedBy(certs, h, i) && h.Wildcard? == wild ==> !Matches(h, name)
  }

  /** Some claim of this kind matches `name`, made by a certificate served from `store`. */
  ghost predicate SomeMatch(certs: seq<SniCert>, name: string, wild: bool, store: nat) {
    exists h, i :: ClaimedBy(certs, h, i) && h.Wildcard? == wild && Matches(h, name) && StoreOf(certs, i) == store
  }

  /** The rule in terms of the list alone: an exact match, else a wildcard match, else the default. */
  ghost predicate Rule(fallback: nat, certs: seq<SniCert>, serverName: Option<string>, store: nat) {
    match serverName
    case None => store == fallback
    case Some(raw) =>
      var name := Normal(raw);
      || SomeMatch(certs, name, false, store)
      || (NoneMatch(certs, name, false) && SomeMatch(certs, name, true, store))
      || (NoneMatch(certs, name, false) && NoneMatch(certs, name, true) && store == fallback)
  }

  lemma IndexedClaim(r: Resolver, h: Host, i: nat)
    requires Ready(r)
    ensures ClaimedBy(r.certs, h, i) <==> Claim(Ok(h), i) in Claims(r.certs)
  {
    hide Accepted, Indexed, Claims, ParseHost;
    if ClaimedBy(r.certs, h, i) {
      ClaimListed(r.certs, 0, h, i);
    }
    if Claim(Ok(h), i) in Claims(r.certs) {
      ClaimIndex(r.certs, 0, Claim(Ok(h), i));
    }
  }

  lemma ExactLookup(r: Resolver, name: string)
    requires Ready(r)
    ensures name in r.exact ==> ClaimedBy(r.certs, Exact(name), r.exact[name])
    ensures name !in r.exact ==> NoneMatch(r.certs, name, false)
  {
    hide Accepted, Claims, ParseHost, ClaimedBy, Keyed;
    if name in r.exact {
      IndexedClaim(r, Exact(name), r.exact[name]);
    } else {
      forall h, i | ClaimedBy(r.certs, h, i) && !h.Wildcard? ensures !Matches(h, name) {
        ClaimedInRange(r.certs, h, i);
        IndexedClaim(r, h, i);
        var c := Claim(Ok(h), i);
        var k :| 0 <= k < |Claims(r.certs)| && Claims(r.certs)[k] == c;
        assert InIndex(r.exact, r.wildcard, c);
      }
    }
  }

  lemma WildcardLookup(r: Resolver, name: string)
    requires Ready(r)
    ensures var dot := IndexOf(name, '.');
            var found := if dot < 0 then None else Keyed(r.wildcard, name[dot..]);
            if found.Some? then ClaimedBy(r.certs, Wildcard(name[dot..]), found.value) && Matches(Wildcard(name[dot..]), name)
            else NoneMatch(r.certs, name, true)
  {
    var dot := IndexOf(name, '.');
    var found := if dot < 0 then None else Keyed(r.wildcard, name[dot..]);
    hide Accepted, Claims, ParseHost, Matches, Keyed, IndexOf;
    if found.Some? {
      IndexedClaim(r, Wildcard(name[dot..]), found.value);
      MatchesDot(r.certs, Wildcard(name[dot..]), found.value, name);
    } else {
      forall h, i | ClaimedBy(r.certs, h, i) && h.Wildcard? ensures !Matches(h, name) {
        ClaimedInRange(r.certs, h, i);
        IndexedClaim(r, h, i);
        MatchesDot(r.certs, h, i, name);
        var c := Claim(Ok(h), i);
        var k :| 0 <= k < |Claims(r.certs)| && Claims(r.certs)[k] == c;
        assert InIndex(r.exact, r.wildcard, c);
      }
    }
  }

  lemma MatchesDot(certs: seq<SniCert>, h: Host, i: int, name: string)
    requires ClaimedBy(certs, h, i) && h.Wildcard?
    ensures Matches(h, name) <==> IndexOf(name, '.') >= 0 && name[IndexOf(name, '.')..] == h.suffix
  {
    var j :| 0 <= j < |certs[i].hosts| && ParseHost(certs[i].hosts[j]) == Ok(h);
    hide ParseHost;
    WildcardExact(certs[i].hosts[j], name);
  }

  /** The index answers by the rule. */
  lemma SelectFollowsRule(r: Resolver, serverName: Option<string>)
    requires Ready(r)
    ensures Rule(r.fallback, r.certs, serverName, Select(r, serverName))
  {
    if serverName.Some? {
      var name := Normal(serverName.value);
      ExactLookup(r, name);
      WildcardLookup(r, name);
      var dot := IndexOf(name, '.');
      hide Ready, ClaimedBy, Normal, IndexOf, Keyed, NoneMatch;
      if name in r.exact {
        var i := r.exact[name];
        ClaimedInRange(r.certs, Exact(name), i);
        assert SomeMatch(r.certs, name, false, StoreOf(r.certs, i));
      } else if dot >= 0 && Keyed(r.wildcard, name[dot..]).Some? {
        var i := Keyed(r.wildcard, name[dot..]).value;
        ClaimedInRange(r.certs, Wildcard(name[dot..]), i);
        assert SomeMatch(r.certs, name, true, StoreOf(r.certs, i));
      }
    }
  }

  lemma ClaimedInRange(certs: seq<SniCert>, h: Host, i: int)
    requires ClaimedBy(certs, h, i)
    ensures 0 <= i < |certs|
  {
  }

  // ---- The order of the list --------------------------------------------------------------------

  /** Some certificate served from `store` claims `h`: all that the rule looks at. */
  ghost predicate Serves(certs: seq<SniCert>, h: Host, store: nat) {
    exists i :: ClaimedBy(certs, h, i) && StoreOf(certs, i) == store
  }

  /** In an accepted list, one certificate at most claims a pattern. */
  lemma OneClaimant(certs: seq<SniCert>, h: Host, i: int, k: int)
    requires Accepted(certs) && ClaimedBy(certs, h, i) && ClaimedBy(certs, h, k)
    ensures i == k
  {
    ClaimListed(certs, 0, h, i);
    ClaimListed(certs, 0, h, k);
    hide ParseHost, ClaimedBy, Listed, AllParse;
    var cs := Claims(certs);
    hide Claims;
    var a :| 0 <= a < |cs| && cs[a] == Claim(Ok(h), i);
    var b :| 0 <= b < |cs| && cs[b] == Claim(Ok(h), k);
    assert a == b;
  }

  /** Two patterns of one kind that match a name are the same pattern. */
  lemma OnePattern(certs: seq<SniCert>, h: Host, i: int, g: Host, k: int, name: string)
    requires ClaimedBy(certs, h, i) && ClaimedBy(certs, g, k) && h.Wildcard? == g.Wildcard?
    requires Matches(h, name) && Matches(g, name)
    ensures h == g
  {
    if h.Wildcard? {
      hide Matches, ClaimedBy, IndexOf;
      MatchesDot(certs, h, i, name);
      MatchesDot(certs, g, k, name);
    }
  }

  /** An accepted list gives each name one answer. */
  lemma RuleUnique(fallback: nat, certs: seq<SniCert>, serverName: Option<string>, s: nat, t: nat)
    requires Accepted(certs) && Rule(fallback, certs, serverName, s) && Rule(fallback, certs, serverName, t)
    ensures s == t
  {
    if serverName.Some? {
      var name := Normal(serverName.value);
      hide Accepted, Normal, ClaimedBy, Matches;
      if SomeMatch(certs, name, false, s) && SomeMatch(certs, name, false, t) {
        MatchUnique(certs, name, false, s, t);
      } else if SomeMatch(certs, name, true, s) && SomeMatch(certs, name, true, t) {
        MatchUnique(certs, name, true, s, t);
      }
    }
  }

  lemma MatchUnique(certs: seq<SniCert>, name: string, wild: bool, s: nat, t: nat)
    requires Accepted(certs) && SomeMatch(certs, name, wild, s) && SomeMatch(certs, name, wild, t)
    ensures s == t
  {
    hide Accepted, Matches, ClaimedBy;
    var h, i :| ClaimedBy(certs, h, i) && h.Wildcard? == wild && Matches(h, name) && StoreOf(certs, i) == s;
    var g, k :| ClaimedBy(certs, g, k) && g.Wildcard? == wild && Matches(g, name) && StoreOf(certs, k) == t;
    OnePattern(certs, h, i, g, k, name);
    OneClaimant(certs, h, i, k);
  }

  lemma SameMatches(a: seq<SniCert>, b: seq<SniCert>, name: string, wild: bool, store: nat)
    requires forall h, s :: Serves(a, h, s) <==> Serves(b, h, s)
    ensures SomeMatch(a, name, wild, store) ==> SomeMatch(b, name, wild, store)
    ensures NoneMatch(a, name, wild) ==> NoneMatch(b, name, wild)
  {
    hide ClaimedBy, Matches;
    if SomeMatch(a, name, wild, store) {
      var h, i :| ClaimedBy(a, h, i) && h.Wildcard? == wild && Matches(h, name) && StoreOf(a, i) == store;
      assert Serves(a, h, store);
      var k :| ClaimedBy(b, h, k) && StoreOf(b, k) == store;
    }
    if NoneMatch(a, name, wild) {
      forall h, k | ClaimedBy(b, h, k) && h.Wildcard? == wild ensures !Matches(h, name) {
        assert Serves(b, h, StoreOf(b, k));
        var i :| ClaimedBy(a, h, i) && StoreOf(a, i) == StoreOf(b, k);
      }
    }
  }

  /** Lists that serve the same hosts from the same stores answer every name alike. */
  lemma SameServiceSameAnswer(a: Resolver, b: Resolver, serverName: Option<string>)
    requires Ready(a) && Ready(b) && a.fallback == b.fallback
    requires forall h, s :: Serves(a.certs, h, s) <==> Serves(b.certs, h, s)
    ensures Select(a, serverName) == Select(b, serverName)
  {
    SelectFollowsRule(a, serverName);
    SelectFollowsRule(b, serverName);
    hide Select, Indexed, Accepted, Serves;
    if serverName.Some? {
      var name := Normal(serverName.value);
      hide Normal, SomeMatch, NoneMatch;
      SameMatches(a.certs, b.certs, name, false, Select(a, serverName));
      SameMatches(a.certs, b.certs, name, true, Select(a, serverName));
    }
    RuleUnique(b.fallback, b.certs, serverName, Select(a, serverName), Select(b, serverName));
  }

  lemma ServesMember(certs: seq<SniCert>, h: Host, store: nat)
    ensures Serves(certs, h, store) <==> exists c :: c in certs && c.store == store && Hosts(c, h)
  {
    hide ParseHost;
    if Serves(certs, h, store) {
      var i :| ClaimedBy(certs, h, i) && StoreOf(certs, i) == store;
      assert certs[i] in certs && Hosts(certs[i], h);
    }
    if exists c :: c in certs && c.store == store && Hosts(c, h) {
      var c :| c in certs && c.store == store && Hosts(c, h);
      var i :| 0 <= i < |certs| && certs[i] == c;
      assert ClaimedBy(certs, h, i);
    }
  }

  predicate Hosts(c: SniCert, h: Host) {
    exists j :: 0 <= j < |c.hosts| && ParseHost(c.hosts[j]) == Ok(h)
  }

  /** The answer does not depend on the order of the list. */
  lemma OrderIrrelevant(a: Resolver, b: Resolver, serverName: Option<string>)
    requires Ready(a) && Ready(b) && a.fallback == b.fallback && multiset(a.certs) == multiset(b.certs)
    ensures Select(a, serverName) == Select(b, serverName)
  {
    hide Select, Ready, Serves, Hosts;
    assert forall c :: c in a.certs <==> c in multiset(a.certs);
    assert forall c :: c in b.certs <==> c in multiset(b.certs);
    forall h, s ensures Serves(a.certs, h, s) <==> Serves(b.certs, h, s) {
      ServesMember(a.certs, h, s);
      ServesMember(b.certs, h, s);
    }
    SameServiceSameAnswer(a, b, serverName);
  }

  // ---- Acceptance does not depend on it either --------------------------------------------------

  function Times(claims: seq<Claim>, host: Result<Host>): nat {
    if claims == [] then 0 else (if claims[0].host == host then 1 else 0) + Times(claims[1..], host)
  }

  lemma {:induction false} TimesConcat(x: seq<Claim>, y: seq<Claim>, host: Result<Host>)
    ensures Times(x + y, host) == Times(x, host) + Times(y, host)
    decreases |x|
  {
    if x == [] {
      assert x + y == y;
    } else {
      TimesConcat(x[1..], y, host);
      assert (x + y)[1..] == x[1..] + y;
    }
  }

  lemma {:induction false} TimesPositive(claims: seq<Claim>, host: Result<Host>)
    ensures Times(claims, host) == 0 <==> Unclaimed(host, claims)
    decreases |claims|
  {
    if claims != [] {
      TimesPositive(claims[1..], host);
      assert claims == [claims[0]] + claims[1..];
      if Unclaimed(host, claims) {
        assert forall k :: 0 <= k < |claims[1..]| ==> claims[1..][k] == claims[k + 1];
      }
    }
  }

  ghost predicate AtMostOnce(claims: seq<Claim>) {
    forall h :: Times(claims, h) <= 1
  }

  lemma {:induction false} DistinctTimes(claims: seq<Claim>)
    ensures Distinct(claims) <==> AtMostOnce(claims)
    decreases |claims|
  {
    if claims != [] {
      DistinctTimes(claims[1..]);
      DistinctCons(claims);
      AtMostOnceCons(claims);
      hide Distinct, AtMostOnce;
    }
  }

  lemma AtMostOnceCons(claims: seq<Claim>)
    requires claims != []
    ensures AtMostOnce(claims) <==> Unclaimed(claims[0].host, claims[1..]) && AtMostOnce(claims[1..])
  {
    var first, later := claims[0].host, claims[1..];
    TimesPositive(later, first);
    hide Unclaimed;
    if AtMostOnce(claims) {
      assert Times(claims, first) <= 1;
      forall h ensures Times(later, h) <= 1 {
        assert Times(claims, h) <= 1;
      }
    }
    if Unclaimed(first, later) && AtMostOnce(later) {
      forall h ensures Times(claims, h) <= 1 {
        assert Times(later, h) <= 1;
      }
    }
  }

  lemma DistinctCons(claims: seq<Claim>)
    requires claims != []
    ensures Distinct(claims) <==> Unclaimed(claims[0].host, claims[1..]) && Distinct(claims[1..])
  {
    var later := claims[1..];
    if Unclaimed(claims[0].host, later) && Distinct(later) {
      forall a, b | 0 <= a < b < |claims| ensures claims[a].host != claims[b].host {
        assert claims[b] == later[b - 1];
        if a > 0 {
          assert claims[a] == later[a - 1];
        }
      }
    }
  }

  /** How often a list claims a host: the sum over its certificates. */
  function Claimed(certs: seq<SniCert>, host: Result<Host>): nat {
    if certs == [] then 0 else Times(HostClaims(certs[0].hosts, 0), host) + Claimed(certs[1..], host)
  }

  lemma {:induction false} IndexDoesNotCount(hosts: seq<string>, i: nat, k: nat, host: Result<Host>)
    ensures Times(HostClaims(hosts, i), host) == Times(HostClaims(hosts, k), host)
    decreases |hosts|
  {
    if hosts != [] {
      IndexDoesNotCount(hosts[1..], i, k, host);
      hide ParseHost;
      assert HostClaims(hosts, i)[1..] == HostClaims(hosts[1..], i);
      assert HostClaims(hosts, k)[1..] == HostClaims(hosts[1..], k);
    }
  }

  lemma {:induction false} ClaimedIsTimes(certs: seq<SniCert>, from: nat, host: Result<Host>)
    requires from <= |certs|
    ensures Times(Claims(certs, from), host) == Claimed(certs[from..], host)
    decreases |certs| - from
  {
    hide HostClaims, Times;
    if from < |certs| {
      ClaimedIsTimes(certs, from + 1, host);
      var hs := HostClaims(certs[from].hosts, from);
      TimesConcat(hs, Claims(certs, from + 1), host);
      IndexDoesNotCount(certs[from].hosts, from, 0, host);
      assert certs[from..][0] == certs[from] && certs[from..][1..] == certs[from + 1..];
    } else {
      assert certs[from..] == [];
      TimesNone(host);
    }
  }

  lemma TimesNone(host: Result<Host>)
    ensures Times([], host) == 0
  {
  }

  lemma {:induction false} ClaimedConcat(x: seq<SniCert>, y: seq<SniCert>, host: Result<Host>)
    ensures Claimed(x + y, host) == Claimed(x, host) + Claimed(y, host)
    decreases |x|
  {
    hide HostClaims, Times;
    if x == [] {
      assert x + y == y;
    } else {
      ClaimedConcat(x[1..], y, host);
      assert (x + y)[1..] == x[1..] + y;
    }
  }

  /** A permutation of `a` without its first element. */
  lemma WithoutFirst(a: seq<SniCert>, b: seq<SniCert>) returns (k: nat)
    requires a != [] && multiset(a) == multiset(b)
    ensures k < |b| && b[k] == a[0] && multiset(b[..k] + b[k + 1..]) == multiset(a[1..])
  {
    assert a == [a[0]] + a[1..];
    assert a[0] in multiset(b);
    k :| 0 <= k < |b| && b[k] == a[0];
    assert b == b[..k] + [b[k]] + b[k + 1..];
    assert multiset(b[..k] + b[k + 1..]) == multiset(b) - multiset{b[k]};
    assert multiset(a[1..]) == multiset(a) - multiset{a[0]};
  }

  lemma ClaimedWithout(b: seq<SniCert>, k: nat, host: Result<Host>)
    requires k < |b|
    ensures Claimed(b, host) == Times(HostClaims(b[k].hosts, 0), host) + Claimed(b[..k] + b[k + 1..], host)
  {
    hide HostClaims, Times;
    assert b == b[..k] + ([b[k]] + b[k + 1..]);
    ClaimedConcat(b[..k], [b[k]] + b[k + 1..], host);
    ClaimedConcat(b[..k], b[k + 1..], host);
    assert ([b[k]] + b[k + 1..])[1..] == b[k + 1..];
  }

  lemma {:induction false} ClaimedPermuted(a: seq<SniCert>, b: seq<SniCert>, host: Result<Host>)
    requires multiset(a) == multiset(b)
    ensures Claimed(a, host) == Claimed(b, host)
    decreases |a|
  {
    hide HostClaims, Times;
    if a == [] {
      assert |b| == |multiset(b)| == 0;
    } else {
      var k := WithoutFirst(a, b);
      ClaimedPermuted(a[1..], b[..k] + b[k + 1..], host);
      ClaimedWithout(b, k, host);
    }
  }

  ghost predicate ClaimedOnce(certs: seq<SniCert>) {
    forall h :: Claimed(certs, h) <= 1
  }

  /** A list is accepted exactly when every certificate has hosts, each parses, and none is claimed twice. */
  lemma AcceptedByCount(certs: seq<SniCert>)
    ensures Accepted(certs) <==> Listed(certs) && Claimed(certs, Err) == 0 && ClaimedOnce(certs)
  {
    hide Listed, ParseHost;
    var cs := Claims(certs);
    DistinctTimes(cs);
    TimesPositive(cs, Err);
    hide Distinct;
    assert AllParse(cs) <==> Unclaimed(Err, cs);
    hide AllParse, Unclaimed;
    CountAgrees(certs, Err);
    hide Claims;
    if AtMostOnce(cs) {
      forall h ensures Claimed(certs, h) <= 1 { CountAgrees(certs, h); }
    }
    if ClaimedOnce(certs) {
      forall h ensures Times(cs, h) <= 1 { CountAgrees(certs, h); }
    }
  }

  lemma CountAgrees(certs: seq<SniCert>, h: Result<Host>)
    ensures Times(Claims(certs), h) == Claimed(certs, h)
  {
    assert certs[0..] == certs;
    ClaimedIsTimes(certs, 0, h);
  }

  lemma AcceptedInAnyOrder(a: seq<SniCert>, b: seq<SniCert>)
    requires multiset(a) == multiset(b)
    ensures Accepted(a) <==> Accepted(b)
  {
    hide Accepted;
    AcceptedByCount(a);
    AcceptedByCount(b);
    ClaimedPermuted(a, b, Err);
    if ClaimedOnce(a) { OncePermuted(a, b); }
    if ClaimedOnce(b) { OncePermuted(b, a); }
    hide Claimed, ClaimedOnce;
    assert forall c :: c in a <==> c in multiset(a);
    assert forall c :: c in b <==> c in multiset(b);
    ListedMembers(a);
    ListedMembers(b);
  }

  lemma OncePermuted(a: seq<SniCert>, b: seq<SniCert>)
    requires multiset(a) == multiset(b) && ClaimedOnce(a)
    ensures ClaimedOnce(b)
  {
    forall h ensures Claimed(b, h) <= 1 {
      ClaimedPermuted(a, b, h);
      assert Claimed(a, h) <= 1;
    }
  }

  lemma ListedMembers(certs: seq<SniCert>)
    ensures Listed(certs) <==> forall c :: c in certs ==> c.hosts != []
  {
  }
}
