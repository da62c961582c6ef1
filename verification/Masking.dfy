/**
 The reversible mask map of `src/dlp.rs`: placeholders of the form `<edgeguard-CAT-N>`, minted once
 per distinct value, and the buffered unmask that puts the values back.

 `MaskMap` keeps two dictionaries that must stay inverse to each other. What its methods compute is
 stated through functions over a plain value, `Masks`, so that the laws about whole runs can be
 stated as lemmas.
 */
module Masking {
  import opened Bytes
  import Decimal

  const LT: byte := 60
  const GT: byte := 62
  const DASH: byte := 45

  /** `<edgeguard-` */
  const MASK_PREFIX: bytes := [60, 101, 100, 103, 101, 103, 117, 97, 114, 100, 45]

  const MAX_PLACEHOLDER_BYTES: nat := 96

  /** One more than the largest `usize`. */
  const USIZE_SPAN: nat := 0x1_0000_0000_0000_0000

  const CATEGORIES: seq<string> := [
    "email", "credit_card", "aws_key", "api_key", "private_key", "ssn", "phone", "iban",
    "high_entropy", "gazetteer", "person", "address", "org", "prompt_injection", "custom"
  ]

  ghost predicate Category(cat: bytes) {
    exists i :: 0 <= i < |CATEGORIES| && cat == Ascii(CATEGORIES[i])
  }

  const MAX_CATEGORY_BYTES: nat := 16

  /** Every label is short and is spelled without the bytes that delimit a placeholder. */
  lemma CategoryPlain(cat: bytes)
    requires Category(cat)
    ensures |cat| <= MAX_CATEGORY_BYTES
    ensures forall i :: 0 <= i < |cat| ==> cat[i] != LT && cat[i] != GT
  {
    hide CATEGORIES, MAX_CATEGORY_BYTES;
    var c :| 0 <= c < |CATEGORIES| && cat == Ascii(CATEGORIES[c]);
    LabelPlain(c);
    AsciiPlain(CATEGORIES[c]);
  }

  lemma AsciiPlain(text: string)
    requires forall i :: 0 <= i < |text| ==> text[i] == '_' || 'a' <= text[i] <= 'z'
    ensures forall i :: 0 <= i < |text| ==> Ascii(text)[i] != LT && Ascii(text)[i] != GT
  {}

  lemma LabelPlain(c: nat)
    requires c < |CATEGORIES|
    ensures |CATEGORIES[c]| <= MAX_CATEGORY_BYTES
    ensures forall i :: 0 <= i < |CATEGORIES[c]| ==>
              (CATEGORIES[c][i] == '_' || 'a' <= CATEGORIES[c][i] <= 'z')
  {}

  function Placeholder(cat: bytes, n: nat): bytes {
    MASK_PREFIX + cat + [DASH] + Decimal.Print(n) + [GT]
  }

  // ---- Shape of a placeholder -----------------------------------------------------------------

  /** What the unmaskers rely on: one `<`, at the front, and one `>`, at the back. */
  predicate Shaped(key: bytes) {
    && |MASK_PREFIX| < |key|
    && key[..|MASK_PREFIX|] == MASK_PREFIX
    && key[|key| - 1] == GT
    && (forall i :: 0 < i < |key| ==> key[i] != LT)
    && (forall i :: 0 <= i < |key| - 1 ==> key[i] != GT)
  }

  lemma PlaceholderShaped(cat: bytes, n: nat)
    requires Category(cat)
    ensures Shaped(Placeholder(cat, n))
  {
    hide Category, Decimal.Print;
    CategoryPlain(cat);
    var d := Decimal.Print(n);
    var key := Placeholder(cat, n);
    assert key[..|MASK_PREFIX|] == MASK_PREFIX;
    var a := |MASK_PREFIX| + |cat|;
    forall i | 0 <= i < |key|
      ensures 0 < i ==> key[i] != LT
      ensures i < |key| - 1 ==> key[i] != GT
    {
      if i < |MASK_PREFIX| {
        assert key[i] == MASK_PREFIX[i];
      } else if i < a {
        assert key[i] == cat[i - |MASK_PREFIX|];
      } else if a < i < |key| - 1 {
        assert key[i] == d[i - a - 1];
        assert Decimal.IsDigit(d[i - a - 1]);
      }
    }
  }

  /** A placeholder numbered by a `usize` is shorter than what the streaming unmasker waits for. */
  lemma PlaceholderFits(cat: bytes, n: nat)
    requires Category(cat) && n < USIZE_SPAN
    ensures |Placeholder(cat, n)| <= MAX_PLACEHOLDER_BYTES
  {
    CategoryPlain(cat);
    Decimal.PrintLength64(n);
  }

  /** The last `-` of a placeholder is the one before its number. */
  lemma LastDash(cat: bytes, n: nat)
    ensures var key := Placeholder(cat, n);
            var at := |key| - |Decimal.Print(n)| - 2;
            && at >= 0
            && key[at] == DASH
            && (forall i :: at < i < |key| ==> key[i] != DASH)
            && key[at + 1..|key| - 1] == Decimal.Print(n)
            && key[|MASK_PREFIX|..at] == cat
  {
    var d := Decimal.Print(n);
    var key := Placeholder(cat, n);
    var at := |key| - |d| - 2;
    forall i | at < i < |key| ensures key[i] != DASH {
      if i < |key| - 1 {
        assert key[i] == d[i - at - 1];
        assert Decimal.IsDigit(d[i - at - 1]);
      }
    }
  }

  /** A placeholder determines its category and its number. */
  lemma PlaceholderInjective(c1: bytes, n1: nat, c2: bytes, n2: nat)
    requires Placeholder(c1, n1) == Placeholder(c2, n2)
    ensures c1 == c2 && n1 == n2
  {
    LastDash(c1, n1);
    LastDash(c2, n2);
    assert |Decimal.Print(n1)| == |Decimal.Print(n2)|;
    assert Decimal.Print(n1) == Decimal.Print(n2);
    Decimal.PrintInjective(n1, n2);
  }

  // ---- The two dictionaries -------------------------------------------------------------------

  datatype Masks = Masks(toPlaceholder: map<bytes, bytes>, toOriginal: map<bytes, bytes>, nextId: nat)

  const NO_MASKS := Masks(map[], map[], 0)

  /** `key` was minted with an id below `bound`. */
  ghost predicate Minted(key: bytes, bound: nat) {
    exists cat: bytes, n: nat :: Category(cat) && n < bound && key == Placeholder(cat, n)
  }

  /** The two dictionaries are inverse to each other, and every key is a placeholder already handed out. */
  ghost predicate Inverse(m: Masks) {
    && (forall v :: v in m.toPlaceholder ==>
          m.toPlaceholder[v] in m.toOriginal && m.toOriginal[m.toPlaceholder[v]] == v)
    && (forall p :: p in m.toOriginal ==>
          m.toOriginal[p] in m.toPlaceholder && m.toPlaceholder[m.toOriginal[p]] == p)
    && (forall p :: p in m.toOriginal ==> Minted(p, m.nextId))
  }

  /** `placeholder_for` on a value: the map afterwards. */
  function Mint(m: Masks, cat: bytes, value: bytes): Masks {
    if value in m.toPlaceholder then m
    else
      var p := Placeholder(cat, m.nextId);
      Masks(m.toPlaceholder[value := p], m.toOriginal[p := value], m.nextId + 1)
  }

  /** The next placeholder has never been handed out. */
  lemma NextIsFresh(m: Masks, cat: bytes)
    requires Inverse(m)
    ensures Placeholder(cat, m.nextId) !in m.toOriginal
  {
    var p := Placeholder(cat, m.nextId);
    if p in m.toOriginal {
      var c: bytes, n: nat :| Category(c) && n < m.nextId && p == Placeholder(c, n);
      PlaceholderInjective(cat, m.nextId, c, n);
      assert false;
    }
  }

  lemma MintKeepsInverse(m: Masks, cat: bytes, value: bytes)
    requires Inverse(m) && Category(cat)
    ensures var m' := Mint(m, cat, value);
            && Inverse(m')
            && value in m'.toPlaceholder
            && (forall v :: v in m.toPlaceholder ==> v in m'.toPlaceholder && m'.toPlaceholder[v] == m.toPlaceholder[v])
            && (forall p :: p in m.toOriginal ==> p in m'.toOriginal && m'.toOriginal[p] == m.toOriginal[p])
  {
    var m' := Mint(m, cat, value);
    if value !in m.toPlaceholder {
      var p := Placeholder(cat, m.nextId);
      NextIsFresh(m, cat);
      forall q | q in m'.toOriginal
        ensures Minted(q, m'.nextId)
      {
        if q != p {
          var c: bytes, n: nat :| Category(c) && n < m.nextId && q == Placeholder(c, n);
          assert n < m'.nextId;
        }
      }
    }
  }

  lemma MintFinds(m: Masks, cat: bytes, value: bytes)
    requires Inverse(m) && Category(cat)
    ensures var m' := Mint(m, cat, value);
            && value in m'.toPlaceholder
            && m'.toPlaceholder[value] in m'.toOriginal
            && m'.toOriginal[m'.toPlaceholder[value]] == value
  {
    hide Placeholder, Category;
    MintKeepsInverse(m, cat, value);
  }

  /** One request to mint: a category and the value found. */
  datatype Mask = Mask(cat: bytes, value: bytes)

  /** The map after a sequence of mints. */
  function MintAll(m: Masks, asks: seq<Mask>): Masks
    decreases |asks|
  {
    if asks == [] then m else MintAll(Mint(m, asks[0].cat, asks[0].value), asks[1..])
  }

  /**
   Over every sequence of mints: the dictionaries stay inverse, earlier entries survive, every value
   asked for has its placeholder, two values share one exactly when they are equal, and every key
   has the shape the unmaskers look for and, while the ids fit a `usize`, the length they wait for.
   */
  lemma {:induction false} MintsKeepInverse(m: Masks, asks: seq<Mask>)
    requires Inverse(m)
    requires forall i :: 0 <= i < |asks| ==> Category(asks[i].cat)
    ensures var m' := MintAll(m, asks);
            && Inverse(m')
            && m'.nextId <= m.nextId + |asks|
            && (forall p :: p in m.toOriginal ==> p in m'.toOriginal && m'.toOriginal[p] == m.toOriginal[p])
            && (forall i :: 0 <= i < |asks| ==> asks[i].value in m'.toPlaceholder)
            && (forall v, w :: v in m'.toPlaceholder && w in m'.toPlaceholder ==>
                  (m'.toPlaceholder[v] == m'.toPlaceholder[w] <==> v == w))
            && (forall p :: p in m'.toOriginal ==> Shaped(p))
            && (m'.nextId <= USIZE_SPAN ==> forall p :: p in m'.toOriginal ==> |p| <= MAX_PLACEHOLDER_BYTES)
    decreases |asks|
  {
    if asks != [] {
      var m1 := Mint(m, asks[0].cat, asks[0].value);
      MintKeepsInverse(m, asks[0].cat, asks[0].value);
      MintsKeepInverse(m1, asks[1..]);
      var m' := MintAll(m, asks);
      forall i | 0 <= i < |asks| ensures asks[i].value in m'.toPlaceholder {
        if i > 0 {
          assert asks[i] == asks[1..][i - 1];
        } else {
          var p := m1.toPlaceholder[asks[0].value];
          assert p in m1.toOriginal;
          assert m'.toOriginal[p] == asks[0].value;
        }
      }
    } else {
      KeysShaped(m);
    }
  }

  lemma KeysShaped(m: Masks)
    requires Inverse(m)
    ensures forall p :: p in m.toOriginal ==> Shaped(p)
    ensures m.nextId <= USIZE_SPAN ==> forall p :: p in m.toOriginal ==> |p| <= MAX_PLACEHOLDER_BYTES
  {
    forall p | p in m.toOriginal
      ensures Shaped(p)
      ensures m.nextId <= USIZE_SPAN ==> |p| <= MAX_PLACEHOLDER_BYTES
    {
      var cat: bytes, n: nat :| Category(cat) && n < m.nextId && p == Placeholder(cat, n);
      PlaceholderShaped(cat, n);
      if n < USIZE_SPAN {
        PlaceholderFits(cat, n);
      }
    }
  }

  /** The values asked for. */
  function Wanted(asks: seq<Mask>): set<bytes> {
    set i | 0 <= i < |asks| :: asks[i].value
  }

  lemma WantedCons(asks: seq<Mask>)
    requires asks != []
    ensures Wanted(asks) == {asks[0].value} + Wanted(asks[1..])
  {
    var later := asks[1..];
    forall x | x in Wanted(asks) ensures x in {asks[0].value} + Wanted(later) {
      var i :| 0 <= i < |asks| && asks[i].value == x;
      assert i > 0 ==> later[i - 1] == asks[i];
    }
    forall x | x in Wanted(later) ensures x in Wanted(asks) {
      var i :| 0 <= i < |later| && later[i].value == x;
      assert asks[i + 1].value == x;
    }
  }

  lemma NothingWanted(known: set<bytes>)
    ensures known + Wanted([]) == known && Wanted([]) - known == {}
  {
  }

  lemma MintAllStep(m: Masks, asks: seq<Mask>)
    ensures asks == [] ==> MintAll(m, asks) == m
    ensures asks != [] ==> MintAll(m, asks) == MintAll(Mint(m, asks[0].cat, asks[0].value), asks[1..])
  {
    hide Mint;
  }

  lemma MintAdds(m: Masks, cat: bytes, value: bytes)
    ensures var m' := Mint(m, cat, value);
            && m'.toPlaceholder.Keys == m.toPlaceholder.Keys + {value}
            && m'.nextId == m.nextId + if value in m.toPlaceholder then 0 else 1
  {
    hide Placeholder;
  }

  lemma OneMoreNew(known: set<bytes>, v: bytes, later: set<bytes>)
    ensures |({v} + later) - known| == |later - (known + {v})| + if v in known then 0 else 1
    ensures known + {v} + later == known + ({v} + later)
  {
    if v in known {
      assert ({v} + later) - known == later - (known + {v});
    } else {
      assert ({v} + later) - known == {v} + (later - (known + {v}));
    }
  }

  /** A sequence of mints records the values asked for and no others, and uses one number for each new one. */
  lemma {:induction false} MintAllExact(m: Masks, asks: seq<Mask>)
    ensures var m' := MintAll(m, asks);
            && m'.toPlaceholder.Keys == m.toPlaceholder.Keys + Wanted(asks)
            && m'.nextId == m.nextId + |Wanted(asks) - m.toPlaceholder.Keys|
    decreases |asks|
  {
    MintAllStep(m, asks);
    hide *;
    if asks == [] {
      NothingWanted(m.toPlaceholder.Keys);
    } else {
      var m1 := Mint(m, asks[0].cat, asks[0].value);
      MintAdds(m, asks[0].cat, asks[0].value);
      MintAllExact(m1, asks[1..]);
      WantedCons(asks);
      OneMoreNew(m.toPlaceholder.Keys, asks[0].value, Wanted(asks[1..]));
    }
  }

  /** A placeholder, spelled out. */
  lemma PlaceholderSpelled(cat: bytes, n: nat)
    ensures Placeholder(cat, n) == Ascii("<edgeguard-") + cat + Ascii("-") + Decimal.Print(n) + Ascii(">")
  {
    assert Ascii("<edgeguard-") == MASK_PREFIX && Ascii("-") == [DASH] && Ascii(">") == [GT];
  }

  // ---- Buffered unmask ------------------------------------------------------------------------

  function Lookup(orig: map<bytes, bytes>, token: bytes): bytes {
    if token in orig then orig[token] else token
  }

  /** The end of the token that opens at `i`: the first `>` after it, or -1. */
  function Close(text: bytes, i: nat): int
    requires i <= |text|
  {
    FindByte(text, GT, i)
  }

  /**
   Replace each `<edgeguard-…>` token, found left to right, by the value it stands for; an unknown
   token and an unclosed tail stay as they are, and a restored value is not scanned again.
   */
  function Unmasked(orig: map<bytes, bytes>, text: bytes): bytes
    decreases |text|
  {
    var i := Find(text, MASK_PREFIX);
    if i < 0 then text
    else
      var k := Close(text, i);
      if k < 0 then text
      else text[..i] + Lookup(orig, text[i..k + 1]) + Unmasked(orig, text[k + 1..])
  }

  lemma {:induction false} UnmaskedByEmptyMap(text: bytes)
    ensures Unmasked(map[], text) == text
    decreases |text|
  {
    hide Find, FindByte;
    var i := Find(text, MASK_PREFIX);
    if i >= 0 {
      var k := Close(text, i);
      if k >= 0 {
        UnmaskedByEmptyMap(text[k + 1..]);
        assert text[..i] + text[i..k + 1] + text[k + 1..] == text;
      }
    }
  }

  // One step of the scan, for proofs that need no more than that.

  lemma UnmaskedPlain(orig: map<bytes, bytes>, t: bytes)
    requires Find(t, MASK_PREFIX) < 0 || Close(t, Find(t, MASK_PREFIX)) < 0
    ensures Unmasked(orig, t) == t
  {
    hide Find, FindByte;
  }

  lemma UnmaskedToken(orig: map<bytes, bytes>, t: bytes, i: nat, k: nat)
    requires Find(t, MASK_PREFIX) == i <= |t| && Close(t, i) == k
    ensures Unmasked(orig, t) == t[..i] + Lookup(orig, t[i..k + 1]) + Unmasked(orig, t[k + 1..])
  {
    hide Find, FindByte;
  }

  class MaskMap {
    var toPlaceholder: map<bytes, bytes>
    var toOriginal: map<bytes, bytes>
    var nextId: nat

    function Value(): Masks
      reads this
    {
      Masks(toPlaceholder, toOriginal, nextId)
    }

    ghost predicate Valid()
      reads this
    {
      Inverse(Value()) && nextId <= USIZE_SPAN
    }

    constructor ()
      ensures Valid() && Value() == NO_MASKS
    {
      toPlaceholder, toOriginal, nextId := map[], map[], 0;
    }

    method PlaceholderFor(cat: bytes, value: bytes) returns (p: bytes)
      requires Valid() && Category(cat) && nextId < USIZE_SPAN
      modifies this
      ensures Valid() && Value() == Mint(old(Value()), cat, value)
      ensures p in toOriginal && toOriginal[p] == value
      ensures value in old(toPlaceholder) ==> p == old(toPlaceholder)[value]
      ensures value !in old(toPlaceholder) ==> p !in old(toOriginal)
    {
      hide Placeholder, Inverse, Category;
      MintKeepsInverse(Value(), cat, value);
      MintFinds(Value(), cat, value);
      if value in toPlaceholder {
        return toPlaceholder[value];
      }
      NextIsFresh(Value(), cat);
      p := Placeholder(cat, nextId);
      nextId := nextId + 1;
      toPlaceholder := toPlaceholder[value := p];
      toOriginal := toOriginal[p := value];
    }

    method Unmask(text: bytes) returns (out: bytes)
      ensures out == Unmasked(toOriginal, text)
    {
      if toOriginal == map[] || Find(text, MASK_PREFIX) < 0 {
        UnmaskedByEmptyMap(text);
        return text;
      }
      hide Unmasked, Find, FindByte, Lookup;
      out := [];
      var rest := text;
      var start := Find(rest, MASK_PREFIX);
      while start >= 0
        invariant start == Find(rest, MASK_PREFIX)
        invariant Unmasked(toOriginal, text) == out + Unmasked(toOriginal, rest)
        decreases |rest|
      {
        var end := Close(rest, start);
        if end >= 0 {
          UnmaskedToken(toOriginal, rest, start, end);
          ghost var before := out;
          var token := Lookup(toOriginal, rest[start..end + 1]);
          out := out + rest[..start] + token;
          Regroup(before, rest[..start], token, Unmasked(toOriginal, rest[end + 1..]));
          rest := rest[end + 1..];
        } else {
          UnmaskedPlain(toOriginal, rest);
          out := out + rest;
          rest := [];
          UnmaskedPlain(toOriginal, rest);
        }
        start := Find(rest, MASK_PREFIX);
      }
      UnmaskedPlain(toOriginal, rest);
      out := out + rest;
    }
  }
}
