/**
 Span merging and irreversible redaction of `src/dlp.rs`. Merging makes the detectors' overlapping spans
 into separate ones that cover the same bytes; rewriting then replaces each exactly once, and in the
 default style nothing of what was covered can be told from the result.
 */
module Redaction {
  import opened Bytes
  import opened Findings
  import Utf8

  // ---- Merging ----------------------------------------------------------------------------------

  predicate Before(a: Finding, b: Finding) {
    a.start < b.start || (a.start == b.start && a.end <= b.end)
  }

  predicate Ordered(fs: seq<Finding>) {
    forall i, j :: 0 <= i < j < |fs| ==> Before(fs[i], fs[j])
  }

  /** Put `f` behind everything it does not come before. */
  function Insert(fs: seq<Finding>, f: Finding): seq<Finding> {
    if fs == [] || Before(fs[|fs| - 1], f) then fs + [f]
    else Insert(fs[..|fs| - 1], f) + [fs[|fs| - 1]]
  }

  lemma {:induction false} InsertMembers(fs: seq<Finding>, f: Finding)
    ensures forall x :: x in Insert(fs, f) <==> x in fs || x == f
  {
    if fs != [] && !Before(fs[|fs| - 1], f) {
      var front := fs[..|fs| - 1];
      InsertMembers(front, f);
      assert fs == front + [fs[|fs| - 1]];
    }
  }

  lemma {:induction false} InsertOrdered(fs: seq<Finding>, f: Finding)
    requires Ordered(fs)
    ensures Ordered(Insert(fs, f))
  {
    if fs != [] && !Before(fs[|fs| - 1], f) {
      var n := |fs| - 1;
      InsertOrdered(fs[..n], f);
      InsertMembers(fs[..n], f);
      OrderedAppend(Insert(fs[..n], f), fs[n]);
    } else if fs != [] {
      OrderedAppend(fs, f);
    }
  }

  lemma OrderedAppend(fs: seq<Finding>, f: Finding)
    requires Ordered(fs) && forall x :: x in fs ==> Before(x, f)
    ensures Ordered(fs + [f])
  {}

  /** `sort_by_key` on `(start, end)`, which is stable. */
  function Sort(fs: seq<Finding>): seq<Finding> {
    if fs == [] then [] else Insert(Sort(fs[..|fs| - 1]), fs[|fs| - 1])
  }

  lemma {:induction false} SortCorrect(fs: seq<Finding>)
    ensures Ordered(Sort(fs))
    ensures forall x :: x in Sort(fs) <==> x in fs
  {
    if fs != [] {
      var n := |fs| - 1;
      SortCorrect(fs[..n]);
      InsertOrdered(Sort(fs[..n]), fs[n]);
      InsertMembers(Sort(fs[..n]), fs[n]);
      assert fs == fs[..n] + [fs[n]];
    }
  }

  predicate Inside(f: Finding, m: Finding) {
    m.start <= f.start && f.end <= m.end
  }

  ghost predicate Covered(fs: seq<Finding>, p: int) {
    exists k :: 0 <= k < |fs| && fs[k].start <= p < fs[k].end
  }

  /** No two spans overlap or touch, and they are in order. */
  predicate Separated(ms: seq<Finding>) {
    Spans(ms) && forall a, b :: 0 <= a < b < |ms| ==> ms[a].end < ms[b].start
  }

  /** Some span holds `f` and is at least as confident. */
  ghost predicate Held(f: Finding, ms: seq<Finding>) {
    exists m :: m in ms && Inside(f, m) && f.score <= m.score
  }

  /** `m` has the category and the confidence of one of the findings it holds. */
  ghost predicate Named(m: Finding, fs: seq<Finding>) {
    exists f :: f in fs && Inside(f, m) && f.category == m.category && f.score == m.score
  }

  /** What merging promises about `ms` for the findings `fs`. */
  ghost predicate MergeOf(fs: seq<Finding>, ms: seq<Finding>) {
    && Separated(ms)
    && (forall f :: f in fs ==> Held(f, ms))
    && (forall m :: m in ms ==> Named(m, fs))
    && (forall p :: Covered(ms, p) ==> Covered(fs, p))
  }

  /** Take in one more finding, in order. */
  function Absorb(ms: seq<Finding>, f: Finding): seq<Finding> {
    if ms != [] && f.start <= ms[|ms| - 1].end then
      var last := ms[|ms| - 1];
      var wider := if f.end > last.end then last.(end := f.end) else last;
      var stronger := if f.score > last.score then wider.(category := f.category, score := f.score) else wider;
      ms[..|ms| - 1] + [stronger]
    else ms + [f]
  }

  function AbsorbAll(ms: seq<Finding>, fs: seq<Finding>): seq<Finding>
    decreases |fs|
  {
    if fs == [] then ms else AbsorbAll(Absorb(ms, fs[0]), fs[1..])
  }

  function Merged(fs: seq<Finding>): seq<Finding> {
    AbsorbAll([], Sort(fs))
  }

  lemma CoveredSplit(a: seq<Finding>, b: seq<Finding>, p: int)
    ensures Covered(a + b, p) <==> Covered(a, p) || Covered(b, p)
  {
    if Covered(a, p) {
      var k :| 0 <= k < |a| && a[k].start <= p < a[k].end;
      assert (a + b)[k] == a[k];
    }
    if Covered(b, p) {
      var k :| 0 <= k < |b| && b[k].start <= p < b[k].end;
      assert (a + b)[|a| + k] == b[k];
    }
  }

  lemma CoveredOne(f: Finding, p: int)
    ensures Covered([f], p) <==> f.start <= p < f.end
  {
    assert [f][0] == f;
  }

  lemma NamedMono(m: Finding, fs: seq<Finding>, f: Finding)
    requires Named(m, fs)
    ensures Named(m, fs + [f])
  {
    var g :| g in fs && Inside(g, m) && g.category == m.category && g.score == m.score;
    assert g in fs + [f];
  }

  /** Absorbing a finding that does not start before the last span keeps the promise. */
  lemma AbsorbKeeps(fs: seq<Finding>, ms: seq<Finding>, f: Finding)
    requires MergeOf(fs, ms) && f.start <= f.end
    requires ms != [] ==> ms[|ms| - 1].start <= f.start
    ensures MergeOf(fs + [f], Absorb(ms, f))
    ensures Absorb(ms, f)[|Absorb(ms, f)| - 1].start <= f.start
  {
    if ms != [] && f.start <= ms[|ms| - 1].end {
      AbsorbJoins(fs, ms, f);
    } else {
      AbsorbAppends(fs, ms, f);
    }
  }

  lemma AllHeld(fs: seq<Finding>, ms: seq<Finding>, f: Finding)
    requires forall g :: g in fs ==> Held(g, ms)
    ensures forall g :: g in fs + [f] ==> Held(g, ms + [f])
  {
    hide Held;
    forall g | g in fs + [f] ensures Held(g, ms + [f]) {
      if g in fs {
        StillHeld(ms, f, g);
      } else {
        JustHeld(ms, f, f);
      }
    }
  }

  lemma AllNamed(fs: seq<Finding>, ms: seq<Finding>, f: Finding)
    requires forall m :: m in ms ==> Named(m, fs)
    ensures forall m :: m in ms + [f] ==> Named(m, fs + [f])
  {
    hide Named;
    forall m | m in ms + [f] ensures Named(m, fs + [f]) {
      if m in ms {
        NamedMono(m, fs, f);
      } else {
        JustNamed(fs, f);
      }
    }
  }

  lemma AbsorbAppends(fs: seq<Finding>, ms: seq<Finding>, f: Finding)
    requires MergeOf(fs, ms) && f.start <= f.end
    requires ms != [] ==> ms[|ms| - 1].end < f.start
    ensures MergeOf(fs + [f], ms + [f])
  {
    SeparatedAppend(ms, f);
    hide Held, Named, Covered, Separated;
    AllHeld(fs, ms, f);
    AllNamed(fs, ms, f);
    forall p | Covered(ms + [f], p) ensures Covered(fs + [f], p) {
      CoveredSplit(ms, [f], p);
      CoveredSplit(fs, [f], p);
    }
  }

  lemma SeparatedAppend(ms: seq<Finding>, f: Finding)
    requires Separated(ms) && f.start <= f.end
    requires ms != [] ==> ms[|ms| - 1].end < f.start
    ensures Separated(ms + [f])
  {
    forall a | 0 <= a < |ms| ensures ms[a].end < f.start {
      assert a < |ms| - 1 ==> ms[a].end < ms[|ms| - 1].start;
    }
  }

  lemma StillHeld(ms: seq<Finding>, f: Finding, g: Finding)
    requires Held(g, ms)
    ensures Held(g, ms + [f])
  {
    var m :| m in ms && Inside(g, m) && g.score <= m.score;
    assert m in ms + [f];
  }

  lemma JustNamed(fs: seq<Finding>, f: Finding)
    ensures Named(f, fs + [f])
  {
    assert f in fs + [f];
  }

  lemma AbsorbJoins(fs: seq<Finding>, ms: seq<Finding>, f: Finding)
    requires MergeOf(fs, ms) && f.start <= f.end && ms != []
    requires ms[|ms| - 1].start <= f.start <= ms[|ms| - 1].end
    ensures MergeOf(fs + [f], Absorb(ms, f))
  {
    var n := |ms| - 1;
    var front, last := ms[..n], ms[n];
    var joined := Absorb(ms, f)[n];
    assert ms == front + [last] && Absorb(ms, f) == front + [joined];
    JoinedSeparated(front, last, joined);
    JoinedHolds(fs, front, last, f, joined);
    JoinedNames(fs, front, last, f, joined);
    JoinedCovers(fs, front, last, f, joined);
  }

  /** `joined` reaches from `last` to the end of `f`, and is named after the more confident of the two. */
  predicate Joins(last: Finding, f: Finding, joined: Finding) {
    && joined.start == last.start
    && joined.end == (if f.end > last.end then f.end else last.end)
    && (if f.score > last.score then joined.category == f.category && joined.score == f.score
        else joined.category == last.category && joined.score == last.score)
  }

  lemma JoinedSeparated(front: seq<Finding>, last: Finding, joined: Finding)
    requires Separated(front + [last]) && joined.start == last.start && last.end <= joined.end
    ensures Separated(front + [joined])
  {
    var ms, ns := front + [last], front + [joined];
    assert ms[|front|] == last;
    forall a, b | 0 <= a < b < |ns| ensures ns[a].end < ns[b].start {
      assert ms[a].end < ms[b].start;
    }
    forall i | 0 <= i < |ns| ensures ns[i].start <= ns[i].end {
      assert ms[i].start <= ms[i].end;
    }
  }

  lemma JoinedHolds(fs: seq<Finding>, front: seq<Finding>, last: Finding, f: Finding, joined: Finding)
    requires forall g :: g in fs ==> Held(g, front + [last])
    requires Joins(last, f, joined) && last.start <= f.start
    ensures forall g :: g in fs + [f] ==> Held(g, front + [joined])
  {
    hide Held;
    forall g | g in fs + [f] ensures Held(g, front + [joined]) {
      if g in fs {
        JoinedHeld(front, last, joined, g);
      } else {
        JustHeld(front, joined, f);
      }
    }
  }

  lemma JoinedNames(fs: seq<Finding>, front: seq<Finding>, last: Finding, f: Finding, joined: Finding)
    requires forall m :: m in front + [last] ==> Named(m, fs)
    requires Joins(last, f, joined) && last.start <= f.start
    ensures forall m :: m in front + [joined] ==> Named(m, fs + [f])
  {
    hide Named;
    forall m | m in front + [joined] ensures Named(m, fs + [f]) {
      if m in front {
        assert m in front + [last];
        NamedMono(m, fs, f);
      } else {
        assert last in front + [last];
        JoinedNamed(fs, last, f, joined);
      }
    }
  }

  lemma JoinedCovers(fs: seq<Finding>, front: seq<Finding>, last: Finding, f: Finding, joined: Finding)
    requires forall p :: Covered(front + [last], p) ==> Covered(fs, p)
    requires Joins(last, f, joined) && last.start <= f.start <= last.end
    ensures forall p :: Covered(front + [joined], p) ==> Covered(fs + [f], p)
  {
    hide Covered;
    forall p | Covered(front + [joined], p) ensures Covered(fs + [f], p) {
      CoveredSplit(front, [joined], p);
      CoveredSplit(front, [last], p);
      CoveredOne(joined, p);
      CoveredOne(last, p);
      CoveredOne(f, p);
      CoveredSplit(fs, [f], p);
    }
  }

  lemma JustHeld(front: seq<Finding>, joined: Finding, f: Finding)
    requires Inside(f, joined) && f.score <= joined.score
    ensures Held(f, front + [joined])
  {
    assert joined in front + [joined];
  }

  lemma JoinedHeld(front: seq<Finding>, last: Finding, joined: Finding, g: Finding)
    requires Held(g, front + [last]) && Inside(last, joined) && last.score <= joined.score
    ensures Held(g, front + [joined])
  {
    var m :| m in front + [last] && Inside(g, m) && g.score <= m.score;
    if m in front {
      assert m in front + [joined];
    } else {
      assert joined in front + [joined];
    }
  }

  lemma JoinedNamed(fs: seq<Finding>, last: Finding, f: Finding, joined: Finding)
    requires Named(last, fs) && Inside(last, joined) && Inside(f, joined)
    requires if f.score > last.score then joined.category == f.category && joined.score == f.score
             else joined.category == last.category && joined.score == last.score
    ensures Named(joined, fs + [f])
  {
    if f.score > last.score {
      assert f in fs + [f];
    } else {
      var g :| g in fs && Inside(g, last) && g.category == last.category && g.score == last.score;
      assert g in fs + [f];
    }
  }

  /** Absorbing findings in order keeps the promise to the end. */
  lemma {:induction false} AbsorbAllKeeps(done: seq<Finding>, ms: seq<Finding>, fs: seq<Finding>)
    requires MergeOf(done, ms) && Spans(fs) && Ordered(fs)
    requires ms != [] && fs != [] ==> ms[|ms| - 1].start <= fs[0].start
    ensures MergeOf(done + fs, AbsorbAll(ms, fs))
    decreases |fs|
  {
    hide MergeOf;
    if fs == [] {
      assert done + fs == done;
    } else {
      AbsorbKeeps(done, ms, fs[0]);
      assert fs[1..] != [] ==> Before(fs[0], fs[1]);
      AbsorbAllKeeps(done + [fs[0]], Absorb(ms, fs[0]), fs[1..]);
      assert done + [fs[0]] + fs[1..] == done + fs;
    }
  }

  lemma SameFindings(fs: seq<Finding>, gs: seq<Finding>, ms: seq<Finding>)
    requires (forall x :: x in fs <==> x in gs) && MergeOf(fs, ms)
    ensures MergeOf(gs, ms)
  {
    forall p | Covered(ms, p) ensures Covered(gs, p) {
      var k :| 0 <= k < |fs| && fs[k].start <= p < fs[k].end;
      assert fs[k] in gs;
    }
  }

  lemma MergedCorrect(fs: seq<Finding>)
    requires Spans(fs)
    ensures MergeOf(fs, Merged(fs))
  {
    hide MergeOf, Sort;
    var s := Sort(fs);
    SortCorrect(fs);
    forall i | 0 <= i < |s| ensures s[i].start <= s[i].end {
      assert s[i] in fs;
    }
    NothingMerged();
    AbsorbAllKeeps([], [], s);
    assert [] + s == s;
    SameFindings(s, fs, Merged(fs));
  }

  lemma NothingMerged()
    ensures MergeOf([], [])
  {}

  /** `merge_findings`: separate spans over the same bytes, each named after a most confident finding in it. */
  method MergeFindings(findings: seq<Finding>) returns (merged: seq<Finding>)
    requires Spans(findings)
    ensures merged == Merged(findings)
    ensures Separated(merged)
    ensures forall p :: Covered(merged, p) <==> Covered(findings, p)
    ensures forall m :: m in merged ==> Named(m, findings)
    ensures forall m, f :: m in merged && f in findings && Inside(f, m) ==> f.score <= m.score
  {
    hide Sort, Insert, MergeOf;
    var sorted := Sort(findings);
    merged := [];
    assert sorted[0..] == sorted;
    for i := 0 to |sorted|
      invariant AbsorbAll(merged, sorted[i..]) == Merged(findings)
    {
      var f := sorted[i];
      assert sorted[i..][0] == f && sorted[i..][1..] == sorted[i + 1..];
      var n := |merged|;
      if n > 0 && f.start <= merged[n - 1].end {
        var last := merged[n - 1];
        if f.end > last.end {
          last := last.(end := f.end);
        }
        if f.score > last.score {
          last := last.(category := f.category, score := f.score);
        }
        assert merged[n - 1 := last] == merged[..n - 1] + [last];
        merged := merged[n - 1 := last];
      } else {
        merged := merged + [f];
      }
    }
    MergedCorrect(findings);
    MergeMeans(findings, merged);
  }

  /** The promise in the words of a caller. */
  lemma MergeMeans(fs: seq<Finding>, ms: seq<Finding>)
    requires MergeOf(fs, ms) && Spans(fs)
    ensures Separated(ms)
    ensures forall p :: Covered(ms, p) <==> Covered(fs, p)
    ensures forall m :: m in ms ==> Named(m, fs)
    ensures forall m, f :: m in ms && f in fs && Inside(f, m) ==> f.score <= m.score
  {
    hide Named, Held, Covered, Inside, Separated;
    CoversSame(fs, ms);
    TopScore(fs, ms);
  }

  lemma CoversSame(fs: seq<Finding>, ms: seq<Finding>)
    requires MergeOf(fs, ms)
    ensures forall p :: Covered(ms, p) <==> Covered(fs, p)
  {
    forall p | Covered(fs, p) ensures Covered(ms, p) {
      var k :| 0 <= k < |fs| && fs[k].start <= p < fs[k].end;
      assert Held(fs[k], ms);
      var m :| m in ms && Inside(fs[k], m) && fs[k].score <= m.score;
      var j :| 0 <= j < |ms| && ms[j] == m;
    }
  }

  lemma TopScore(fs: seq<Finding>, ms: seq<Finding>)
    requires MergeOf(fs, ms) && Spans(fs)
    ensures forall m, f :: m in ms && f in fs && Inside(f, m) ==> f.score <= m.score
  {
    hide Named, Covered, Inside;
    forall m, f | m in ms && f in fs && Inside(f, m) ensures f.score <= m.score {
      assert Held(f, ms);
      assert f.start <= f.end;
      OneHolder(f, m, ms);
    }
  }

  /** Separate spans cannot both hold a finding. */
  lemma OneHolder(f: Finding, m: Finding, ms: seq<Finding>)
    requires Separated(ms) && m in ms && Inside(f, m) && f.start <= f.end && Held(f, ms)
    ensures f.score <= m.score
  {
    var h :| h in ms && Inside(f, h) && f.score <= h.score;
    var i :| 0 <= i < |ms| && ms[i] == m;
    var j :| 0 <= j < |ms| && ms[j] == h;
    assert i == j;
  }

  // ---- Rewriting --------------------------------------------------------------------------------

  datatype Style = Full | Mask | Hash

  function FirstLen(s: bytes): (n: nat)
    requires s != []
    ensures 1 <= n <= |s|
  {
    if Utf8.CharLen(s) > 0 then Utf8.CharLen(s) else 1
  }

  /** The characters of `s`, each as its bytes. */
  function Chars(s: bytes): seq<bytes> {
    if s == [] then [] else [s[..FirstLen(s)]] + Chars(s[FirstLen(s)..])
  }

  function Stars(n: nat): bytes {
    seq(n, _ => 42)
  }

  /** Keep the last four characters; keep nothing of four or fewer. */
  function MaskKeepLast4(matched: bytes): bytes {
    var cs := Chars(matched);
    if |cs| <= 4 then Stars(|cs|) else Stars(|cs| - 4) + Flatten(cs[|cs| - 4..])
  }

  lemma CharsStep(s: bytes)
    requires s != []
    ensures Chars(s) == [s[..FirstLen(s)]] + Chars(s[FirstLen(s)..])
  {
    hide FirstLen;
  }

  lemma {:induction false} FlattenChars(s: bytes)
    ensures Flatten(Chars(s)) == s
    decreases |s|
  {
    if s != [] {
      CharsStep(s);
      hide Chars, Flatten, FirstLen;
      var n := FirstLen(s);
      FlattenChars(s[n..]);
      FlattenCons(s[..n], Chars(s[n..]));
      assert s[..n] + s[n..] == s;
    }
  }

  lemma {:induction false} CharsTail(s: bytes, k: nat)
    requires k <= |Chars(s)|
    ensures Chars(Flatten(Chars(s)[k..])) == Chars(s)[k..]
    decreases |s|
  {
    if k == 0 {
      hide Chars, Flatten;
      FlattenChars(s);
      assert Chars(s)[0..] == Chars(s);
    } else {
      CharsStep(s);
      hide Chars, Flatten, FirstLen;
      var n := FirstLen(s);
      CharsTail(s[n..], k - 1);
      assert Chars(s)[k..] == Chars(s[n..])[k - 1..];
    }
  }

  function StarChars(n: nat): (r: seq<bytes>)
    ensures |r| == n && forall i :: 0 <= i < n ==> r[i] == [42]
  {
    seq(n, _ => [42])
  }

  lemma CharsStar(z: bytes)
    ensures Chars([42] + z) == [[42]] + Chars(z)
  {
    var t := [42] + z;
    assert FirstLen(t) == 1 && t[..1] == [42] && t[1..] == z;
    CharsStep(t);
    hide Chars, FirstLen;
  }

  lemma {:induction false} CharsAfterStars(n: nat, y: bytes)
    ensures Chars(Stars(n) + y) == StarChars(n) + Chars(y)
    decreases n
  {
    hide Chars;
    if n == 0 {
      assert Stars(n) + y == y;
    } else {
      CharsAfterStars(n - 1, y);
      CharsStar(Stars(n - 1) + y);
      assert [42] + (Stars(n - 1) + y) == Stars(n) + y;
      assert [[42]] + StarChars(n - 1) == StarChars(n);
    }
  }

  /** As many characters as before: the last four of five or more as they were, and stars for the others. */
  lemma MaskShowsLast4(matched: bytes)
    ensures var cs, out := Chars(matched), Chars(MaskKeepLast4(matched));
            && |out| == |cs|
            && forall i :: 0 <= i < |cs| ==> out[i] == if |cs| > 4 && i >= |cs| - 4 then cs[i] else [42]
  {
    hide *;
    var cs := Chars(matched);
    MaskedChars(matched, cs);
  }

  lemma NoChars()
    ensures Chars([]) == []
  {
  }

  lemma MaskedChars(matched: bytes, cs: seq<bytes>)
    requires cs == Chars(matched)
    ensures Chars(MaskKeepLast4(matched)) == if |cs| <= 4 then StarChars(|cs|) else StarChars(|cs| - 4) + cs[|cs| - 4..]
  {
    hide Chars, Stars, StarChars, Flatten;
    NoChars();
    if |cs| <= 4 {
      CharsAfterStars(|cs|, []);
      assert Stars(|cs|) + [] == Stars(|cs|);
      assert StarChars(|cs|) + [] == StarChars(|cs|);
    } else {
      CharsTail(matched, |cs| - 4);
      CharsAfterStars(|cs| - 4, Flatten(cs[|cs| - 4..]));
    }
  }

  /** `render_redaction`; `token` is the process-keyed hash. */
  function Render(style: Style, token: bytes -> bytes, matched: bytes, category: bytes): bytes {
    match style
    case Full => Ascii("[REDACTED:") + category + Ascii("]")
    case Mask => MaskKeepLast4(matched)
    case Hash => Ascii("[REDACTED:") + category + Ascii(":") + token(matched) + Ascii("]")
  }

  function Rewritten(style: Style, token: bytes -> bytes, text: bytes, fs: seq<Finding>, cursor: nat): bytes
    requires Spans(fs) && cursor <= |text|
    decreases |fs|
  {
    if fs == [] then text[cursor..]
    else
      var f := fs[0];
      if f.start < cursor || f.end > |text| then Rewritten(style, token, text, fs[1..], cursor)
      else
        text[cursor..f.start]
        + Render(style, token, text[f.start..f.end], f.category)
        + Rewritten(style, token, text, fs[1..], f.end)
  }

  method Redact(style: Style, token: bytes -> bytes, text: bytes, findings: seq<Finding>) returns (out: bytes)
    requires Spans(findings)
    ensures out == Rewritten(style, token, text, findings, 0)
  {
    if findings == [] {
      return text;
    }
    out := [];
    var cursor := 0;
    assert findings[0..] == findings;
    for i := 0 to |findings|
      invariant 0 <= cursor <= |text|
      invariant Rewritten(style, token, text, findings, 0)
                == out + Rewritten(style, token, text, findings[i..], cursor)
    {
      var f := findings[i];
      assert findings[i..][0] == f && findings[i..][1..] == findings[i + 1..];
      if f.start < cursor || f.end > |text| {
        continue;
      }
      var piece := Render(style, token, text[f.start..f.end], f.category);
      Regroup(out, text[cursor..f.start], piece, Rewritten(style, token, text, findings[i + 1..], f.end));
      out := out + text[cursor..f.start] + piece;
      cursor := f.end;
    }
    out := out + text[cursor..];
  }

  /** What is put in place of a value, in each style. */
  ghost predicate Conceals(style: Style, token: bytes -> bytes, piece: bytes, value: bytes, category: bytes) {
    match style
    case Full => piece == Ascii("[REDACTED:") + category + Ascii("]")
    case Hash => piece == Ascii("[REDACTED:") + category + Ascii(":") + token(value) + Ascii("]")
    case Mask =>
      var cs, out := Chars(value), Chars(piece);
      && |out| == |cs|
      && forall i :: 0 <= i < |cs| ==> out[i] == if |cs| > 4 && i >= |cs| - 4 then cs[i] else [42]
  }

  lemma RenderConceals(style: Style, token: bytes -> bytes, value: bytes, category: bytes)
    ensures Conceals(style, token, Render(style, token, value, category), value, category)
  {
    MaskShowsLast4(value);
    hide Chars, MaskKeepLast4, Ascii;
  }

  function Rendered(style: Style, token: bytes -> bytes, text: bytes, taken: seq<Finding>): (pieces: seq<bytes>)
    requires InOrder(taken, 0, |text|)
    ensures |pieces| == |taken|
  {
    seq(|taken|, j requires 0 <= j < |taken| => Render(style, token, text[taken[j].start..taken[j].end], taken[j].category))
  }

  lemma FirstRendered(style: Style, token: bytes -> bytes, text: bytes, taken: seq<Finding>)
    requires taken != [] && InOrder(taken, 0, |text|) && InOrder(taken[1..], 0, |text|)
    ensures Rendered(style, token, text, taken)
            == [Render(style, token, text[taken[0].start..taken[0].end], taken[0].category)] + Rendered(style, token, text, taken[1..])
  {
    hide Render;
    assert forall i :: 0 <= i < |taken[1..]| ==> taken[1..][i] == taken[i + 1];
  }

  lemma {:induction false} RewrittenLayout(
    style: Style, token: bytes -> bytes, text: bytes, fs: seq<Finding>, from: nat, cursor: nat)
    requires Spans(fs) && from <= |fs| && cursor <= |text|
    ensures var taken := Taken(|text|, fs, from, cursor);
            Rewritten(style, token, text, fs[from..], cursor) == Woven(Parts(text, taken, cursor), Rendered(style, token, text, taken))
    decreases |fs| - from
  {
    hide Taken, Parts, Woven, Render, Rendered;
    TakenStep(|text|, fs, from, cursor);
    var taken := Taken(|text|, fs, from, cursor);
    PartsStep(text, taken, cursor);
    if from == |fs| {
      assert fs[from..] == [];
      WovenOne(text[cursor..]);
    } else {
      var f := fs[from];
      assert fs[from..][0] == f && fs[from..][1..] == fs[from + 1..];
      if f.start < cursor || f.end > |text| {
        RewrittenLayout(style, token, text, fs, from + 1, cursor);
      } else {
        var later := Taken(|text|, fs, from + 1, f.end);
        RewrittenLayout(style, token, text, fs, from + 1, f.end);
        assert taken[1..] == later;
        FirstRendered(style, token, text, taken);
        WovenCons(text[cursor..f.start], Parts(text, later, f.end),
                  Render(style, token, text[f.start..f.end], f.category), Rendered(style, token, text, later));
      }
    }
  }

  /**
   Redaction replaces: the output is the parts of the text outside the findings that are in order and in bounds,
   unchanged, with between them, where the values were, what the style puts there.
   */
  lemma RedactReplaces(style: Style, token: bytes -> bytes, text: bytes, fs: seq<Finding>) returns (pieces: seq<bytes>)
    requires Spans(fs)
    ensures var taken := Taken(|text|, fs, 0, 0);
            && |pieces| == |taken| && text == Woven(Parts(text, taken, 0), Values(text, taken))
            && Rewritten(style, token, text, fs, 0) == Woven(Parts(text, taken, 0), pieces)
            && forall j :: 0 <= j < |taken| ==> Conceals(style, token, pieces[j], Values(text, taken)[j], taken[j].category)
  {
    hide Taken, Parts, Woven, Render, Rewritten, Conceals;
    var taken := Taken(|text|, fs, 0, 0);
    assert fs[0..] == fs && text[0..] == text;
    RewrittenLayout(style, token, text, fs, 0, 0);
    TextIsWoven(text, taken, 0);
    pieces := Rendered(style, token, text, taken);
    forall j | 0 <= j < |taken| ensures Conceals(style, token, pieces[j], Values(text, taken)[j], taken[j].category) {
      RenderConceals(style, token, text[taken[j].start..taken[j].end], taken[j].category);
    }
  }

  /** Merged findings are replaced one by one: none is skipped as out of order or out of bounds. */
  function Replaced(style: Style, token: bytes -> bytes, text: bytes, fs: seq<Finding>, cursor: nat): bytes
    requires InOrder(fs, cursor, |text|) && cursor <= |text|
    decreases |fs|
  {
    if fs == [] then text[cursor..]
    else
      var f := fs[0];
      text[cursor..f.start]
      + Render(style, token, text[f.start..f.end], f.category)
      + Replaced(style, token, text, fs[1..], f.end)
  }

  lemma {:induction false} NothingSkipped(style: Style, token: bytes -> bytes, text: bytes, fs: seq<Finding>, cursor: nat)
    requires InOrder(fs, cursor, |text|) && cursor <= |text|
    ensures Rewritten(style, token, text, fs, cursor) == Replaced(style, token, text, fs, cursor)
    decreases |fs|
  {
    hide Render;
    if fs != [] {
      assert InOrder(fs[1..], fs[0].end, |text|);
      NothingSkipped(style, token, text, fs[1..], fs[0].end);
    }
  }

  lemma MergedInOrder(fs: seq<Finding>, len: nat)
    requires Spans(fs) && forall i :: 0 <= i < |fs| ==> fs[i].end <= len
    ensures InOrder(Merged(fs), 0, len)
  {
    hide Merged, Held, Named, Covered;
    MergedCorrect(fs);
    var ms := Merged(fs);
    forall i | 0 <= i < |ms| ensures ms[i].end <= len {
      MergedEnds(fs, ms, i);
    }
  }

  /** A merged span ends no later than some finding does. */
  lemma MergedEnds(fs: seq<Finding>, ms: seq<Finding>, i: nat)
    requires MergeOf(fs, ms) && Spans(fs) && i < |ms|
    ensures exists k :: 0 <= k < |fs| && ms[i].end <= fs[k].end
  {
    hide Held;
    if ms[i].start < ms[i].end {
      var p := ms[i].end - 1;
      assert Covered(ms, p);
      var k :| 0 <= k < |fs| && fs[k].start <= p < fs[k].end;
    } else {
      assert ms[i] in ms;
      EmptySpanEnds(ms[i], fs);
    }
  }

  lemma EmptySpanEnds(m: Finding, fs: seq<Finding>)
    requires Named(m, fs) && Spans(fs) && m.end == m.start
    ensures exists k :: 0 <= k < |fs| && m.end <= fs[k].end
  {
    var f :| f in fs && Inside(f, m) && f.category == m.category && f.score == m.score;
    var k :| 0 <= k < |fs| && fs[k] == f;
    assert m.end <= fs[k].end;
  }

  /** The two texts differ at most inside the findings. */
  ghost predicate AgreeOutside(a: bytes, b: bytes, fs: seq<Finding>) {
    |a| == |b| && forall p :: 0 <= p < |a| && !Covered(fs, p) ==> a[p] == b[p]
  }

  /** In the default style the result depends on nothing inside the spans. */
  lemma {:induction false} FullHides(token: bytes -> bytes, a: bytes, b: bytes, all: seq<Finding>, fs: seq<Finding>, cursor: nat)
    requires InOrder(fs, cursor, |a|) && cursor <= |a| && AgreeOutside(a, b, all)
    requires forall p :: cursor <= p && Covered(all, p) ==> Covered(fs, p)
    ensures Rewritten(Full, token, a, fs, cursor) == Rewritten(Full, token, b, fs, cursor)
    decreases |fs|
  {
    if fs == [] {
      assert a[cursor..] == b[cursor..];
    } else {
      var f := fs[0];
      assert fs == [f] + fs[1..];
      forall p | cursor <= p < f.start ensures a[p] == b[p] {
        assert !Covered(fs, p);
      }
      assert a[cursor..f.start] == b[cursor..f.start];
      forall p | f.end <= p && Covered(all, p) ensures Covered(fs[1..], p) {
        CoveredSplit([f], fs[1..], p);
        CoveredOne(f, p);
      }
      assert InOrder(fs[1..], f.end, |a|);
      FullHides(token, a, b, all, fs[1..], f.end);
    }
  }

  /**
   End to end: two texts that differ only where the detectors found something are redacted to the same
   bytes, with every merged span replaced.
   */
  lemma RedactionHides(token: bytes -> bytes, a: bytes, b: bytes, fs: seq<Finding>)
    requires Spans(fs) && AgreeOutside(a, b, fs)
    requires forall i :: 0 <= i < |fs| ==> fs[i].end <= |a|
    ensures InOrder(Merged(fs), 0, |a|)
    ensures Taken(|a|, Merged(fs), 0, 0) == Merged(fs)
    ensures Rewritten(Full, token, a, Merged(fs), 0) == Replaced(Full, token, a, Merged(fs), 0)
    ensures Rewritten(Full, token, a, Merged(fs), 0) == Rewritten(Full, token, b, Merged(fs), 0)
  {
    hide Merged, Rewritten, MergeOf;
    MergedInOrder(fs, |a|);
    MergedCorrect(fs);
    CoversSame(fs, Merged(fs));
    NothingSkipped(Full, token, a, Merged(fs), 0);
    assert Merged(fs)[0..] == Merged(fs);
    AllTaken(|a|, Merged(fs), 0, 0);
    FullHides(token, a, b, fs, Merged(fs), 0);
  }
}
