/**
 Detected spans of a text, and what it means to replace them: which findings are replaced is said by a rule
 on the whole list, and the result is laid out as the parts between them with something in each gap.
 */
module Findings {
  import opened Bytes

  /** A detected span `[start, end)` with its category and the detector's confidence. */
  datatype Finding = Finding(category: bytes, start: nat, end: nat, score: real)

  predicate Spans(fs: seq<Finding>) {
    forall i :: 0 <= i < |fs| ==> fs[i].start <= fs[i].end
  }

  /** Every span starts at or after `cursor`, in order, and ends inside the text. */
  predicate InOrder(fs: seq<Finding>, cursor: nat, len: nat) {
    && Spans(fs)
    && (forall i :: 0 <= i < |fs| ==> cursor <= fs[i].start && fs[i].end <= len)
    && (forall i, j :: 0 <= i < j < |fs| ==> fs[i].end <= fs[j].start)
  }

  // ---- Which findings are replaced --------------------------------------------------------------

  /** Finding `k` starts inside one that was picked before it. */
  ghost predicate Overlapped(fs: seq<Finding>, picks: seq<nat>, k: nat)
    requires k < |fs|
  {
    exists j :: 0 <= j < |picks| && picks[j] < k && picks[j] < |fs| && fs[k].start < fs[picks[j]].end
  }

  /**
   The findings from `from` on that are replaced, `cursor` bytes being done: those picked are in the text and
   in order, and one is passed over only if it ends outside the text or starts inside what is done already.
   */
  ghost predicate Picked(len: nat, fs: seq<Finding>, from: nat, cursor: nat, picks: seq<nat>) {
    && (forall j :: 0 <= j < |picks| ==> from <= picks[j] < |fs| && cursor <= fs[picks[j]].start && fs[picks[j]].end <= len)
    && (forall i, j :: 0 <= i < j < |picks| ==> picks[i] < picks[j] && fs[picks[i]].end <= fs[picks[j]].start)
    && (forall k :: from <= k < |fs| && k !in picks ==> fs[k].end > len || fs[k].start < cursor || Overlapped(fs, picks, k))
  }

  /** The same, finding by finding. */
  function Picks(len: nat, fs: seq<Finding>, from: nat, cursor: nat): seq<nat>
    requires from <= |fs|
    decreases |fs| - from
  {
    if from == |fs| then []
    else if fs[from].start < cursor || fs[from].end > len then Picks(len, fs, from + 1, cursor)
    else [from] + Picks(len, fs, from + 1, fs[from].end)
  }

  lemma PickFirst(len: nat, fs: seq<Finding>, from: nat, cursor: nat, later: seq<nat>)
    requires from < |fs| && Spans(fs) && cursor <= fs[from].start && fs[from].end <= len
    requires Picked(len, fs, from + 1, fs[from].end, later)
    ensures Picked(len, fs, from, cursor, [from] + later)
  {
    var picks := [from] + later;
    assert forall j :: 0 < j < |picks| ==> picks[j] == later[j - 1];
    assert picks[0] == from && forall k :: k in picks <==> k == from || k in later;
    hide Overlapped;
    forall k | from <= k < |fs| && k !in picks
      ensures fs[k].end > len || fs[k].start < cursor || Overlapped(fs, picks, k)
    {
      if fs[k].end <= len {
        PassedOver(fs, from, later, k);
      }
    }
  }

  lemma PassedOver(fs: seq<Finding>, from: nat, later: seq<nat>, k: nat)
    requires from < k < |fs| && (fs[k].start < fs[from].end || Overlapped(fs, later, k))
    ensures Overlapped(fs, [from] + later, k)
  {
    var picks := [from] + later;
    if fs[k].start < fs[from].end {
      assert picks[0] == from;
    } else {
      var j :| 0 <= j < |later| && later[j] < k && later[j] < |fs| && fs[k].start < fs[later[j]].end;
      assert picks[j + 1] == later[j];
    }
  }

  lemma PickRest(len: nat, fs: seq<Finding>, from: nat, cursor: nat, picks: seq<nat>)
    requires from < |fs| && Spans(fs) && cursor <= fs[from].start && fs[from].end <= len
    requires Picked(len, fs, from, cursor, picks)
    ensures picks != [] && picks[0] == from && Picked(len, fs, from + 1, fs[from].end, picks[1..])
  {
    assert !Overlapped(fs, picks, from);
    var n :| 0 <= n < |picks| && picks[n] == from;
    assert picks[0] == from;
    var later := picks[1..];
    forall k | from + 1 <= k < |fs| && k !in later
      ensures fs[k].end > len || fs[k].start < fs[from].end || Overlapped(fs, later, k)
    {
      assert k !in picks;
      if Overlapped(fs, picks, k) {
        var j :| 0 <= j < |picks| && picks[j] < k && picks[j] < |fs| && fs[k].start < fs[picks[j]].end;
        assert j > 0 ==> later[j - 1] == picks[j];
      }
    }
  }

  lemma PickSkip(len: nat, fs: seq<Finding>, from: nat, cursor: nat, picks: seq<nat>)
    requires from < |fs| && (fs[from].start < cursor || fs[from].end > len)
    ensures Picked(len, fs, from, cursor, picks) <==> Picked(len, fs, from + 1, cursor, picks)
  {
  }

  /** The rule picks one list, and finding by finding it is that. */
  lemma {:induction false} PicksExact(len: nat, fs: seq<Finding>, from: nat, cursor: nat, picks: seq<nat>)
    requires Spans(fs) && from <= |fs|
    ensures Picked(len, fs, from, cursor, picks) <==> picks == Picks(len, fs, from, cursor)
    decreases |fs| - from
  {
    hide Picked;
    if from == |fs| {
      NoPicks(len, fs, cursor, picks);
    } else if fs[from].start < cursor || fs[from].end > len {
      PickSkip(len, fs, from, cursor, picks);
      PicksExact(len, fs, from + 1, cursor, picks);
    } else {
      var later := Picks(len, fs, from + 1, fs[from].end);
      PicksExact(len, fs, from + 1, fs[from].end, later);
      PickFirst(len, fs, from, cursor, later);
      if Picked(len, fs, from, cursor, picks) {
        PickRest(len, fs, from, cursor, picks);
        PicksExact(len, fs, from + 1, fs[from].end, picks[1..]);
        assert picks == [from] + picks[1..];
      }
    }
  }

  lemma NoPicks(len: nat, fs: seq<Finding>, cursor: nat, picks: seq<nat>)
    ensures Picked(len, fs, |fs|, cursor, picks) <==> picks == []
  {
    assert picks != [] ==> !(|fs| <= picks[0] < |fs|);
  }

  function Chosen(fs: seq<Finding>, picks: seq<nat>): (taken: seq<Finding>)
    requires forall j :: 0 <= j < |picks| ==> picks[j] < |fs|
    ensures |taken| == |picks|
  {
    seq(|picks|, j requires 0 <= j < |picks| => fs[picks[j]])
  }

  /** The findings that are replaced. */
  function Taken(len: nat, fs: seq<Finding>, from: nat, cursor: nat): (taken: seq<Finding>)
    requires from <= |fs| && Spans(fs)
    ensures InOrder(taken, cursor, len)
  {
    var picks := Picks(len, fs, from, cursor);
    PicksExact(len, fs, from, cursor, picks);
    Chosen(fs, picks)
  }

  lemma TakenStep(len: nat, fs: seq<Finding>, from: nat, cursor: nat)
    requires from <= |fs| && Spans(fs)
    ensures from == |fs| ==> Taken(len, fs, from, cursor) == []
    ensures from < |fs| && (fs[from].start < cursor || fs[from].end > len) ==>
              Taken(len, fs, from, cursor) == Taken(len, fs, from + 1, cursor)
    ensures from < |fs| && cursor <= fs[from].start && fs[from].end <= len ==>
              Taken(len, fs, from, cursor) == [fs[from]] + Taken(len, fs, from + 1, fs[from].end)
  {
    PicksExact(len, fs, from, cursor, Picks(len, fs, from, cursor));
  }

  /** Of spans in order and in bounds none is passed over. */
  lemma {:induction false} AllTaken(len: nat, fs: seq<Finding>, from: nat, cursor: nat)
    requires from <= |fs| && InOrder(fs[from..], cursor, len) && Spans(fs)
    ensures Taken(len, fs, from, cursor) == fs[from..]
    decreases |fs| - from
  {
    hide Taken;
    TakenStep(len, fs, from, cursor);
    if from < |fs| {
      assert fs[from..][0] == fs[from] && fs[from..] == [fs[from]] + fs[from + 1..];
      assert InOrder(fs[from + 1..], fs[from].end, len) by {
        assert fs[from + 1..] == fs[from..][1..];
      }
      AllTaken(len, fs, from + 1, fs[from].end);
    }
  }

  // ---- Parts and what goes between them ---------------------------------------------------------

  /** The parts of the text outside spans in order, from `cursor` on: before each span, and after the last. */
  function Parts(text: bytes, taken: seq<Finding>, cursor: nat): (parts: seq<bytes>)
    requires InOrder(taken, cursor, |text|) && cursor <= |text|
    ensures |parts| == |taken| + 1
  {
    seq(|taken| + 1, j requires 0 <= j <= |taken| =>
      text[(if j == 0 then cursor else taken[j - 1].end)..(if j == |taken| then |text| else taken[j].start)])
  }

  /** What was found. */
  function Values(text: bytes, taken: seq<Finding>): (values: seq<bytes>)
    requires InOrder(taken, 0, |text|)
    ensures |values| == |taken|
  {
    seq(|taken|, j requires 0 <= j < |taken| => text[taken[j].start..taken[j].end])
  }

  /** The parts with one filling between each two. */
  function Woven(parts: seq<bytes>, fills: seq<bytes>): bytes
    requires |parts| == |fills| + 1
  {
    if fills == [] then parts[0] else parts[0] + fills[0] + Woven(parts[1..], fills[1..])
  }

  lemma PartsStep(text: bytes, taken: seq<Finding>, cursor: nat)
    requires InOrder(taken, cursor, |text|) && cursor <= |text|
    ensures taken == [] ==> Parts(text, taken, cursor) == [text[cursor..]]
    ensures taken != [] ==>
              && InOrder(taken[1..], taken[0].end, |text|)
              && Parts(text, taken, cursor) == [text[cursor..taken[0].start]] + Parts(text, taken[1..], taken[0].end)
  {
    hide *;
    if taken == [] {
      OnlyPart(text, cursor);
    } else {
      FirstPart(text, taken, cursor);
      InOrderRest(taken, cursor, |text|);
      var first, later := text[cursor..taken[0].start], Parts(text, taken[1..], taken[0].end);
      forall i | 0 <= i <= |taken| ensures Parts(text, taken, cursor)[i] == ([first] + later)[i] {
        if i > 0 {
          LaterPart(text, taken, cursor, i);
        }
      }
    }
  }

  lemma InOrderRest(taken: seq<Finding>, cursor: nat, len: nat)
    requires taken != [] && InOrder(taken, cursor, len)
    ensures InOrder(taken[1..], taken[0].end, len)
  {
  }

  lemma OnlyPart(text: bytes, cursor: nat)
    requires cursor <= |text|
    ensures InOrder([], cursor, |text|) && Parts(text, [], cursor) == [text[cursor..]]
  {
    assert text[cursor..|text|] == text[cursor..];
    assert |Parts(text, [], cursor)| == 1 && Parts(text, [], cursor)[0] == text[cursor..];
  }

  lemma FirstPart(text: bytes, taken: seq<Finding>, cursor: nat)
    requires taken != [] && InOrder(taken, cursor, |text|) && cursor <= |text|
    ensures cursor <= taken[0].start <= taken[0].end <= |text| && Parts(text, taken, cursor)[0] == text[cursor..taken[0].start]
  {
  }

  lemma LaterPart(text: bytes, taken: seq<Finding>, cursor: nat, i: nat)
    requires taken != [] && InOrder(taken, cursor, |text|) && cursor <= |text| && 0 < i <= |taken|
    requires InOrder(taken[1..], taken[0].end, |text|)
    ensures Parts(text, taken, cursor)[i] == Parts(text, taken[1..], taken[0].end)[i - 1]
  {
    hide InOrder;
    assert i < |taken| ==> taken[1..][i - 1] == taken[i];
    assert i > 1 ==> taken[1..][i - 2] == taken[i - 1];
  }

  lemma WovenCons(p: bytes, parts: seq<bytes>, f: bytes, fills: seq<bytes>)
    requires |parts| == |fills| + 1
    ensures Woven([p] + parts, [f] + fills) == p + f + Woven(parts, fills)
  {
    assert ([p] + parts)[1..] == parts && ([f] + fills)[1..] == fills;
  }

  /** The text is its parts with the values between them. */
  lemma {:induction false} TextIsWoven(text: bytes, taken: seq<Finding>, cursor: nat)
    requires InOrder(taken, cursor, |text|) && cursor <= |text|
    ensures Woven(Parts(text, taken, cursor), Values(text, taken)) == text[cursor..]
    decreases |taken|
  {
    hide Parts, Woven;
    PartsStep(text, taken, cursor);
    if taken == [] {
      WovenOne(text[cursor..]);
      assert Values(text, taken) == [];
    } else {
      var f := taken[0];
      TextIsWoven(text, taken[1..], f.end);
      WovenCons(text[cursor..f.start], Parts(text, taken[1..], f.end), text[f.start..f.end], Values(text, taken[1..]));
      assert Values(text, taken) == [text[f.start..f.end]] + Values(text, taken[1..]);
      assert text[cursor..f.start] + text[f.start..f.end] + text[f.end..] == text[cursor..];
    }
  }

  lemma WovenOne(p: bytes)
    ensures Woven([p], []) == p
  {
  }
}
