/**
 Text as the proxy's Rust code handles it: a sequence of Unicode characters, with the standard library's
 trimming, ASCII lower-casing, searching and replacing.
 */
module Strings {

  /** The Unicode White_Space property. */
  predicate White(c: char) {
    || '\U{9}' <= c <= '\U{d}' || c == ' ' || c == '\U{85}' || c == '\U{a0}' || c == '\U{1680}'
    || '\U{2000}' <= c <= '\U{200a}' || c == '\U{2028}' || c == '\U{2029}' || c == '\U{202f}' || c == '\U{205f}'
    || c == '\U{3000}'
  }

  function TrimStart(s: string): string {
    if s != "" && White(s[0]) then TrimStart(s[1..]) else s
  }

  function TrimEnd(s: string): string {
    if s != "" && White(s[|s| - 1]) then TrimEnd(s[..|s| - 1]) else s
  }

  function Trim(s: string): string {
    TrimEnd(TrimStart(s))
  }

  function LowerChar(c: char): char {
    if 'A' <= c <= 'Z' then c + ' ' else c
  }

  /** `to_ascii_lowercase`. */
  function Lower(s: string): (r: string)
    ensures |r| == |s| && forall i :: 0 <= i < |s| ==> r[i] == LowerChar(s[i])
  {
    seq(|s|, i requires 0 <= i < |s| => LowerChar(s[i]))
  }

  function LowerEach(names: seq<string>): (r: seq<string>)
    ensures |r| == |names| && forall i :: 0 <= i < |names| ==> r[i] == Lower(names[i])
  {
    seq(|names|, i requires 0 <= i < |names| => Lower(names[i]))
  }

  /** Every `c` replaced by `to`. */
  function ReplaceChar(s: string, c: char, to: string): string {
    if s == "" then "" else (if s[0] == c then to else [s[0]]) + ReplaceChar(s[1..], c, to)
  }

  /** Every `a` followed by `b` replaced by `to`, left to right without overlap. */
  function ReplacePair(s: string, a: char, b: char, to: char): string {
    if s == "" then ""
    else if |s| >= 2 && s[0] == a && s[1] == b then [to] + ReplacePair(s[2..], a, b, to)
    else [s[0]] + ReplacePair(s[1..], a, b, to)
  }

  /** The first `c`, or -1. */
  function IndexOf(s: string, c: char): (r: int)
    ensures r == -1 || (0 <= r < |s| && s[r] == c)
    ensures forall k :: 0 <= k < (if r < 0 then |s| else r) ==> s[k] != c
  {
    if s == "" then -1 else if s[0] == c then 0
    else
      var r := IndexOf(s[1..], c);
      if r < 0 then -1 else r + 1
  }

  /** `str::split`. */
  function SplitPlain(s: string, sep: char): seq<string>
    decreases |s|
  {
    var i := IndexOf(s, sep);
    if i < 0 then [s] else [s[..i]] + SplitPlain(s[i + 1..], sep)
  }

  lemma TrimKeeps(s: string)
    requires s != "" ==> !White(s[0]) && !White(s[|s| - 1])
    ensures Trim(s) == s
  {
  }

  lemma IndexOfAfter(key: string, rest: string)
    requires forall i :: 0 <= i < |key| ==> key[i] != '='
    ensures IndexOf(key + "=" + rest, '=') == |key|
    decreases |key|
  {
    var s := key + "=" + rest;
    if key != "" {
      assert s[1..] == key[1..] + "=" + rest;
      IndexOfAfter(key[1..], rest);
    }
  }
}
