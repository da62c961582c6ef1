/**
 The `X-Forwarded-Client-Cert` header: `src/client_auth.rs` prints it with escaping, and
 `src/client_cert_header.rs` splits it with a quote-aware scanner and unescapes it in two passes. The proof
 is that the two undo each other. Decoding a `Cert` or `Chain` value is not part of this model.
 */
module Xfcc {
  import opened Wrappers
  import opened Strings

  // ---- The printer ------------------------------------------------------------------------------

  function Escape(v: string): string {
    ReplaceChar(ReplaceChar(v, '\\', "\\\\"), '"', "\\\"")
  }

  /** One name as a field, with the separator before it. */
  function Field(key: string, v: string): string {
    key + "=\"" + Escape(v) + "\""
  }

  function Fields(key: string, values: seq<string>): seq<string> {
    seq(|values|, i requires 0 <= i < |values| => Field(key, values[i]))
  }

  function Appended(fields: seq<string>): string {
    if fields == [] then "" else ";" + fields[0] + Appended(fields[1..])
  }

  function Printed(sha256: string, uris: seq<string>, dns: seq<string>): string {
    "Hash=" + sha256 + Appended(Fields("URI", uris) + Fields("DNS", dns))
  }

  lemma {:induction false} AppendedConcat(a: seq<string>, b: seq<string>)
    ensures Appended(a + b) == Appended(a) + Appended(b)
    decreases |a|
  {
    if a == [] {
      assert a + b == b;
    } else {
      assert (a + b)[0] == a[0] && (a + b)[1..] == a[1..] + b;
      AppendedStep(a);
      AppendedStep(a + b);
      hide Appended;
      AppendedConcat(a[1..], b);
    }
  }

  lemma AppendedStep(fields: seq<string>)
    requires fields != []
    ensures Appended(fields) == ";" + fields[0] + Appended(fields[1..])
  {
  }

  lemma AppendField(out: string, done: seq<string>, key: string, v: string)
    ensures out + Appended(done + [Field(key, v)]) == out + Appended(done) + ";" + key + "=\"" + Escape(v) + "\""
  {
    hide Escape;
    var f := Field(key, v);
    AppendedConcat(done, [f]);
    assert [f][1..] == [] && Appended([f]) == ";" + f;
    hide Appended;
  }

  lemma TakeField(before: seq<string>, key: string, values: seq<string>, i: nat)
    requires i < |values|
    ensures before + Fields(key, values)[..i + 1] == before + Fields(key, values)[..i] + [Field(key, values[i])]
  {
    hide Field;
  }

  method Print(sha256: string, uris: seq<string>, dns: seq<string>) returns (out: string)
    ensures out == Printed(sha256, uris, dns)
  {
    var head := "Hash=" + sha256;
    out := head;
    assert Appended([]) == "";
    hide Escape, Appended, Field;
    var keys := [("URI", uris), ("DNS", dns)];
    ghost var done: seq<string> := [];
    for k := 0 to 2
      invariant out == head + Appended(done)
      invariant done == (if k == 0 then [] else if k == 1 then Fields("URI", uris) else Fields("URI", uris) + Fields("DNS", dns))
    {
      var (key, values) := keys[k];
      ghost var before := done;
      for i := 0 to |values|
        invariant out == head + Appended(done)
        invariant done == before + Fields(key, values)[..i]
      {
        AppendField(head, done, key, values[i]);
        TakeField(before, key, values, i);
        out := out + ";" + key + "=\"" + Escape(values[i]) + "\"";
        done := done + [Field(key, values[i])];
      }
      assert Fields(key, values)[..|values|] == Fields(key, values);
    }
  }

  // ---- The scanner ------------------------------------------------------------------------------

  /** Where the scanner is: inside quotes, and after a backslash inside quotes. */
  datatype Scan = Scan(quoted: bool, escaped: bool)

  const START := Scan(false, false)

  function Next(s: Scan, c: char): Scan {
    if s.escaped then Scan(s.quoted, false)
    else if c == '\\' && s.quoted then Scan(true, true)
    else if c == '"' then Scan(!s.quoted, false)
    else s
  }

  predicate Splits(s: Scan, c: char, sep: char) {
    c == sep && c != '"' && !s.escaped && !s.quoted
  }

  /** The pieces of `text` from state `s`, with `current` already gathered. */
  function Pieces(text: string, sep: char, current: string, s: Scan): (r: seq<string>)
    ensures r != []
    decreases |text|
  {
    if text == "" then [current]
    else if Splits(s, text[0], sep) then [current] + Pieces(text[1..], sep, "", s)
    else Pieces(text[1..], sep, current + [text[0]], Next(s, text[0]))
  }

  method SplitQuoted(text: string, sep: char) returns (parts: seq<string>)
    ensures parts == Pieces(text, sep, "", START)
  {
    parts := [];
    var current := "";
    var quoted, escaped := false, false;
    for i := 0 to |text|
      invariant parts + Pieces(text[i..], sep, current, Scan(quoted, escaped)) == Pieces(text, sep, "", START)
    {
      var c := text[i];
      assert text[i..][0] == c && text[i..][1..] == text[i + 1..];
      if escaped {
        current := current + [c];
        escaped := false;
        continue;
      }
      if c == '\\' && quoted {
        current := current + [c];
        escaped := true;
      } else if c == '"' {
        quoted := !quoted;
        current := current + [c];
      } else if c == sep && !quoted {
        parts := parts + [current];
        current := "";
      } else {
        current := current + [c];
      }
    }
    parts := parts + [current];
  }

  function Join(parts: seq<string>, sep: char): string
    requires parts != []
  {
    if |parts| == 1 then parts[0] else parts[0] + [sep] + Join(parts[1..], sep)
  }

  /** Splitting loses nothing. */
  lemma {:induction false} JoinPieces(text: string, sep: char, current: string, s: Scan)
    ensures Join(Pieces(text, sep, current, s), sep) == current + text
    decreases |text|
  {
    if text == "" {
      assert current + text == current;
    } else if Splits(s, text[0], sep) {
      var later := Pieces(text[1..], sep, "", s);
      JoinPieces(text[1..], sep, "", s);
      assert ([current] + later)[1..] == later;
      assert current + [text[0]] + ("" + text[1..]) == current + text;
    } else {
      JoinPieces(text[1..], sep, current + [text[0]], Next(s, text[0]));
      assert current + [text[0]] + text[1..] == current + text;
    }
  }

  /** The state after `text`. */
  function After(s: Scan, text: string): Scan
    decreases |text|
  {
    if text == "" then s else After(Next(s, text[0]), text[1..])
  }

  /** No separator of `text` is outside quotes. */
  predicate Whole(text: string, sep: char, s: Scan)
    decreases |text|
  {
    text == "" || (!Splits(s, text[0], sep) && Whole(text[1..], sep, Next(s, text[0])))
  }

  lemma {:induction false} AfterConcat(s: Scan, x: string, y: string)
    ensures After(s, x + y) == After(After(s, x), y)
    decreases |x|
  {
    if x == "" {
      assert x + y == y;
    } else {
      AfterConcat(Next(s, x[0]), x[1..], y);
      assert (x + y)[1..] == x[1..] + y;
    }
  }

  lemma {:induction false} WholeConcat(x: string, y: string, sep: char, s: Scan)
    ensures Whole(x + y, sep, s) == (Whole(x, sep, s) && Whole(y, sep, After(s, x)))
    decreases |x|
  {
    if x == "" {
      assert x + y == y;
    } else {
      WholeConcat(x[1..], y, sep, Next(s, x[0]));
      assert (x + y)[1..] == x[1..] + y;
    }
  }

  /** No piece has a separator outside quotes. */
  lemma {:induction false} PiecesWhole(text: string, sep: char, current: string, s: Scan)
    requires Whole(current, sep, START) && After(START, current) == s
    ensures forall p :: p in Pieces(text, sep, current, s) ==> Whole(p, sep, START)
    decreases |text|
  {
    if text != "" {
      var c := text[0];
      if Splits(s, c, sep) {
        ScanPlain(current, START);
        PiecesWhole(text[1..], sep, "", s);
      } else {
        WholeConcat(current, [c], sep, START);
        AfterConcat(START, current, [c]);
        assert [c][1..] == "";
        PiecesWhole(text[1..], sep, current + [c], Next(s, c));
      }
    }
  }

  /** The scanner is escaped only inside quotes. */
  lemma {:induction false} ScanPlain(text: string, s: Scan)
    requires s.escaped ==> s.quoted
    ensures After(s, text).escaped ==> After(s, text).quoted
    decreases |text|
  {
    if text != "" {
      ScanPlain(text[1..], Next(s, text[0]));
    }
  }

  lemma {:induction false} PiecesOfWhole(x: string, y: string, sep: char, current: string, s: Scan)
    requires Whole(x, sep, s)
    ensures Pieces(x + y, sep, current, s) == Pieces(y, sep, current + x, After(s, x))
    decreases |x|
  {
    if x == "" {
      assert x + y == y && current + x == current;
    } else {
      PiecesOfWhole(x[1..], y, sep, current + [x[0]], Next(s, x[0]));
      assert (x + y)[1..] == x[1..] + y;
      assert current + [x[0]] + x[1..] == current + x;
    }
  }

  /** A separator after balanced text splits. */
  lemma {:induction false} PiecesOfBalanced(x: string, y: string, sep: char, current: string, s: Scan)
    requires After(s, x) == START && sep != '"'
    ensures Pieces(x + [sep] + y, sep, current, s) == Pieces(x, sep, current, s) + Pieces(y, sep, "", START)
    decreases |x|
  {
    var all := x + [sep] + y;
    if x == "" {
      assert all[0] == sep && all[1..] == y;
    } else {
      var c := x[0];
      assert all[0] == c && all[1..] == x[1..] + [sep] + y;
      if Splits(s, c, sep) {
        assert Next(s, c) == s;
        PiecesOfBalanced(x[1..], y, sep, "", s);
      } else {
        PiecesOfBalanced(x[1..], y, sep, current + [c], Next(s, c));
      }
    }
  }

  // ---- The parser -------------------------------------------------------------------------------

  datatype Client = Client(commonName: Option<string>, dns: seq<string>, uris: seq<string>, sha256: string)

  /** A forwarded certificate, still encoded, or what the header says about one. */
  datatype Forwarded = Encoded(value: string) | Details(client: Client)

  function Unquote(value: string): string {
    if |value| >= 2 && value[0] == '"' && value[|value| - 1] == '"'
    then ReplacePair(ReplacePair(value[1..|value| - 1], '\\', '"', '"'), '\\', '\\', '\\')
    else value
  }

  /** The `CN=` of the first comma-separated part that has one, unless empty. */
  function CommonName(parts: seq<string>): Option<string> {
    if parts == [] then None
    else
      var rdn := Trim(parts[0]);
      if "CN=" <= rdn then (if |rdn| > 3 then Some(rdn[3..]) else None)
      else CommonName(parts[1..])
  }

  /** The last element that is not blank. */
  function LastElement(parts: seq<string>): Option<string> {
    if parts == [] then None
    else if Trim(parts[|parts| - 1]) != "" then Some(parts[|parts| - 1])
    else LastElement(parts[..|parts| - 1])
  }

  datatype Fill = Fill(client: Client, cert: Option<string>, chain: Option<string>)

  const EMPTY := Fill(Client(None, [], [], ""), None, None)

  function Assign(f: Fill, key: string, value: string): Fill {
    if key == "cert" then f.(cert := Some(value))
    else if key == "chain" then f.(chain := Some(value))
    else if key == "hash" then f.(client := f.client.(sha256 := Lower(value)))
    else if key == "uri" then f.(client := f.client.(uris := f.client.uris + [value]))
    else if key == "dns" then f.(client := f.client.(dns := f.client.dns + [Lower(value)]))
    else if key == "subject" then f.(client := f.client.(commonName := CommonName(SplitPlain(value, ','))))
    else f
  }

  function FillPair(f: Fill, pair: string): Fill {
    var i := IndexOf(pair, '=');
    if i < 0 then f else Assign(f, Lower(Trim(pair[..i])), Unquote(Trim(pair[i + 1..])))
  }

  function FillAll(f: Fill, pairs: seq<string>): Fill
    decreases |pairs|
  {
    if pairs == [] then f else FillAll(FillPair(f, pairs[0]), pairs[1..])
  }

  function Finish(f: Fill): Result<Forwarded> {
    if f.chain.Some? then Ok(Encoded(f.chain.value))
    else if f.cert.Some? then Ok(Encoded(f.cert.value))
    else if f.client.uris == [] && f.client.dns == [] && f.client.commonName == None then Err
    else Ok(Details(f.client))
  }

  function Parsed(text: string): Result<Forwarded> {
    match LastElement(Pieces(text, ',', "", START))
    case None => Err
    case Some(element) => Finish(FillAll(EMPTY, Pieces(element, ';', "", START)))
  }

  method Parse(text: string) returns (r: Result<Forwarded>)
    ensures r == Parsed(text)
  {
    hide Pieces, FillPair, Trim;
    var parts := SplitQuoted(text, ',');
    var n := |parts|;
    assert parts[..n] == parts;
    while n > 0 && Trim(parts[n - 1]) == ""
      invariant 0 <= n <= |parts| && LastElement(parts[..n]) == LastElement(parts)
    {
      assert parts[..n][..n - 1] == parts[..n - 1];
      n := n - 1;
    }
    if n == 0 {
      return Err;
    }
    assert parts[..n][n - 1] == parts[n - 1];
    var pairs := SplitQuoted(parts[n - 1], ';');
    var fill := EMPTY;
    for i := 0 to |pairs|
      invariant FillAll(fill, pairs[i..]) == FillAll(EMPTY, pairs)
    {
      assert pairs[i..][0] == pairs[i] && pairs[i..][1..] == pairs[i + 1..];
      fill := FillPair(fill, pairs[i]);
    }
    return Finish(fill);
  }

  // ---- Unescaping undoes escaping ---------------------------------------------------------------

  function EscapeChar(c: char): string {
    if c == '\\' then "\\\\" else if c == '"' then "\\\"" else [c]
  }

  /** Both passes of the escape in one. */
  function Escaped(v: string): string {
    if v == "" then "" else EscapeChar(v[0]) + Escaped(v[1..])
  }

  function Doubled(v: string): string {
    ReplaceChar(v, '\\', "\\\\")
  }

  lemma {:induction false} ReplaceCharConcat(x: string, y: string, c: char, to: string)
    ensures ReplaceChar(x + y, c, to) == ReplaceChar(x, c, to) + ReplaceChar(y, c, to)
    decreases |x|
  {
    if x == "" {
      assert x + y == y;
    } else {
      assert (x + y)[0] == x[0] && (x + y)[1..] == x[1..] + y;
      ReplaceCharStep(x + y, c, to);
      ReplaceCharStep(x, c, to);
      hide ReplaceChar;
      ReplaceCharConcat(x[1..], y, c, to);
    }
  }

  lemma ReplaceCharStep(s: string, c: char, to: string)
    requires s != ""
    ensures ReplaceChar(s, c, to) == (if s[0] == c then to else [s[0]]) + ReplaceChar(s[1..], c, to)
  {
  }

  lemma ReplaceCharOne(a: char, c: char, to: string)
    ensures ReplaceChar([a], c, to) == (if a == c then to else [a])
  {
    assert [a][1..] == "";
  }

  lemma {:induction false} EscapeOnePass(v: string)
    ensures Escape(v) == Escaped(v)
    decreases |v|
  {
    if v != "" {
      EscapeOnePass(v[1..]);
      var c := v[0];
      var first := if c == '\\' then "\\\\" else [c];
      ReplaceCharConcat(first, Doubled(v[1..]), '"', "\\\"");
      hide ReplaceChar;
      ReplaceCharOne(c, '"', "\\\"");
      if c == '\\' {
        ReplaceCharConcat("\\", "\\", '"', "\\\"");
        assert "\\" + "\\" == first;
      }
    }
  }

  lemma {:induction false} FirstPass(v: string)
    ensures ReplacePair(Escaped(v), '\\', '"', '"') == Doubled(v)
    ensures Escaped(v) != "" ==> Escaped(v)[0] != '"'
    decreases |v|
  {
    if v != "" {
      var later := Escaped(v[1..]);
      FirstPass(v[1..]);
      var e := Escaped(v);
      if v[0] == '\\' {
        assert e[1..] == "\\" + later && e[1..][1..] == later;
        assert ReplacePair(e, '\\', '"', '"') == "\\" + ReplacePair(e[1..], '\\', '"', '"');
        assert ReplacePair(e[1..], '\\', '"', '"') == "\\" + ReplacePair(later, '\\', '"', '"');
      } else if v[0] == '"' {
        assert e[2..] == later;
      } else {
        assert e[1..] == later;
      }
    }
  }

  lemma {:induction false} SecondPass(v: string)
    ensures ReplacePair(Doubled(v), '\\', '\\', '\\') == v
    decreases |v|
  {
    if v != "" {
      SecondPass(v[1..]);
      var d := Doubled(v);
      if v[0] == '\\' {
        assert d[2..] == Doubled(v[1..]);
      } else {
        assert d[1..] == Doubled(v[1..]);
      }
      assert v == [v[0]] + v[1..];
    }
  }

  /** Unquoting a printed value gives the value back, whatever quotes and backslashes it holds. */
  lemma UnquotePrinted(v: string)
    ensures Unquote("\"" + Escape(v) + "\"") == v
  {
    EscapeOnePass(v);
    hide Escape, Escaped, ReplacePair, Doubled;
    var q := "\"" + Escape(v) + "\"";
    assert q[1..|q| - 1] == Escape(v);
    FirstPass(v);
    SecondPass(v);
  }

  // ---- Scanning what was printed ----------------------------------------------------------------

  /** Inside quotes an escaped value neither closes them nor splits. */
  lemma {:induction false} ScanEscaped(v: string, sep: char)
    ensures After(Scan(true, false), Escaped(v)) == Scan(true, false) && Whole(Escaped(v), sep, Scan(true, false))
    decreases |v|
  {
    if v != "" {
      var inside := Scan(true, false);
      var e, later := Escaped(v), Escaped(v[1..]);
      ScanEscaped(v[1..], sep);
      if v[0] == '\\' || v[0] == '"' {
        assert e[0] == '\\' && Next(inside, '\\') == Scan(true, true);
        assert e[1..][0] == e[1] && e[1..][1..] == later && Next(Scan(true, true), e[1]) == inside;
      } else {
        assert e[1..] == later && Next(inside, e[0]) == inside;
      }
    }
  }

  /** Text that neither quotes nor separates. */
  predicate Plain(s: string) {
    forall i :: 0 <= i < |s| ==> s[i] != '"' && s[i] != ',' && s[i] != ';'
  }

  lemma {:induction false} ScanPlainText(s: string, sep: char)
    requires Plain(s) && (sep == ',' || sep == ';')
    ensures After(START, s) == START && Whole(s, sep, START)
    decreases |s|
  {
    if s != "" {
      assert Next(START, s[0]) == START;
      ScanPlainText(s[1..], sep);
    }
  }

  lemma ScanQuote(quoted: bool, sep: char)
    requires sep != '"'
    ensures After(Scan(quoted, false), "\"") == Scan(!quoted, false) && Whole("\"", sep, Scan(quoted, false))
  {
    assert "\""[1..] == "";
  }

  lemma ScanField(key: string, v: string, sep: char)
    requires Plain(key) && (sep == ',' || sep == ';')
    ensures After(START, Field(key, v)) == START && Whole(Field(key, v), sep, START)
  {
    EscapeOnePass(v);
    ScanPlainText(key + "=", sep);
    ScanEscaped(v, sep);
    ScanQuote(false, sep);
    ScanQuote(true, sep);
    hide Escape, Escaped, After, Whole, Plain;
    var a, b, c := key + "=", "\"", Escape(v);
    assert Field(key, v) == ((a + b) + c) + b;
    ScanConcat((a + b) + c, b, sep);
    ScanConcat(a + b, c, sep);
    ScanConcat(a, b, sep);
  }

  lemma ScanConcat(x: string, y: string, sep: char)
    ensures After(START, x + y) == After(After(START, x), y)
    ensures Whole(x + y, sep, START) == (Whole(x, sep, START) && Whole(y, sep, After(START, x)))
  {
    AfterConcat(START, x, y);
    WholeConcat(x, y, sep, START);
  }

  /** Fields that a scan crosses as one piece. */
  predicate Closed(fields: seq<string>) {
    forall i :: 0 <= i < |fields| ==>
                  After(START, fields[i]) == START && Whole(fields[i], ',', START) && Whole(fields[i], ';', START)
  }

  lemma FieldsClosed(key: string, values: seq<string>)
    requires Plain(key)
    ensures Closed(Fields(key, values))
  {
    hide After, Whole, Plain, Field;
    forall i | 0 <= i < |values|
      ensures var f := Fields(key, values)[i];
              After(START, f) == START && Whole(f, ',', START) && Whole(f, ';', START)
    {
      ScanField(key, values[i], ',');
      ScanField(key, values[i], ';');
    }
  }

  /** Split at semicolons, the printed text is the hash and then the fields. */
  lemma {:induction false} SplitAppended(head: string, fields: seq<string>)
    requires Closed([head]) && Closed(fields)
    ensures Pieces(head + Appended(fields), ';', "", START) == [head] + fields
    decreases |fields|
  {
    assert [head][0] == head;
    hide After, Whole;
    if fields == [] {
      assert head + "" == head && "" + head == head;
      PiecesOfWhole(head, "", ';', "", START);
    } else {
      var first, later := fields[0], Appended(fields[1..]);
      assert Closed([first]) && Closed(fields[1..]);
      SplitAppended(first, fields[1..]);
      assert head + Appended(fields) == head + [';'] + (first + later);
      PiecesOfBalanced(head, first + later, ';', "", START);
      assert head + "" == head && "" + head == head;
      PiecesOfWhole(head, "", ';', "", START);
      assert [first] + fields[1..] == fields;
    }
  }

  /** At commas it does not split. */
  lemma {:induction false} AppendedClosed(head: string, fields: seq<string>)
    requires After(START, head) == START && Whole(head, ',', START) && Closed(fields)
    ensures var all := head + Appended(fields);
            After(START, all) == START && Whole(all, ',', START)
    decreases |fields|
  {
    hide After, Whole;
    if fields == [] {
      assert head + "" == head;
    } else {
      var next := head + ";" + fields[0];
      ScanSemicolon();
      ScanConcat(head, ";", ',');
      ScanConcat(head + ";", fields[0], ',');
      assert Closed(fields[1..]);
      AppendedClosed(next, fields[1..]);
      assert next + Appended(fields[1..]) == head + Appended(fields);
    }
  }

  lemma ScanSemicolon()
    ensures After(START, ";") == START && Whole(";", ',', START)
  {
    assert ";"[1..] == "";
  }

  // ---- Reading the fields -----------------------------------------------------------------------

  /** Reading one printed field: its key in lower case, its value as it was. */
  lemma FillField(f: Fill, key: string, v: string)
    requires key != "" && !White(key[0]) && !White(key[|key| - 1])
    requires forall i :: 0 <= i < |key| ==> key[i] != '='
    ensures FillPair(f, Field(key, v)) == Assign(f, Lower(key), v)
  {
    var q := "\"" + Escape(v) + "\"";
    UnquotePrinted(v);
    hide Escape, Unquote, Assign;
    assert Field(key, v) == key + "=" + q;
    IndexOfAfter(key, q);
    assert (key + "=" + q)[..|key|] == key && (key + "=" + q)[|key| + 1..] == q;
    TrimKeeps(key);
    TrimKeeps(q);
  }

  lemma {:induction false} FillConcat(f: Fill, a: seq<string>, b: seq<string>)
    ensures FillAll(f, a + b) == FillAll(FillAll(f, a), b)
    decreases |a|
  {
    if a == [] {
      assert a + b == b;
    } else {
      FillConcat(FillPair(f, a[0]), a[1..], b);
      assert (a + b)[1..] == a[1..] + b;
    }
  }

  lemma {:induction false} FillUris(f: Fill, uris: seq<string>)
    ensures FillAll(f, Fields("URI", uris)) == f.(client := f.client.(uris := f.client.uris + uris))
    decreases |uris|
  {
    if uris == [] {
      assert f.client.uris + uris == f.client.uris;
    } else {
      hide FillPair, Field, Fields, Assign, Lower;
      FillField(f, "URI", uris[0]);
      LowerKeys();
      AssignKeys(f, uris[0]);
      FieldsCons("URI", uris);
      FirstThenRest(f.client.uris, uris);
      FillUris(Assign(f, "uri", uris[0]), uris[1..]);
    }
  }

  lemma LowerKeys()
    ensures Lower("URI") == "uri" && Lower("DNS") == "dns" && Lower("Hash") == "hash"
  {
  }

  lemma AssignKeys(f: Fill, v: string)
    ensures Assign(f, "uri", v) == f.(client := f.client.(uris := f.client.uris + [v]))
    ensures Assign(f, "dns", v) == f.(client := f.client.(dns := f.client.dns + [Lower(v)]))
    ensures Assign(f, "hash", v) == f.(client := f.client.(sha256 := Lower(v)))
  {
    hide Lower;
  }

  lemma FieldsCons(key: string, values: seq<string>)
    requires values != []
    ensures Fields(key, values) != [] && Fields(key, values)[0] == Field(key, values[0])
    ensures Fields(key, values)[1..] == Fields(key, values[1..])
  {
    hide Field;
  }

  lemma FirstThenRest(before: seq<string>, names: seq<string>)
    requires names != []
    ensures before + [names[0]] + names[1..] == before + names
  {
  }

  lemma LowerEachCons(before: seq<string>, names: seq<string>)
    requires names != []
    ensures before + [Lower(names[0])] + LowerEach(names[1..]) == before + LowerEach(names)
  {
    assert [Lower(names[0])] + LowerEach(names[1..]) == LowerEach(names);
  }

  lemma {:induction false} FillDns(f: Fill, dns: seq<string>)
    ensures FillAll(f, Fields("DNS", dns)) == f.(client := f.client.(dns := f.client.dns + LowerEach(dns)))
    decreases |dns|
  {
    if dns == [] {
      assert f.client.dns + LowerEach(dns) == f.client.dns;
    } else {
      hide FillPair, Field, Fields, Lower, LowerEach, Assign;
      FillField(f, "DNS", dns[0]);
      LowerKeys();
      AssignKeys(f, dns[0]);
      FieldsCons("DNS", dns);
      LowerEachCons(f.client.dns, dns);
      FillDns(Assign(f, "dns", dns[0]), dns[1..]);
    }
  }

  /** A digest in lower-case hexadecimal. */
  predicate IsHex(s: string) {
    forall i :: 0 <= i < |s| ==> '0' <= s[i] <= '9' || 'a' <= s[i] <= 'f'
  }

  lemma FillHash(f: Fill, sha256: string)
    requires IsHex(sha256)
    ensures FillPair(f, "Hash=" + sha256) == f.(client := f.client.(sha256 := sha256))
  {
    var key := "Hash";
    assert "Hash=" + sha256 == key + "=" + sha256;
    IndexOfAfter(key, sha256);
    assert (key + "=" + sha256)[..4] == key && (key + "=" + sha256)[5..] == sha256;
    TrimKeeps(key);
    TrimKeeps(sha256);
    LowerKeys();
    assert Lower(sha256) == sha256;
    hide Lower, Assign;
    AssignKeys(f, sha256);
  }

  lemma HashPlain(sha256: string)
    requires IsHex(sha256)
    ensures Closed(["Hash=" + sha256])
  {
    var head := "Hash=" + sha256;
    assert Plain(head);
    ScanPlainText(head, ',');
    ScanPlainText(head, ';');
  }

  /** The fields of a printed element, read back. */
  lemma ReadPrinted(sha256: string, uris: seq<string>, dns: seq<string>)
    requires IsHex(sha256)
    ensures FillAll(EMPTY, Pieces(Printed(sha256, uris, dns), ';', "", START))
            == EMPTY.(client := Client(None, LowerEach(dns), uris, sha256))
  {
    var head, us, ds := "Hash=" + sha256, Fields("URI", uris), Fields("DNS", dns);
    FieldsClosed("URI", uris);
    FieldsClosed("DNS", dns);
    HashPlain(sha256);
    SplitAppended(head, us + ds);
    FillHash(EMPTY, sha256);
    hide FillPair, Pieces, Fields, Appended;
    assert [head] + (us + ds) == ([head] + us) + ds;
    FillConcat(EMPTY, [head] + us, ds);
    FillConcat(EMPTY, [head], us);
    assert [head][1..] == [];
    var hashed := EMPTY.(client := Client(None, [], [], sha256));
    assert FillAll(EMPTY, [head]) == hashed;
    FillUris(hashed, uris);
    FillDns(hashed.(client := hashed.client.(uris := [] + uris)), dns);
    assert [] + uris == uris && [] + LowerEach(dns) == LowerEach(dns);
  }

  lemma PrintedClosed(sha256: string, uris: seq<string>, dns: seq<string>)
    requires IsHex(sha256)
    ensures Pieces(Printed(sha256, uris, dns), ',', "", START) == [Printed(sha256, uris, dns)]
  {
    var head, fields := "Hash=" + sha256, Fields("URI", uris) + Fields("DNS", dns);
    FieldsClosed("URI", uris);
    FieldsClosed("DNS", dns);
    HashPlain(sha256);
    assert [head][0] == head;
    hide After, Whole, Fields;
    AppendedClosed(head, fields);
    var all := head + Appended(fields);
    hide Appended;
    PiecesOfWhole(all, "", ',', "", START);
    assert all + "" == all && "" + all == all;
  }

  lemma PrintedNotBlank(sha256: string, uris: seq<string>, dns: seq<string>)
    ensures Trim(Printed(sha256, uris, dns)) != ""
  {
    var s := Printed(sha256, uris, dns);
    assert s[0] == 'H';
    hide Printed;
    TrimEndKeepsFirst(s);
  }

  lemma {:induction false} TrimEndKeepsFirst(s: string)
    requires s != "" && !White(s[0])
    ensures TrimEnd(s) != ""
    decreases |s|
  {
    if White(s[|s| - 1]) {
      TrimEndKeepsFirst(s[..|s| - 1]);
    }
  }

  /**
   The parser gives back what was printed: the hash, the URIs and the DNS names in lower case, in order, for
   names of any content. An element without a name is an error.
   */
  lemma ParseUndoesPrint(sha256: string, uris: seq<string>, dns: seq<string>)
    requires IsHex(sha256)
    ensures Parsed(Printed(sha256, uris, dns))
            == if uris == [] && dns == [] then Err else Ok(Details(Client(None, LowerEach(dns), uris, sha256)))
  {
    var s := Printed(sha256, uris, dns);
    PrintedClosed(sha256, uris, dns);
    PrintedNotBlank(sha256, uris, dns);
    ReadPrinted(sha256, uris, dns);
    hide Printed, Pieces, FillAll, Trim;
    assert LastElement([s]) == Some(s);
  }

  /** And so it does when earlier hops have written elements of their own, as long as their quotes close. */
  lemma ParseUndoesAppend(earlier: string, sha256: string, uris: seq<string>, dns: seq<string>)
    requires IsHex(sha256) && After(START, earlier) == START
    ensures Parsed(earlier + "," + Printed(sha256, uris, dns)) == Parsed(Printed(sha256, uris, dns))
  {
    var s := Printed(sha256, uris, dns);
    PrintedClosed(sha256, uris, dns);
    PrintedNotBlank(sha256, uris, dns);
    hide Printed, FillAll, Trim, After;
    PiecesOfBalanced(earlier, s, ',', "", START);
    assert earlier + [','] + s == earlier + "," + s;
    var parts := Pieces(earlier, ',', "", START) + [s];
    hide Pieces;
    assert parts[|parts| - 1] == s;
    assert LastElement(parts) == Some(s) && LastElement([s]) == Some(s);
  }
}
