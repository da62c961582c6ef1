/**
 What `src/client_cert_header.rs` makes of an `X-Forwarded-Client-Cert` element that any proxy may have written:
 any keys in any case and order, repeated or unknown, with quoted values of any content. And what the element
 that `src/client_auth.rs` prints looks like.
 */
module XfccElements {
  import opened Wrappers
  import opened Strings
  import opened Xfcc

  datatype Pair = Pair(key: string, value: string)

  /** A key that is neither blank at its ends nor quotes, separates or holds an equals sign. */
  predicate KeyFits(key: string) {
    key != "" && !White(key[0]) && !White(key[|key| - 1]) && Plain(key) && forall i :: 0 <= i < |key| ==> key[i] != '='
  }

  predicate KeysFit(pairs: seq<Pair>) {
    forall i :: 0 <= i < |pairs| ==> KeyFits(pairs[i].key)
  }

  /** Each pair as `key="value"`, the value escaped. */
  function Written(pairs: seq<Pair>): (fields: seq<string>)
    ensures |fields| == |pairs|
  {
    seq(|pairs|, i requires 0 <= i < |pairs| => Field(pairs[i].key, pairs[i].value))
  }

  function Element(pairs: seq<Pair>): string
    requires pairs != []
  {
    Written(pairs)[0] + Appended(Written(pairs)[1..])
  }

  // ---- What it says -----------------------------------------------------------------------------

  /** The values given for a key, in order. */
  function All(pairs: seq<Pair>, key: string): seq<string> {
    if pairs == [] then []
    else
      var front, last := pairs[..|pairs| - 1], pairs[|pairs| - 1];
      All(front, key) + if Lower(last.key) == key then [last.value] else []
  }

  /** The value given last for a key. */
  function Latest(pairs: seq<Pair>, key: string): Option<string> {
    var values := All(pairs, key);
    if values == [] then None else Some(values[|values| - 1])
  }

  function SubjectName(pairs: seq<Pair>): Option<string> {
    match Latest(pairs, "subject")
    case None => None
    case Some(subject) => CommonName(SplitPlain(subject, ','))
  }

  function ClientOf(pairs: seq<Pair>): Client {
    Client(SubjectName(pairs), LowerEach(All(pairs, "dns")), All(pairs, "uri"),
           match Latest(pairs, "hash") case None => "" case Some(hash) => Lower(hash))
  }

  // ---- Reading it -------------------------------------------------------------------------------

  lemma LatestStep(pairs: seq<Pair>, key: string)
    requires pairs != []
    ensures var front, last := pairs[..|pairs| - 1], pairs[|pairs| - 1];
            && All(pairs, key) == (if Lower(last.key) == key then All(front, key) + [last.value] else All(front, key))
            && Latest(pairs, key) == if Lower(last.key) == key then Some(last.value) else Latest(front, key)
  {
    hide Lower;
  }

  lemma LowerEachMore(names: seq<string>, name: string)
    ensures LowerEach(names + [name]) == LowerEach(names) + [Lower(name)]
  {
    hide Lower;
  }

  lemma {:induction false} FillWritten(pairs: seq<Pair>)
    requires KeysFit(pairs)
    ensures FillAll(EMPTY, Written(pairs)) == Fill(ClientOf(pairs), Latest(pairs, "cert"), Latest(pairs, "chain"))
    decreases |pairs|
  {
    if pairs == [] {
      assert Written(pairs) == [] && LowerEach([]) == [];
    } else {
      var front, last := pairs[..|pairs| - 1], pairs[|pairs| - 1];
      assert KeysFit(front) && KeyFits(last.key);
      assert Written(pairs) == Written(front) + [Field(last.key, last.value)] by { hide Field; }
      hide *;
      FillWritten(front);
      FillConcat(EMPTY, Written(front), [Field(last.key, last.value)]);
      FillOne(FillAll(EMPTY, Written(front)), last);
      AssignLast(pairs);
    }
  }

  lemma AssignLast(pairs: seq<Pair>)
    requires pairs != []
    ensures var front, last := pairs[..|pairs| - 1], pairs[|pairs| - 1];
            Assign(Fill(ClientOf(front), Latest(front, "cert"), Latest(front, "chain")), Lower(last.key), last.value)
            == Fill(ClientOf(pairs), Latest(pairs, "cert"), Latest(pairs, "chain"))
  {
    hide Lower, LowerEach, CommonName, SplitPlain, All, Latest;
    LatestStep(pairs, "cert");
    LatestStep(pairs, "chain");
    LatestStep(pairs, "hash");
    LatestStep(pairs, "uri");
    LatestStep(pairs, "dns");
    LatestStep(pairs, "subject");
    LowerEachMore(All(pairs[..|pairs| - 1], "dns"), pairs[|pairs| - 1].value);
  }

  lemma FillOne(f: Fill, p: Pair)
    requires KeyFits(p.key)
    ensures FillAll(f, [Field(p.key, p.value)]) == Assign(f, Lower(p.key), p.value)
  {
    hide Field, FillPair, Assign, Lower;
    FillField(f, p.key, p.value);
    assert [Field(p.key, p.value)][1..] == [];
  }

  lemma WrittenClosed(pairs: seq<Pair>)
    requires KeysFit(pairs)
    ensures Closed(Written(pairs))
  {
    hide After, Whole, Field, Plain;
    forall i | 0 <= i < |pairs|
      ensures var f := Written(pairs)[i];
              After(START, f) == START && Whole(f, ',', START) && Whole(f, ';', START)
    {
      assert KeyFits(pairs[i].key);
      ScanField(pairs[i].key, pairs[i].value, ',');
      ScanField(pairs[i].key, pairs[i].value, ';');
    }
  }

  lemma ElementPieces(pairs: seq<Pair>)
    requires pairs != [] && KeysFit(pairs)
    ensures Pieces(Element(pairs), ',', "", START) == [Element(pairs)]
    ensures Pieces(Element(pairs), ';', "", START) == Written(pairs)
  {
    WrittenClosed(pairs);
    var fields := Written(pairs);
    var head, later := fields[0], fields[1..];
    assert [head][0] == head && [head] + later == fields;
    hide After, Whole, Written;
    assert Closed([head]) && Closed(later);
    SplitAppended(head, later);
    AppendedClosed(head, later);
    var all := head + Appended(later);
    hide Appended;
    PiecesOfWhole(all, "", ',', "", START);
    assert all + "" == all && "" + all == all;
  }

  lemma ElementNotBlank(pairs: seq<Pair>)
    requires pairs != [] && KeysFit(pairs)
    ensures Trim(Element(pairs)) != ""
  {
    assert KeyFits(pairs[0].key);
    var s := Element(pairs);
    assert s[0] == pairs[0].key[0];
    hide Element, Plain;
    TrimEndKeepsFirst(s);
  }

  /**
   An element of any pairs: a chain counts before a certificate, and either before the details; of the details
   the URIs and the DNS names are collected in order, the last hash and the last subject count, and an element
   with no name in it is an error.
   */
  lemma ElementExact(pairs: seq<Pair>)
    requires pairs != [] && KeysFit(pairs)
    ensures var chain, cert, client := Latest(pairs, "chain"), Latest(pairs, "cert"), ClientOf(pairs);
            Parsed(Element(pairs))
            == if chain.Some? then Ok(Encoded(chain.value))
               else if cert.Some? then Ok(Encoded(cert.value))
               else if client.uris == [] && client.dns == [] && client.commonName == None then Err
               else Ok(Details(client))
  {
    ElementPieces(pairs);
    ElementNotBlank(pairs);
    FillWritten(pairs);
    var s := Element(pairs);
    hide Element, Pieces, FillAll, Trim, ClientOf, Latest, KeysFit, Written;
    assert LastElement([s]) == Some(s);
  }

  // ---- The subject ------------------------------------------------------------------------------

  /** The common name is that of the first part that begins with `CN=` once trimmed, unless that is empty. */
  lemma {:induction false} CommonNameExact(parts: seq<string>, i: nat)
    requires i <= |parts| && forall j :: 0 <= j < i ==> !("CN=" <= Trim(parts[j]))
    requires i < |parts| ==> "CN=" <= Trim(parts[i])
    ensures CommonName(parts)
            == if i == |parts| || Trim(parts[i]) == "CN=" then None else Some(Trim(parts[i])[3..])
    decreases i
  {
    hide Trim;
    if i > 0 {
      assert !("CN=" <= Trim(parts[0]));
      forall j | 0 <= j < i - 1 ensures !("CN=" <= Trim(parts[1..][j])) {
        assert parts[1..][j] == parts[j + 1];
      }
      CommonNameExact(parts[1..], i - 1);
    }
  }

  /** The parts of a subject hold no comma, and with commas between them are the subject. */
  lemma {:induction false} SubjectParts(s: string)
    ensures var parts := SplitPlain(s, ',');
            parts != [] && Join(parts, ',') == s && forall p :: p in parts ==> ',' !in p
    decreases |s|
  {
    hide IndexOf;
    var i := IndexOf(s, ',');
    if i >= 0 {
      SubjectParts(s[i + 1..]);
      assert SplitPlain(s, ',')[1..] == SplitPlain(s[i + 1..], ',');
      assert s == s[..i] + [','] + s[i + 1..];
    }
  }

  // ---- What is printed --------------------------------------------------------------------------

  lemma {:induction false} NothingToEscape(v: string)
    requires '"' !in v && '\\' !in v
    ensures Escaped(v) == v
    decreases |v|
  {
    if v != "" {
      NothingToEscape(v[1..]);
    }
  }

  lemma FieldSpelled(key: string, v: string)
    requires '"' !in v && '\\' !in v
    ensures Field(key, v) == key + "=\"" + v + "\""
  {
    NothingToEscape(v);
    EscapeOnePass(v);
  }

  lemma AppendedTwo(a: string, b: string)
    ensures Appended([a, b]) == ";" + a + ";" + b
  {
    assert [a, b][1..] == [b] && [b][1..] == [];
    assert Appended([]) == "";
    AppendedStep([a, b]);
    AppendedStep([b]);
    hide Appended;
    assert ";" + b + "" == ";" + b;
  }

  /** With names that need no escaping, spelled out. */
  lemma PrintedSpelled(sha256: string, uri: string, dns: string)
    requires '"' !in uri && '\\' !in uri && '"' !in dns && '\\' !in dns
    ensures Printed(sha256, [uri], [dns])
            == "Hash=" + sha256 + (";" + ("URI" + "=\"" + uri + "\"") + ";" + ("DNS" + "=\"" + dns + "\""))
  {
    FieldSpelled("URI", uri);
    FieldSpelled("DNS", dns);
    hide Field;
    var u, d := Field("URI", uri), Field("DNS", dns);
    assert Fields("URI", [uri]) == [u] && Fields("DNS", [dns]) == [d];
    assert [u] + [d] == [u, d];
    hide Fields, Appended;
    AppendedTwo(u, d);
  }
}
