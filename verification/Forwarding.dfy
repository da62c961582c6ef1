/**
 A client certificate from one hop to the next: the names read from its DER by `src/certstore.rs`, printed
 into a header by `src/client_auth.rs` and read from it by `src/client_cert_header.rs`. The SHA-256 digest
 of the certificate is a parameter.
 */
module Forwarding {
  import opened Wrappers
  import opened Bytes
  import opened Der
  import opened DerEncoding
  import Strings
  import Xfcc

  /** ASCII octets as text. */
  function Chars(v: bytes): (s: string)
    ensures |s| == |v| && forall i :: 0 <= i < |v| ==> s[i] == v[i] as char
  {
    seq(|v|, i requires 0 <= i < |v| => v[i] as char)
  }

  function Texts(names: seq<bytes>): (r: seq<string>)
    ensures |r| == |names| && forall i :: 0 <= i < |names| ==> r[i] == Chars(names[i])
  {
    seq(|names|, i requires 0 <= i < |names| => Chars(names[i]))
  }

  /** The names of a certificate, or none when they cannot be read. */
  function NamesOrNone(der: bytes): CertNames {
    match NamesOf(der)
    case Ok(names) => names
    case Err => CertNames(None, [], [], [])
  }

  function Header(der: bytes, digest: bytes): string {
    var names := NamesOrNone(der);
    Xfcc.Printed(Hex(digest), Texts(names.uris), Texts(names.dns))
  }

  lemma {:induction false} HexIsHex(s: bytes)
    ensures Xfcc.IsHex(Hex(s))
  {
    if s != [] {
      HexIsHex(s[1..]);
      var a, b := HexDigit(s[0] / 16), HexDigit(s[0] % 16);
      DigitIsHex(s[0] / 16);
      DigitIsHex(s[0] % 16);
      hide HexDigit;
      assert Hex(s) == [a, b] + Hex(s[1..]);
    }
  }

  lemma DigitIsHex(n: nat)
    requires n < 16
    ensures Xfcc.IsHex([HexDigit(n)])
  {
  }

  /** A hexadecimal serial number or digest is the text of just one octet string. */
  lemma {:induction false} HexInjective(a: bytes, b: bytes)
    requires Hex(a) == Hex(b)
    ensures a == b
    decreases |a|
  {
    if a == [] || b == [] {
      assert a == [] && b == [];
    } else {
      var x, y := Hex(a), Hex(b);
      assert x[0] == y[0] && x[1] == y[1] && x[2..] == y[2..];
      DigitInjective(a[0] / 16, b[0] / 16);
      DigitInjective(a[0] % 16, b[0] % 16);
      hide HexDigit;
      assert x[2..] == Hex(a[1..]) && y[2..] == Hex(b[1..]);
      HexInjective(a[1..], b[1..]);
      assert a == [a[0]] + a[1..] && b == [b[0]] + b[1..];
    }
  }

  /** What a hexadecimal digit stands for. */
  function DigitValue(c: char): int {
    if '0' <= c <= '9' then c as int - '0' as int else if 'a' <= c <= 'f' then c as int - 'a' as int + 10 else -1
  }

  lemma {:induction false} HexAt(s: bytes, i: nat)
    requires i < |s|
    ensures |Hex(s)| == 2 * |s| && Hex(s)[2 * i] == HexDigit(s[i] / 16) && Hex(s)[2 * i + 1] == HexDigit(s[i] % 16)
    decreases |s|
  {
    var later := Hex(s[1..]);
    assert Hex(s) == [HexDigit(s[0] / 16), HexDigit(s[0] % 16)] + later;
    hide Hex, HexDigit;
    if i > 0 {
      HexAt(s[1..], i - 1);
      assert s[1..][i - 1] == s[i];
      assert Hex(s)[2 * i] == later[2 * i - 2] && Hex(s)[2 * i + 1] == later[2 * i - 1];
    } else if |s| > 1 {
      HexAt(s[1..], 0);
    } else {
      assert s[1..] == [];
      HexOfNothing();
    }
  }

  lemma HexOfNothing()
    ensures Hex([]) == ""
  {
  }

  /** Two lower-case digits for each octet, the high one first. */
  lemma HexReads(s: bytes, i: nat)
    requires i < |s|
    ensures |Hex(s)| == 2 * |s|
    ensures var high, low := DigitValue(Hex(s)[2 * i]), DigitValue(Hex(s)[2 * i + 1]);
            high >= 0 && low >= 0 && 16 * high + low == s[i]
  {
    hide Hex, HexDigit, DigitValue;
    HexAt(s, i);
    DigitReads(s[i] / 16);
    DigitReads(s[i] % 16);
  }

  lemma DigitReads(n: nat)
    requires n < 16
    ensures DigitValue(HexDigit(n)) == n
  {
  }

  lemma DigitInjective(m: nat, n: nat)
    requires m < 16 && n < 16 && HexDigit(m) == HexDigit(n)
    ensures m == n
  {
  }

  lemma LowerName(v: bytes)
    requires AsciiName(v) && Lower(v) == v
    ensures Strings.Lower(Chars(v)) == Chars(v)
  {
    forall i | 0 <= i < |v| ensures Strings.LowerChar(v[i] as char) == v[i] as char {
      assert Lower(v)[i] == LowerByte(v[i]);
    }
  }

  lemma LowerNames(names: CertNames)
    requires Clean(names)
    ensures Strings.LowerEach(Texts(names.dns)) == Texts(names.dns)
  {
    hide Lower, AsciiName;
    forall i | 0 <= i < |names.dns| ensures Strings.Lower(Chars(names.dns[i])) == Chars(names.dns[i]) {
      LowerName(names.dns[i]);
    }
  }

  // ---- Sending ----------------------------------------------------------------------------------

  /** A value `HeaderValue::from_str` accepts: visible ASCII, blanks and tabs. */
  predicate Sendable(s: string) {
    forall i :: 0 <= i < |s| ==> s[i] == '\t' || ' ' <= s[i] <= '~'
  }

  datatype Policy = Policy(stripInbound: bool, forward: bool)

  /** The header on the way upstream, given the one the client sent and the certificate it presented. */
  function SetHeader(inbound: Option<string>, policy: Policy, der: Option<bytes>, digest: bytes): Option<string> {
    var kept := if policy.stripInbound then None else inbound;
    if policy.forward && der.Some? && Sendable(Header(der.value, digest)) then Some(Header(der.value, digest)) else kept
  }

  /** What the next hop makes of it: nothing when there is no header. */
  function Received(header: Option<string>): Option<Result<Xfcc.Forwarded>> {
    match header
    case None => None
    case Some(text) => Some(Xfcc.Parsed(text))
  }

  predicate AllSendable(names: seq<string>) {
    forall i :: 0 <= i < |names| ==> Sendable(names[i])
  }

  lemma SendableConcat(x: string, y: string)
    ensures Sendable(x + y) <==> Sendable(x) && Sendable(y)
  {
    if Sendable(x + y) {
      assert forall i :: 0 <= i < |x| ==> (x + y)[i] == x[i];
      assert forall i :: 0 <= i < |y| ==> (x + y)[|x| + i] == y[i];
    }
  }

  lemma {:induction false} EscapedSendable(v: string)
    ensures Sendable(Xfcc.Escaped(v)) <==> Sendable(v)
    decreases |v|
  {
    if v != "" {
      EscapedSendable(v[1..]);
      SendableConcat(Xfcc.EscapeChar(v[0]), Xfcc.Escaped(v[1..]));
      SendableConcat([v[0]], v[1..]);
      assert [v[0]] + v[1..] == v;
      EscapeCharSendable(v[0]);
    }
  }

  lemma EscapeCharSendable(c: char)
    ensures Sendable(Xfcc.EscapeChar(c)) <==> Sendable([c])
  {
    if Sendable(Xfcc.EscapeChar(c)) {
      assert Xfcc.EscapeChar(c)[|Xfcc.EscapeChar(c)| - 1] == c;
    }
  }

  lemma FieldSendable(key: string, v: string)
    requires Sendable(key)
    ensures Sendable(Xfcc.Field(key, v)) <==> Sendable(v)
  {
    Xfcc.EscapeOnePass(v);
    EscapedSendable(v);
    hide Xfcc.Escape, Xfcc.Escaped;
    SendableConcat(key + "=\"", Xfcc.Escape(v));
    SendableConcat(key, "=\"");
    SendableConcat(key + "=\"" + Xfcc.Escape(v), "\"");
  }

  lemma {:induction false} AppendedSendable(fields: seq<string>)
    ensures Sendable(Xfcc.Appended(fields)) <==> AllSendable(fields)
    decreases |fields|
  {
    if fields != [] {
      AppendedSendable(fields[1..]);
      Xfcc.AppendedStep(fields);
      hide Xfcc.Appended;
      SendableConcat(";" + fields[0], Xfcc.Appended(fields[1..]));
      SendableConcat(";", fields[0]);
      hide Sendable;
      AllSendableStep(fields);
      assert Sendable(";") by { SemicolonSendable(); }
    }
  }

  lemma SemicolonSendable()
    ensures Sendable(";")
  {
  }

  lemma AllSendableStep(fields: seq<string>)
    requires fields != []
    ensures AllSendable(fields) <==> Sendable(fields[0]) && AllSendable(fields[1..])
  {
    hide Sendable;
    if Sendable(fields[0]) && AllSendable(fields[1..]) {
      forall i | 0 <= i < |fields| ensures Sendable(fields[i]) {
        if i > 0 {
          assert fields[i] == fields[1..][i - 1];
        }
      }
    }
  }

  lemma FieldsSendable(key: string, values: seq<string>)
    requires Sendable(key)
    ensures AllSendable(Xfcc.Fields(key, values)) <==> AllSendable(values)
  {
    hide Sendable, Xfcc.Field;
    var fields := Xfcc.Fields(key, values);
    forall i | 0 <= i < |values| ensures Sendable(fields[i]) <==> Sendable(values[i]) {
      FieldSendable(key, values[i]);
    }
  }

  /** The header can be sent exactly when every name can. */
  lemma PrintedSendable(sha256: string, uris: seq<string>, dns: seq<string>)
    requires Xfcc.IsHex(sha256)
    ensures Sendable(Xfcc.Printed(sha256, uris, dns)) <==> AllSendable(uris) && AllSendable(dns)
  {
    var us, ds := Xfcc.Fields("URI", uris), Xfcc.Fields("DNS", dns);
    assert Sendable("Hash=" + sha256) && Sendable("URI") && Sendable("DNS");
    hide Xfcc.Fields, Xfcc.Appended, Sendable;
    SendableConcat("Hash=" + sha256, Xfcc.Appended(us + ds));
    Xfcc.AppendedConcat(us, ds);
    SendableConcat(Xfcc.Appended(us), Xfcc.Appended(ds));
    AppendedSendable(us);
    AppendedSendable(ds);
    FieldsSendable("URI", uris);
    FieldsSendable("DNS", dns);
  }

  /**
   What a client sent itself: while inbound headers are stripped nothing of it passes, whatever else is
   configured; else it passes unless a header of our own replaces it. Ours is there only for a certificate.
   */
  lemma InboundExact(inbound: Option<string>, policy: Policy, der: Option<bytes>, digest: bytes)
    ensures var sent := SetHeader(inbound, policy, der, digest);
            && (policy.stripInbound ==> forall other :: SetHeader(other, policy, der, digest) == sent)
            && (!policy.forward || der == None ==> sent == if policy.stripInbound then None else inbound)
            && (sent != None && sent != inbound ==> der.Some? && sent == Some(Header(der.value, digest)))
  {
    hide Sendable, Header;
  }

  // ---- From hop to hop --------------------------------------------------------------------------

  /** What the next hop ought to learn from a certificate with these names. */
  function Expected(names: CertNames, digest: bytes): Xfcc.Forwarded {
    Xfcc.Details(Xfcc.Client(None, Texts(names.dns), Texts(names.uris), Hex(digest)))
  }

  /**
   With client authentication on, so that an inbound header is dropped, and forwarding on: the next hop gets
   no header at all exactly when some URI or DNS name holds a character a header may not, an error exactly
   when there are none, and otherwise the very names this hop read, whatever bytes the certificate holds.
   */
  lemma NamesArrive(inbound: Option<string>, der: bytes, digest: bytes)
    ensures var names := NamesOrNone(der);
            var sent := SetHeader(inbound, Policy(true, true), Some(der), digest);
            Received(sent)
            == if !(AllSendable(Texts(names.uris)) && AllSendable(Texts(names.dns))) then None
               else if names.uris == [] && names.dns == [] then Some(Err)
               else Some(Ok(Expected(names, digest)))
  {
    NamesAreClean(der);
    var names := NamesOrNone(der);
    assert Clean(names);
    hide Hex, NamesOf, Clean, Xfcc.Parsed, Xfcc.Printed, AllSendable, Sendable;
    HexIsHex(digest);
    LowerNames(names);
    PrintedSendable(Hex(digest), Texts(names.uris), Texts(names.dns));
    Xfcc.ParseUndoesPrint(Hex(digest), Texts(names.uris), Texts(names.dns));
  }

  /** A hop in between that appends the element to a balanced header changes nothing of this. */
  lemma NamesArriveAppended(der: bytes, digest: bytes, earlier: string)
    requires Xfcc.After(Xfcc.START, earlier) == Xfcc.START
    ensures Xfcc.Parsed(earlier + "," + Header(der, digest)) == Xfcc.Parsed(Header(der, digest))
  {
    var names := NamesOrNone(der);
    hide Hex, NamesOf, Xfcc.After, Xfcc.Parsed, Xfcc.Printed;
    HexIsHex(digest);
    Xfcc.ParseUndoesAppend(earlier, Hex(digest), Texts(names.uris), Texts(names.dns));
  }

  /** What an abstract certificate says of itself. */
  function NamesIn(c: Cert): CertNames {
    CertNames(CommonNameOf(c.subject), LowerAll(NamesAs(GeneralsOf(c), Dns)), NamesAs(GeneralsOf(c), Uri),
              LowerAll(NamesAs(GeneralsOf(c), Email)))
  }

  /** From an abstract certificate: its URI and DNS alternative names reach the next hop in order, or no header does. */
  lemma CertificateArrives(inbound: Option<string>, c: Cert, digest: bytes)
    requires WellFormed(c) && |EncCert(c)| < SIZE_LIMIT
    ensures var names := NamesIn(c);
            Received(SetHeader(inbound, Policy(true, true), Some(EncCert(c)), digest))
            == if !(AllSendable(Texts(names.uris)) && AllSendable(Texts(names.dns))) then None
               else if names.uris == [] && names.dns == [] then Some(Err)
               else Some(Ok(Expected(names, digest)))
  {
    var der := EncCert(c);
    assert der + [] == der;
    NamesUndoEncode(c, []);
    hide EncCert, WellFormed, Hex, NamesOf, NamesAs, LowerAll, GeneralsOf, Received, SetHeader, AllSendable;
    NamesArrive(inbound, der, digest);
  }
}
