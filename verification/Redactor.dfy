/**
 Redacting an authorization header for a committed fixture (hack/capture/redact.py): the token
 goes, the device id is mapped through one table for the whole capture, the rest stays. The
 matches of the header's regular expression are taken as given.
 */
module Redactor {
  import opened Text
  import opened Decimal
  import opened AuthHeader

  const PLACEHOLDER := "REDACTED"

  /** f"device-{n:03d}" */
  function DeviceName(n: nat): string
  {
    "device-" + Padded(n)
  }

  function Padded(n: nat): (s: string)
    ensures AllDigits(s)
  {
    var d := Print(n);
    if |d| == 1 then "00" + d else if |d| == 2 then "0" + d else d
  }

  lemma {:induction false} LeadingZero(s: string)
    requires AllDigits(s)
    ensures AllDigits("0" + s) && Value("0" + s) == Value(s)
  {
    if s == "" {
      assert ("0" + s)[..0] == "";
    } else {
      var init := s[..|s| - 1];
      assert ("0" + s)[..|s|] == "0" + init;
      LeadingZero(init);
    }
  }

  lemma PaddedValue(n: nat)
    ensures Value(Padded(n)) == n
  {
    var d := Print(n);
    PrintValue(n);
    LeadingZero(d);
    LeadingZero("0" + d);
    assert "0" + ("0" + d) == "00" + d;
  }

  lemma DeviceNameInjective(m: nat, n: nat)
    requires DeviceName(m) == DeviceName(n)
    ensures m == n
  {
    hide Padded;
    assert DeviceName(m)[7..] == Padded(m) && DeviceName(n)[7..] == Padded(n);
    PaddedValue(m);
    PaddedValue(n);
  }

  lemma DeviceNameQuoteFree(n: nat)
    ensures '"' !in DeviceName(n)
  {
    hide Padded;
  }

  /** Every value seen so far has its own name, numbered in order of appearance. */
  ghost predicate Injective(table: map<string, string>)
  {
    && (forall v :: v in table ==> exists n :: 1 <= n <= |table| && table[v] == DeviceName(n))
    && (forall v, w :: v in table && w in table && table[v] == table[w] ==> v == w)
  }

  /** What a redaction must write for one matched parameter, given the table it leaves behind. */
  function Scrubbed(lower: char -> char, table: map<string, string>, p: Pair): Pair
  {
    var low := Lower(lower, p.key);
    if low == "token" then p.(value := PLACEHOLDER)
    else if low == "deviceid" || low == "device_id" then
      p.(value := if p.value in table then table[p.value] else "")
    else p
  }

  predicate IsDevice(lower: char -> char, p: Pair)
  {
    Lower(lower, p.key) == "deviceid" || Lower(lower, p.key) == "device_id"
  }

  function ScrubbedAll(lower: char -> char, table: map<string, string>, ps: seq<Pair>): (r: seq<Pair>)
    ensures |r| == |ps| && forall i :: 0 <= i < |ps| ==> r[i] == Scrubbed(lower, table, ps[i])
  {
    seq(|ps|, i requires 0 <= i < |ps| => Scrubbed(lower, table, ps[i]))
  }

  class Redactor {
    var pseudonyms: map<string, string>

    ghost predicate Valid()
      reads this
    {
      Injective(pseudonyms)
    }

    constructor ()
      ensures Valid() && pseudonyms == map[]
    {
      pseudonyms := map[];
    }

    method Pseudonym(value: string) returns (name: string)
      requires Valid()
      modifies this
      ensures Valid()
      ensures pseudonyms == if value in old(pseudonyms) then old(pseudonyms) else old(pseudonyms)[value := name]
      ensures value in pseudonyms && name == pseudonyms[value]
      ensures value !in old(pseudonyms) ==> name == DeviceName(|old(pseudonyms)| + 1)
    {
      if value !in pseudonyms {
        NewNameFresh(pseudonyms, value);
        pseudonyms := pseudonyms[value := DeviceName(|pseudonyms| + 1)];
      }
      name := pseudonyms[value];
    }

    /** One matched parameter: the token is replaced, a device id renamed, anything else kept. */
    method Scrub(lower: char -> char, p: Pair) returns (q: Pair)
      requires Valid()
      modifies this
      ensures Valid() && q == Scrubbed(lower, pseudonyms, p)
      ensures Grows(old(pseudonyms), pseudonyms)
      ensures pseudonyms.Keys == old(pseudonyms).Keys + (if IsDevice(lower, p) then {p.value} else {})
    {
      hide Injective;
      var low := Lower(lower, p.key);
      q := p;
      if low == "token" {
        q := p.(value := PLACEHOLDER);
      } else if low == "deviceid" || low == "device_id" {
        var name := Pseudonym(p.value);
        q := p.(value := name);
      }
    }

    /** The printing half of the header redaction, over the regular expression's matches. */
    method ScrubAuthHeader(lower: char -> char, scheme: string, matches: seq<Pair>) returns (value: string)
      requires Valid() && matches != []
      modifies this
      ensures Valid() && Grows(old(pseudonyms), pseudonyms)
      ensures pseudonyms.Keys == old(pseudonyms).Keys + DeviceValues(lower, matches)
      ensures value == scheme + " " + PrintPairs(ScrubbedAll(lower, pseudonyms, matches))
    {
      hide Injective, IsDevice;
      var parts: seq<Pair> := [];
      for i := 0 to |matches|
        invariant Valid() && Grows(old(pseudonyms), pseudonyms)
        invariant pseudonyms.Keys == old(pseudonyms).Keys + DeviceValues(lower, matches[..i])
        invariant parts == ScrubbedAll(lower, pseudonyms, matches[..i])
      {
        ghost var before := pseudonyms;
        var q := Scrub(lower, matches[i]);
        ScrubbedNext(lower, before, pseudonyms, matches, i);
        parts := parts + [q];
      }
      assert matches[..|matches|] == matches;
      value := scheme + " " + PrintPairs(parts);
    }
  }

  /** Names once given are never changed or taken back. */
  ghost predicate Grows(table: map<string, string>, later: map<string, string>)
  {
    forall v :: v in table ==> v in later && later[v] == table[v]
  }

  function DeviceValues(lower: char -> char, ps: seq<Pair>): set<string>
  {
    set p | p in ps && IsDevice(lower, p) :: p.value
  }

  lemma ScrubbedNext(lower: char -> char, table: map<string, string>, later: map<string, string>, ps: seq<Pair>, i: nat)
    requires i < |ps| && Grows(table, later) && DeviceValues(lower, ps[..i]) <= table.Keys
    ensures ScrubbedAll(lower, later, ps[..i + 1]) ==
      ScrubbedAll(lower, table, ps[..i]) + [Scrubbed(lower, later, ps[i])]
    ensures DeviceValues(lower, ps[..i + 1]) ==
            DeviceValues(lower, ps[..i]) + (if IsDevice(lower, ps[i]) then {ps[i].value} else {})
  {
    assert ps[..i + 1] == ps[..i] + [ps[i]];
    forall k | 0 <= k < i
      ensures Scrubbed(lower, later, ps[k]) == Scrubbed(lower, table, ps[k])
    {
      assert ps[k] in ps[..i];
    }
  }

  lemma NewNameFresh(table: map<string, string>, value: string)
    requires Injective(table) && value !in table
    ensures Injective(table[value := DeviceName(|table| + 1)])
  {
    hide DeviceName;
    var table' := table[value := DeviceName(|table| + 1)];
    assert |table'| == |table| + 1;
    forall v | v in table
      ensures table[v] != DeviceName(|table| + 1)
    {
      var n :| 1 <= n <= |table| && table[v] == DeviceName(n);
      if table[v] == DeviceName(|table| + 1) {
        DeviceNameInjective(n, |table| + 1);
      }
    }
    forall v | v in table'
      ensures exists n :: 1 <= n <= |table'| && table'[v] == DeviceName(n)
    {
      if v in table {
        var n :| 1 <= n <= |table| && table[v] == DeviceName(n);
      }
    }
  }

  /** A parameter as the redactor's expression matches it: an identifier, and a value without quotes. */
  ghost predicate Matched(p: Pair)
  {
    && p.key != "" && (IsLetter(p.key[0]) || p.key[0] == '_')
    && (forall i :: 0 <= i < |p.key| ==> IsLetter(p.key[i]) || IsDigit(p.key[i]) || p.key[i] == '_' || p.key[i] == '-')
    && '"' !in p.value
  }

  predicate IsLetter(c: char)
  {
    'a' <= c <= 'z' || 'A' <= c <= 'Z'
  }

  ghost predicate AsciiSpace(space: char -> bool)
  {
    PlainSpace(space) && forall c :: space(c) ==> !IsLetter(c) && !IsDigit(c) && c != '_' && c != '-'
  }

  lemma ScrubbedPrintable(space: char -> bool, lower: char -> char, table: map<string, string>, p: Pair)
    requires AsciiSpace(space) && Matched(p) && Injective(table)
    ensures Printable(space, Scrubbed(lower, table, p))
  {
    hide DeviceName, Trimmed;
    KeyPrintable(space, p);
    if p.value in table {
      var n :| 1 <= n <= |table| && table[p.value] == DeviceName(n);
      DeviceNameQuoteFree(n);
    }
    assert '"' !in PLACEHOLDER && '"' !in "";
  }

  lemma KeyPrintable(space: char -> bool, p: Pair)
    requires AsciiSpace(space) && Matched(p)
    ensures Printable(space, p)
  {
    var key := p.key;
    assert forall c :: c in key ==> IsLetter(c) || IsDigit(c) || c == '_' || c == '-';
  }

  lemma AllPrintable(space: char -> bool, lower: char -> char, table: map<string, string>, matches: seq<Pair>)
    requires AsciiSpace(space) && Injective(table) && forall p :: p in matches ==> Matched(p)
    ensures forall q :: q in ScrubbedAll(lower, table, matches) ==> Printable(space, q)
  {
    hide Printable, Injective, Matched;
    forall q | q in ScrubbedAll(lower, table, matches)
      ensures Printable(space, q)
    {
      var i :| 0 <= i < |matches| && q == Scrubbed(lower, table, matches[i]);
      ScrubbedPrintable(space, lower, table, matches[i]);
    }
  }

  /**
   A redacted header parses back to the pairs it was made from: the same keys and values in the
   same order, with the token replaced and the device id under its name in the table.
   */
  lemma RedactedParsesBack(space: char -> bool, lower: char -> char, table: map<string, string>, matches: seq<Pair>)
    requires AsciiSpace(space) && Injective(table)
    requires forall p :: p in matches ==> Matched(p)
    requires DeviceValues(lower, matches) <= table.Keys
    ensures Pairs(space, PrintPairs(ScrubbedAll(lower, table, matches))) == ScrubbedAll(lower, table, matches)
  {
    AllPrintable(space, lower, table, matches);
    SplitPairsUndoesPrint(space, ScrubbedAll(lower, table, matches));
  }

  /** And the whole redacted header carries the identity of the redacted pairs. */
  lemma RedactedHeaderCarries(casing: Casing, space: char -> bool, table: map<string, string>, scheme: string,
                              matches: seq<Pair>)
    requires AsciiSpace(space) && Injective(table) && matches != []
    requires forall p :: p in matches ==> Matched(p)
    requires DeviceValues(casing.lower, matches) <= table.Keys
    requires IsScheme(casing, scheme) && ' ' !in scheme && !space(scheme[0])
    ensures Carried(casing, space, scheme + " " + PrintPairs(ScrubbedAll(casing.lower, table, matches)))
            == FromPairs(casing, ScrubbedAll(casing.lower, table, matches))
  {
    hide Printable, Injective, IsScheme, Matched, PlainSpace;
    AllPrintable(space, casing.lower, table, matches);
    PrintedHeaderCarries(casing, space, scheme, ScrubbedAll(casing.lower, table, matches));
  }

  /** Two device ids come out alike exactly when they were alike: the mapping loses no identity. */
  lemma DevicesStayApart(lower: char -> char, table: map<string, string>, p: Pair, q: Pair)
    requires Injective(table) && IsDevice(lower, p) && IsDevice(lower, q) && p.value in table && q.value in table
    ensures Scrubbed(lower, table, p).value == Scrubbed(lower, table, q).value <==> p.value == q.value
  {
  }

  /**
   Over a whole capture: a device id redacted early and one redacted late come out alike exactly when
   they were alike.
   */
  lemma DevicesStayApartOverTime(lower: char -> char, table: map<string, string>, later: map<string, string>,
                                 p: Pair, q: Pair)
    requires Grows(table, later) && Injective(later)
    requires IsDevice(lower, p) && p.value in table && IsDevice(lower, q) && q.value in later
    ensures Scrubbed(lower, table, p).value == Scrubbed(lower, later, q).value <==> p.value == q.value
  {
    hide Injective;
    assert Scrubbed(lower, table, p) == Scrubbed(lower, later, p);
    DevicesStayApart(lower, later, p, q);
  }

  // ---- what is written, spelled out ----

  /** "device-" and the number, with zeros in front up to three digits. */
  lemma DeviceNameExactly(n: nat)
    ensures exists zeros :: DeviceName(n) == "device-" + (zeros + Print(n)) && (forall z :: z in zeros ==> z == '0')
                            && |zeros + Print(n)| >= 3 && (zeros != "" ==> |zeros + Print(n)| == 3)
  {
    hide Print;
    var d := Print(n);
    var zeros := if |d| == 1 then "00" else if |d| == 2 then "0" else "";
    assert zeros + d == Padded(n);
  }

  /** No key changes; no token's value stays; a device id becomes its name; everything else stays. */
  lemma ScrubbedExactly(lower: char -> char, table: map<string, string>, ps: seq<Pair>, i: nat)
    requires i < |ps|
    ensures var q, key := ScrubbedAll(lower, table, ps)[i], Lower(lower, ps[i].key);
      && q.key == ps[i].key
      && (key == "token" ==> q.value == "REDACTED")
      && ((key == "deviceid" || key == "device_id") && ps[i].value in table ==> q.value == table[ps[i].value])
      && (key != "token" && key != "deviceid" && key != "device_id" ==> q.value == ps[i].value)
  {
  }
}
