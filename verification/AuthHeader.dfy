/**
 The authorization header's `Key="Value"` list (internal/compat/jellyfin/authheader.go):
 a scan that tracks quotes, and a printer it undoes.
 */
module AuthHeader {
  import opened Text

  datatype Pair = Pair(key: string, value: string)

  // ---- the scan ----

  /** The first comma outside quotes, or the length. */
  function UnquotedComma(s: string, inQuotes: bool): (i: nat)
    ensures i <= |s| && (i < |s| ==> s[i] == ',')
  {
    if s == "" then 0
    else if s[0] == ',' && !inQuotes then 0
    else 1 + UnquotedComma(s[1..], if s[0] == '"' then !inQuotes else inQuotes)
  }

  function CommaPieces(s: string): seq<string>
    decreases |s|
  {
    var i := UnquotedComma(s, false);
    if i < |s| then [s[..i]] + CommaPieces(s[i + 1..]) else [s]
  }

  predicate Quoted(s: string)
  {
    |s| >= 2 && s[0] == '"' && s[|s| - 1] == '"'
  }

  /** Only a properly balanced pair of quotes comes off; a lone quote is data. */
  function Unquote(s: string): string
  {
    if Quoted(s) then s[1..|s| - 1] else s
  }

  function Emit(space: char -> bool, piece: string): Option<Pair>
  {
    var c := Cut(piece, '=');
    var key := TrimSpace(space, c.before);
    if !c.found || key == "" then None else Some(Pair(key, Unquote(TrimSpace(space, c.after))))
  }

  function EmitAll(space: char -> bool, pieces: seq<string>): seq<Pair>
  {
    if pieces == [] then []
    else
      var first := Emit(space, pieces[0]);
      (if first.Some? then [first.value] else []) + EmitAll(space, pieces[1..])
  }

  function Pairs(space: char -> bool, s: string): seq<Pair>
  {
    EmitAll(space, CommaPieces(s))
  }

  /** What one piece contributes. */
  function Emitted(space: char -> bool, piece: string): seq<Pair>
  {
    var p := Emit(space, piece);
    if p.Some? then [p.value] else []
  }

  method SplitPairs(space: char -> bool, s: string) returns (pairs: seq<Pair>)
    ensures pairs == Pairs(space, s)
  {
    hide Emit, Pairs, UnquotedComma;
    var start, inQuotes := 0, false;
    pairs := [];
    assert s[0..] == s;
    for i := 0 to |s|
      invariant 0 <= start <= i
      invariant Pairs(space, s) == pairs + Pairs(space, s[start..])
      invariant UnquotedComma(s[start..], false) == i - start + UnquotedComma(s[i..], inQuotes)
    {
      ScanStep(s, i, inQuotes);
      if s[i] == '"' {
        inQuotes := !inQuotes;
      } else if s[i] == ',' && !inQuotes {
        CommaPiecesStep(space, s[start..], i - start);
        assert s[start..][..i - start] == s[start..i] && s[start..][i - start + 1..] == s[i + 1..];
        pairs := pairs + Emitted(space, s[start..i]);
        start := i + 1;
      }
    }
    LastPiece(space, s[start..]);
    pairs := pairs + Emitted(space, s[start..]);
  }

  lemma ScanStep(s: string, i: nat, inQuotes: bool)
    requires i < |s|
    ensures UnquotedComma(s[i..], inQuotes) ==
            if s[i] == ',' && !inQuotes then 0
            else 1 + UnquotedComma(s[i + 1..], if s[i] == '"' then !inQuotes else inQuotes)
    ensures i + 1 == |s| ==> UnquotedComma(s[i + 1..], inQuotes) == 0
  {
    assert s[i..][1..] == s[i + 1..];
  }

  lemma LastPiece(space: char -> bool, s: string)
    requires UnquotedComma(s, false) == |s|
    ensures Pairs(space, s) == Emitted(space, s)
  {
    hide Emit, EmitAll, UnquotedComma, Emitted;
    assert CommaPieces(s) == [s] + [];
    EmitAllCons(space, s, []);
  }

  lemma EmitAllCons(space: char -> bool, first: string, rest: seq<string>)
    ensures EmitAll(space, [first] + rest) == Emitted(space, first) + EmitAll(space, rest)
    ensures EmitAll(space, []) == []
  {
    hide Emit;
    assert ([first] + rest)[1..] == rest;
  }

  lemma CommaPiecesStep(space: char -> bool, s: string, i: nat)
    requires i == UnquotedComma(s, false) < |s|
    ensures Pairs(space, s) == Emitted(space, s[..i]) + Pairs(space, s[i + 1..])
  {
    hide Emit, EmitAll, UnquotedComma, Emitted;
    EmitAllCons(space, s[..i], CommaPieces(s[i + 1..]));
  }

  // ---- the printer ----

  function PrintPair(p: Pair): string
  {
    p.key + "=\"" + p.value + "\""
  }

  function PrintPairs(ps: seq<Pair>): string
  {
    if |ps| == 0 then ""
    else if |ps| == 1 then PrintPair(ps[0])
    else PrintPair(ps[0]) + ", " + PrintPairs(ps[1..])
  }

  /** Whitespace includes the blank after a comma, and neither the quote nor the equals sign. */
  ghost predicate PlainSpace(space: char -> bool)
  {
    space(' ') && !space('"')
  }

  ghost predicate Printable(space: char -> bool, p: Pair)
  {
    && p.key != "" && Trimmed(space, p.key)
    && '=' !in p.key && ',' !in p.key && '"' !in p.key
    && '"' !in p.value
  }

  lemma {:induction false} NoCommaBefore(s: string, rest: string, inQuotes: bool)
    requires '"' !in s && (!inQuotes ==> ',' !in s)
    ensures UnquotedComma(s + rest, inQuotes) == |s| + UnquotedComma(rest, inQuotes)
  {
    if s == "" {
      assert s + rest == rest;
    } else {
      assert (s + rest)[1..] == s[1..] + rest;
      NoCommaBefore(s[1..], rest, inQuotes);
    }
  }

  /** Commas inside a printed pair are all quoted. */
  lemma CommaAfterPair(space: char -> bool, blank: string, p: Pair, rest: string)
    requires Printable(space, p) && (blank == "" || blank == " ")
    ensures UnquotedComma(blank + PrintPair(p) + rest, false) == |blank + PrintPair(p)| + UnquotedComma(rest, false)
  {
    var head := blank + p.key + "=";
    var afterOpen := p.value + ("\"" + rest);
    assert blank + PrintPair(p) + rest == head + ("\"" + afterOpen);
    NoCommaBefore(head, "\"" + afterOpen, false);
    assert ("\"" + afterOpen)[1..] == afterOpen;
    NoCommaBefore(p.value, "\"" + rest, true);
    assert ("\"" + rest)[1..] == rest;
  }

  lemma EmitPrinted(space: char -> bool, blank: string, p: Pair)
    requires PlainSpace(space) && Printable(space, p) && (blank == "" || blank == " ")
    ensures Emit(space, blank + PrintPair(p)) == Some(p)
  {
    hide Cut;
    var quoted := "\"" + p.value + "\"";
    assert blank + PrintPair(p) == (blank + p.key) + ['='] + quoted;
    CutAtFirst(blank + p.key, quoted, '=');
    TrimmedStays(space, quoted);
    TrimBlank(space, blank, p.key);
    assert quoted[1..|quoted| - 1] == p.value;
  }

  lemma TrimBlank(space: char -> bool, blank: string, key: string)
    requires PlainSpace(space) && key != "" && Trimmed(space, key) && (blank == "" || blank == " ")
    ensures TrimSpace(space, blank + key) == key
  {
    TrimmedStays(space, key);
    if blank == " " {
      assert (blank + key)[1..] == key;
    } else {
      assert blank + key == key;
    }
  }

  /** A piece followed by the separator contributes itself, and the scan goes on after the comma. */
  lemma PieceThenRest(space: char -> bool, s: string, rest: string)
    requires UnquotedComma(s + (", " + rest), false) == |s| + UnquotedComma(", " + rest, false)
    ensures Pairs(space, s + (", " + rest)) == Emitted(space, s) + Pairs(space, " " + rest)
  {
    hide *;
    SeparatorParts(s, rest);
    CommaPiecesStep(space, s + (", " + rest), |s|);
  }

  lemma SeparatorParts(s: string, rest: string)
    ensures var whole := s + (", " + rest); whole[..|s|] == s && whole[|s| + 1..] == " " + rest && |whole| > |s|
    ensures UnquotedComma(", " + rest, false) == 0
  {
    var tail := ", " + rest;
    assert tail[1..] == " " + rest;
    assert (s + tail)[|s| + 1..] == tail[1..];
  }

  lemma {:induction false} PairsOfPrinted(space: char -> bool, blank: string, ps: seq<Pair>)
    requires PlainSpace(space) && (blank == "" || blank == " ") && ps != []
    requires forall p :: p in ps ==> Printable(space, p)
    ensures Pairs(space, blank + PrintPairs(ps)) == ps
    decreases |ps|
  {
    hide Emit, Printable, UnquotedComma, Pairs, PrintPair;
    var p := ps[0];
    var s := blank + PrintPair(p);
    EmitPrinted(space, blank, p);
    if |ps| == 1 {
      CommaAfterPair(space, blank, p, "");
      assert s + "" == s && UnquotedComma("", false) == 0;
      LastPiece(space, s);
      assert ps == [p];
    } else {
      var rest := PrintPairs(ps[1..]);
      PairsOfPrinted(space, " ", ps[1..]);
      CommaAfterPair(space, blank, p, ", " + rest);
      Assoc(blank, PrintPair(p), ", " + rest);
      Assoc(PrintPair(p), ", ", rest);
      PieceThenRest(space, s, rest);
      assert ps == [p] + ps[1..];
    }
  }

  /** Scanning a printed list yields exactly that list, commas and equals signs in values included. */
  lemma SplitPairsUndoesPrint(space: char -> bool, ps: seq<Pair>)
    requires PlainSpace(space) && forall p :: p in ps ==> Printable(space, p)
    ensures Pairs(space, PrintPairs(ps)) == ps
  {
    if ps != [] {
      PairsOfPrinted(space, "", ps);
      assert "" + PrintPairs(ps) == PrintPairs(ps);
    }
  }

  // ---- the header value ----

  datatype Authorization = Authorization(
    client: string, device: string, deviceId: string, version: string, token: string)

  const EMPTY := Authorization("", "", "", "", "")

  /** Setting the field a key names; unknown keys are ignored. */
  function SetField(casing: Casing, auth: Authorization, p: Pair): Authorization
  {
    var key := Lower(casing.lower, p.key);
    if key == "client" then auth.(client := p.value)
    else if key == "device" then auth.(device := p.value)
    else if key == "deviceid" then auth.(deviceId := p.value)
    else if key == "version" then auth.(version := p.value)
    else if key == "token" then auth.(token := p.value)
    else auth
  }

  function FromPairs(casing: Casing, ps: seq<Pair>): Authorization
  {
    if ps == [] then EMPTY else SetField(casing, FromPairs(casing, ps[..|ps| - 1]), ps[|ps| - 1])
  }

  predicate IsScheme(casing: Casing, scheme: string)
  {
    EqualFold(casing, scheme, "MediaBrowser")
  }

  /** The identity a header value carries; anything that is not this scheme carries none. */
  function Carried(casing: Casing, space: char -> bool, raw: string): Authorization
  {
    var c := Cut(TrimSpace(space, raw), ' ');
    if c.found && IsScheme(casing, c.before) then FromPairs(casing, Pairs(space, c.after)) else EMPTY
  }

  method ParseAuthValue(casing: Casing, space: char -> bool, raw: string) returns (auth: Authorization)
    ensures auth == Carried(casing, space, raw)
  {
    hide IsScheme, Pairs, SetField;
    auth := EMPTY;
    var value := TrimSpace(space, raw);
    var c := Cut(value, ' ');
    if !c.found || !IsScheme(casing, c.before) {
      return;
    }
    var pairs := SplitPairs(space, c.after);
    for i := 0 to |pairs|
      invariant auth == FromPairs(casing, pairs[..i])
    {
      assert pairs[..i + 1][..i] == pairs[..i];
      auth := SetField(casing, auth, pairs[i]);
    }
    assert pairs[..|pairs|] == pairs;
  }

  /** The last pair whose key names the field decides it. */
  lemma {:induction false} LastTokenWins(casing: Casing, ps: seq<Pair>, k: nat)
    requires k < |ps| && Lower(casing.lower, ps[k].key) == "token"
    requires forall i :: k < i < |ps| ==> Lower(casing.lower, ps[i].key) != "token"
    ensures FromPairs(casing, ps).token == ps[k].value
  {
    if k < |ps| - 1 {
      LastTokenWins(casing, ps[..|ps| - 1], k);
    }
  }

  lemma {:induction false} PrintedEnds(ps: seq<Pair>)
    requires ps != []
    ensures var s := PrintPairs(ps); s != "" && s[|s| - 1] == '"'
  {
    if |ps| > 1 {
      PrintedEnds(ps[1..]);
    }
  }

  /** A printed header carries exactly the identity of the pairs it was printed from. */
  lemma PrintedHeaderCarries(casing: Casing, space: char -> bool, scheme: string, ps: seq<Pair>)
    requires PlainSpace(space) && ps != [] && forall p :: p in ps ==> Printable(space, p)
    requires IsScheme(casing, scheme) && ' ' !in scheme && !space(scheme[0])
    ensures Carried(casing, space, scheme + " " + PrintPairs(ps)) == FromPairs(casing, ps)
  {
    hide Pairs, PrintPairs, FromPairs, IsScheme, Printable;
    assert scheme != "" by {
      SchemeNonEmpty(casing, scheme);
    }
    var list := PrintPairs(ps);
    var s := scheme + [' '] + list;
    PrintedEnds(ps);
    assert s[|s| - 1] == list[|list| - 1] && s[0] == scheme[0];
    TrimmedStays(space, s);
    CutAtFirst(scheme, list, ' ');
    SplitPairsUndoesPrint(space, ps);
  }

  lemma SchemeNonEmpty(casing: Casing, scheme: string)
    requires IsScheme(casing, scheme)
    ensures scheme != ""
  {
  }

  // ---- field by field ----

  /** A pair sets the field its key names, and no other. */
  lemma FieldSet(casing: Casing, auth: Authorization, p: Pair)
    ensures var key, after := Lower(casing.lower, p.key), SetField(casing, auth, p);
      && after.client == (if key == "client" then p.value else auth.client)
      && after.device == (if key == "device" then p.value else auth.device)
      && after.deviceId == (if key == "deviceid" then p.value else auth.deviceId)
      && after.version == (if key == "version" then p.value else auth.version)
      && after.token == (if key == "token" then p.value else auth.token)
  {
    hide Lower;
  }

  /** Each field is that of the last pair whose key names it, in any casing of the key. */
  lemma {:induction false} LastNamed(casing: Casing, ps: seq<Pair>, k: nat, name: string)
    requires k < |ps| && Lower(casing.lower, ps[k].key) == name
    requires forall i :: k < i < |ps| ==> Lower(casing.lower, ps[i].key) != name
    ensures var auth := FromPairs(casing, ps);
      && (name == "client" ==> auth.client == ps[k].value)
      && (name == "device" ==> auth.device == ps[k].value)
      && (name == "deviceid" ==> auth.deviceId == ps[k].value)
      && (name == "version" ==> auth.version == ps[k].value)
      && (name == "token" ==> auth.token == ps[k].value)
  {
    hide SetField, Lower;
    FieldSet(casing, FromPairs(casing, ps[..|ps| - 1]), ps[|ps| - 1]);
    if k < |ps| - 1 {
      LastNamed(casing, ps[..|ps| - 1], k, name);
    }
  }

  /** A field that no key names is empty. */
  lemma {:induction false} NeverNamed(casing: Casing, ps: seq<Pair>, name: string)
    requires forall i :: 0 <= i < |ps| ==> Lower(casing.lower, ps[i].key) != name
    ensures var auth := FromPairs(casing, ps);
      && (name == "client" ==> auth.client == "")
      && (name == "device" ==> auth.device == "")
      && (name == "deviceid" ==> auth.deviceId == "")
      && (name == "version" ==> auth.version == "")
      && (name == "token" ==> auth.token == "")
  {
    if ps != [] {
      hide SetField, Lower;
      FieldSet(casing, FromPairs(casing, ps[..|ps| - 1]), ps[|ps| - 1]);
      NeverNamed(casing, ps[..|ps| - 1], name);
    }
  }

  /** A key or a value with blanks around it. */
  function Padded(before: string, core: string, after: string): string
  {
    before + (core + after)
  }

  /**
   One piece of a header as a pair: blanks around key and value play no part, quotes around a whole value
   come off, a lone quote or none is the value.
   */
  lemma PieceReads(space: char -> bool, key: string, value: string, a: string, b: string, c: string, d: string)
    requires AllSpace(space, a) && AllSpace(space, b) && AllSpace(space, c) && AllSpace(space, d)
    requires '=' !in Padded(a, key, b) && key != "" && Trimmed(space, key) && !space('"')
    ensures value != "" && Trimmed(space, value) && !Quoted(value) ==>
      Emit(space, Padded(a, key, b) + ['='] + Padded(c, value, d)) == Some(Pair(key, value))
    ensures Emit(space, Padded(a, key, b) + ['='] + Padded(c, "\"" + value + "\"", d)) == Some(Pair(key, value))
    ensures Emit(space, Padded(a, key, b)) == None
  {
    hide Cut, Padded;
    var quoted := "\"" + value + "\"";
    CutAtFirst(Padded(a, key, b), Padded(c, value, d), '=');
    CutAtFirst(Padded(a, key, b), Padded(c, quoted, d), '=');
    PaddedTrims(space, a, key, b);
    PaddedTrims(space, c, quoted, d);
    if value != "" && Trimmed(space, value) {
      PaddedTrims(space, c, value, d);
    }
    assert quoted[1..|quoted| - 1] == value;
  }

  lemma PaddedTrims(space: char -> bool, before: string, core: string, after: string)
    requires AllSpace(space, before) && AllSpace(space, after) && core != "" && Trimmed(space, core)
    ensures TrimSpace(space, Padded(before, core, after)) == core
  {
    TrimBlanks(space, before, core, after);
  }

  /** A piece without a key says nothing. */
  lemma KeylessSaysNothing(space: char -> bool, blanks: string, value: string)
    requires AllSpace(space, blanks) && '=' !in blanks
    ensures Emit(space, blanks + ['='] + value) == None
  {
    hide Cut;
    CutAtFirst(blanks, value, '=');
    BlanksTrim(space, blanks);
  }

  lemma {:induction false} BlanksTrim(space: char -> bool, blanks: string)
    requires AllSpace(space, blanks)
    ensures TrimSpaceLeft(space, blanks) == ""
  {
    if blanks != "" {
      BlanksTrim(space, blanks[1..]);
    }
  }

  /** Blanks around a whole header play no part. */
  lemma BlanksAroundHeader(casing: Casing, space: char -> bool, before: string, raw: string, after: string)
    requires AllSpace(space, before) && AllSpace(space, after) && raw != "" && Trimmed(space, raw)
    ensures Carried(casing, space, Padded(before, raw, after)) == Carried(casing, space, raw)
  {
    hide Cut, Pairs, FromPairs, IsScheme;
    PaddedTrims(space, before, raw, after);
    TrimmedStays(space, raw);
  }

  /** Only the one scheme carries anything; anything else, or a value without a blank, carries nothing. */
  lemma OtherSchemeCarriesNothing(casing: Casing, space: char -> bool, scheme: string, rest: string)
    requires ' ' !in scheme && Trimmed(space, scheme + " " + rest)
    ensures !EqualFold(casing, scheme, "MediaBrowser") ==> Carried(casing, space, scheme + " " + rest) == EMPTY
    ensures Trimmed(space, scheme) ==> Carried(casing, space, scheme) == EMPTY
  {
    hide Cut, EqualFold, Pairs;
    TrimmedStays(space, scheme + " " + rest);
    CutAtFirst(scheme, rest, ' ');
    if Trimmed(space, scheme) {
      TrimmedStays(space, scheme);
    }
  }
}
