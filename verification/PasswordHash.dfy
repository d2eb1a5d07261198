/**
 The PHC string a password hash is stored as (internal/auth/password.go). Argon2id itself
 is a parameter; the string is what is modelled.
 */
module PasswordHash {
  import opened Text
  import opened Decimal
  import opened Base64

  const ARGON_VERSION: nat := 19
  const MIN_PASSWORD_LENGTH: nat := 12
  const KEY_LENGTH: nat := 32

  datatype Params = Params(memory: nat, time: nat, threads: nat)

  const CURRENT := Params(64 * 1024, 3, 4)

  /** Parameters that fit the 32-bit and 8-bit fields they are scanned into. */
  ghost predicate InRange(p: Params)
  {
    p.memory < 0x1_0000_0000 && p.time < 0x1_0000_0000 && p.threads < 256
  }

  datatype Decoded = Decoded(params: Params, salt: seq<Byte>, key: seq<Byte>)

  datatype DecodeError = Malformed | WrongAlgorithm(name: string) | WrongVersion(version: int)

  datatype Result<+T, +E> = Success(value: T) | Failure(error: E)

  /** "$argon2id$v=%d$m=%d,t=%d,p=%d$%s$%s" */
  function EncodeHash(p: Params, salt: seq<Byte>, key: seq<Byte>): string
  {
    "$argon2id$v=" + Print(ARGON_VERSION) + "$" + Costs(p) + "$" + Encode(salt) + "$" + Encode(key)
  }

  function Costs(p: Params): string
  {
    "m=" + Print(p.memory) + ",t=" + Print(p.time) + ",p=" + Print(p.threads)
  }

  function ScanVersion(s: string): Option<int>
  {
    var t := ScanLiteral(s, "v=");
    if t.None? then None
    else
      var v := ScanInt(t.value);
      if v.None? then None else Some(v.value.value)
  }

  /** Sscanf over "m=%d,t=%d,p=%d": what follows the last number is not looked at. */
  function ScanCosts(s: string): Option<Params>
  {
    var t := ScanLiteral(s, "m=");
    if t.None? then None else
    var m := ScanUint(t.value, 0x1_0000_0000);
    if m.None? then None else
    var u := ScanLiteral(m.value.rest, ",t=");
    if u.None? then None else
    var n := ScanUint(u.value, 0x1_0000_0000);
    if n.None? then None else
    var w := ScanLiteral(n.value.rest, ",p=");
    if w.None? then None else
    var k := ScanUint(w.value, 256);
    if k.None? then None else Some(Params(m.value.value, n.value.value, k.value.value))
  }

  function DecodeHash(encoded: string): Result<Decoded, DecodeError>
  {
    var parts := Split(encoded, '$');
    if |parts| != 6 || parts[0] != "" then Failure(Malformed)
    else if parts[1] != "argon2id" then Failure(WrongAlgorithm(parts[1]))
    else
      var version := ScanVersion(parts[2]);
      if version.None? then Failure(Malformed)
      else if version.value != ARGON_VERSION then Failure(WrongVersion(version.value))
      else
        var p := ScanCosts(parts[3]);
        if p.None? || p.value.memory == 0 || p.value.time == 0 || p.value.threads == 0 then Failure(Malformed)
        else
          var salt, key := Decode(parts[4]), Decode(parts[5]);
          if salt.None? || salt.value == [] || key.None? || key.value == [] then Failure(Malformed)
          else Success(Decoded(p.value, salt.value, key.value))
  }

  // ---- the round trip ----

  function Fields(p: Params, salt: seq<Byte>, key: seq<Byte>): seq<string>
  {
    ["", "argon2id", "v=" + Print(ARGON_VERSION), Costs(p), Encode(salt), Encode(key)]
  }

  lemma EncodeHashJoins(p: Params, salt: seq<Byte>, key: seq<Byte>)
    ensures EncodeHash(p, salt, key) == Join(Fields(p, salt, key), '$')
  {
    hide Print, Costs, Encode;
    var v, c, s, k := "v=" + Print(ARGON_VERSION), Costs(p), Encode(salt), Encode(key);
    JoinSix("", "argon2id", v, c, s, k);
    assert "$argon2id$v=" + Print(ARGON_VERSION) == "" + ['$'] + "argon2id" + ['$'] + v;
  }

  lemma JoinSix(a: string, b: string, c: string, d: string, e: string, f: string)
    ensures Join([a, b, c, d, e, f], '$') == a + ['$'] + b + ['$'] + c + "$" + d + "$" + e + "$" + f
  {
    var all := [a, b, c, d, e, f];
    assert all[1..] == [b, c, d, e, f] && all[1..][1..] == [c, d, e, f];
    assert [c, d, e, f][1..] == [d, e, f] && [d, e, f][1..] == [e, f] && [e, f][1..] == [f];
    assert Join([f], '$') == f;
    assert Join([e, f], '$') == e + ['$'] + f;
    assert Join([d, e, f], '$') == d + ['$'] + Join([e, f], '$');
    assert Join([c, d, e, f], '$') == c + ['$'] + Join([d, e, f], '$');
    assert Join([b, c, d, e, f], '$') == b + ['$'] + Join([c, d, e, f], '$');
  }

  lemma DigitsAvoid(s: string, c: char)
    requires AllDigits(s) && !IsDigit(c)
    ensures c !in s
  {
  }

  lemma FieldsFree(p: Params, salt: seq<Byte>, key: seq<Byte>)
    ensures Free(Fields(p, salt, key), '$')
  {
    hide Print, Encode;
    DigitsAvoid(Print(p.memory), '$');
    DigitsAvoid(Print(p.time), '$');
    DigitsAvoid(Print(p.threads), '$');
    DigitsAvoid(Print(ARGON_VERSION), '$');
    EncodeAvoids(salt, '$');
    EncodeAvoids(key, '$');
  }

  lemma ScanPrintedCosts(p: Params)
    requires InRange(p)
    ensures ScanCosts(Costs(p)) == Some(p)
  {
    hide Print, ScanUint, ScanLiteral;
    var third := ",p=" + Print(p.threads);
    var second := ",t=" + (Print(p.time) + third);
    assert Costs(p) == "m=" + (Print(p.memory) + second);
    ScanLiteralIs("m=", Print(p.memory) + second);
    ScanPrintedUint(p.memory, 0x1_0000_0000, second);
    ScanLiteralIs(",t=", Print(p.time) + third);
    ScanPrintedUint(p.time, 0x1_0000_0000, third);
    ScanLiteralIs(",p=", Print(p.threads));
    assert Print(p.threads) + "" == Print(p.threads);
    ScanPrintedUint(p.threads, 256, "");
  }

  lemma ScanPrintedVersion()
    ensures ScanVersion("v=" + Print(ARGON_VERSION)) == Some(ARGON_VERSION)
  {
    hide Print, ScanInt, ScanLiteral;
    ScanLiteralIs("v=", Print(ARGON_VERSION));
    assert Print(ARGON_VERSION) + "" == Print(ARGON_VERSION);
    ScanPrintedInt(ARGON_VERSION, "");
  }

  predicate Usable(p: Params, salt: seq<Byte>, key: seq<Byte>)
  {
    p.memory != 0 && p.time != 0 && p.threads != 0 && salt != [] && key != []
  }

  /** A printed hash reads back exactly, and is refused just when a cost is zero or the salt or key is empty. */
  lemma DecodeEncodeHash(p: Params, salt: seq<Byte>, key: seq<Byte>)
    requires InRange(p)
    ensures DecodeHash(EncodeHash(p, salt, key)) ==
            if Usable(p, salt, key) then Success(Decoded(p, salt, key)) else Failure(Malformed)
  {
    hide Print, Costs, ScanCosts, ScanVersion, Encode, Decode, Split, Join, Free, EncodeHash, InRange;
    EncodeHashJoins(p, salt, key);
    FieldsFree(p, salt, key);
    SplitJoin(Fields(p, salt, key), '$');
    ScanPrintedVersion();
    ScanPrintedCosts(p);
    DecodeEncode(salt);
    DecodeEncode(key);
  }

  /** Whatever is accepted names this version and usable values: nothing malformed gets through. */
  lemma DecodedIsUsable(encoded: string)
    ensures DecodeHash(encoded).Success? ==>
      var d := DecodeHash(encoded).value; Usable(d.params, d.salt, d.key) && InRange(d.params)
  {
    hide Split, Decode, SkipSpace, DigitRun;
  }

  /** Any string that is accepted, however it was written, is accepted again as printed here, with the same values. */
  lemma ReprintedReadsSame(encoded: string)
    requires DecodeHash(encoded).Success?
    ensures var d := DecodeHash(encoded).value; DecodeHash(EncodeHash(d.params, d.salt, d.key)) == Success(d)
  {
    hide DecodeHash, EncodeHash;
    var d := DecodeHash(encoded).value;
    DecodedIsUsable(encoded);
    DecodeEncodeHash(d.params, d.salt, d.key);
  }

  // ---- hashing and verifying, over an abstract key derivation ----

  type Derivation = (string, seq<Byte>, Params, nat) -> seq<Byte>

  function HashPassword(derive: Derivation, password: string, salt: seq<Byte>): Option<string>
  {
    if |password| < MIN_PASSWORD_LENGTH then None
    else Some(EncodeHash(CURRENT, salt, derive(password, salt, CURRENT, KEY_LENGTH)))
  }

  datatype VerifyError = Mismatch | InvalidHash(why: DecodeError)

  function VerifyPassword(derive: Derivation, encoded: string, password: string): Result<(), VerifyError>
  {
    var d := DecodeHash(encoded);
    if d.Failure? then Failure(InvalidHash(d.error))
    else if derive(password, d.value.salt, d.value.params, |d.value.key|) != d.value.key then Failure(Mismatch)
    else Success(())
  }

  /** A stored hash verifies exactly the passwords that derive the same key, and never reads as corrupt. */
  lemma VerifiesOwnHash(derive: Derivation, password: string, salt: seq<Byte>, attempt: string)
    requires |password| >= MIN_PASSWORD_LENGTH && salt != []
    requires forall p, s, c, n :: |derive(p, s, c, n)| == n
    ensures var stored := HashPassword(derive, password, salt).value;
            VerifyPassword(derive, stored, attempt) ==
            if derive(attempt, salt, CURRENT, KEY_LENGTH) == derive(password, salt, CURRENT, KEY_LENGTH)
            then Success(()) else Failure(Mismatch)
  {
    hide EncodeHash, DecodeHash;
    DecodeEncodeHash(CURRENT, salt, derive(password, salt, CURRENT, KEY_LENGTH));
  }

  // ---- what an accepted string says ----

  /** An accepted string names the one algorithm and version 19, however the number is written. */
  lemma AcceptedNames(encoded: string)
    requires DecodeHash(encoded).Success?
    ensures exists version, rest ::
      encoded == "$argon2id$v=" + version + "$" + rest && '$' !in version
      && ScanInt(version).Some? && ScanInt(version).value.value == 19
  {
    hide *;
    AcceptedParts(encoded);
    var parts := Split(encoded, '$');
    var version, rest := parts[2][2..], Join(parts[3..], '$');
    SixJoined(parts);
    Prefixed(version, rest);
    assert encoded == "$argon2id$v=" + version + "$" + rest;
  }

  lemma AcceptedParts(encoded: string)
    requires DecodeHash(encoded).Success?
    ensures var parts := Split(encoded, '$');
      && |parts| == 6 && parts[0] == "" && parts[1] == "argon2id" && Join(parts, '$') == encoded
      && |parts[2]| >= 2 && parts[2] == "v=" + parts[2][2..] && '$' !in parts[2][2..]
      && ScanInt(parts[2][2..]).Some? && ScanInt(parts[2][2..]).value.value == 19
  {
    hide ScanCosts, ScanVersion, Decode, Join;
    var parts := Split(encoded, '$');
    assert parts[2] in parts;
    hide Split;
    VersionField(parts[2]);
  }

  lemma VersionField(s: string)
    requires ScanVersion(s) == Some(19)
    ensures |s| >= 2 && s == "v=" + s[2..] && ScanInt(s[2..]).Some? && ScanInt(s[2..]).value.value == 19
    ensures '$' !in s ==> '$' !in s[2..]
  {
    hide ScanInt;
  }

  lemma Prefixed(version: string, rest: string)
    ensures "" + ['$'] + ("argon2id" + ['$'] + ("v=" + version + ['$'] + rest)) == "$argon2id$v=" + version + "$" + rest
  {
    var tail := version + ['$'] + rest;
    assert "v=" + version + ['$'] + rest == "v=" + tail;
    assert "" + ['$'] + ("argon2id" + ['$'] + ("v=" + tail)) == "$argon2id$v=" + tail;
    assert "$argon2id$v=" + version + "$" + rest == "$argon2id$v=" + tail;
  }

  lemma SixJoined(parts: seq<string>)
    requires |parts| == 6
    ensures Join(parts, '$') == parts[0] + ['$'] + (parts[1] + ['$'] + (parts[2] + ['$'] + Join(parts[3..], '$')))
  {
    assert parts[1..][1..] == parts[2..] && parts[2..][1..] == parts[3..];
    assert parts[1..][0] == parts[1] && parts[2..][0] == parts[2];
    assert Join(parts[2..], '$') == parts[2] + ['$'] + Join(parts[3..], '$');
    assert Join(parts[1..], '$') == parts[1] + ['$'] + Join(parts[2..], '$');
  }

  /** Another algorithm, or another version of this one, is refused by its name or number. */
  lemma OthersRefused(name: string, version: nat, costs: string, salt: string, key: string)
    requires Free([name, costs, salt, key], '$') && version < 0x8000_0000_0000_0000
    ensures var r := DecodeHash(Join(["", name, "v=" + Print(version), costs, salt, key], '$'));
      && (name != "argon2id" ==> r == Failure(WrongAlgorithm(name)))
      && (name == "argon2id" && version != 19 ==> r == Failure(WrongVersion(version)))
  {
    hide Print, ScanCosts, Decode, ScanInt, Join, Split;
    var parts := ["", name, "v=" + Print(version), costs, salt, key];
    DigitsAvoid(Print(version), '$');
    forall p | p in parts
      ensures '$' !in p
    {
      assert p in [name, costs, salt, key] || p == "" || p == "v=" + Print(version);
    }
    SplitJoin(parts, '$');
    ScanLiteralIs("v=", Print(version));
    assert Print(version) + "" == Print(version);
    ScanPrintedInt(version, "");
  }

  lemma PrintedNumbers()
    ensures Print(3) == "3" && Print(4) == "4" && Print(19) == "19" && Print(65536) == "65536"
  {
    assert Print(1) == "1" && Print(6) == "6";
    assert Print(65) == Print(6) + ['5'] && Print(655) == Print(65) + ['5'];
    assert Print(6553) == Print(655) + ['3'] && Print(65536) == Print(6553) + ['6'];
  }

  lemma CurrentCosts()
    ensures Costs(CURRENT) == "m=65536,t=3,p=4"
  {
    PrintedNumbers();
    hide Print;
  }

  /** The cost a new hash is made with, and the string that it is stored as. */
  lemma StoredShape(derive: Derivation, password: string, salt: seq<Byte>)
    ensures HashPassword(derive, password, salt).None? <==> |password| < 12
    ensures |password| >= 12 ==>
      HashPassword(derive, password, salt) ==
        Some("$argon2id$v=19$m=65536,t=3,p=4$" + Encode(salt) + "$"
             + Encode(derive(password, salt, Params(65536, 3, 4), 32)))
  {
    hide Encode, Print, Costs;
    PrintedNumbers();
    CurrentCosts();
    assert "$argon2id$v=" + "19" + "$" + "m=65536,t=3,p=4" + "$" == "$argon2id$v=19$m=65536,t=3,p=4$";
  }
}
