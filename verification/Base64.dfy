/** Unpadded standard base64 (sections 3.2 and 4 of RFC 4648), as `base64.RawStdEncoding` reads and writes it. */
module Base64 {
  import opened Text

  type Byte = b: int | 0 <= b < 256
  type Sextet = v: int | 0 <= v < 64

  function CharOf(v: Sextet): (c: char)
    ensures ValueOf(c) == Some(v)
  {
    if v < 26 then ('A' as int + v) as char
    else if v < 52 then ('a' as int + v - 26) as char
    else if v < 62 then ('0' as int + v - 52) as char
    else if v == 62 then '+'
    else '/'
  }

  function ValueOf(c: char): Option<Sextet>
  {
    if 'A' <= c <= 'Z' then Some(c as int - 'A' as int)
    else if 'a' <= c <= 'z' then Some(c as int - 'a' as int + 26)
    else if '0' <= c <= '9' then Some(c as int - '0' as int + 52)
    else if c == '+' then Some(62)
    else if c == '/' then Some(63)
    else None
  }

  function Chars(vs: seq<Sextet>): (s: string)
    ensures |s| == |vs| && forall i :: 0 <= i < |vs| ==> s[i] == CharOf(vs[i])
  {
    seq(|vs|, i requires 0 <= i < |vs| => CharOf(vs[i]))
  }

  function High(a: Byte): Sextet { a / 4 }

  function Join1(a: Byte, b: Byte): Sextet { a % 4 * 16 + b / 16 }

  function Join2(b: Byte, c: Byte): Sextet { b % 16 * 4 + c / 64 }

  function Low(c: Byte): Sextet { c % 64 }

  /** Three bytes to four sextets; a tail of one or two bytes to two or three, zero-filled. */
  function Sextets(bs: seq<Byte>): seq<Sextet>
  {
    if |bs| == 0 then []
    else if |bs| == 1 then [High(bs[0]), Join1(bs[0], 0)]
    else if |bs| == 2 then [High(bs[0]), Join1(bs[0], bs[1]), Join2(bs[1], 0)]
    else [High(bs[0]), Join1(bs[0], bs[1]), Join2(bs[1], bs[2]), Low(bs[2])] + Sextets(bs[3..])
  }

  function Encode(bs: seq<Byte>): string
  {
    Chars(Sextets(bs))
  }

  function First(u: Sextet, v: Sextet): Byte
  {
    u * 4 + v / 16
  }

  function Second(v: Sextet, w: Sextet): Byte
  {
    v % 16 * 16 + w / 4
  }

  function Third(w: Sextet, x: Sextet): Byte
  {
    w % 4 * 64 + x
  }

  /** The reverse. Unused low bits of a tail are ignored, and a lone sextet is an error. */
  function Octets(vs: seq<Sextet>): Option<seq<Byte>>
  {
    if |vs| == 0 then Some([])
    else if |vs| == 1 then None
    else if |vs| == 2 then Some([First(vs[0], vs[1])])
    else if |vs| == 3 then Some([First(vs[0], vs[1]), Second(vs[1], vs[2])])
    else
      var rest := Octets(vs[4..]);
      if rest.None? then None
      else Some([First(vs[0], vs[1]), Second(vs[1], vs[2]), Third(vs[2], vs[3])] + rest.value)
  }

  predicate IsNewline(c: char)
  {
    c == '\r' || c == '\n'
  }

  /** Newlines are skipped wherever they stand; any other foreign character is an error. */
  function Values(s: string): Option<seq<Sextet>>
  {
    if s == "" then Some([])
    else if IsNewline(s[0]) then Values(s[1..])
    else
      var v, rest := ValueOf(s[0]), Values(s[1..]);
      if v.None? || rest.None? then None else Some([v.value] + rest.value)
  }

  function Decode(s: string): Option<seq<Byte>>
  {
    var vs := Values(s);
    if vs.None? then None else Octets(vs.value)
  }

  lemma {:induction false} ValuesOfChars(vs: seq<Sextet>)
    ensures Values(Chars(vs)) == Some(vs)
  {
    if vs != [] {
      assert Chars(vs)[1..] == Chars(vs[1..]);
      ValuesOfChars(vs[1..]);
      assert vs == [vs[0]] + vs[1..];
    }
  }

  lemma PackedBytes(a: Byte, b: Byte, c: Byte)
    ensures First(High(a), Join1(a, b)) == a
    ensures Second(Join1(a, b), Join2(b, c)) == b
    ensures Third(Join2(b, c), Low(c)) == c
  {
  }

  lemma {:induction false} OctetsOfSextets(bs: seq<Byte>)
    ensures Octets(Sextets(bs)) == Some(bs)
  {
    hide First, Second, Third, High, Join1, Join2, Low;
    if |bs| >= 1 {
      PackedBytes(bs[0], if |bs| > 1 then bs[1] else 0, if |bs| > 2 then bs[2] else 0);
    }
    if |bs| == 1 {
      assert bs == [bs[0]];
    } else if |bs| == 2 {
      assert bs == [bs[0], bs[1]];
    } else if |bs| >= 3 {
      OctetsOfSextets(bs[3..]);
      var vs := Sextets(bs);
      assert vs[4..] == Sextets(bs[3..]);
      assert bs == [bs[0], bs[1], bs[2]] + bs[3..];
    }
  }

  /** Decoding undoes encoding, on every tail length. */
  lemma DecodeEncode(bs: seq<Byte>)
    ensures Decode(Encode(bs)) == Some(bs)
  {
    ValuesOfChars(Sextets(bs));
    OctetsOfSextets(bs);
  }

  /** The alphabet contains no separator. */
  lemma EncodeAvoids(bs: seq<Byte>, c: char)
    requires ValueOf(c).None?
    ensures c !in Encode(bs)
  {
  }

  // ---- the alphabet and the bits ----

  /** The standard alphabet: capitals, small letters and digits in their order, then plus and slash. */
  lemma AlphabetExactly(v: Sextet)
    ensures CharOf(0) == 'A' && CharOf(26) == 'a' && CharOf(52) == '0' && CharOf(62) == '+' && CharOf(63) == '/'
    ensures v < 61 && v != 25 && v != 51 ==> CharOf(v + 1) as int == CharOf(v) as int + 1
  {
  }

  /** The number that sextets stand for, the first the highest. */
  function Number(vs: seq<Sextet>): int
  {
    if vs == [] then 0 else Number(vs[..|vs| - 1]) * 64 + vs[|vs| - 1]
  }

  lemma NumberOf(a: Sextet, b: Sextet, c: Sextet, d: Sextet)
    ensures Number([a, b]) == (a as int) * 64 + b
    ensures Number([a, b, c]) == ((a as int) * 64 + b) * 64 + c
    ensures Number([a, b, c, d]) == (((a as int) * 64 + b) * 64 + c) * 64 + d
  {
    assert [a][..0] == [] && [a, b][..1] == [a] && [a, b, c][..2] == [a, b] && [a, b, c, d][..3] == [a, b, c];
    assert Number([a]) == a && Number([a, b]) == Number([a]) * 64 + b;
  }

  /** Three bytes and their four sextets are the same number; a tail is filled up with zero bits. */
  lemma GroupExactly(a: Byte, b: Byte, c: Byte)
    ensures |Sextets([a, b, c])| == 4 && Number(Sextets([a, b, c])) == ((a as int) * 256 + b) * 256 + c
    ensures |Sextets([a, b])| == 3 && Number(Sextets([a, b])) == ((a as int) * 256 + b) * 4
    ensures |Sextets([a])| == 2 && Number(Sextets([a])) == (a as int) * 16
  {
    assert [a, b, c][3..] == [];
    assert Sextets([a, b, c]) == [High(a), Join1(a, b), Join2(b, c), Low(c)];
    NumberOf(High(a), Join1(a, b), Join2(b, c), Low(c));
    NumberOf(High(a), Join1(a, b), Join2(b, 0), 0);
    NumberOf(High(a), Join1(a, 0), 0, 0);
  }

  // ---- what decodes at all ----

  /** The characters that are no line break. */
  function Unbroken(s: string): string
  {
    if s == "" then ""
    else if s[0] == '\r' || s[0] == '\n' then Unbroken(s[1..])
    else [s[0]] + Unbroken(s[1..])
  }

  ghost predicate InAlphabet(c: char)
  {
    exists v: Sextet :: CharOf(v) == c
  }

  lemma AlphabetValues(c: char)
    ensures InAlphabet(c) <==> ValueOf(c).Some?
  {
    if ValueOf(c).Some? {
      assert CharOf(ValueOf(c).value) == c;
    }
  }

  lemma {:induction false} ValuesExactly(s: string)
    ensures Values(s).Some? <==> forall c :: c in Unbroken(s) ==> InAlphabet(c)
    ensures Values(s).Some? ==> |Values(s).value| == |Unbroken(s)|
  {
    hide InAlphabet, ValueOf;
    if s != "" {
      ValuesExactly(s[1..]);
      AlphabetValues(s[0]);
      if !IsNewline(s[0]) {
        assert forall c :: c in Unbroken(s) <==> c == s[0] || c in Unbroken(s[1..]);
      }
    }
  }

  lemma {:induction false} OctetsExactly(vs: seq<Sextet>)
    ensures Octets(vs).Some? <==> |vs| % 4 != 1
  {
    hide First, Second, Third;
    if |vs| >= 4 {
      var rest := vs[4..];
      assert |vs| % 4 == |rest| % 4;
      OctetsExactly(rest);
      assert Octets(vs).Some? <==> Octets(rest).Some?;
    }
  }

  /** Line breaks apart, a string decodes exactly when it is of the alphabet and no character stands alone. */
  lemma DecodeExactly(s: string)
    ensures Decode(s).Some? <==> (forall c :: c in Unbroken(s) ==> InAlphabet(c)) && |Unbroken(s)| % 4 != 1
  {
    hide InAlphabet, Values, Octets;
    ValuesExactly(s);
    if Values(s).Some? {
      OctetsExactly(Values(s).value);
    }
  }
}
