/**
 The string operations the route, header and hash parsers share, in the terms
 of Go's `strings` package. A string is a sequence of characters; letter case is
 a parameter, because Unicode's tables are not part of this model.
 */
module Text {

  datatype Option<+T> = None | Some(value: T)

  /** An empty string is stored as no value. */
  function NonEmptyString(s: string): Option<string>
  {
    if s == "" then None else Some(s)
  }

  /** The two halves around the first separator (`strings.Cut`). */
  datatype CutResult = CutResult(before: string, after: string, found: bool)

  function IndexOf(s: string, sep: char): (i: nat)
    ensures i <= |s|
    ensures sep !in s[..i]
    ensures i < |s| <==> sep in s
    ensures i < |s| ==> s[i] == sep
  {
    if s == "" then 0
    else if s[0] == sep then 0
    else
      var i := IndexOf(s[1..], sep) + 1;
      assert s == [s[0]] + s[1..];
      assert s[..i] == [s[0]] + s[1..][..i - 1];
      i
  }

  function Cut(s: string, sep: char): (r: CutResult)
    ensures r.found <==> sep in s
    ensures sep !in r.before
    ensures s == if r.found then r.before + [sep] + r.after else r.before
  {
    var i := IndexOf(s, sep);
    if i < |s| then CutResult(s[..i], s[i + 1..], true) else CutResult(s, "", false)
  }

  function Split(s: string, sep: char): (parts: seq<string>)
    ensures |parts| >= 1
    ensures forall p :: p in parts ==> sep !in p
    ensures Join(parts, sep) == s
    decreases |s|
  {
    var c := Cut(s, sep);
    if c.found then [c.before] + Split(c.after, sep) else [s]
  }

  function Join(parts: seq<string>, sep: char): string
  {
    if |parts| == 0 then ""
    else if |parts| == 1 then parts[0]
    else parts[0] + [sep] + Join(parts[1..], sep)
  }

  lemma Assoc(a: string, b: string, c: string)
    ensures a + (b + c) == a + b + c
  {
  }

  predicate Free(parts: seq<string>, sep: char)
  {
    forall p :: p in parts ==> sep !in p
  }

  lemma CutAtFirst(a: string, b: string, sep: char)
    requires sep !in a
    ensures Cut(a + [sep] + b, sep) == CutResult(a, b, true)
  {
    var s := a + [sep] + b;
    var i := IndexOf(s, sep);
    assert s[|a|] == sep;
    assert forall k :: 0 <= k < |a| ==> s[k] == a[k];
    assert i == |a|;
    assert s[..|a|] == a && s[|a| + 1..] == b;
  }

  /** Splitting undoes joining, for pieces that do not contain the separator. */
  lemma {:induction false} SplitJoin(parts: seq<string>, sep: char)
    requires |parts| >= 1 && Free(parts, sep)
    ensures Split(Join(parts, sep), sep) == parts
  {
    if |parts| == 1 {
      assert parts == [parts[0]];
    } else {
      CutAtFirst(parts[0], Join(parts[1..], sep), sep);
      SplitJoin(parts[1..], sep);
    }
  }

  /** `strings.TrimLeft` and `strings.TrimRight` for one character. */
  function TrimLeft(s: string, c: char): (r: string)
    ensures r == "" || r[0] != c
  {
    if s != "" && s[0] == c then TrimLeft(s[1..], c) else s
  }

  function TrimRight(s: string, c: char): (r: string)
    ensures r == "" || r[|r| - 1] != c
    ensures |r| <= |s| && r == s[..|r|]
  {
    if s != "" && s[|s| - 1] == c then TrimRight(s[..|s| - 1], c) else s
  }

  function Trim(s: string, c: char): string
  {
    TrimRight(TrimLeft(s, c), c)
  }

  function Repeat(c: char, n: nat): (r: string)
    ensures |r| == n && forall i :: 0 <= i < n ==> r[i] == c
  {
    seq(n, i => c)
  }

  /** Repeated characters around a core that has none at its ends come off exactly. */
  lemma {:induction false} TrimRightRepeat(core: string, c: char, n: nat)
    requires core == "" || core[|core| - 1] != c
    ensures TrimRight(core + Repeat(c, n), c) == core
  {
    var s := core + Repeat(c, n);
    if n == 0 {
      assert s == core;
    } else {
      assert s[..|s| - 1] == core + Repeat(c, n - 1);
      TrimRightRepeat(core, c, n - 1);
    }
  }

  lemma {:induction false} TrimLeftRepeat(core: string, c: char, n: nat)
    requires core == "" || core[0] != c
    ensures TrimLeft(Repeat(c, n) + core, c) == core
  {
    var s := Repeat(c, n) + core;
    if n == 0 {
      assert s == core;
    } else {
      assert s[1..] == Repeat(c, n - 1) + core;
      TrimLeftRepeat(core, c, n - 1);
    }
  }

  lemma TrimAround(core: string, c: char, left: nat, right: nat)
    requires core == "" || (core[0] != c && core[|core| - 1] != c)
    ensures Trim(Repeat(c, left) + core + Repeat(c, right), c) == core
  {
    var s := Repeat(c, left) + core + Repeat(c, right);
    if core == "" {
      assert s == Repeat(c, left + right) + "";
      TrimLeftRepeat("", c, left + right);
    } else {
      assert s == Repeat(c, left) + (core + Repeat(c, right));
      TrimLeftRepeat(core + Repeat(c, right), c, left);
      TrimRightRepeat(core, c, right);
    }
  }

  /** Characterwise lowercasing, `strings.ToLower` over an abstract table. */
  function Lower(lower: char -> char, s: string): (r: string)
    ensures |r| == |s| && forall i :: 0 <= i < |s| ==> r[i] == lower(s[i])
  {
    seq(|s|, i requires 0 <= i < |s| => lower(s[i]))
  }

  /** `strings.TrimSpace`, over an abstract set of whitespace characters. */
  function TrimSpaceLeft(space: char -> bool, s: string): (r: string)
    ensures r == "" || !space(r[0])
  {
    if s != "" && space(s[0]) then TrimSpaceLeft(space, s[1..]) else s
  }

  function TrimSpaceRight(space: char -> bool, s: string): (r: string)
    ensures r == "" || !space(r[|r| - 1])
    ensures |r| <= |s| && r == s[..|r|]
  {
    if s != "" && space(s[|s| - 1]) then TrimSpaceRight(space, s[..|s| - 1]) else s
  }

  function TrimSpace(space: char -> bool, s: string): (r: string)
    ensures r == "" || (!space(r[0]) && !space(r[|r| - 1]))
  {
    TrimSpaceRight(space, TrimSpaceLeft(space, s))
  }

  predicate Trimmed(space: char -> bool, s: string)
  {
    s == "" || (!space(s[0]) && !space(s[|s| - 1]))
  }

  /** Trimming what has no whitespace at its ends changes nothing. */
  lemma TrimmedStays(space: char -> bool, s: string)
    requires Trimmed(space, s)
    ensures TrimSpace(space, s) == s
  {
  }

  ghost predicate AllSpace(space: char -> bool, s: string)
  {
    forall i :: 0 <= i < |s| ==> space(s[i])
  }

  lemma {:induction false} SpaceBehind(space: char -> bool, core: string, pad: string)
    requires AllSpace(space, pad) && Trimmed(space, core)
    ensures TrimSpaceRight(space, core + pad) == core
  {
    if pad == "" {
      assert core + pad == core;
    } else {
      assert (core + pad)[..|core + pad| - 1] == core + pad[..|pad| - 1];
      SpaceBehind(space, core, pad[..|pad| - 1]);
    }
  }

  lemma {:induction false} SpaceInFront(space: char -> bool, pad: string, core: string)
    requires AllSpace(space, pad) && core != "" && !space(core[0])
    ensures TrimSpaceLeft(space, pad + core) == core
  {
    if pad == "" {
      assert pad + core == core;
    } else {
      assert (pad + core)[1..] == pad[1..] + core;
      SpaceInFront(space, pad[1..], core);
    }
  }

  /** Whitespace around a core that has none at its ends comes off exactly. */
  lemma TrimBlanks(space: char -> bool, before: string, core: string, after: string)
    requires AllSpace(space, before) && AllSpace(space, after) && core != "" && Trimmed(space, core)
    ensures TrimSpace(space, before + (core + after)) == core
  {
    SpaceBehind(space, core, after);
    SpaceInFront(space, before, core + after);
  }

  /** Letter case: lowercasing, and the equivalence behind `strings.EqualFold`. */
  datatype Casing = Casing(lower: char -> char, same: (char, char) -> bool)

  predicate EqualFold(casing: Casing, s: string, t: string)
  {
    |s| == |t| && forall i :: 0 <= i < |s| ==> casing.same(s[i], t[i])
  }
}
