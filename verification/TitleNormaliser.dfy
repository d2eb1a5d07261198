/**
 Title normalisation (internal/metadata/match.go): lowercase, unaccented,
 punctuation removed, spaces collapsed.
 */
module TitleNormaliser {
  import opened Text

  /** Unicode's tables, kept abstract. */
  datatype Alphabet = Alphabet(lower: char -> char, isWord: char -> bool, isSpace: char -> bool)

  /** The hand-written table of accented Latin letters. */
  function LatinFold(c: char): char
  {
    if c in "àáâãäå" then 'a'
    else if c in "èéêë" then 'e'
    else if c in "ìíîï" then 'i'
    else if c in "òóôõöø" then 'o'
    else if c in "ùúûü" then 'u'
    else if c in "ýÿ" then 'y'
    else if c == 'ñ' then 'n'
    else if c == 'ç' then 'c'
    else c
  }

  function FoldChar(al: Alphabet, c: char): char
  {
    LatinFold(al.lower(c))
  }

  function Folded(al: Alphabet, s: string): (r: string)
    ensures |r| == |s| && forall i :: 0 <= i < |s| ==> r[i] == FoldChar(al, s[i])
  {
    seq(|s|, i requires 0 <= i < |s| => FoldChar(al, s[i]))
  }

  /** What the tables must satisfy: lowercasing settles, and the plain letters and the space are settled. */
  ghost predicate Sensible(al: Alphabet)
  {
    && (forall c :: al.lower(al.lower(c)) == al.lower(c))
    && (forall c :: c in "aeiouync " ==> al.lower(c) == c)
    && !al.isWord(' ') && al.isSpace(' ')
    && (forall c :: al.isWord(c) ==> !al.isSpace(c))
  }

  /** The length of the run of word characters at the front. */
  function RunLength(w: char -> bool, t: string): (n: nat)
    ensures n <= |t| && (forall i :: 0 <= i < n ==> w(t[i])) && (n < |t| ==> !w(t[n]))
  {
    if t != "" && w(t[0]) then 1 + RunLength(w, t[1..]) else 0
  }

  /** The maximal runs of letters and digits, in order. */
  function Words(w: char -> bool, t: string): seq<string>
    decreases |t|
  {
    if t == "" then []
    else if !w(t[0]) then Words(w, t[1..])
    else
      var n := RunLength(w, t);
      [t[..n]] + Words(w, t[n..])
  }

  /** Words joined by single spaces. */
  function Spaced(words: seq<string>): string
  {
    Join(words, ' ')
  }

  function WordsOf(al: Alphabet, s: string): seq<string>
  {
    Words(al.isWord, Folded(al, s))
  }

  function NormalTitle(al: Alphabet, s: string): string
  {
    Spaced(WordsOf(al, s))
  }

  ghost predicate AllWord(w: char -> bool, s: string)
  {
    forall i :: 0 <= i < |s| ==> w(s[i])
  }

  ghost predicate ProperWords(w: char -> bool, words: seq<string>)
  {
    forall x :: x in words ==> x != "" && AllWord(w, x)
  }

  lemma {:induction false} WordsAreProper(w: char -> bool, t: string)
    ensures ProperWords(w, Words(w, t))
    decreases |t|
  {
    if t != "" {
      if w(t[0]) {
        WordsAreProper(w, t[RunLength(w, t)..]);
      } else {
        WordsAreProper(w, t[1..]);
      }
    }
  }

  lemma {:induction false} RunLengthIs(w: char -> bool, t: string, n: nat)
    requires n <= |t| && (forall i :: 0 <= i < n ==> w(t[i])) && (n < |t| ==> !w(t[n]))
    ensures RunLength(w, t) == n
  {
    if n > 0 {
      RunLengthIs(w, t[1..], n - 1);
    }
  }

  /** A run in front of a gap or the end is one word. */
  lemma WordInFront(w: char -> bool, word: string, rest: string)
    requires word != "" && AllWord(w, word) && (rest == "" || !w(rest[0]))
    ensures Words(w, word + rest) == [word] + Words(w, rest)
  {
    var t := word + rest;
    assert t[..|word|] == word && t[|word|..] == rest;
    assert t[0] == word[0];
    RunLengthIs(w, t, |word|);
  }

  lemma {:induction false} WordsSpaced(w: char -> bool, words: seq<string>)
    requires !w(' ') && ProperWords(w, words)
    ensures Words(w, Spaced(words)) == words
  {
    if |words| == 1 {
      assert words[0] in words;
      WordInFront(w, words[0], "");
      assert words[0] + "" == words[0];
    } else if |words| > 1 {
      assert words[0] in words && forall x :: x in words[1..] ==> x in words;
      var rest := Spaced(words[1..]);
      WordsSpaced(w, words[1..]);
      WordInFront(w, words[0], [' '] + rest);
      assert words[0] + [' '] + rest == words[0] + ([' '] + rest);
      assert ([' '] + rest)[1..] == rest;
    }
  }

  /** One more character at the end: a gap changes nothing, a word character extends or starts a word. */
  lemma {:induction false} WordsSnoc(w: char -> bool, t: string, c: char)
    ensures !w(c) ==> Words(w, t + [c]) == Words(w, t)
    ensures w(c) && (t == "" || !w(t[|t| - 1])) ==> Words(w, t + [c]) == Words(w, t) + [[c]]
    ensures w(c) && t != "" && w(t[|t| - 1]) ==>
      var ws := Words(w, t); ws != [] && Words(w, t + [c]) == ws[..|ws| - 1] + [ws[|ws| - 1] + [c]]
    decreases |t|
  {
    var u := t + [c];
    if t == "" {
      assert u == [c];
      if w(c) {
        WordInFront(w, [c], "");
        assert [c] + "" == [c];
      } else {
        assert u[1..] == "";
      }
    } else if !w(t[0]) {
      assert u[0] == t[0] && u[1..] == t[1..] + [c];
      WordsSnoc(w, t[1..], c);
    } else {
      SnocAfterRun(w, t, c);
    }
  }

  lemma {:induction false} SnocAfterRun(w: char -> bool, t: string, c: char)
    requires t != "" && w(t[0])
    ensures !w(c) ==> Words(w, t + [c]) == Words(w, t)
    ensures w(c) && !w(t[|t| - 1]) ==> Words(w, t + [c]) == Words(w, t) + [[c]]
    ensures w(c) && w(t[|t| - 1]) ==>
      var ws := Words(w, t); ws != [] && Words(w, t + [c]) == ws[..|ws| - 1] + [ws[|ws| - 1] + [c]]
    decreases |t|, 0
  {
    var n := RunLength(w, t);
    var word, rest := t[..n], t[n..];
    assert t == word + rest;
    WordInFront(w, word, rest);
    if rest != "" {
      SnocAfterWord(w, word, rest, c);
      WordsSnoc(w, rest, c);
      WordInFront(w, word, rest + [c]);
    } else {
      WordThenChar(w, t, c);
      assert word == t && Words(w, rest) == [];
    }
  }

  lemma SnocAfterWord(w: char -> bool, word: string, rest: string, c: char)
    requires rest != ""
    ensures word + rest + [c] == word + (rest + [c])
    ensures (word + rest)[|word + rest| - 1] == rest[|rest| - 1] && (rest + [c])[0] == rest[0]
  {
  }

  lemma WordThenChar(w: char -> bool, word: string, c: char)
    requires word != "" && AllWord(w, word)
    ensures Words(w, word + [c]) == [if w(c) then word + [c] else word]
  {
    if w(c) {
      WordInFront(w, word + [c], "");
      assert word + [c] + "" == word + [c];
    } else {
      WordInFront(w, word, [c]);
      assert [c][1..] == "";
    }
  }

  /** The loop, character by character. */
  method NormaliseTitle(al: Alphabet, s: string) returns (r: string)
    requires Sensible(al)
    ensures r == NormalTitle(al, s)
  {
    var b, prevSpace := "", true;
    ghost var t := Folded(al, s);
    for i := 0 to |s|
      invariant Built(al, t[..i], prevSpace, b)
    {
      var c := FoldChar(al, s[i]);
      assert t[..i + 1] == t[..i] + [c];
      BuiltStep(al, t[..i], prevSpace, b, c);
      if al.isWord(c) {
        b := b + [c];
        prevSpace := false;
      } else if !prevSpace {
        b := b + [' '];
        prevSpace := true;
      }
    }
    assert t[..|s|] == t;
    BuiltTrimmed(al, t, prevSpace, b);
    r := TrimSpace(al.isSpace, b);
  }

  /** What the builder holds: the words so far, and a space once the last word is over. */
  ghost predicate Built(al: Alphabet, t: string, prevSpace: bool, b: string)
  {
    var ws := Words(al.isWord, t);
    && (prevSpace <==> t == "" || !al.isWord(t[|t| - 1]))
    && b == Spaced(ws) + (if prevSpace && ws != [] then " " else "")
  }

  lemma {:induction false} SpacedSnoc(words: seq<string>, last: string)
    ensures Spaced(words + [last]) == Spaced(words) + (if words == [] then "" else " ") + last
  {
    if |words| == 0 {
      assert words + [last] == [last];
      assert "" + "" + last == last;
    } else if |words| == 1 {
      assert (words + [last])[1..] == [last];
      assert Join([last], ' ') == last;
    } else {
      SpacedSnoc(words[1..], last);
      assert (words + [last])[1..] == words[1..] + [last];
      Assoc(words[0] + [' '], Spaced(words[1..]) + " ", last);
      Assoc(words[0] + [' '], Spaced(words[1..]), " ");
    }
  }

  lemma BuiltStep(al: Alphabet, t: string, prevSpace: bool, b: string, c: char)
    requires Built(al, t, prevSpace, b)
    ensures al.isWord(c) ==> Built(al, t + [c], false, b + [c])
    ensures !al.isWord(c) ==> Built(al, t + [c], true, if prevSpace then b else b + [' '])
  {
    var ws := Words(al.isWord, t);
    WordsSnoc(al.isWord, t, c);
    if al.isWord(c) {
      if prevSpace {
        SpacedSnoc(ws, [c]);
      } else {
        var init, last := ws[..|ws| - 1], ws[|ws| - 1];
        assert ws == init + [last];
        SpacedSnoc(init, last);
        SpacedSnoc(init, last + [c]);
        Assoc(Spaced(init) + (if init == [] then "" else " "), last, [c]);
      }
    } else if !prevSpace {
      WordsNonEmpty(al.isWord, t);
    }
  }

  lemma WordsNonEmpty(w: char -> bool, t: string)
    requires t != "" && w(t[|t| - 1])
    ensures Words(w, t) != []
  {
    WordsSnoc(w, t[..|t| - 1], t[|t| - 1]);
    assert t[..|t| - 1] + [t[|t| - 1]] == t;
  }

  /** Spaced words begin and end with a word character. */
  lemma {:induction false} SpacedEnds(w: char -> bool, words: seq<string>)
    requires ProperWords(w, words) && words != []
    ensures var r := Spaced(words); r != "" && w(r[0]) && w(r[|r| - 1])
  {
    assert words[0] in words;
    if |words| > 1 {
      assert forall x :: x in words[1..] ==> x in words;
      SpacedEnds(w, words[1..]);
    }
  }

  lemma BuiltTrimmed(al: Alphabet, t: string, prevSpace: bool, b: string)
    requires Sensible(al) && Built(al, t, prevSpace, b)
    ensures TrimSpace(al.isSpace, b) == Spaced(Words(al.isWord, t))
  {
    var ws := Words(al.isWord, t);
    WordsAreProper(al.isWord, t);
    if ws != [] {
      SpacedEnds(al.isWord, ws);
      var r := Spaced(ws);
      TrimmedStays(al.isSpace, r);
      if prevSpace {
        assert b[..|b| - 1] == r && b[0] == r[0];
        assert TrimSpaceLeft(al.isSpace, b) == b;
        assert TrimSpaceRight(al.isSpace, r) == r;
      } else {
        assert b == r;
      }
    }
  }

  /** The folds land on letters that fold to themselves. */
  lemma FoldSettles(al: Alphabet, c: char)
    requires Sensible(al)
    ensures FoldChar(al, FoldChar(al, c)) == FoldChar(al, c)
  {
    FoldTargets(al.lower(c));
  }

  lemma FoldTargets(c: char)
    ensures LatinFold(c) == c || LatinFold(c) in "aeiouync "
    ensures LatinFold(LatinFold(c)) == LatinFold(c)
  {
  }

  lemma {:induction false} SpacedFolded(al: Alphabet, words: seq<string>)
    requires Sensible(al)
    requires forall x: string, i :: x in words && 0 <= i < |x| ==> FoldChar(al, x[i]) == x[i]
    ensures Folded(al, Spaced(words)) == Spaced(words)
  {
    if |words| == 1 {
      assert words[0] in words;
    } else if |words| > 1 {
      assert words[0] in words;
      assert forall x :: x in words[1..] ==> x in words;
      SpacedFolded(al, words[1..]);
      assert FoldChar(al, ' ') == ' ' by {
        assert ' ' in "aeiouync ";
      }
      var rest := Spaced(words[1..]);
      forall i | 0 <= i < |Spaced(words)|
        ensures FoldChar(al, Spaced(words)[i]) == Spaced(words)[i]
      {
        if i > |words[0]| {
          assert Spaced(words)[i] == rest[i - |words[0]| - 1];
          assert Folded(al, rest)[i - |words[0]| - 1] == rest[i - |words[0]| - 1];
        }
      }
    }
  }

  lemma {:induction false} WordsDrawnFrom(w: char -> bool, t: string)
    ensures forall x: string, c :: x in Words(w, t) && c in x ==> c in t
    decreases |t|
  {
    if t != "" {
      var rest := if w(t[0]) then t[RunLength(w, t)..] else t[1..];
      WordsDrawnFrom(w, rest);
      assert forall c :: c in rest ==> c in t;
      if w(t[0]) {
        assert forall c :: c in t[..RunLength(w, t)] ==> c in t;
      }
    }
  }

  /** A normalised title reads back as the same words. */
  lemma WordsOfNormalTitle(al: Alphabet, s: string)
    requires Sensible(al)
    ensures WordsOf(al, NormalTitle(al, s)) == WordsOf(al, s)
  {
    var t := Folded(al, s);
    var words := WordsOf(al, s);
    WordsAreProper(al.isWord, t);
    WordsDrawnFrom(al.isWord, t);
    forall x: string, i | x in words && 0 <= i < |x|
      ensures FoldChar(al, x[i]) == x[i]
    {
      assert x[i] in x;
      var k :| 0 <= k < |t| && t[k] == x[i];
      FoldSettles(al, s[k]);
    }
    SpacedFolded(al, words);
    WordsSpaced(al.isWord, words);
  }

  lemma NormalTitleIdempotent(al: Alphabet, s: string)
    requires Sensible(al)
    ensures NormalTitle(al, NormalTitle(al, s)) == NormalTitle(al, s)
  {
    WordsOfNormalTitle(al, s);
  }

  /** Two titles normalise alike exactly when they have the same words in the same order. */
  lemma SameTitleSameWords(al: Alphabet, s: string, t: string)
    requires Sensible(al)
    ensures NormalTitle(al, s) == NormalTitle(al, t) <==> WordsOf(al, s) == WordsOf(al, t)
  {
    WordsOfNormalTitle(al, s);
    WordsOfNormalTitle(al, t);
  }

  // ---- the table, letter by letter ----

  const FOLDS: map<char, char> := map[
    'à' := 'a', 'á' := 'a', 'â' := 'a', 'ã' := 'a', 'ä' := 'a', 'å' := 'a',
    'è' := 'e', 'é' := 'e', 'ê' := 'e', 'ë' := 'e', 'ì' := 'i', 'í' := 'i', 'î' := 'i', 'ï' := 'i',
    'ò' := 'o', 'ó' := 'o', 'ô' := 'o', 'õ' := 'o', 'ö' := 'o', 'ø' := 'o',
    'ù' := 'u', 'ú' := 'u', 'û' := 'u', 'ü' := 'u', 'ý' := 'y', 'ÿ' := 'y', 'ñ' := 'n', 'ç' := 'c']

  /** Each listed letter folds as listed; every other character is itself. */
  lemma FoldExactly(c: char)
    ensures LatinFold(c) == if c in FOLDS then FOLDS[c] else c
  {
  }

  /** Characters that are no letters and no digits in front of a title change nothing. */
  lemma {:induction false} GapInFront(w: char -> bool, gap: string, rest: string)
    requires forall i :: 0 <= i < |gap| ==> !w(gap[i])
    ensures Words(w, gap + rest) == Words(w, rest)
  {
    if gap == "" {
      assert gap + rest == rest;
    } else {
      assert (gap + rest)[1..] == gap[1..] + rest;
      GapInFront(w, gap[1..], rest);
    }
  }

  /** Words, each with whatever stands before it, and what stands after the last. */
  function Strung(gaps: seq<string>, words: seq<string>, tail: string): string
    requires |gaps| == |words|
  {
    if words == [] then tail else gaps[0] + (words[0] + Strung(gaps[1..], words[1..], tail))
  }

  ghost predicate Gap(w: char -> bool, gap: string)
  {
    forall i :: 0 <= i < |gap| ==> !w(gap[i])
  }

  /** However its words are set apart, a string has these words. */
  lemma {:induction false} StrungWords(w: char -> bool, gaps: seq<string>, words: seq<string>, tail: string)
    requires |gaps| == |words| && ProperWords(w, words) && Gap(w, tail)
    requires forall i :: 0 <= i < |gaps| ==> Gap(w, gaps[i]) && (i > 0 ==> gaps[i] != "")
    ensures Words(w, Strung(gaps, words, tail)) == words
    decreases |words|
  {
    if words == [] {
      GapInFront(w, tail, "");
      assert tail + "" == tail;
    } else {
      assert words[0] in words && forall x :: x in words[1..] ==> x in words;
      var rest := Strung(gaps[1..], words[1..], tail);
      StrungWords(w, gaps[1..], words[1..], tail);
      GapInFront(w, gaps[0], words[0] + rest);
      if words[1..] != [] {
        assert gaps[1..][0] == gaps[1] && gaps[1] != "";
        assert rest[0] == gaps[1][0];
      }
      WordInFront(w, words[0], rest);
    }
  }

  /**
   A title's normal form is its words, folded, with single spaces: whatever letters and digits its words
   are made of, and whatever stands between them.
   */
  lemma NormalTitleIs(al: Alphabet, s: string, gaps: seq<string>, words: seq<string>, tail: string)
    requires |gaps| == |words| && ProperWords(al.isWord, words) && Gap(al.isWord, tail)
    requires forall i :: 0 <= i < |gaps| ==> Gap(al.isWord, gaps[i]) && (i > 0 ==> gaps[i] != "")
    requires |s| == |Strung(gaps, words, tail)|
    requires forall i :: 0 <= i < |s| ==> LatinFold(al.lower(s[i])) == Strung(gaps, words, tail)[i]
    ensures NormalTitle(al, s) == Join(words, ' ')
  {
    hide Words, LatinFold, Strung;
    assert Folded(al, s) == Strung(gaps, words, tail);
    StrungWords(al.isWord, gaps, words, tail);
  }
}
