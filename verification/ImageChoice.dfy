/**
 Choosing one image among a provider's candidates (internal/metadata/tmdb/tmdb.go):
 language tier, a well-supported score, the largest source, then the file path.
 */
module ImageChoice {
  import opened Text

  /** Scores are real numbers: rounding plays no part in the choice. */
  datatype Image = Image(filePath: string, width: int, iso639: Option<string>, voteAverage: real, voteCount: int)

  /** The sample below which a score is not evidence. */
  const MIN_IMAGE_VOTES := 3

  function Language(c: Image): string
  {
    if c.iso639.None? then "" else c.iso639.value
  }

  /** The position of a language in the preference list; unlisted ones come after all of it. */
  function Tier(lang: string, preference: seq<string>): (t: nat)
    ensures t <= |preference|
    ensures t < |preference| ==> preference[t] == lang
    ensures forall i :: 0 <= i < t ==> preference[i] != lang
  {
    if preference == [] then 0
    else if preference[0] == lang then 0
    else 1 + Tier(lang, preference[1..])
  }

  method LanguageTier(c: Image, preference: seq<string>) returns (t: nat)
    ensures t == Tier(Language(c), preference)
  {
    var lang := Language(c);
    for i := 0 to |preference|
      invariant forall k :: 0 <= k < i ==> preference[k] != lang
    {
      if lang == preference[i] {
        return i;
      }
    }
    return |preference|;
  }

  predicate Credible(c: Image)
  {
    c.voteCount >= MIN_IMAGE_VOTES
  }

  /** Go's ordering of strings, by character. */
  predicate PathBefore(a: string, b: string)
  {
    b != "" && (a == "" || a[0] < b[0] || (a[0] == b[0] && PathBefore(a[1..], b[1..])))
  }

  predicate Better(a: Image, b: Image, preference: seq<string>)
  {
    var ta, tb := Tier(Language(a), preference), Tier(Language(b), preference);
    if ta != tb then ta < tb
    else if Credible(a) != Credible(b) then Credible(a)
    else if Credible(a) && a.voteAverage != b.voteAverage then a.voteAverage > b.voteAverage
    else if a.width != b.width then a.width > b.width
    else PathBefore(a.filePath, b.filePath)
  }

  method BestImage(candidates: seq<Image>, preference: seq<string>) returns (best: Option<Image>)
    ensures best == Best(candidates, preference)
  {
    best := None;
    for i := 0 to |candidates|
      invariant best == Best(candidates[..i], preference)
    {
      assert candidates[..i + 1][..i] == candidates[..i];
      var c := candidates[i];
      if c.filePath == "" {
        continue;
      }
      if best.None? || Better(c, best.value, preference) {
        best := Some(c);
      }
    }
    assert candidates[..|candidates|] == candidates;
  }

  /** The running choice over a listing. */
  function Best(candidates: seq<Image>, preference: seq<string>): Option<Image>
  {
    if candidates == [] then None
    else
      var c, best := candidates[|candidates| - 1], Best(candidates[..|candidates| - 1], preference);
      if c.filePath != "" && (best.None? || Better(c, best.value, preference)) then Some(c) else best
  }

  // ---- a strict total order ----

  lemma {:induction false} PathTransitive(a: string, b: string, c: string)
    requires PathBefore(a, b) && PathBefore(b, c)
    ensures PathBefore(a, c)
  {
    if a != "" && a[0] == b[0] == c[0] {
      PathTransitive(a[1..], b[1..], c[1..]);
    }
  }

  lemma {:induction false} PathTotal(a: string, b: string)
    ensures !PathBefore(a, a)
    ensures a != b ==> PathBefore(a, b) != PathBefore(b, a)
  {
    if a != "" {
      PathTotal(a[1..], if b == "" then "" else b[1..]);
      assert a == [a[0]] + a[1..];
      if b != "" {
        assert b == [b[0]] + b[1..];
      }
    }
  }

  lemma BetterIrreflexive(a: Image, preference: seq<string>)
    ensures !Better(a, a, preference)
  {
    PathTotal(a.filePath, a.filePath);
  }

  lemma BetterTransitive(a: Image, b: Image, c: Image, preference: seq<string>)
    requires Better(a, b, preference) && Better(b, c, preference)
    ensures Better(a, c, preference)
  {
    hide PathBefore;
    if PathBefore(a.filePath, b.filePath) && PathBefore(b.filePath, c.filePath) {
      PathTransitive(a.filePath, b.filePath, c.filePath);
    }
  }

  /** Two images with different paths are never tied. */
  lemma BetterTotal(a: Image, b: Image, preference: seq<string>)
    requires a.filePath != b.filePath
    ensures Better(a, b, preference) != Better(b, a, preference)
  {
    hide PathBefore;
    PathTotal(a.filePath, b.filePath);
  }

  ghost predicate DistinctPaths(candidates: seq<Image>)
  {
    forall c, d :: c in candidates && d in candidates && c.filePath == d.filePath != "" ==> c == d
  }

  /** Nothing listed beats the image chosen, and it is the only such image. */
  ghost predicate IsMaximum(candidates: seq<Image>, preference: seq<string>, best: Image)
  {
    best in candidates && best.filePath != "" &&
    forall c :: c in candidates && c.filePath != "" && c != best ==> Better(best, c, preference)
  }

  lemma {:induction false} BestIsMaximum(candidates: seq<Image>, preference: seq<string>)
    requires DistinctPaths(candidates)
    ensures var best := Best(candidates, preference);
      && (best.None? <==> forall c :: c in candidates ==> c.filePath == "")
      && (best.Some? ==> IsMaximum(candidates, preference, best.value))
  {
    if candidates != [] {
      var init, c := candidates[..|candidates| - 1], candidates[|candidates| - 1];
      assert candidates == init + [c];
      hide Better;
      BestIsMaximum(init, preference);
      var best := Best(init, preference);
      if best.Some? && c.filePath != "" && c != best.value {
        BetterTotal(c, best.value, preference);
        if Better(c, best.value, preference) {
          forall d | d in init && d.filePath != "" && d != c && d != best.value
            ensures Better(c, d, preference)
          {
            BetterTransitive(c, best.value, d, preference);
          }
        }
      }
      if best.Some? && c == best.value {
        BetterIrreflexive(c, preference);
      }
    }
  }

  lemma MaximumUnique(candidates: seq<Image>, preference: seq<string>, a: Image, b: Image)
    requires IsMaximum(candidates, preference, a) && IsMaximum(candidates, preference, b)
    ensures a == b
  {
    hide Better;
    if a != b {
      BetterTransitive(a, b, a, preference);
      BetterIrreflexive(a, preference);
    }
  }

  /** The listing order never shows: any other listing of the same images makes the same choice. */
  lemma ListingOrderIrrelevant(candidates: seq<Image>, other: seq<Image>, preference: seq<string>)
    requires DistinctPaths(candidates) && forall c :: c in candidates <==> c in other
    ensures Best(candidates, preference) == Best(other, preference)
  {
    hide Better, Best;
    BestIsMaximum(candidates, preference);
    BestIsMaximum(other, preference);
    var a, b := Best(candidates, preference), Best(other, preference);
    if a.Some? {
      assert a.value in other;
      assert IsMaximum(other, preference, a.value);
      MaximumUnique(other, preference, a.value, b.value);
    }
  }

  /** The same listing with one image's average replaced. */
  function Rescored(candidates: seq<Image>, k: nat, average: real): seq<Image>
    requires k < |candidates|
  {
    candidates[k := candidates[k].(voteAverage := average)]
  }

  /** An unsupported score is not consulted: comparisons do not see it. */
  lemma UnsupportedScoreUnseen(a: Image, b: Image, x: real, y: real, preference: seq<string>)
    ensures var c := if Credible(a) then a else a.(voteAverage := x);
      var d := if Credible(b) then b else b.(voteAverage := y);
      Better(c, d, preference) == Better(a, b, preference)
  {
  }

  /** Changing an unsupported score never changes which file is chosen. */
  lemma {:induction false} UnsupportedScoreNeverDecides(candidates: seq<Image>, k: nat, average: real,
      preference: seq<string>)
    requires k < |candidates| && !Credible(candidates[k])
    ensures var before, after := Best(candidates, preference), Best(Rescored(candidates, k, average), preference);
      && (before.Some? <==> after.Some?)
      && (before.Some? ==>
            (after.value == before.value
             || (before.value == candidates[k] && after.value == candidates[k].(voteAverage := average))))
  {
    hide Better;
    var n := |candidates| - 1;
    var init, c := candidates[..n], candidates[n];
    var changed := Rescored(candidates, k, average);
    var best := Best(init, preference);
    if k == n {
      assert changed[..n] == init;
      if best.Some? {
        UnsupportedScoreUnseen(c, best.value, average, best.value.voteAverage, preference);
      }
    } else {
      UnsupportedScoreNeverDecides(init, k, average, preference);
      assert changed[..n] == Rescored(init, k, average);
      if best.Some? {
        var other := Best(changed[..n], preference).value.voteAverage;
        UnsupportedScoreUnseen(c, best.value, c.voteAverage, other, preference);
      }
    }
  }

  // ---- what the choice is, measure by measure ----

  /** An image without a language speaks the empty one. */
  ghost predicate Speaks(c: Image, lang: string)
  {
    c.iso639 == Some(lang) || (c.iso639.None? && lang == "")
  }

  /** The first place of its language in the preference list, or the end of the list. */
  ghost predicate PlacedAt(c: Image, preference: seq<string>, t: nat)
  {
    && t <= |preference| && (t < |preference| ==> Speaks(c, preference[t]))
    && forall i :: 0 <= i < t ==> !Speaks(c, preference[i])
  }

  /** A proper prefix, or a smaller character at the first place where the two differ. */
  ghost predicate Smaller(a: string, b: string)
  {
    exists i :: 0 <= i <= |a| && i < |b| && a[..i] == b[..i] && (i < |a| ==> a[i] < b[i])
  }

  lemma {:induction false} PathBeforeExactly(a: string, b: string)
    ensures PathBefore(a, b) <==> Smaller(a, b)
  {
    if a != "" && b != "" && a[0] == b[0] {
      PathBeforeExactly(a[1..], b[1..]);
      if i :| 0 <= i <= |a[1..]| && i < |b[1..]| && a[1..][..i] == b[1..][..i]
              && (i < |a[1..]| ==> a[1..][i] < b[1..][i]) {
        assert a[..i + 1] == [a[0]] + a[1..][..i] && b[..i + 1] == [b[0]] + b[1..][..i];
        assert i + 1 < |a| ==> a[i + 1] < b[i + 1];
      }
      if i :| 0 <= i <= |a| && i < |b| && a[..i] == b[..i] && (i < |a| ==> a[i] < b[i]) {
        assert i > 0;
        assert a[1..][..i - 1] == a[..i][1..] && b[1..][..i - 1] == b[..i][1..];
      }
    } else if a == "" && b != "" {
      assert a[..0] == b[..0];
    } else if a != "" && b != "" {
      if a[0] < b[0] {
        assert a[..0] == b[..0];
      }
      forall i | 0 < i <= |a| && i < |b|
        ensures a[..i] != b[..i]
      {
        assert a[..i][0] == a[0] && b[..i][0] == b[0];
      }
    }
  }

  /** Equally placed, equally supported, and equally scored where that counts. */
  ghost predicate Level(b: Image, c: Image)
  {
    (b.voteCount >= 3 <==> c.voteCount >= 3) && (b.voteCount >= 3 ==> b.voteAverage == c.voteAverage)
  }

  /** No image with a path does better by the first measure on which the two differ. */
  ghost predicate Unbeaten(b: Image, c: Image, preference: seq<string>)
  {
    forall t, u :: PlacedAt(b, preference, t) && PlacedAt(c, preference, u) ==>
      t <= u &&
      (t == u ==>
        && (c.voteCount >= 3 ==> b.voteCount >= 3)
        && (b.voteCount >= 3 && c.voteCount >= 3 ==> b.voteAverage >= c.voteAverage)
        && (Level(b, c) ==> b.width >= c.width && (b.width == c.width ==> !Smaller(c.filePath, b.filePath))))
  }

  lemma TierPlaces(c: Image, preference: seq<string>, t: nat)
    ensures PlacedAt(c, preference, t) <==> t == Tier(Language(c), preference)
  {
    hide Tier;
    assert forall lang :: Speaks(c, lang) <==> lang == Language(c);
  }

  lemma UnbeatenExactly(b: Image, c: Image, preference: seq<string>)
    ensures Unbeaten(b, c, preference) <==> !Better(c, b, preference)
  {
    hide Tier, Language, PlacedAt, PathBefore, Smaller;
    PathBeforeExactly(c.filePath, b.filePath);
    forall t: nat
      ensures PlacedAt(b, preference, t) <==> t == Tier(Language(b), preference)
      ensures PlacedAt(c, preference, t) <==> t == Tier(Language(c), preference)
    {
      TierPlaces(b, preference, t);
      TierPlaces(c, preference, t);
    }
    var t, u := Tier(Language(b), preference), Tier(Language(c), preference);
    assert PlacedAt(b, preference, t) && PlacedAt(c, preference, u);
  }

  lemma {:induction false} NothingBetter(candidates: seq<Image>, preference: seq<string>, c: Image)
    requires c in candidates && c.filePath != ""
    ensures var best := Best(candidates, preference); best.Some? && !Better(c, best.value, preference)
  {
    var init, last := candidates[..|candidates| - 1], candidates[|candidates| - 1];
    assert candidates == init + [last];
    hide Better;
    var best := Best(init, preference);
    if c in init {
      NothingBetter(init, preference, c);
      if last.filePath != "" && Better(last, best.value, preference) && Better(c, last, preference) {
        BetterTransitive(c, last, best.value, preference);
      }
    }
    BetterIrreflexive(last, preference);
  }

  lemma {:induction false} BestListed(candidates: seq<Image>, preference: seq<string>)
    ensures var best := Best(candidates, preference);
      best.Some? ==> best.value in candidates && best.value.filePath != ""
  {
    hide Better;
    if candidates != [] {
      BestListed(candidates[..|candidates| - 1], preference);
    }
  }

  /**
   The choice, over every listing: an image with a path, whenever there is one, such that none has an earlier
   place in the preference list; at its place none has three votes unless it has; among those that have, none
   a higher average; among those still level, none is wider, and of those as wide none has a smaller path.
   */
  lemma ChoiceMeasured(candidates: seq<Image>, preference: seq<string>)
    ensures var best := Best(candidates, preference);
      && (best.Some? <==> exists c :: c in candidates && c.filePath != "")
      && (best.Some? ==>
            && best.value in candidates && best.value.filePath != ""
            && forall c :: c in candidates && c.filePath != "" ==> Unbeaten(best.value, c, preference))
  {
    hide Best, Better, Unbeaten;
    BestListed(candidates, preference);
    forall c | c in candidates && c.filePath != ""
      ensures Best(candidates, preference).Some? && Unbeaten(Best(candidates, preference).value, c, preference)
    {
      NothingBetter(candidates, preference, c);
      UnbeatenExactly(Best(candidates, preference).value, c, preference);
    }
  }

  /** Where no two images share a path, no other image could be the choice. */
  lemma ChoiceExactly(candidates: seq<Image>, preference: seq<string>, b: Image)
    requires DistinctPaths(candidates) && b in candidates && b.filePath != ""
    ensures Best(candidates, preference) == Some(b) <==>
      forall c :: c in candidates && c.filePath != "" ==> Unbeaten(b, c, preference)
  {
    hide Best, Better, Unbeaten;
    ChoiceMeasured(candidates, preference);
    var best := Best(candidates, preference).value;
    if best != b && forall c :: c in candidates && c.filePath != "" ==> Unbeaten(b, c, preference) {
      UnbeatenExactly(b, best, preference);
      UnbeatenExactly(best, b, preference);
      BetterTotal(b, best, preference);
    }
  }
}
