/** Filtering a list, and what survives a permutation of it. */
module Lists {

  function Filter<T>(p: T -> bool, s: seq<T>): seq<T>
  {
    if s == [] then [] else Filter(p, s[..|s| - 1]) + (if p(s[|s| - 1]) then [s[|s| - 1]] else [])
  }

  lemma FilterSnoc<T>(p: T -> bool, s: seq<T>, x: T)
    ensures Filter(p, s + [x]) == Filter(p, s) + (if p(x) then [x] else [])
  {
    assert (s + [x])[..|s|] == s;
  }

  lemma FilterNext<T>(p: T -> bool, s: seq<T>, i: nat)
    requires i < |s|
    ensures Filter(p, s[..i + 1]) == Filter(p, s[..i]) + (if p(s[i]) then [s[i]] else [])
  {
    assert s[..i + 1] == s[..i] + [s[i]];
    FilterSnoc(p, s[..i], s[i]);
  }

  lemma {:induction false} FilterMembers<T>(p: T -> bool, s: seq<T>)
    ensures forall x :: x in Filter(p, s) <==> x in s && p(x)
  {
    if s != [] {
      assert s == s[..|s| - 1] + [s[|s| - 1]];
      FilterMembers(p, s[..|s| - 1]);
    }
  }

  /** Filtering by a stronger condition first changes nothing. */
  lemma {:induction false} FilterTwice<T(!new)>(p: T -> bool, weaker: T -> bool, s: seq<T>)
    requires forall x :: p(x) ==> weaker(x)
    ensures Filter(p, Filter(weaker, s)) == Filter(p, s)
  {
    if s != [] {
      var init, last := s[..|s| - 1], s[|s| - 1];
      FilterTwice(p, weaker, init);
      FilterSnoc(p, Filter(weaker, init), last);
      assert weaker(last) || Filter(weaker, s) == Filter(weaker, init);
    }
  }

  lemma {:induction false} FilterAll<T>(p: T -> bool, s: seq<T>)
    requires forall x :: x in s ==> p(x)
    ensures Filter(p, s) == s
  {
    if s != [] {
      assert s == s[..|s| - 1] + [s[|s| - 1]];
      FilterAll(p, s[..|s| - 1]);
    }
  }

  lemma {:induction false} FilterNone<T>(p: T -> bool, s: seq<T>)
    requires forall x :: x in s ==> !p(x)
    ensures Filter(p, s) == []
  {
    if s != [] {
      assert s == s[..|s| - 1] + [s[|s| - 1]];
      FilterNone(p, s[..|s| - 1]);
    }
  }

  /** Lists that agree wherever either passes filter alike. */
  lemma {:induction false} FilterAgree<T>(p: T -> bool, s: seq<T>, t: seq<T>)
    requires |s| == |t| && forall i :: 0 <= i < |s| ==> s[i] == t[i] || (!p(s[i]) && !p(t[i]))
    ensures Filter(p, s) == Filter(p, t)
  {
    if s != [] {
      FilterAgree(p, s[..|s| - 1], t[..|t| - 1]);
    }
  }

  /** A list with one passing position filters to that element. */
  lemma {:induction false} FilterOne<T>(p: T -> bool, s: seq<T>, k: nat)
    requires k < |s| && p(s[k]) && forall i :: 0 <= i < |s| && i != k ==> !p(s[i])
    ensures Filter(p, s) == [s[k]]
  {
    var init, last := s[..|s| - 1], s[|s| - 1];
    if k == |s| - 1 {
      FilterNone(p, init);
    } else {
      FilterOne(p, init, k);
    }
  }

  /** Two passing positions leave two elements or more. */
  lemma {:induction false} FilterTwo<T>(p: T -> bool, s: seq<T>, i: nat, k: nat)
    requires i < k < |s| && p(s[i]) && p(s[k])
    ensures |Filter(p, s)| >= 2
  {
    var init := s[..|s| - 1];
    if k == |s| - 1 {
      FilterMembers(p, init);
      assert init[i] in Filter(p, init);
    } else {
      FilterTwo(p, init, i, k);
    }
  }

  lemma {:induction false} FilterConcat<T>(p: T -> bool, s: seq<T>, t: seq<T>)
    ensures Filter(p, s + t) == Filter(p, s) + Filter(p, t)
  {
    if t == [] {
      assert s + t == s;
    } else {
      assert (s + t)[..|s + t| - 1] == s + t[..|t| - 1];
      FilterConcat(p, s, t[..|t| - 1]);
    }
  }

  lemma SoleElement<T>(s: seq<T>, t: seq<T>)
    requires multiset(s) == multiset(t) && |s| == 1
    ensures s == t
  {
    assert |multiset(s)| == |s| && |multiset(t)| == |t|;
    assert t[0] in multiset(t);
    assert s == [s[0]] && t == [t[0]];
  }

  lemma RemoveAt<T>(before: seq<T>, x: T, after: seq<T>)
    ensures multiset(before + after) == multiset(before + [x] + after) - multiset{x}
  {
    assert multiset(before + [x] + after) == multiset(before) + multiset{x} + multiset(after);
  }

  lemma InsertMiddle<T>(before: seq<T>, middle: seq<T>, after: seq<T>)
    ensures multiset(before + middle + after) == multiset(before + after) + multiset(middle)
  {
    assert multiset(before + middle + after) == multiset(before) + multiset(middle) + multiset(after);
  }

  lemma {:induction false} FilterMultiset<T>(p: T -> bool, s: seq<T>, t: seq<T>)
    requires multiset(s) == multiset(t)
    ensures multiset(Filter(p, s)) == multiset(Filter(p, t))
  {
    if s == [] {
      assert |multiset(s)| == |multiset(t)| == |t|;
    } else {
      var init, x := s[..|s| - 1], s[|s| - 1];
      assert s == init + [x];
      assert x in multiset(t);
      var j :| 0 <= j < |t| && t[j] == x;
      var before, after := t[..j], t[j + 1..];
      assert t == before + [x] + after;
      assert multiset(init) == multiset(before + after) by {
        assert multiset(init) == multiset(s) - multiset{x};
        RemoveAt(before, x, after);
      }
      FilterMultiset(p, init, before + after);
      FilterConcat(p, before, after);
      FilterConcat(p, before + [x], after);
      FilterSnoc(p, before, x);
      InsertMiddle(Filter(p, before), if p(x) then [x] else [], Filter(p, after));
    }
  }

  lemma FilterPermuted<T>(p: T -> bool, s: seq<T>, t: seq<T>)
    requires multiset(s) == multiset(t)
    ensures |Filter(p, s)| == |Filter(p, t)|
    ensures |Filter(p, s)| == 1 ==> Filter(p, s) == Filter(p, t)
  {
    var a, b := Filter(p, s), Filter(p, t);
    FilterMultiset(p, s, t);
    assert |multiset(a)| == |a| && |multiset(b)| == |b|;
    if |a| == 1 {
      SoleElement(a, b);
    }
  }

  /** More positions pass after a change that only lets more through, in the same order. */
  lemma {:induction false} FilterGrows<T>(p: T -> bool, s: seq<T>, t: seq<T>)
    requires |s| == |t| && forall i :: 0 <= i < |s| ==> p(s[i]) ==> p(t[i])
    ensures |Filter(p, s)| <= |Filter(p, t)|
  {
    if s != [] {
      FilterGrows(p, s[..|s| - 1], t[..|t| - 1]);
    }
  }

  lemma {:induction false} FilterWeaker<T>(p: T -> bool, q: T -> bool, s: seq<T>)
    requires forall x :: x in s && p(x) ==> q(x)
    ensures |Filter(p, s)| <= |Filter(q, s)|
  {
    if s != [] {
      assert s[|s| - 1] in s;
      FilterWeaker(p, q, s[..|s| - 1]);
    }
  }

  lemma {:induction false} FilterStrictlyWeaker<T>(p: T -> bool, q: T -> bool, s: seq<T>, x: T)
    requires (forall y :: y in s && p(y) ==> q(y)) && x in s && q(x) && !p(x)
    ensures |Filter(p, s)| < |Filter(q, s)|
  {
    var init, last := s[..|s| - 1], s[|s| - 1];
    assert last in s;
    if last == x {
      FilterWeaker(p, q, init);
    } else {
      FilterStrictlyWeaker(p, q, init, x);
    }
  }

  lemma {:induction false} FilterSize<T>(p: T -> bool, s: seq<T>)
    ensures |Filter(p, s)| <= |s|
  {
    if s != [] {
      FilterSize(p, s[..|s| - 1]);
    }
  }

  lemma {:induction false} FirstIndex<T>(s: seq<T>, x: T) returns (i: nat)
    requires x in s
    ensures i < |s| && s[i] == x && x !in s[..i]
  {
    if s[0] == x {
      i := 0;
    } else {
      i := FirstIndex(s[1..], x);
      i := i + 1;
      assert s[..i] == [s[0]] + s[1..][..i - 1];
    }
  }

  /** Conditions that agree on a list filter it alike. */
  lemma {:induction false} FilterSame<T>(p: T -> bool, q: T -> bool, s: seq<T>)
    requires forall x :: x in s ==> (p(x) <==> q(x))
    ensures Filter(p, s) == Filter(q, s)
  {
    if s != [] {
      assert s[|s| - 1] in s;
      FilterSame(p, q, s[..|s| - 1]);
    }
  }

  /** The last position that passes gives the last element. */
  lemma {:induction false} FilterLast<T>(p: T -> bool, s: seq<T>, k: nat)
    requires k < |s| && p(s[k]) && forall i :: k < i < |s| ==> !p(s[i])
    ensures Filter(p, s) != [] && Filter(p, s)[|Filter(p, s)| - 1] == s[k]
  {
    if k < |s| - 1 {
      FilterLast(p, s[..|s| - 1], k);
    }
  }

  lemma {:induction false} SubsetSize<T>(a: set<T>, b: set<T>)
    requires a <= b
    ensures |a| <= |b|
  {
    if a != {} {
      var x :| x in a;
      SubsetSize(a - {x}, b - {x});
    }
  }

  ghost predicate Distinct<T>(s: seq<T>)
  {
    forall i, j :: 0 <= i < j < |s| ==> s[i] != s[j]
  }

  lemma {:induction false} FilterDistinct<T>(p: T -> bool, s: seq<T>)
    requires Distinct(s)
    ensures Distinct(Filter(p, s))
  {
    if s != [] {
      var init, last := s[..|s| - 1], s[|s| - 1];
      FilterDistinct(p, init);
      FilterMembers(p, init);
      assert last !in init;
      assert forall k :: 0 <= k < |Filter(p, init)| ==> Filter(p, init)[k] in Filter(p, init);
    }
  }
}
