/**
 * The first part of `generateEventResults`: keep the standings whose placement
 * is within the top cut, then sort them by placement.  Python's `sorted` is
 * stable, so standings with equal placements keep their input order; here the
 * sort is an insertion sort that places each standing after the ones with the
 * same placement, and stability is stated as: for every placement, the
 * standings with that placement appear in the same order before and after.
 */
module Standings {

  datatype Standing<E> = Standing(placement: int, entrant: E)

  predicate SortedByPlacement<E>(s: seq<Standing<E>>)
  {
    forall i, j :: 0 <= i < j < |s| ==> s[i].placement <= s[j].placement
  }

  /** The standings with placement p, in order. */
  function WithPlacement<E>(s: seq<Standing<E>>, p: int): seq<Standing<E>>
  {
    if s == [] then []
    else (if s[0].placement == p then [s[0]] else []) + WithPlacement(s[1..], p)
  }

  /** The standings with placement at most topCut, in order: the filter loop. */
  function WithinCut<E>(s: seq<Standing<E>>, topCut: int): seq<Standing<E>>
  {
    if s == [] then []
    else WithinCut(s[..|s| - 1], topCut) + (if s[|s| - 1].placement <= topCut then [s[|s| - 1]] else [])
  }

  /** Insert x after every standing whose placement is at most x's. */
  function Insert<E>(x: Standing<E>, s: seq<Standing<E>>): seq<Standing<E>>
  {
    if s == [] then [x]
    else if x.placement < s[0].placement then [x] + s
    else [s[0]] + Insert(x, s[1..])
  }

  /** `sorted(s, key=lambda d: d['placement'])`. */
  function SortByPlacement<E>(s: seq<Standing<E>>): seq<Standing<E>>
  {
    if s == [] then [] else Insert(s[|s| - 1], SortByPlacement(s[..|s| - 1]))
  }

  lemma {:induction false} WithPlacementAppend<E>(a: seq<Standing<E>>, b: seq<Standing<E>>, p: int)
    ensures WithPlacement(a + b, p) == WithPlacement(a, p) + WithPlacement(b, p)
  {
    if a == [] {
      assert a + b == b;
    } else {
      var head := if a[0].placement == p then [a[0]] else [];
      assert (a + b)[0] == a[0];
      assert (a + b)[1..] == a[1..] + b;
      WithPlacementAppend(a[1..], b, p);
      assert WithPlacement(a + b, p) == head + (WithPlacement(a[1..], p) + WithPlacement(b, p));
      assert WithPlacement(a, p) == head + WithPlacement(a[1..], p);
    }
  }

  lemma {:induction false} WithPlacementMembers<E>(s: seq<Standing<E>>, x: Standing<E>)
    ensures x in s <==> x in WithPlacement(s, x.placement)
  {
    if s != [] {
      WithPlacementMembers(s[1..], x);
      assert x in s <==> x == s[0] || x in s[1..];
    }
  }

  lemma {:induction false} InsertBounded<E>(x: Standing<E>, s: seq<Standing<E>>, b: int)
    requires x.placement >= b
    requires forall k :: 0 <= k < |s| ==> s[k].placement >= b
    ensures forall k :: 0 <= k < |Insert(x, s)| ==> Insert(x, s)[k].placement >= b
  {
    if s != [] && x.placement >= s[0].placement {
      InsertBounded(x, s[1..], b);
    }
  }

  lemma {:induction false} InsertSorted<E>(x: Standing<E>, s: seq<Standing<E>>)
    requires SortedByPlacement(s)
    ensures SortedByPlacement(Insert(x, s))
  {
    if s == [] {
    } else if x.placement < s[0].placement {
      var r := [x] + s;
      forall i, j | 0 <= i < j < |r|
        ensures r[i].placement <= r[j].placement
      {
        assert r[j] == s[j - 1];
        if i > 0 { assert r[i] == s[i - 1]; }
      }
    } else {
      var tail := s[1..];
      assert forall k :: 0 <= k < |tail| ==> tail[k] == s[k + 1];
      InsertSorted(x, tail);
      InsertBounded(x, tail, s[0].placement);
      var rest := Insert(x, tail);
      var r := [s[0]] + rest;
      forall i, j | 0 <= i < j < |r|
        ensures r[i].placement <= r[j].placement
      {
        assert r[j] == rest[j - 1];
        if i > 0 { assert r[i] == rest[i - 1]; }
      }
    }
  }

  lemma {:induction false} InsertWithPlacement<E>(x: Standing<E>, s: seq<Standing<E>>, p: int)
    requires SortedByPlacement(s)
    ensures WithPlacement(Insert(x, s), p)
         == WithPlacement(s, p) + (if x.placement == p then [x] else [])
  {
    if s == [] {
    } else if x.placement < s[0].placement {
      if x.placement == p {
        NoneWithPlacement(s, p);
      }
    } else {
      InsertWithPlacement(x, s[1..], p);
    }
  }

  lemma {:induction false} NoneWithPlacement<E>(s: seq<Standing<E>>, p: int)
    requires forall i :: 0 <= i < |s| ==> s[i].placement > p
    ensures WithPlacement(s, p) == []
  {
    if s != [] {
      NoneWithPlacement(s[1..], p);
    }
  }

  /**
   * Sorting yields a sequence ordered by placement in which, for every
   * placement, the standings with that placement are those of the input, in
   * input order (the sort is stable and a permutation).
   */
  lemma {:induction false} SortIsStable<E>(s: seq<Standing<E>>)
    ensures SortedByPlacement(SortByPlacement(s))
    ensures forall p :: WithPlacement(SortByPlacement(s), p) == WithPlacement(s, p)
  {
    if s != [] {
      var init, last := s[..|s| - 1], s[|s| - 1];
      SortIsStable(init);
      InsertSorted(last, SortByPlacement(init));
      assert s == init + [last];
      forall p
        ensures WithPlacement(SortByPlacement(s), p) == WithPlacement(s, p)
      {
        InsertWithPlacement(last, SortByPlacement(init), p);
        WithPlacementAppend(init, [last], p);
      }
    }
  }

  /** Filtering by the cut keeps, for each placement within the cut, all its standings, and none beyond it. */
  lemma {:induction false} WithinCutByPlacement<E>(s: seq<Standing<E>>, topCut: int, p: int)
    ensures WithPlacement(WithinCut(s, topCut), p) == if p <= topCut then WithPlacement(s, p) else []
  {
    if s != [] {
      var init, last := s[..|s| - 1], s[|s| - 1];
      WithinCutByPlacement(init, topCut, p);
      assert s == init + [last];
      WithPlacementAppend(init, [last], p);
      WithPlacementAppend(WithinCut(init, topCut), if last.placement <= topCut then [last] else [], p);
    }
  }

  /**
   * The filter loop followed by the sort.  The kept standings are ordered by
   * placement; for each placement within the cut they are exactly the input's
   * standings with that placement, in input order, and there are none beyond
   * the cut.
   */
  method TopCut<E>(standings: seq<Standing<E>>, topCut: int) returns (kept: seq<Standing<E>>)
    ensures kept == SortByPlacement(WithinCut(standings, topCut))
    ensures SortedByPlacement(kept)
    ensures forall p :: WithPlacement(kept, p) == if p <= topCut then WithPlacement(standings, p) else []
    ensures forall x :: x in kept <==> x in standings && x.placement <= topCut
  {
    kept := [];
    for i := 0 to |standings|
      invariant kept == WithinCut(standings[..i], topCut)
    {
      assert standings[..i + 1][..i] == standings[..i];
      if standings[i].placement <= topCut {
        kept := kept + [standings[i]];
      }
    }
    assert standings[..|standings|] == standings;
    var within := kept;
    kept := SortByPlacement(within);
    SortIsStable(within);
    forall p
      ensures WithPlacement(kept, p) == if p <= topCut then WithPlacement(standings, p) else []
    {
      WithinCutByPlacement(standings, topCut, p);
    }
    forall x
      ensures x in kept <==> x in standings && x.placement <= topCut
    {
      WithPlacementMembers(kept, x);
      WithPlacementMembers(standings, x);
    }
  }

  lemma {:induction false} WithinCutKeepsAll<E>(s: seq<Standing<E>>, topCut: int)
    requires forall i :: 0 <= i < |s| ==> s[i].placement <= topCut
    ensures WithinCut(s, topCut) == s
  {
    if s != [] {
      WithinCutKeepsAll(s[..|s| - 1], topCut);
    }
  }

  /** Inserting a standing whose placement is not below any other appends it. */
  lemma {:induction false} InsertLast<E>(x: Standing<E>, s: seq<Standing<E>>)
    requires forall i :: 0 <= i < |s| ==> s[i].placement <= x.placement
    ensures Insert(x, s) == s + [x]
  {
    if s != [] {
      InsertLast(x, s[1..]);
    }
  }

  /** An input already ordered by placement is left as it is. */
  lemma {:induction false} SortKeepsSorted<E>(s: seq<Standing<E>>)
    requires SortedByPlacement(s)
    ensures SortByPlacement(s) == s
  {
    if s != [] {
      var init := s[..|s| - 1];
      SortKeepsSorted(init);
      InsertLast(s[|s| - 1], init);
    }
  }

  /** Placements 1, 2, 3, 5, 16, 17 with a cut of 16 keep 1, 2, 3, 5, 16 in that order. */
  lemma TopSixteen()
    ensures var s := [Standing(1, 'a'), Standing(2, 'b'), Standing(3, 'c'),
                      Standing(5, 'd'), Standing(16, 'e'), Standing(17, 'f')];
      SortByPlacement(WithinCut(s, 16)) == s[..5]
  {
    var s := [Standing(1, 'a'), Standing(2, 'b'), Standing(3, 'c'),
              Standing(5, 'd'), Standing(16, 'e'), Standing(17, 'f')];
    var top := s[..5];
    assert s[..|s| - 1] == top && s[|s| - 1].placement > 16;
    assert WithinCut(s, 16) == WithinCut(top, 16);
    assert forall i :: 0 <= i < |top| ==> top[i].placement <= 16;
    WithinCutKeepsAll(top, 16);
    assert forall i :: 0 <= i < |top| - 1 ==> top[i].placement < top[i + 1].placement;
    assert SortedByPlacement(top);
    SortKeepsSorted(top);
  }
}
