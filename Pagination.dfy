/**
 * `getAllEventStandings`: collect every standing of an event page by page, and
 * accept the collection only when its length equals the total the service
 * reports.  At most MAX_CYCLES collection cycles are run; after that the
 * function gives up and returns nothing.
 *
 * The service is replaced by two functions.  `pageInfo(cycle, perPage)` is the
 * page-count query of a cycle, `page(cycle, perPage, p)` the query for page `p`
 * of that cycle; each stands for the reply that `execute` eventually returns
 * (see module Backoff), so the transport never fails here.  What can still go
 * wrong is reading the reply: `PageInfoRaised` and `PageRaised` are replies
 * whose fields cannot be read, so reading them raises.
 *
 * The page size is the Python value `perPage`, which becomes a float after the
 * first halving; it is a `real` here, and halving a real is exact just as
 * halving a float is for the few halvings that can happen.
 */
module Pagination {

  import opened Options
  import Backoff

  const MAX_CYCLES: nat := 5
  const DEFAULT_PER_PAGE: int := 100

  /** Reply to the query for `total` and `totalPages` of the standings connection. */
  datatype PageInfo = PageInfoRaised | PageInfo(total: int, totalPages: int)

  /** Reply to the query for one page of standings nodes. */
  datatype PageReply<T> = PageRaised | PageNodes(nodes: seq<T>)

  datatype Service<T> = Service(pageInfo: (nat, real) -> PageInfo, page: (nat, real, int) -> PageReply<T>)

  /**
   * What one page sweep did: `fetched` pages were asked for (pages 1..fetched),
   * `nodes` were accumulated, and `raised` says whether an exception ended it.
   */
  datatype Sweep<T> = Sweep(fetched: int, nodes: seq<T>, raised: bool)

  /** One collection cycle, as observed. */
  datatype Cycle<T> = Cycle(perPage: real, total: int, totalPages: int, sweep: Sweep<T>)

  /**
   * What `getAllEventStandings` did: returned the standings, fell off the end
   * after the last cycle (`None` in the source), or let an exception escape.
   */
  datatype Outcome<T> = Collected(standings: seq<T>) | GaveUp | Raised

  /** The count check that ends the cycle loop. */
  predicate Reconciled<T>(c: Cycle<T>)
  {
    |c.sweep.nodes| == c.total
  }

  /** The page size of the next cycle: halved only when an exception ended the sweep. */
  function NextPerPage<T>(c: Cycle<T>): real
  {
    if c.sweep.raised then c.perPage / 2.0 else c.perPage
  }

  /** The page loop from page `p` on, with `acc` accumulated so far. */
  function SweepFrom<T>(svc: Service<T>, cycle: nat, perPage: real, p: int, totalPages: int, acc: seq<T>): Sweep<T>
    decreases totalPages - p
  {
    if p > totalPages then Sweep(p - 1, acc, false)
    else match svc.page(cycle, perPage, p)
      case PageRaised => Sweep(p, acc, true)
      case PageNodes(ns) => SweepFrom(svc, cycle, perPage, p + 1, totalPages, acc + ns)
  }

  /** One cycle: the page-count query, then pages 1..totalPages from an empty list. */
  function RunCycle<T>(svc: Service<T>, cycle: nat, perPage: real): Option<Cycle<T>>
  {
    match svc.pageInfo(cycle, perPage)
    case PageInfoRaised => None
    case PageInfo(total, totalPages) =>
      Some(Cycle(perPage, total, totalPages, SweepFrom(svc, cycle, perPage, 1, totalPages, [])))
  }

  /** Cycles `cycle`..MAX_CYCLES-1, starting with page size `perPage`: the outcome and the cycles run. */
  function CollectFrom<T>(svc: Service<T>, cycle: nat, perPage: real): (Outcome<T>, seq<Cycle<T>>)
    decreases MAX_CYCLES - cycle
  {
    if cycle >= MAX_CYCLES then (GaveUp, [])
    else match RunCycle(svc, cycle, perPage)
      case None => (Raised, [])
      case Some(c) =>
        if Reconciled(c) then (Collected(c.sweep.nodes), [c])
        else
          var (r, rest) := CollectFrom(svc, cycle + 1, NextPerPage(c));
          (r, [c] + rest)
  }

  /** The whole collection, starting with the caller's page size. */
  function Collect<T>(svc: Service<T>, initialPerPage: int): (Outcome<T>, seq<Cycle<T>>)
  {
    CollectFrom(svc, 0, initialPerPage as real)
  }

  /**
   * The page loop of one cycle: ask for pages 1..totalPages in order, appending
   * each page's nodes, and stop at the first page whose nodes cannot be read.
   */
  method ReadPages<T>(svc: Service<T>, cycle: nat, perPage: real, totalPages: int) returns (s: Sweep<T>)
    ensures s == SweepFrom(svc, cycle, perPage, 1, totalPages, [])
  {
    var nodes: seq<T> := [];
    var p := 1;
    while p <= totalPages
      invariant 1 <= p && (totalPages >= 1 ==> p <= totalPages + 1)
      invariant SweepFrom(svc, cycle, perPage, p, totalPages, nodes) == SweepFrom(svc, cycle, perPage, 1, totalPages, [])
    {
      var reply := svc.page(cycle, perPage, p);
      if reply.PageRaised? {
        return Sweep(p, nodes, true);
      }
      nodes := nodes + reply.nodes;
      p := p + 1;
    }
    s := Sweep(p - 1, nodes, false);
  }

  /**
   * The imperative collector: a bounded loop of cycles, each of which reads the
   * page count, collects the nodes of every page into a fresh list and compares
   * the count with the total.  It returns the outcome and the cycles it ran,
   * exactly as `Collect` describes them.
   */
  method GetAllEventStandings<T>(svc: Service<T>, initialPerPage: int) returns (r: Outcome<T>, cycles: seq<Cycle<T>>)
    ensures (r, cycles) == Collect(svc, initialPerPage)
  {
    var perPage: real := initialPerPage as real;
    cycles := [];
    var i: nat := 0;
    assert cycles + CollectFrom(svc, i, perPage).1 == CollectFrom(svc, i, perPage).1;
    while i < MAX_CYCLES
      invariant i <= MAX_CYCLES && |cycles| == i
      invariant Collect(svc, initialPerPage)
             == (CollectFrom(svc, i, perPage).0, cycles + CollectFrom(svc, i, perPage).1)
    {
      var info := svc.pageInfo(i, perPage);
      if info.PageInfoRaised? {
        assert cycles + CollectFrom(svc, i, perPage).1 == cycles;
        r := Raised;
        return;
      }
      var sweep := ReadPages(svc, i, perPage, info.totalPages);
      var c := Cycle(perPage, info.total, info.totalPages, sweep);
      assert RunCycle(svc, i, perPage) == Some(c);
      ghost var previous := cycles;
      ghost var rest := CollectFrom(svc, i + 1, NextPerPage(c));
      if sweep.raised {
        perPage := perPage / 2.0;
      }
      cycles := cycles + [c];
      if |sweep.nodes| == info.total {
        r := Collected(sweep.nodes);
        return;
      }
      assert cycles + rest.1 == previous + ([c] + rest.1);
      i := i + 1;
    }
    assert cycles + CollectFrom(svc, i, perPage).1 == cycles;
    r := GaveUp;
  }

  /** The nodes of a page reply; a reply that raises contributes none. */
  function NodesOf<T>(reply: PageReply<T>): seq<T>
  {
    if reply.PageNodes? then reply.nodes else []
  }

  /** The nodes of pages 1..m of a cycle, concatenated in page order. */
  function NodesUpTo<T>(svc: Service<T>, cycle: nat, perPage: real, m: int): seq<T>
    decreases m
  {
    if m <= 0 then [] else NodesUpTo(svc, cycle, perPage, m - 1) + NodesOf(svc.page(cycle, perPage, m))
  }

  /** Pages 1..m of a cycle all have readable nodes. */
  predicate PagesReadable<T>(svc: Service<T>, cycle: nat, perPage: real, m: int)
  {
    forall q :: 1 <= q <= m ==> svc.page(cycle, perPage, q).PageNodes?
  }

  /** Reading one more page of nodes extends the readable prefix and its concatenation. */
  lemma SweepStep<T>(svc: Service<T>, cycle: nat, perPage: real, p: int, acc: seq<T>)
    requires 1 <= p && svc.page(cycle, perPage, p).PageNodes?
    requires PagesReadable(svc, cycle, perPage, p - 1)
    requires acc == NodesUpTo(svc, cycle, perPage, p - 1)
    ensures PagesReadable(svc, cycle, perPage, p)
    ensures acc + svc.page(cycle, perPage, p).nodes == NodesUpTo(svc, cycle, perPage, p)
  {
  }

  /** A sweep from page p that no exception interrupts reads pages p..n and stops after page n. */
  lemma {:induction false} SweepFromUnraised<T>(svc: Service<T>, cycle: nat, perPage: real, p: int, n: int, acc: seq<T>)
    requires 1 <= p && (p <= n + 1 || p == 1)
    requires PagesReadable(svc, cycle, perPage, p - 1)
    requires acc == NodesUpTo(svc, cycle, perPage, p - 1)
    ensures var s := SweepFrom(svc, cycle, perPage, p, n, acc);
      !s.raised ==>
        s.fetched == (if n <= 0 then 0 else n)
        && PagesReadable(svc, cycle, perPage, s.fetched)
        && s.nodes == NodesUpTo(svc, cycle, perPage, s.fetched)
    decreases n - p
  {
    if p <= n {
      var reply := svc.page(cycle, perPage, p);
      if reply.PageNodes? {
        SweepStep(svc, cycle, perPage, p, acc);
        assert SweepFrom(svc, cycle, perPage, p, n, acc) == SweepFrom(svc, cycle, perPage, p + 1, n, acc + reply.nodes);
        SweepFromUnraised(svc, cycle, perPage, p + 1, n, acc + reply.nodes);
      } else {
        assert SweepFrom(svc, cycle, perPage, p, n, acc) == Sweep(p, acc, true);
      }
    } else {
      assert SweepFrom(svc, cycle, perPage, p, n, acc) == Sweep(p - 1, acc, false);
    }
  }

  /** A sweep from page p that an exception interrupts stops at the page that raised, keeping the pages before it. */
  lemma {:induction false} SweepFromRaised<T>(svc: Service<T>, cycle: nat, perPage: real, p: int, n: int, acc: seq<T>)
    requires 1 <= p
    requires PagesReadable(svc, cycle, perPage, p - 1)
    requires acc == NodesUpTo(svc, cycle, perPage, p - 1)
    ensures var s := SweepFrom(svc, cycle, perPage, p, n, acc);
      s.raised ==>
        p <= s.fetched <= n
        && svc.page(cycle, perPage, s.fetched).PageRaised?
        && PagesReadable(svc, cycle, perPage, s.fetched - 1)
        && s.nodes == NodesUpTo(svc, cycle, perPage, s.fetched - 1)
    decreases n - p
  {
    if p <= n {
      var reply := svc.page(cycle, perPage, p);
      if reply.PageNodes? {
        SweepStep(svc, cycle, perPage, p, acc);
        assert SweepFrom(svc, cycle, perPage, p, n, acc) == SweepFrom(svc, cycle, perPage, p + 1, n, acc + reply.nodes);
        SweepFromRaised(svc, cycle, perPage, p + 1, n, acc + reply.nodes);
      } else {
        assert SweepFrom(svc, cycle, perPage, p, n, acc) == Sweep(p, acc, true);
      }
    } else {
      assert SweepFrom(svc, cycle, perPage, p, n, acc) == Sweep(p - 1, acc, false);
    }
  }

  /**
   * A page sweep starts from an empty list and asks for pages 1, 2, ... in
   * order.  When no exception interrupts it, it asked for exactly pages
   * 1..totalPages (none at all when totalPages <= 0) and its nodes are theirs,
   * concatenated in page order.  When page f raises, pages 1..f-1 were read, the
   * sweep stops at f, and the nodes collected so far are kept.
   */
  lemma SweepReadsPagesInOrder<T>(svc: Service<T>, cycle: nat, perPage: real, totalPages: int)
    ensures var s := SweepFrom(svc, cycle, perPage, 1, totalPages, []);
      (totalPages <= 0 ==> s == Sweep(0, [], false))
      && (!s.raised ==>
            s.fetched == (if totalPages <= 0 then 0 else totalPages)
            && PagesReadable(svc, cycle, perPage, totalPages)
            && s.nodes == NodesUpTo(svc, cycle, perPage, totalPages))
      && (s.raised ==>
            1 <= s.fetched <= totalPages
            && svc.page(cycle, perPage, s.fetched).PageRaised?
            && PagesReadable(svc, cycle, perPage, s.fetched - 1)
            && s.nodes == NodesUpTo(svc, cycle, perPage, s.fetched - 1))
  {
    SweepFromUnraised(svc, cycle, perPage, 1, totalPages, []);
    SweepFromRaised(svc, cycle, perPage, 1, totalPages, []);
  }

  /**
   * The cycles run from cycle index `cycle` on: at most the remaining number,
   * the first with page size `perPage`, each one the cycle RunCycle describes at
   * its index, and every one but the last failed the count check and handed the
   * next one the page size NextPerPage gives.
   */
  lemma {:induction false} CollectFromCycles<T>(svc: Service<T>, cycle: nat, perPage: real)
    requires cycle <= MAX_CYCLES
    ensures var cs := CollectFrom(svc, cycle, perPage).1;
      |cs| <= MAX_CYCLES - cycle
      && (|cs| > 0 ==> cs[0].perPage == perPage)
      && (forall j :: 0 <= j < |cs| ==> RunCycle(svc, cycle + j, cs[j].perPage) == Some(cs[j]))
      && (forall j :: 0 <= j < |cs| - 1 ==> !Reconciled(cs[j]) && cs[j + 1].perPage == NextPerPage(cs[j]))
    decreases MAX_CYCLES - cycle
  {
    if cycle < MAX_CYCLES {
      match RunCycle(svc, cycle, perPage)
      case None =>
      case Some(c) =>
        if !Reconciled(c) {
          CollectFromCycles(svc, cycle + 1, NextPerPage(c));
          var rest := CollectFrom(svc, cycle + 1, NextPerPage(c)).1;
          var cs := [c] + rest;
          assert CollectFrom(svc, cycle, perPage).1 == cs;
          forall j | 0 <= j < |cs|
            ensures RunCycle(svc, cycle + j, cs[j].perPage) == Some(cs[j])
          {
            if j > 0 { assert cs[j] == rest[j - 1]; }
          }
          forall j | 0 <= j < |cs| - 1
            ensures !Reconciled(cs[j]) && cs[j + 1].perPage == NextPerPage(cs[j])
          {
            if j > 0 { assert cs[j] == rest[j - 1] && cs[j + 1] == rest[j]; }
          }
        }
    }
  }

  /**
   * How the cycles from index `cycle` on end: with the last cycle's nodes
   * exactly when its count matched, by giving up exactly when every remaining
   * cycle ran and failed the check, and otherwise because the page-count reply
   * of the next cycle raised.
   */
  lemma {:induction false} CollectFromOutcome<T>(svc: Service<T>, cycle: nat, perPage: real)
    requires cycle <= MAX_CYCLES
    ensures var (r, cs) := CollectFrom(svc, cycle, perPage);
      (r.Collected? <==> |cs| > 0 && Reconciled(cs[|cs| - 1]))
      && (r.Collected? ==> r.standings == cs[|cs| - 1].sweep.nodes)
      && (r.GaveUp? <==> |cs| == MAX_CYCLES - cycle && (|cs| == 0 || !Reconciled(cs[|cs| - 1])))
      && (r.Raised? ==> |cs| < MAX_CYCLES - cycle
                        && RunCycle(svc, cycle + |cs|, if |cs| == 0 then perPage else NextPerPage(cs[|cs| - 1])) == None)
    decreases MAX_CYCLES - cycle
  {
    if cycle < MAX_CYCLES {
      match RunCycle(svc, cycle, perPage)
      case None =>
      case Some(c) =>
        if !Reconciled(c) {
          CollectFromOutcome(svc, cycle + 1, NextPerPage(c));
          var (r, rest) := CollectFrom(svc, cycle + 1, NextPerPage(c));
          var cs := [c] + rest;
          assert CollectFrom(svc, cycle, perPage) == (r, cs);
          if rest == [] {
            assert cs[|cs| - 1] == c;
          } else {
            assert cs[|cs| - 1] == rest[|rest| - 1];
          }
        }
    }
  }

  /**
   * The shape of a collection: at most MAX_CYCLES cycles, the first with the
   * caller's page size and each next one with the page size NextPerPage gives;
   * every cycle before the last failed the count check; standings are returned
   * exactly when the last cycle's count equals its total, and then they are that
   * cycle's nodes; the function gives up exactly when MAX_CYCLES cycles all failed
   * the count check; otherwise reading the page count raised.
   */
  lemma CollectShape<T>(svc: Service<T>, initialPerPage: int)
    ensures var (r, cs) := Collect(svc, initialPerPage);
      |cs| <= MAX_CYCLES
      && (|cs| > 0 ==> cs[0].perPage == initialPerPage as real)
      && (forall j :: 0 <= j < |cs| ==> RunCycle(svc, j, cs[j].perPage) == Some(cs[j]))
      && (forall j :: 0 <= j < |cs| - 1 ==> !Reconciled(cs[j]) && cs[j + 1].perPage == NextPerPage(cs[j]))
      && (r.Collected? <==> |cs| > 0 && Reconciled(cs[|cs| - 1]))
      && (r.Collected? ==> r.standings == cs[|cs| - 1].sweep.nodes && |r.standings| == cs[|cs| - 1].total)
      && (r.GaveUp? <==> |cs| == MAX_CYCLES && !Reconciled(cs[|cs| - 1]))
      && (r.Raised? ==> |cs| < MAX_CYCLES
                        && svc.pageInfo(|cs|, if |cs| == 0 then initialPerPage as real else NextPerPage(cs[|cs| - 1])).PageInfoRaised?)
  {
    CollectFromCycles(svc, 0, initialPerPage as real);
    CollectFromOutcome(svc, 0, initialPerPage as real);
  }

  /**
   * A collection that returns standings returns exactly `total` of them, the
   * nodes of the last cycle's pages in page order: all its pages 1..totalPages
   * when no exception interrupted the sweep, otherwise the pages before the one
   * that raised (the count check still runs after an exception).
   */
  lemma CollectedStandingsAreThePages<T>(svc: Service<T>, initialPerPage: int)
    ensures var (r, cs) := Collect(svc, initialPerPage);
      r.Collected? ==>
        var last := |cs| - 1;
        0 <= last
        && |r.standings| == cs[last].total
        && (!cs[last].sweep.raised ==>
              r.standings == NodesUpTo(svc, last, cs[last].perPage, cs[last].totalPages))
        && (cs[last].sweep.raised ==>
              r.standings == NodesUpTo(svc, last, cs[last].perPage, cs[last].sweep.fetched - 1))
  {
    var (r, cs) := Collect(svc, initialPerPage);
    CollectFromOutcome(svc, 0, initialPerPage as real);
    if r.Collected? {
      CollectFromCycles(svc, 0, initialPerPage as real);
      var last := |cs| - 1;
      assert RunCycle(svc, last, cs[last].perPage) == Some(cs[last]);
      SweepReadsPagesInOrder(svc, last, cs[last].perPage, cs[last].totalPages);
    }
  }

  /** The number of cycles whose sweep an exception interrupted. */
  function Halvings<T>(cs: seq<Cycle<T>>): nat
  {
    if cs == [] then 0
    else Halvings(cs[..|cs| - 1]) + (if cs[|cs| - 1].sweep.raised then 1 else 0)
  }

  lemma PositiveQuotient(x: real, d: real)
    requires x > 0.0 && d > 0.0
    ensures x / d > 0.0
  {
  }

  lemma {:induction false} HalvingChain<T>(cs: seq<Cycle<T>>, first: real, j: nat)
    requires |cs| > 0 ==> cs[0].perPage == first
    requires forall k :: 0 <= k < |cs| - 1 ==> cs[k + 1].perPage == NextPerPage(cs[k])
    requires j < |cs|
    ensures cs[j].perPage == first / (Backoff.Pow2(Halvings(cs[..j])) as real)
  {
    if j > 0 {
      HalvingChain(cs, first, j - 1);
      var h := Halvings(cs[..j - 1]);
      assert cs[..j][..j - 1] == cs[..j - 1] && cs[..j][j - 1] == cs[j - 1];
      assert Halvings(cs[..j]) == h + (if cs[j - 1].sweep.raised then 1 else 0);
      var d := Backoff.Pow2(h) as real;
      if cs[j - 1].sweep.raised {
        assert Backoff.Pow2(h + 1) as real == 2.0 * d;
        assert (first / d) / 2.0 == first / (2.0 * d);
      }
    }
  }

  /**
   * The page size of cycle j is the caller's page size divided by 2^h, where h
   * is the number of earlier cycles an exception interrupted: a count mismatch
   * alone never changes it.  So a positive page size stays positive.
   */
  lemma PageSizeHalvedPerException<T>(svc: Service<T>, initialPerPage: int)
    ensures var cs := Collect(svc, initialPerPage).1;
      forall j :: 0 <= j < |cs| ==>
        cs[j].perPage == (initialPerPage as real) / (Backoff.Pow2(Halvings(cs[..j])) as real)
        && (initialPerPage > 0 ==> cs[j].perPage > 0.0)
  {
    CollectFromCycles(svc, 0, initialPerPage as real);
    var cs := Collect(svc, initialPerPage).1;
    forall j | 0 <= j < |cs|
      ensures cs[j].perPage == (initialPerPage as real) / (Backoff.Pow2(Halvings(cs[..j])) as real)
      ensures initialPerPage > 0 ==> cs[j].perPage > 0.0
    {
      HalvingChain(cs, initialPerPage as real, j);
      if initialPerPage > 0 {
        PositiveQuotient(initialPerPage as real, Backoff.Pow2(Halvings(cs[..j])) as real);
      }
    }
  }

  /** A cycle of a service that always delivers pages but never its total neither raises nor reconciles. */
  lemma ShortCycle<T>(svc: Service<T>, j: nat, c: Cycle<T>)
    requires forall c: nat, pp: real, p: int :: svc.page(c, pp, p).PageNodes?
    requires forall c: nat, pp: real :: svc.pageInfo(c, pp).PageInfo? ==>
      |NodesUpTo(svc, c, pp, svc.pageInfo(c, pp).totalPages)| != svc.pageInfo(c, pp).total
    requires RunCycle(svc, j, c.perPage) == Some(c)
    ensures !c.sweep.raised && !Reconciled(c)
  {
    SweepReadsPagesInOrder(svc, j, c.perPage, c.totalPages);
  }

  lemma {:induction false} ShortfallFrom<T>(svc: Service<T>, cycle: nat, perPage: real)
    requires cycle <= MAX_CYCLES
    requires forall c: nat, pp: real :: svc.pageInfo(c, pp).PageInfo?
    requires forall c: nat, pp: real, p: int :: svc.page(c, pp, p).PageNodes?
    requires forall c: nat, pp: real :: svc.pageInfo(c, pp).PageInfo? ==>
      |NodesUpTo(svc, c, pp, svc.pageInfo(c, pp).totalPages)| != svc.pageInfo(c, pp).total
    ensures var (r, cs) := CollectFrom(svc, cycle, perPage);
      r == GaveUp && |cs| == MAX_CYCLES - cycle
      && forall j :: 0 <= j < |cs| ==> cs[j].perPage == perPage
    decreases MAX_CYCLES - cycle
  {
    if cycle < MAX_CYCLES {
      var info := svc.pageInfo(cycle, perPage);
      var c := Cycle(perPage, info.total, info.totalPages, SweepFrom(svc, cycle, perPage, 1, info.totalPages, []));
      assert RunCycle(svc, cycle, perPage) == Some(c);
      ShortCycle(svc, cycle, c);
      ShortfallFrom(svc, cycle + 1, perPage);
      var rest := CollectFrom(svc, cycle + 1, perPage).1;
      var cs := [c] + rest;
      assert CollectFrom(svc, cycle, perPage) == (GaveUp, cs);
      forall j | 0 <= j < |cs|
        ensures cs[j].perPage == perPage
      {
        if j > 0 { assert cs[j] == rest[j - 1]; }
      }
    }
  }

  /**
   * A service that never fails to deliver a page but whose pages never add up to
   * its reported total: every cycle runs with the caller's page size, and after
   * MAX_CYCLES cycles the collection gives up.
   */
  lemma ShortfallGivesUpWithSamePageSize<T>(svc: Service<T>, initialPerPage: int)
    requires forall c: nat, pp: real :: svc.pageInfo(c, pp).PageInfo?
    requires forall c: nat, pp: real, p: int :: svc.page(c, pp, p).PageNodes?
    requires forall c: nat, pp: real :: svc.pageInfo(c, pp).PageInfo? ==>
      |NodesUpTo(svc, c, pp, svc.pageInfo(c, pp).totalPages)| != svc.pageInfo(c, pp).total
    ensures var (r, cs) := Collect(svc, initialPerPage);
      r == GaveUp && |cs| == MAX_CYCLES
      && forall j :: 0 <= j < |cs| ==> cs[j].perPage == initialPerPage as real
  {
    ShortfallFrom(svc, 0, initialPerPage as real);
  }

  /**
   * The service reports 37 standings on one page but delivers 36: the collector
   * retries with the same page size of 100 and gives up after five cycles.
   */
  lemma ThirtySixOfThirtySeven()
    ensures var svc := Service((c: nat, pp: real) => PageInfo(37, 1),
                               (c: nat, pp: real, p: int) => PageNodes(seq(36, k => k)));
      var (r, cs) := Collect(svc, DEFAULT_PER_PAGE);
      r == GaveUp && |cs| == 5 && forall j :: 0 <= j < 5 ==> cs[j].perPage == 100.0
  {
    var svc := Service((c: nat, pp: real) => PageInfo(37, 1),
                       (c: nat, pp: real, p: int) => PageNodes(seq(36, k => k)));
    forall c: nat, pp: real
      ensures |NodesUpTo(svc, c, pp, 1)| == 36
    {
      assert NodesUpTo(svc, c, pp, 1) == [] + seq(36, k => k);
    }
    ShortfallGivesUpWithSamePageSize(svc, DEFAULT_PER_PAGE);
  }
}
