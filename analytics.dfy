/**
 * The session analytics (AnalyticsManager.kt): an append-only log of the
 * requests the service reported, and the queries the dashboard reads from
 * it — totals, the tracker count, the integer risk percentage and the five
 * most requested tracker domains.
 */
module Analytics {

  /** One reported request: when, which domain, and whether the blocklist held it. */
  datatype TrafficLog = TrafficLog(timestamp: string, domain: string, isTracker: bool)

  /** A tracker domain and the number of logged requests to it. */
  datatype ThreatStat = ThreatStat(domain: string, count: nat)

  /** The number of tracker entries (`count { it.isTracker }`). */
  function BlockedCount(logs: seq<TrafficLog>): (n: nat)
    ensures n <= |logs|
    ensures n == 0 <==> forall i :: 0 <= i < |logs| ==> !logs[i].isTracker
  {
    if |logs| == 0 then 0
    else BlockedCount(logs[..|logs| - 1]) + (if logs[|logs| - 1].isTracker then 1 else 0)
  }

  /** The domains of the tracker entries, in log order (the `filter` step of getTopThreats). */
  function TrackerDomains(logs: seq<TrafficLog>): (ds: seq<string>)
    ensures |ds| == BlockedCount(logs)
  {
    if |logs| == 0 then []
    else
      var last := logs[|logs| - 1];
      TrackerDomains(logs[..|logs| - 1]) + (if last.isTracker then [last.domain] else [])
  }

  /** The number of tracker entries for `d`. */
  function TrackerHits(logs: seq<TrafficLog>, d: string): nat
  {
    if |logs| == 0 then 0
    else
      var last := logs[|logs| - 1];
      TrackerHits(logs[..|logs| - 1], d) + (if last.isTracker && last.domain == d then 1 else 0)
  }

  /** A domain occurs among the tracker domains once per tracker entry for it. */
  lemma {:induction false} TrackerDomainsCount(logs: seq<TrafficLog>, d: string)
    ensures multiset(TrackerDomains(logs))[d] == TrackerHits(logs, d)
    ensures d in TrackerDomains(logs) <==> TrackerHits(logs, d) > 0
    decreases |logs|
  {
    if |logs| > 0 {
      TrackerDomainsCount(logs[..|logs| - 1], d);
    }
  }

  /**
   * getRiskPercentage: 0 for an empty log, otherwise the tracker share in
   * whole percent, rounded down.
   */
  function RiskPercentage(logs: seq<TrafficLog>): (r: nat)
    ensures r <= 100
    ensures |logs| == 0 ==> r == 0
    ensures |logs| > 0 ==> r * |logs| <= BlockedCount(logs) * 100 < (r + 1) * |logs|
  {
    if |logs| == 0 then 0
    else
      var x, n := BlockedCount(logs) * 100, |logs|;
      DivBounds(x, n, 100);
      x / n
  }

  /** `x / n` rounds down, and stays within `m` when `x <= m * n`. */
  lemma DivBounds(x: nat, n: nat, m: nat)
    requires n > 0 && x <= m * n
    ensures 0 <= x / n <= m
    ensures (x / n) * n <= x < (x / n + 1) * n
  {
    var q, r := x / n, x % n;
    assert x == q * n + r;
  }

  // ----- getTopThreats -----

  /** The domains of a list of stats, in order. */
  function Domains(g: seq<ThreatStat>): (ds: seq<string>)
    ensures |ds| == |g| && forall i :: 0 <= i < |g| ==> ds[i] == g[i].domain
  {
    seq(|g|, i requires 0 <= i < |g| => g[i].domain)
  }

  /** The sum of the counts. */
  function SumCounts(g: seq<ThreatStat>): nat
  {
    if |g| == 0 then 0 else g[0].count + SumCounts(g[1..])
  }

  /** Records one more request to `d`: its stat counts one more, or a new stat is appended. */
  function Bump(g: seq<ThreatStat>, d: string): (g': seq<ThreatStat>)
    ensures SumCounts(g') == SumCounts(g) + 1
  {
    if |g| == 0 then [ThreatStat(d, 1)]
    else if g[0].domain == d then [ThreatStat(d, g[0].count + 1)] + g[1..]
    else
      assert ([g[0]] + Bump(g[1..], d))[1..] == Bump(g[1..], d);
      [g[0]] + Bump(g[1..], d)
  }

  /** `groupBy { it.domain }` then `map { ThreatStat(key, size) }`: keys in order of first appearance. */
  function Group(ds: seq<string>): seq<ThreatStat>
  {
    if |ds| == 0 then [] else Bump(Group(ds[..|ds| - 1]), ds[|ds| - 1])
  }

  /** Where `d` first occurs in `ds`. */
  function FirstIndex(ds: seq<string>, d: string): (k: nat)
    requires d in ds
    ensures k < |ds| && ds[k] == d && d !in ds[..k]
  {
    if ds[0] == d then 0
    else
      var k := FirstIndex(ds[1..], d);
      assert ds[..k + 1] == [ds[0]] + ds[1..][..k];
      k + 1
  }

  lemma FirstIndexUnique(ds: seq<string>, d: string, k: nat)
    requires k < |ds| && ds[k] == d && d !in ds[..k]
    ensures FirstIndex(ds, d) == k
  {
  }

  /** Appending to a sequence does not move the first occurrence of a domain already in it. */
  lemma FirstIndexSnoc(ds: seq<string>, x: string, d: string)
    requires d in ds + [x]
    ensures d in ds ==> FirstIndex(ds + [x], d) == FirstIndex(ds, d)
    ensures d !in ds ==> FirstIndex(ds + [x], d) == |ds|
  {
    if d in ds {
      var k := FirstIndex(ds, d);
      assert (ds + [x])[..k] == ds[..k];
      FirstIndexUnique(ds + [x], d, k);
    } else {
      assert (ds + [x])[..|ds|] == ds;
      FirstIndexUnique(ds + [x], d, |ds|);
    }
  }

  /**
   * `g` is the grouping of `ds`: one stat per distinct domain, with that
   * domain's number of occurrences, in order of first appearance.
   */
  ghost predicate Grouped(g: seq<ThreatStat>, ds: seq<string>)
  {
    && (forall i :: 0 <= i < |g| ==> g[i].domain in ds && g[i].count == multiset(ds)[g[i].domain])
    && (forall d :: d in ds ==> d in Domains(g))
    && (forall i, j :: 0 <= i < j < |g| ==> FirstIndex(ds, g[i].domain) < FirstIndex(ds, g[j].domain))
  }

  lemma {:induction false} BumpExisting(g: seq<ThreatStat>, d: string, k: nat)
    requires k < |g| && g[k].domain == d
    requires forall i :: 0 <= i < k ==> g[i].domain != d
    ensures Bump(g, d) == g[k := ThreatStat(d, g[k].count + 1)]
    decreases k
  {
    if k > 0 {
      BumpExisting(g[1..], d, k - 1);
      assert g[k := ThreatStat(d, g[k].count + 1)] == [g[0]] + g[1..][k - 1 := ThreatStat(d, g[k].count + 1)];
    }
  }

  lemma {:induction false} BumpNew(g: seq<ThreatStat>, d: string)
    requires d !in Domains(g)
    ensures Bump(g, d) == g + [ThreatStat(d, 1)]
    decreases |g|
  {
    if |g| > 0 {
      assert g[0].domain == Domains(g)[0];
      assert Domains(g[1..]) == Domains(g)[1..];
      BumpNew(g[1..], d);
      assert g + [ThreatStat(d, 1)] == [g[0]] + (g[1..] + [ThreatStat(d, 1)]);
    }
  }

  /** Group(ds) is the grouping of ds, and its counts add up to |ds|. */
  lemma {:induction false} GroupSpec(ds: seq<string>)
    ensures Grouped(Group(ds), ds)
    ensures SumCounts(Group(ds)) == |ds|
    decreases |ds|
  {
    if |ds| > 0 {
      var init, d := ds[..|ds| - 1], ds[|ds| - 1];
      assert ds == init + [d];
      GroupSpec(init);
      var g' := Group(init);
      assert Group(ds) == Bump(g', d);
      assert forall e :: e in init ==> FirstIndex(ds, e) == FirstIndex(init, e) by {
        forall e | e in init
          ensures FirstIndex(ds, e) == FirstIndex(init, e)
        {
          FirstIndexSnoc(init, d, e);
        }
      }
      if d in init {
        GroupSpecHit(g', init, d);
      } else {
        assert d !in Domains(g');
        BumpNew(g', d);
        FirstIndexSnoc(init, d, d);
        GroupedAfterNew(g', Bump(g', d), init, d);
      }
    }
  }

  /** Grouping one more occurrence of an already seen domain. */
  lemma GroupSpecHit(g': seq<ThreatStat>, init: seq<string>, d: string)
    requires Grouped(g', init) && d in init
    requires forall e :: e in init ==> FirstIndex(init + [d], e) == FirstIndex(init, e)
    ensures Grouped(Bump(g', d), init + [d])
  {
    var k :| 0 <= k < |g'| && Domains(g')[k] == d;
    forall i | 0 <= i < k
      ensures g'[i].domain != d
    {
      assert FirstIndex(init, g'[i].domain) < FirstIndex(init, g'[k].domain);
    }
    BumpExisting(g', d, k);
    var g := Bump(g', d);
    assert Domains(g) == Domains(g');
    GroupedAfterHit(g', g, init, d, k);
  }

  lemma GroupedAfterHit(g': seq<ThreatStat>, g: seq<ThreatStat>, init: seq<string>, d: string, k: nat)
    requires Grouped(g', init) && k < |g'| && g'[k].domain == d
    requires g == g'[k := ThreatStat(d, g'[k].count + 1)]
    requires Domains(g) == Domains(g')
    requires forall e :: e in init ==> FirstIndex(init + [d], e) == FirstIndex(init, e)
    ensures Grouped(g, init + [d])
  {
    var ds := init + [d];
    assert multiset(ds) == multiset(init) + multiset{d};
    forall i | 0 <= i < |g|
      ensures g[i].domain in ds && g[i].count == multiset(ds)[g[i].domain]
    {
      assert g'[i].domain == g[i].domain;
    }
  }

  lemma GroupedAfterNew(g': seq<ThreatStat>, g: seq<ThreatStat>, init: seq<string>, d: string)
    requires Grouped(g', init) && d !in init
    requires g == g' + [ThreatStat(d, 1)]
    requires forall e :: e in init ==> FirstIndex(init + [d], e) == FirstIndex(init, e)
    requires FirstIndex(init + [d], d) == |init|
    ensures Grouped(g, init + [d])
  {
    NewCounts(g', g, init, d);
    NewCovers(g', g, init, d);
    NewOrder(g', g, init, d);
  }

  lemma NewCounts(g': seq<ThreatStat>, g: seq<ThreatStat>, init: seq<string>, d: string)
    requires Grouped(g', init) && d !in init
    requires g == g' + [ThreatStat(d, 1)]
    ensures forall i :: 0 <= i < |g| ==> g[i].domain in init + [d] && g[i].count == multiset(init + [d])[g[i].domain]
  {
    var ds := init + [d];
    assert multiset(ds) == multiset(init) + multiset{d};
    assert multiset(init)[d] == 0;
    forall i | 0 <= i < |g|
      ensures g[i].domain in ds && g[i].count == multiset(ds)[g[i].domain]
    {
      if i < |g'| {
        assert g[i] == g'[i];
      }
    }
  }

  lemma NewCovers(g': seq<ThreatStat>, g: seq<ThreatStat>, init: seq<string>, d: string)
    requires Grouped(g', init)
    requires g == g' + [ThreatStat(d, 1)]
    ensures forall e :: e in init + [d] ==> e in Domains(g)
  {
    forall e | e in init + [d]
      ensures e in Domains(g)
    {
      if e == d {
        assert Domains(g)[|g'|] == d;
      } else {
        var k :| 0 <= k < |g'| && Domains(g')[k] == e;
        assert Domains(g)[k] == e;
      }
    }
  }

  lemma NewOrder(g': seq<ThreatStat>, g: seq<ThreatStat>, init: seq<string>, d: string)
    requires Grouped(g', init)
    requires g == g' + [ThreatStat(d, 1)]
    requires forall e :: e in init ==> FirstIndex(init + [d], e) == FirstIndex(init, e)
    requires FirstIndex(init + [d], d) == |init|
    ensures forall i, j :: 0 <= i < j < |g| ==> FirstIndex(init + [d], g[i].domain) < FirstIndex(init + [d], g[j].domain)
  {
    var ds := init + [d];
    forall i, j | 0 <= i < j < |g|
      ensures FirstIndex(ds, g[i].domain) < FirstIndex(ds, g[j].domain)
    {
      assert g[i] == g'[i] && g[i].domain in init;
      if j < |g'| {
        assert g[j] == g'[j];
      }
    }
  }

  /**
   * `a` ranks before `b`: a higher count, or an equal count and an earlier
   * first appearance among the tracker domains `ds`.
   */
  ghost predicate Before(a: ThreatStat, b: ThreatStat, ds: seq<string>)
    requires a.domain in ds && b.domain in ds
  {
    a.count > b.count || (a.count == b.count && FirstIndex(ds, a.domain) < FirstIndex(ds, b.domain))
  }

  /** Every stat is for a domain of `ds`, and each ranks before every later one. */
  ghost predicate Ranked(s: seq<ThreatStat>, ds: seq<string>)
  {
    && (forall i :: 0 <= i < |s| ==> s[i].domain in ds)
    && (forall i, j :: 0 <= i < j < |s| ==> Before(s[i], s[j], ds))
  }

  /** Inserts `x` after every stat whose count is at least its own: one step of a stable sort. */
  function Insert(s: seq<ThreatStat>, x: ThreatStat): seq<ThreatStat>
  {
    if |s| == 0 then [x]
    else if s[0].count >= x.count then [s[0]] + Insert(s[1..], x)
    else [x] + s
  }

  /** `sortedByDescending { it.count }`: a stable sort, as an insertion sort. */
  function SortByCount(g: seq<ThreatStat>): seq<ThreatStat>
  {
    if |g| == 0 then []
    else Insert(SortByCount(g[..|g| - 1]), g[|g| - 1])
  }

  /** Inserting adds exactly the one stat. */
  lemma {:induction false} InsertPerm(s: seq<ThreatStat>, x: ThreatStat)
    ensures multiset(Insert(s, x)) == multiset(s) + multiset{x}
    decreases |s|
  {
    if |s| > 0 && s[0].count >= x.count {
      InsertPerm(s[1..], x);
      assert s == [s[0]] + s[1..];
    }
  }

  /** Sorting is a permutation. */
  lemma {:induction false} SortPerm(g: seq<ThreatStat>)
    ensures multiset(SortByCount(g)) == multiset(g)
    decreases |g|
  {
    if |g| > 0 {
      SortPerm(g[..|g| - 1]);
      InsertPerm(SortByCount(g[..|g| - 1]), g[|g| - 1]);
      assert g == g[..|g| - 1] + [g[|g| - 1]];
    }
  }

  lemma {:induction false} InsertRanked(s: seq<ThreatStat>, x: ThreatStat, ds: seq<string>)
    requires Ranked(s, ds) && x.domain in ds
    requires forall i :: 0 <= i < |s| ==> FirstIndex(ds, s[i].domain) < FirstIndex(ds, x.domain)
    ensures Ranked(Insert(s, x), ds)
    decreases |s|
  {
    var r := Insert(s, x);
    if |s| == 0 {
    } else if s[0].count >= x.count {
      var t := s[1..];
      InsertRanked(t, x, ds);
      InsertPerm(t, x);
      var rt := Insert(t, x);
      assert r == [s[0]] + rt;
      forall j | 0 <= j < |rt|
        ensures rt[j].domain in ds && Before(s[0], rt[j], ds)
      {
        assert rt[j] in multiset(rt);
        if rt[j] != x {
          assert rt[j] in multiset(t);
          var m :| 0 <= m < |t| && t[m] == rt[j];
          assert s[m + 1] == rt[j];
        }
      }
      RankedCons(s[0], rt, ds);
    } else {
      forall j | 0 <= j < |s|
        ensures Before(x, s[j], ds)
      {
        if j > 0 {
          assert Before(s[0], s[j], ds);
        }
      }
      RankedCons(x, s, ds);
    }
  }

  lemma RankedCons(a: ThreatStat, s: seq<ThreatStat>, ds: seq<string>)
    requires Ranked(s, ds) && a.domain in ds
    requires forall j :: 0 <= j < |s| ==> Before(a, s[j], ds)
    ensures Ranked([a] + s, ds)
  {
    var r := [a] + s;
    forall i, j | 0 <= i < j < |r|
      ensures Before(r[i], r[j], ds)
    {
      if i > 0 {
        assert r[i] == s[i - 1] && r[j] == s[j - 1];
      } else {
        assert r[j] == s[j - 1];
      }
    }
  }

  /** Sorting a list ordered by first appearance ranks it: by count, ties by first appearance. */
  lemma {:induction false} SortRanked(g: seq<ThreatStat>, ds: seq<string>)
    requires forall i :: 0 <= i < |g| ==> g[i].domain in ds
    requires forall i, j :: 0 <= i < j < |g| ==> FirstIndex(ds, g[i].domain) < FirstIndex(ds, g[j].domain)
    ensures Ranked(SortByCount(g), ds)
    decreases |g|
  {
    if |g| > 0 {
      var init, x := g[..|g| - 1], g[|g| - 1];
      SortRanked(init, ds);
      SortPerm(init);
      var s := SortByCount(init);
      forall i | 0 <= i < |s|
        ensures FirstIndex(ds, s[i].domain) < FirstIndex(ds, x.domain)
      {
        assert s[i] in multiset(init);
        var m :| 0 <= m < |init| && init[m] == s[i];
        assert g[m] == s[i];
      }
      InsertRanked(s, x, ds);
    }
  }

  lemma {:induction false} InsertSum(s: seq<ThreatStat>, x: ThreatStat)
    ensures SumCounts(Insert(s, x)) == SumCounts(s) + x.count
    decreases |s|
  {
    if |s| > 0 && s[0].count >= x.count {
      InsertSum(s[1..], x);
      assert ([s[0]] + Insert(s[1..], x))[1..] == Insert(s[1..], x);
    }
  }

  lemma {:induction false} SortSum(g: seq<ThreatStat>)
    ensures SumCounts(SortByCount(g)) == SumCounts(g)
    decreases |g|
  {
    if |g| > 0 {
      var init, x := g[..|g| - 1], g[|g| - 1];
      assert SortByCount(g) == Insert(SortByCount(init), x);
      assert SumCounts(SortByCount(g)) == SumCounts(init) + x.count by {
        SortSum(init);
        InsertSum(SortByCount(init), x);
      }
      assert g == init + [x];
      SumSnoc(init, x);
    }
  }

  lemma {:induction false} SumSnoc(g: seq<ThreatStat>, x: ThreatStat)
    ensures SumCounts(g + [x]) == SumCounts(g) + x.count
    decreases |g|
  {
    if |g| > 0 {
      assert (g + [x])[1..] == g[1..] + [x];
      SumSnoc(g[1..], x);
    }
  }

  lemma {:induction false} SumPrefix(s: seq<ThreatStat>, k: nat)
    requires k <= |s|
    ensures SumCounts(s[..k]) <= SumCounts(s)
    decreases k
  {
    if k > 0 {
      assert s[..k][1..] == s[1..][..k - 1];
      SumPrefix(s[1..], k - 1);
    }
  }

  /** The tracker domains' stats, grouped and sorted, before the cut to five. */
  function Ranking(logs: seq<TrafficLog>): seq<ThreatStat>
  {
    SortByCount(Group(TrackerDomains(logs)))
  }

  /** The number of stats returned. */
  const TopCount: nat := 5

  /** getTopThreats over a log: the first five of the ranking. */
  function TopThreats(logs: seq<TrafficLog>): (t: seq<ThreatStat>)
    ensures |t| <= TopCount && t <= Ranking(logs)
  {
    var s := Ranking(logs);
    if |s| <= TopCount then s else s[..TopCount]
  }

  /** A sequence whose elements are pairwise different has as many distinct elements as entries. */
  lemma {:induction false} DistinctCard(dd: seq<string>)
    requires forall i, j :: 0 <= i < j < |dd| ==> dd[i] != dd[j]
    ensures |set x | x in dd| == |dd|
    decreases |dd|
  {
    if |dd| > 0 {
      var init := dd[..|dd| - 1];
      DistinctCard(init);
      assert (set x | x in dd) == (set x | x in init) + {dd[|dd| - 1]};
      assert dd[|dd| - 1] !in init;
    }
  }

  /** Sorting keeps each stat of a grouping: its domain and that domain's count. */
  lemma SortKeepsCounts(g: seq<ThreatStat>, ds: seq<string>)
    requires Grouped(g, ds)
    ensures var s := SortByCount(g);
      forall i :: 0 <= i < |s| ==> s[i].domain in ds && s[i].count == multiset(ds)[s[i].domain] >= 1
  {
    var s := SortByCount(g);
    SortPerm(g);
    forall i | 0 <= i < |s|
      ensures s[i].domain in ds && s[i].count == multiset(ds)[s[i].domain] >= 1
    {
      assert s[i] in multiset(g);
      var m :| 0 <= m < |g| && g[m] == s[i];
    }
  }

  /** Sorting keeps every domain of a grouping. */
  lemma SortKeepsDomains(g: seq<ThreatStat>, ds: seq<string>)
    requires Grouped(g, ds)
    ensures forall d :: d in ds ==> d in Domains(SortByCount(g))
  {
    var s := SortByCount(g);
    SortPerm(g);
    forall d | d in ds
      ensures d in Domains(s)
    {
      var m :| 0 <= m < |g| && Domains(g)[m] == d;
      assert g[m] in multiset(s);
      var n :| 0 <= n < |s| && s[n] == g[m];
      assert Domains(s)[n] == d;
    }
  }

  /** A grouping has one stat per distinct domain. */
  lemma GroupedSize(g: seq<ThreatStat>, ds: seq<string>)
    requires Grouped(g, ds)
    ensures |g| == |set d | d in ds|
  {
    var dd := Domains(g);
    forall i, j | 0 <= i < j < |dd|
      ensures dd[i] != dd[j]
    {
      assert FirstIndex(ds, g[i].domain) < FirstIndex(ds, g[j].domain);
    }
    DistinctCard(dd);
    forall d | d in ds
      ensures d in dd
    {
    }
    assert (set x | x in dd) == (set x | x in ds);
  }

  /**
   * The ranking holds one stat per tracker domain, with its number of
   * tracker entries, ranked by count with ties in order of first
   * appearance; its counts add up to the number of tracker entries.
   */
  lemma RankingSpec(logs: seq<TrafficLog>)
    ensures Ranked(Ranking(logs), TrackerDomains(logs))
    ensures forall i :: 0 <= i < |Ranking(logs)| ==>
      Ranking(logs)[i].count == multiset(TrackerDomains(logs))[Ranking(logs)[i].domain] >= 1
    ensures forall d :: d in TrackerDomains(logs) ==> d in Domains(Ranking(logs))
    ensures SumCounts(Ranking(logs)) == |TrackerDomains(logs)|
    ensures |Ranking(logs)| == |set d | d in TrackerDomains(logs)|
  {
    var ds := TrackerDomains(logs);
    var g := Group(ds);
    GroupSpec(ds);
    SortRanked(g, ds);
    SortSum(g);
    SortKeepsCounts(g, ds);
    SortKeepsDomains(g, ds);
    GroupedSize(g, ds);
    assert |SortByCount(g)| == |g| by {
      SortPerm(g);
      assert |multiset(SortByCount(g))| == |multiset(g)|;
    }
  }

  /** Each stat getTopThreats returns is a tracker domain with its number of tracker entries, at least one. */
  lemma TopThreatsCounts(logs: seq<TrafficLog>)
    ensures var t := TopThreats(logs);
      forall i :: 0 <= i < |t| ==> TrackerHits(logs, t[i].domain) == t[i].count >= 1
  {
    var t, s, ds := TopThreats(logs), Ranking(logs), TrackerDomains(logs);
    RankingSpec(logs);
    forall i | 0 <= i < |t|
      ensures TrackerHits(logs, t[i].domain) == t[i].count >= 1
    {
      assert t[i] == s[i];
      TrackerDomainsCount(logs, t[i].domain);
    }
  }

  /**
   * Ties follow the first tracker entry, not the first log entry: the filter
   * runs before the grouping, so a domain logged before the blocklist held
   * it ranks by its later tracker entry.
   */
  lemma TiesFollowTrackerEntries()
    ensures TopThreats([TrafficLog("t0", "x", false), TrafficLog("t1", "y", true), TrafficLog("t2", "x", true)])
      == [ThreatStat("y", 1), ThreatStat("x", 1)]
  {
    var logs := [TrafficLog("t0", "x", false), TrafficLog("t1", "y", true), TrafficLog("t2", "x", true)];
    assert TrackerDomains(logs) == ["y", "x"];
    var y, x := ThreatStat("y", 1), ThreatStat("x", 1);
    assert ["y", "x"][..1] == ["y"] && ["y"][..0] == [];
    assert Group(["y"]) == [y];
    assert Bump([y], "x") == [y] + Bump([], "x");
    assert Group(["y", "x"]) == [y, x];
    assert [y, x][..1] == [y] && [y][..0] == [];
    assert SortByCount([y]) == [y];
    assert Insert([y], x) == [y] + Insert([], x);
    assert SortByCount([y, x]) == [y, x];
    assert Ranking(logs) == [y, x];
  }

  /**
   * getTopThreats ranks its stats: distinct domains, counts not increasing,
   * and equal counts in order of the domains' first tracker entries.
   */
  lemma TopThreatsOrder(logs: seq<TrafficLog>)
    ensures var t, ds := TopThreats(logs), TrackerDomains(logs);
      && Ranked(t, ds)
      && forall i, j :: 0 <= i < j < |t| ==>
           t[i].domain != t[j].domain && t[i].count >= t[j].count
           && (t[i].count == t[j].count ==> FirstIndex(ds, t[i].domain) < FirstIndex(ds, t[j].domain))
  {
    var t, s, ds := TopThreats(logs), Ranking(logs), TrackerDomains(logs);
    RankingSpec(logs);
    forall i, j | 0 <= i < j < |t|
      ensures Before(t[i], t[j], ds)
    {
      assert t[i] == s[i] && t[j] == s[j];
    }
    forall i, j | 0 <= i < j < |t|
      ensures t[i].domain != t[j].domain
    {
      assert t[i] == s[i] && t[j] == s[j];
    }
  }

  /**
   * A tracker domain getTopThreats leaves out ranks below every stat it
   * returns, and then five stats are returned.
   */
  lemma TopThreatsComplete(logs: seq<TrafficLog>, d: string)
    requires d in TrackerDomains(logs) && d !in Domains(TopThreats(logs))
    ensures var t, ds := TopThreats(logs), TrackerDomains(logs);
      && |t| == TopCount
      && forall i :: 0 <= i < |t| ==>
           t[i].domain in ds && Before(t[i], ThreatStat(d, TrackerHits(logs, d)), ds)
  {
    var t, s, ds := TopThreats(logs), Ranking(logs), TrackerDomains(logs);
    RankingSpec(logs);
    TrackerDomainsCount(logs, d);
    var n :| 0 <= n < |s| && Domains(s)[n] == d;
    PrefixDomains(s, t, n);
    forall i | 0 <= i < |t|
      ensures t[i].domain in ds && Before(t[i], ThreatStat(d, TrackerHits(logs, d)), ds)
    {
      assert t[i] == s[i] && s[n] == ThreatStat(d, TrackerHits(logs, d));
    }
  }

  /** A stat within a prefix has its domain among the prefix's domains. */
  lemma PrefixDomains(s: seq<ThreatStat>, t: seq<ThreatStat>, n: nat)
    requires t <= s && n < |s|
    ensures n < |t| ==> Domains(s)[n] in Domains(t)
  {
    if n < |t| {
      assert Domains(t)[n] == Domains(s)[n];
    }
  }

  /**
   * The counts getTopThreats returns add up to at most the tracker count,
   * and to exactly it when there are at most five tracker domains.
   */
  lemma TopThreatsSum(logs: seq<TrafficLog>)
    ensures SumCounts(TopThreats(logs)) <= BlockedCount(logs)
    ensures |set d | d in TrackerDomains(logs)| <= TopCount ==> SumCounts(TopThreats(logs)) == BlockedCount(logs)
  {
    var t, s := TopThreats(logs), Ranking(logs);
    RankingSpec(logs);
    SumPrefix(s, |t|);
    assert s[..|t|] == t;
  }

  /**
   * The analytics singleton: the session's log, in the order the entries
   * were reported.
   */
  class AnalyticsManager {
    var sessionLogs: seq<TrafficLog>

    /** The object starts with an empty log. */
    constructor ()
      ensures sessionLogs == []
    {
      sessionLogs := [];
    }

    /** addLog: appends the entry; nothing earlier changes. */
    method AddLog(log: TrafficLog)
      modifies this
      ensures sessionLogs == old(sessionLogs) + [log]
    {
      sessionLogs := sessionLogs + [log];
    }

    /** getTopThreats: at most five stats, each a logged tracker domain with its tracker count. */
    function GetTopThreats(): (t: seq<ThreatStat>)
      reads this
      ensures |t| <= TopCount
      ensures forall i :: 0 <= i < |t| ==> TrackerHits(sessionLogs, t[i].domain) == t[i].count >= 1
    {
      TopThreatsCounts(sessionLogs);
      TopThreats(sessionLogs)
    }

    /** getTotalRequests: the number of logged requests. */
    function GetTotalRequests(): (n: nat)
      reads this
      ensures n == |sessionLogs|
    {
      |sessionLogs|
    }

    /** getBlockedCount: the tracker entries, never more than the requests. */
    function GetBlockedCount(): (n: nat)
      reads this
      ensures n <= GetTotalRequests()
      ensures n == 0 <==> forall i :: 0 <= i < |sessionLogs| ==> !sessionLogs[i].isTracker
    {
      BlockedCount(sessionLogs)
    }

    /** getRiskPercentage: the tracker share in whole percent, rounded down; 0 for an empty log. */
    function GetRiskPercentage(): (r: nat)
      reads this
      ensures r <= 100
      ensures |sessionLogs| == 0 ==> r == 0
      ensures |sessionLogs| > 0 ==> r * |sessionLogs| <= GetBlockedCount() * 100 < (r + 1) * |sessionLogs|
    {
      RiskPercentage(sessionLogs)
    }
  }

  /**
   * Adding an entry adds one request, and one tracker exactly when the
   * entry is a tracker; the earlier entries are still there, in order.
   */
  lemma AddLogCounts(logs: seq<TrafficLog>, log: TrafficLog)
    ensures |logs + [log]| == |logs| + 1 && (logs + [log])[..|logs|] == logs
    ensures BlockedCount(logs + [log]) == BlockedCount(logs) + (if log.isTracker then 1 else 0)
    ensures TrackerDomains(logs + [log]) == TrackerDomains(logs) + (if log.isTracker then [log.domain] else [])
  {
    assert (logs + [log])[..|logs|] == logs;
  }
}
