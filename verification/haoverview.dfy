/** The two Home Assistant overviews built from a snapshot: `status` counts the
    entities of each domain and lists the ten largest domains; `entities`
    groups the entities by domain and shows the ten largest groups with their
    first five members. Domains are kept in order of first appearance, as the
    Python dicts do, and both rankings use the stable sort, so equal sizes keep
    that order. */
module HomeAssistantOverview {
  import opened PyText
  import opened StableSort
  import opened HomeAssistant

  function Last<T>(xs: seq<T>): T
    requires |xs| > 0
  {
    xs[|xs| - 1]
  }

  function Init<T>(xs: seq<T>): seq<T>
    requires |xs| > 0
  {
    xs[..|xs| - 1]
  }

  /** The states of domain `d`, in snapshot order. */
  function InDomain(states: seq<Entity>, d: string): (r: seq<Entity>)
    ensures |r| <= |states|
    ensures forall e :: e in r ==> e in states && Domain(e) == d
    decreases |states|
  {
    if |states| == 0 then []
    else
      var r := InDomain(Init(states), d) + (if Domain(Last(states)) == d then [Last(states)] else []);
      assert forall e :: e in Init(states) ==> e in states;
      r
  }

  /** Some state has domain `d`. */
  predicate HasDomain(states: seq<Entity>, d: string) {
    exists i :: 0 <= i < |states| && Domain(states[i]) == d
  }

  /** The distinct domains, in order of first appearance. */
  function Domains(states: seq<Entity>): (ds: seq<string>)
    ensures forall i, j :: 0 <= i < j < |ds| ==> ds[i] != ds[j]
    ensures forall d :: d in ds <==> HasDomain(states, d)
    decreases |states|
  {
    if |states| == 0 then []
    else
      var ds := Domains(Init(states));
      var d := Domain(Last(states));
      HasDomainLast(states);
      if d in ds then ds else ds + [d]
  }

  /** The domains of a snapshot are those of all but its last state plus the
      last state's. */
  lemma HasDomainLast(states: seq<Entity>)
    requires |states| > 0
    ensures forall x :: HasDomain(states, x) <==> HasDomain(Init(states), x) || x == Domain(Last(states))
  {
    forall x ensures HasDomain(states, x) <==> HasDomain(Init(states), x) || x == Domain(Last(states)) {
      if HasDomain(Init(states), x) {
        var i :| 0 <= i < |Init(states)| && Domain(Init(states)[i]) == x;
        assert states[i] == Init(states)[i];
      }
      if HasDomain(states, x) && x != Domain(Last(states)) {
        var i :| 0 <= i < |states| && Domain(states[i]) == x;
        assert Init(states)[i] == states[i];
      }
    }
  }

  /** A domain no state has owns no states. */
  lemma InDomainEmpty(states: seq<Entity>, d: string)
    requires !HasDomain(states, d)
    ensures InDomain(states, d) == []
  {
  }

  type Group = (string, seq<Entity>)

  /** One turn of the grouping loop: the entity joins its domain's group,
      which is created at the end when the domain is new. */
  function AddToGroups(gs: seq<Group>, e: Entity): (r: seq<Group>)
    ensures Domain(e) in Firsts(gs) ==> Firsts(r) == Firsts(gs)
    ensures Domain(e) !in Firsts(gs) ==> r == gs + [(Domain(e), [e])]
  {
    var d := Domain(e);
    if d in Firsts(gs) then
      var k := IndexOf(Firsts(gs), d);
      var r := gs[k := (d, gs[k].1 + [e])];
      assert Firsts(r) == Firsts(gs);
      r
    else gs + [(d, [e])]
  }

  /** The grouping loop of the entities command. */
  function GroupByDomain(states: seq<Entity>): seq<Group>
    decreases |states|
  {
    if |states| == 0 then [] else AddToGroups(GroupByDomain(Init(states)), Last(states))
  }

  /** The groups are the distinct domains in first-appearance order, and each
      holds exactly the states of its domain, in snapshot order. */
  lemma {:induction false} GroupsAreDomains(states: seq<Entity>)
    ensures Firsts(GroupByDomain(states)) == Domains(states)
    ensures forall i :: 0 <= i < |GroupByDomain(states)| ==>
      GroupByDomain(states)[i].1 == InDomain(states, GroupByDomain(states)[i].0)
    decreases |states|
  {
    if |states| > 0 {
      GroupsAreDomains(Init(states));
      GroupKeysStep(states);
      if Domain(Last(states)) in Firsts(GroupByDomain(Init(states))) {
        GroupsStepKnown(states);
      } else {
        GroupsStepNew(states);
      }
    }
  }

  /** One turn of the grouping loop adds a group exactly for a new domain. */
  lemma GroupKeysStep(states: seq<Entity>)
    requires |states| > 0
    requires Firsts(GroupByDomain(Init(states))) == Domains(Init(states))
    ensures Firsts(GroupByDomain(states)) == Domains(states)
  {
  }

  /** A state of a domain already seen joins the end of that domain's group. */
  lemma GroupsStepKnown(states: seq<Entity>)
    requires |states| > 0
    requires Firsts(GroupByDomain(Init(states))) == Domains(Init(states))
    requires Domain(Last(states)) in Firsts(GroupByDomain(Init(states)))
    requires forall i :: 0 <= i < |GroupByDomain(Init(states))| ==>
      GroupByDomain(Init(states))[i].1 == InDomain(Init(states), GroupByDomain(Init(states))[i].0)
    ensures forall i :: 0 <= i < |GroupByDomain(states)| ==>
      GroupByDomain(states)[i].1 == InDomain(states, GroupByDomain(states)[i].0)
  {
    var p := Init(states);
    var e := Last(states);
    var d := Domain(e);
    var gs := GroupByDomain(p);
    var r := GroupByDomain(states);
    var k := IndexOf(Firsts(gs), d);
    assert r == gs[k := (d, gs[k].1 + [e])];
    forall i | 0 <= i < |r| ensures r[i].1 == InDomain(states, r[i].0) {
      assert InDomain(states, r[i].0) == InDomain(p, r[i].0) + (if d == r[i].0 then [e] else []);
      if i != k {
        assert Firsts(gs)[i] != d;
      }
    }
  }

  /** A state of a new domain opens a group of its own at the end. */
  lemma GroupsStepNew(states: seq<Entity>)
    requires |states| > 0
    requires Firsts(GroupByDomain(Init(states))) == Domains(Init(states))
    requires Domain(Last(states)) !in Firsts(GroupByDomain(Init(states)))
    requires forall i :: 0 <= i < |GroupByDomain(Init(states))| ==>
      GroupByDomain(Init(states))[i].1 == InDomain(Init(states), GroupByDomain(Init(states))[i].0)
    ensures forall i :: 0 <= i < |GroupByDomain(states)| ==>
      GroupByDomain(states)[i].1 == InDomain(states, GroupByDomain(states)[i].0)
  {
    var p := Init(states);
    var e := Last(states);
    var d := Domain(e);
    var gs := GroupByDomain(p);
    var r := GroupByDomain(states);
    assert r == gs + [(d, [e])];
    assert !HasDomain(p, d);
    InDomainEmpty(p, d);
    forall i | 0 <= i < |r| ensures r[i].1 == InDomain(states, r[i].0) {
      assert InDomain(states, r[i].0) == InDomain(p, r[i].0) + (if d == r[i].0 then [e] else []);
      if i < |gs| {
        assert Firsts(gs)[i] != d;
      }
    }
  }

  type Count = (string, nat)

  /** One turn of the counting loop `domains[d] = domains.get(d, 0) + 1`. */
  function AddCount(cs: seq<Count>, d: string): (r: seq<Count>)
    ensures |r| == |cs| || r == cs + [(d, 1)]
  {
    var ks := Firsts(cs);
    if d in ks then
      var k := IndexOf(ks, d);
      cs[k := (d, cs[k].1 + 1)]
    else cs + [(d, 1)]
  }

  /** The counting loop of the status command. */
  function DomainCounts(states: seq<Entity>): seq<Count>
    decreases |states|
  {
    if |states| == 0 then [] else AddCount(DomainCounts(Init(states)), Domain(Last(states)))
  }

  /** Each group's domain with its number of states. */
  function Sizes(gs: seq<Group>): (cs: seq<Count>)
    ensures |cs| == |gs|
    ensures forall i :: 0 <= i < |gs| ==> cs[i] == (gs[i].0, |gs[i].1|)
  {
    seq(|gs|, i requires 0 <= i < |gs| => (gs[i].0, |gs[i].1|))
  }

  /** The counts the status command builds are the sizes of the groups the
      entities command builds, domain by domain and in the same order. */
  lemma {:induction false} CountsAreGroupSizes(states: seq<Entity>)
    ensures DomainCounts(states) == Sizes(GroupByDomain(states))
    decreases |states|
  {
    if |states| > 0 {
      CountsAreGroupSizes(Init(states));
      AddCountMatches(GroupByDomain(Init(states)), Last(states));
    }
  }

  /** One step of the counting loop matches one step of the grouping loop. */
  lemma AddCountMatches(gs: seq<Group>, e: Entity)
    ensures AddCount(Sizes(gs), Domain(e)) == Sizes(AddToGroups(gs, e))
  {
    var cs := Sizes(gs);
    var ks := Firsts(cs);
    assert ks == Firsts(gs);
    var d := Domain(e);
    if d in ks {
      var k := IndexOf(ks, d);
      var r := gs[k := (d, gs[k].1 + [e])];
      assert AddToGroups(gs, e) == r;
      assert AddCount(cs, d) == cs[k := (d, cs[k].1 + 1)];
    } else {
      assert AddToGroups(gs, e) == gs + [(d, [e])];
    }
  }

  /** The total of the counts. */
  function SumCounts(cs: seq<Count>): nat
    decreases |cs|
  {
    if |cs| == 0 then 0 else SumCounts(Init(cs)) + Last(cs).1
  }

  lemma {:induction false} SumCountsUpdate(cs: seq<Count>, k: nat, c: Count)
    requires k < |cs|
    ensures SumCounts(cs[k := c]) == SumCounts(cs) - cs[k].1 + c.1
    decreases |cs|
  {
    if k < |cs| - 1 {
      assert Init(cs[k := c]) == Init(cs)[k := c];
      SumCountsUpdate(Init(cs), k, c);
    } else {
      assert Init(cs[k := c]) == Init(cs);
    }
  }

  /** The per-domain counts add up to the number of states. */
  lemma {:induction false} CountsSum(states: seq<Entity>)
    ensures SumCounts(DomainCounts(states)) == |states|
    decreases |states|
  {
    if |states| > 0 {
      var cs := DomainCounts(Init(states));
      var d := Domain(Last(states));
      CountsSum(Init(states));
      var ks := Firsts(cs);
      if d in ks {
        var k := IndexOf(ks, d);
        SumCountsUpdate(cs, k, (d, cs[k].1 + 1));
      } else {
        assert Init(cs + [(d, 1)]) == cs;
      }
    }
  }

  function CountKey(c: Count): int { c.1 }

  /** `sorted(domains.items(), key=count, reverse=True)` */
  function RankedCounts(states: seq<Entity>): (r: seq<Count>)
    ensures SortedDesc(r, CountKey)
    ensures multiset(r) == multiset(DomainCounts(states))
  {
    SortDescSorted(DomainCounts(states), CountKey);
    SortDesc(DomainCounts(states), CountKey)
  }

  /** Domains with equal counts keep their order of first appearance. */
  lemma RankingKeepsTies(states: seq<Entity>, count: int)
    ensures WithKey(RankedCounts(states), CountKey, count) == WithKey(DomainCounts(states), CountKey, count)
  {
    SortDescStable(DomainCounts(states), CountKey, count);
  }

  /** Every ranked entry is a domain of the snapshot with its number of states. */
  lemma RankedEntry(states: seq<Entity>, i: nat)
    requires i < |RankedCounts(states)|
    ensures HasDomain(states, RankedCounts(states)[i].0)
    ensures RankedCounts(states)[i].1 == |InDomain(states, RankedCounts(states)[i].0)|
  {
    var c := RankedCounts(states)[i];
    assert c in multiset(DomainCounts(states));
    var j :| 0 <= j < |DomainCounts(states)| && DomainCounts(states)[j] == c;
    CountsAreGroupSizes(states);
    GroupsAreDomains(states);
    assert Firsts(GroupByDomain(states))[j] == c.0;
  }

  /** There is one count per distinct domain. */
  lemma RankedLength(states: seq<Entity>)
    ensures |RankedCounts(states)| == |Domains(states)|
  {
    CountsAreGroupSizes(states);
    GroupsAreDomains(states);
    assert |multiset(RankedCounts(states))| == |multiset(DomainCounts(states))|;
  }

  const MaxDomainsShown := 10

  datatype StatusView = StatusView(total: nat, shown: seq<Count>, moreDomains: Option<int>)

  /** `_get_status`: the total, the ten largest domains with their counts,
      and how many domains were left out. */
  function Status(states: seq<Entity>): (v: StatusView)
    ensures v.total == |states|
    ensures |v.shown| == Min(MaxDomainsShown, |Domains(states)|) <= |RankedCounts(states)|
    ensures v.shown == RankedCounts(states)[..|v.shown|]
    ensures SortedDesc(v.shown, CountKey)
    ensures v.moreDomains.Some? <==> |Domains(states)| > MaxDomainsShown
    ensures v.moreDomains.Some? ==> v.moreDomains.value + |v.shown| == |Domains(states)|
  {
    var ranked := RankedCounts(states);
    RankedLength(states);
    var shown := ranked[..Min(MaxDomainsShown, |ranked|)];
    StatusView(|states|, shown, if |ranked| > MaxDomainsShown then Some(|ranked| - MaxDomainsShown) else None)
  }

  const MaxEntitiesPerDomain := 5

  function GroupKey(g: Group): int { |g.1| }

  /** One domain of the entities overview: its first five states and how many
      more it has. */
  datatype DomainView = DomainView(domain: string, shown: seq<Entity>, more: Option<int>)

  datatype EntitiesView =
    | NoEntities
    | Overview(domains: seq<DomainView>, moreDomains: Option<int>, total: nat, domainCount: nat)

  function ViewGroup(g: Group): (v: DomainView)
    ensures v.domain == g.0
    ensures v.shown == g.1[..Min(MaxEntitiesPerDomain, |g.1|)]
    ensures v.more.Some? <==> |g.1| > MaxEntitiesPerDomain
    ensures v.more.Some? ==> |v.shown| + v.more.value == |g.1|
  {
    DomainView(g.0, g.1[..Min(MaxEntitiesPerDomain, |g.1|)],
      if |g.1| > MaxEntitiesPerDomain then Some(|g.1| - MaxEntitiesPerDomain) else None)
  }

  /** The groups ranked by size, largest first, ties in first-appearance order. */
  function RankedGroups(states: seq<Entity>): (r: seq<Group>)
    ensures SortedDesc(r, GroupKey)
    ensures multiset(r) == multiset(GroupByDomain(states))
    ensures |r| == |Domains(states)|
    ensures forall i :: 0 <= i < |r| ==> HasDomain(states, r[i].0) && r[i].1 == InDomain(states, r[i].0)
  {
    var gs := GroupByDomain(states);
    SortDescSorted(gs, GroupKey);
    GroupsAreDomains(states);
    var r := SortDesc(gs, GroupKey);
    forall i | 0 <= i < |r| ensures HasDomain(states, r[i].0) && r[i].1 == InDomain(states, r[i].0) {
      assert r[i] in multiset(gs);
      GroupMember(states, r[i]);
    }
    r
  }

  /** Every group is a domain of the snapshot together with its states. */
  lemma GroupMember(states: seq<Entity>, g: Group)
    requires g in multiset(GroupByDomain(states))
    ensures HasDomain(states, g.0) && g.1 == InDomain(states, g.0)
  {
    var gs := GroupByDomain(states);
    GroupsAreDomains(states);
    var j :| 0 <= j < |gs| && gs[j] == g;
    assert Firsts(gs)[j] == g.0;
  }

  /** The ranked groups name every domain of the snapshot, each once. */
  lemma RankedDistinct(states: seq<Entity>)
    ensures forall i, j :: 0 <= i < j < |RankedGroups(states)| ==> RankedGroups(states)[i].0 != RankedGroups(states)[j].0
  {
    GroupsDistinct(states);
    PermDistinct(RankedGroups(states), GroupByDomain(states));
  }

  lemma RankedCovers(states: seq<Entity>)
    ensures forall d :: HasDomain(states, d) ==> exists i :: 0 <= i < |RankedGroups(states)| && RankedGroups(states)[i].0 == d
  {
    GroupsAreDomains(states);
    forall d | HasDomain(states, d) ensures exists i :: 0 <= i < |RankedGroups(states)| && RankedGroups(states)[i].0 == d {
      PermCovers(RankedGroups(states), GroupByDomain(states), d);
    }
  }

  /** A permutation of groups names every domain the original names. */
  lemma PermCovers(a: seq<Group>, b: seq<Group>, d: string)
    requires multiset(a) == multiset(b)
    requires d in Firsts(b)
    ensures exists i :: 0 <= i < |a| && a[i].0 == d
  {
    var p :| 0 <= p < |b| && Firsts(b)[p] == d;
    assert b[p] in multiset(a);
    var i :| 0 <= i < |a| && a[i] == b[p];
  }

  /** The grouping loop opens one group per domain. */
  lemma GroupsDistinct(states: seq<Entity>)
    ensures forall i, j :: 0 <= i < j < |GroupByDomain(states)| ==> GroupByDomain(states)[i].0 != GroupByDomain(states)[j].0
  {
    var gs := GroupByDomain(states);
    GroupsAreDomains(states);
    forall i, j | 0 <= i < j < |gs| ensures gs[i].0 != gs[j].0 {
      assert Firsts(gs)[i] == gs[i].0 && Firsts(gs)[j] == gs[j].0;
    }
  }

  /** A permutation of groups with distinct domains has distinct domains. */
  lemma PermDistinct(a: seq<Group>, b: seq<Group>)
    requires multiset(a) == multiset(b)
    requires forall i, j :: 0 <= i < j < |b| ==> b[i].0 != b[j].0
    ensures forall i, j :: 0 <= i < j < |a| ==> a[i].0 != a[j].0
  {
    forall i, j | 0 <= i < j < |a| ensures a[i].0 != a[j].0 {
      if a[i] == a[j] {
        TwiceCounted(a, i, j);
        KeyOnce(b, a[i]);
      } else {
        assert a[i] in multiset(b) && a[j] in multiset(b);
        var p :| 0 <= p < |b| && b[p] == a[i];
        var q :| 0 <= q < |b| && b[q] == a[j];
        assert p != q;
      }
    }
  }

  /** An element at two positions is counted twice. */
  lemma TwiceCounted<T>(s: seq<T>, i: nat, j: nat)
    requires i < j < |s| && s[i] == s[j]
    ensures multiset(s)[s[i]] >= 2
  {
    assert s == s[..j] + s[j..];
    assert s[i] in s[..j];
    assert s[j] in s[j..];
  }

  /** In groups with distinct domains a group occurs at most once. */
  lemma KeyOnce(gs: seq<Group>, g: Group)
    requires forall i, j :: 0 <= i < j < |gs| ==> gs[i].0 != gs[j].0
    ensures multiset(gs)[g] <= 1
  {
    if g in gs {
      var p :| 0 <= p < |gs| && gs[p] == g;
      assert gs == gs[..p] + [g] + gs[p + 1..];
      assert g !in gs[..p] by {
        forall k | 0 <= k < p ensures gs[..p][k] != g {
          assert gs[..p][k] == gs[k];
        }
      }
      var rest := gs[p + 1..];
      assert g !in rest by {
        forall k | 0 <= k < |rest| ensures rest[k] != g {
          assert rest[k] == gs[p + 1 + k];
        }
      }
    }
  }

  /** No domain is shown twice. */
  ghost predicate DistinctDomains(views: seq<DomainView>) {
    forall i, j :: 0 <= i < j < |views| ==> views[i].domain != views[j].domain
  }

  /** No domain left out has more states than the last one shown. */
  ghost predicate NoneLargerLeftOut(states: seq<Entity>, views: seq<DomainView>) {
    forall d :: HasDomain(states, d) && (forall i :: 0 <= i < |views| ==> views[i].domain != d) ==>
      |views| > 0 && |InDomain(states, d)| <= |InDomain(states, views[|views| - 1].domain)|
  }

  /** Views of a prefix of a ranking with distinct domains that covers the
      snapshot show distinct domains, and no domain left out is larger than
      the last one shown. */
  lemma ViewsAreTop(states: seq<Entity>, ranked: seq<Group>, views: seq<DomainView>)
    requires SortedDesc(ranked, GroupKey)
    requires forall i :: 0 <= i < |ranked| ==> ranked[i].1 == InDomain(states, ranked[i].0)
    requires forall i, j :: 0 <= i < j < |ranked| ==> ranked[i].0 != ranked[j].0
    requires forall d :: HasDomain(states, d) ==> exists i :: 0 <= i < |ranked| && ranked[i].0 == d
    requires |views| == Min(MaxDomainsShown, |ranked|)
    requires forall i :: 0 <= i < |views| ==> views[i].domain == ranked[i].0
    ensures DistinctDomains(views)
    ensures NoneLargerLeftOut(states, views)
  {
    forall d | HasDomain(states, d) && (forall i :: 0 <= i < |views| ==> views[i].domain != d)
      ensures |views| > 0 && |InDomain(states, d)| <= |InDomain(states, views[|views| - 1].domain)|
    {
      var k :| 0 <= k < |ranked| && ranked[k].0 == d;
      assert k >= |views|;
      assert GroupKey(ranked[|views| - 1]) >= GroupKey(ranked[k]);
    }
  }

  /** `_handle_entities_command` */
  function EntitiesOverview(states: seq<Entity>): (v: EntitiesView)
    ensures v.NoEntities? <==> |states| == 0
    ensures v.Overview? ==> v.total == |states| && v.domainCount == |Domains(states)|
    ensures v.Overview? ==> |v.domains| == Min(MaxDomainsShown, |Domains(states)|)
    ensures v.Overview? ==> (v.moreDomains.Some? <==> |Domains(states)| > MaxDomainsShown)
    ensures v.Overview? && v.moreDomains.Some? ==> v.moreDomains.value + |v.domains| == |Domains(states)|
    ensures v.Overview? ==> forall i :: 0 <= i < |v.domains| ==>
      var all := InDomain(states, v.domains[i].domain);
      && HasDomain(states, v.domains[i].domain)
      && v.domains[i].shown == all[..Min(MaxEntitiesPerDomain, |all|)]
      && (v.domains[i].more.Some? <==> |all| > MaxEntitiesPerDomain)
      && (v.domains[i].more.Some? ==> |v.domains[i].shown| + v.domains[i].more.value == |all|)
    ensures v.Overview? ==> forall i, j :: 0 <= i < j < |v.domains| ==>
      |InDomain(states, v.domains[i].domain)| >= |InDomain(states, v.domains[j].domain)|
    ensures v.Overview? ==> DistinctDomains(v.domains) && NoneLargerLeftOut(states, v.domains)
    ensures v.Overview? ==> forall i :: 0 <= i < |v.domains| ==> v.domains[i] == ViewGroup(RankedGroups(states)[i])
  {
    if |states| == 0 then NoEntities
    else
      var ranked := RankedGroups(states);
      Overview(TopViews(states), if |ranked| > MaxDomainsShown then Some(|ranked| - MaxDomainsShown) else None,
        |states|, |GroupByDomain(states)|)
  }

  /** The views of the largest domains, at most `MaxDomainsShown` of them. */
  function TopViews(states: seq<Entity>): (views: seq<DomainView>)
    ensures |views| == Min(MaxDomainsShown, |Domains(states)|)
    ensures forall i :: 0 <= i < |views| ==>
      var all := InDomain(states, views[i].domain);
      && HasDomain(states, views[i].domain)
      && views[i].shown == all[..Min(MaxEntitiesPerDomain, |all|)]
      && (views[i].more.Some? <==> |all| > MaxEntitiesPerDomain)
      && (views[i].more.Some? ==> |views[i].shown| + views[i].more.value == |all|)
    ensures forall i, j :: 0 <= i < j < |views| ==>
      |InDomain(states, views[i].domain)| >= |InDomain(states, views[j].domain)|
    ensures DistinctDomains(views) && NoneLargerLeftOut(states, views)
    ensures forall i :: 0 <= i < |views| ==> views[i] == ViewGroup(RankedGroups(states)[i])
  {
    var ranked := RankedGroups(states);
    var views := ViewsOf(ranked);
    ViewsMatchDomains(states, ranked, views);
    ViewsDescending(states, ranked, views);
    RankedDistinct(states);
    RankedCovers(states);
    ViewsAreTop(states, ranked, views);
    views
  }

  /** `sorted_domains[:10]`, each shown as a view. */
  function ViewsOf(ranked: seq<Group>): (views: seq<DomainView>)
    ensures |views| == Min(MaxDomainsShown, |ranked|)
    ensures forall i :: 0 <= i < |views| ==> views[i] == ViewGroup(ranked[i])
  {
    var top := ranked[..Min(MaxDomainsShown, |ranked|)];
    seq(|top|, i requires 0 <= i < |top| => ViewGroup(top[i]))
  }

  /** Views taken from the ranked groups in order are ordered by the size of
      their domain, largest first. */
  lemma ViewsDescending(states: seq<Entity>, ranked: seq<Group>, views: seq<DomainView>)
    requires SortedDesc(ranked, GroupKey)
    requires forall i :: 0 <= i < |ranked| ==> ranked[i].1 == InDomain(states, ranked[i].0)
    requires |views| <= |ranked|
    requires forall i :: 0 <= i < |views| ==> views[i].domain == ranked[i].0
    ensures forall i, j :: 0 <= i < j < |views| ==>
      |InDomain(states, views[i].domain)| >= |InDomain(states, views[j].domain)|
  {
    forall i, j | 0 <= i < j < |views|
      ensures |InDomain(states, views[i].domain)| >= |InDomain(states, views[j].domain)|
    {
      assert GroupKey(ranked[i]) >= GroupKey(ranked[j]);
    }
  }

  /** Each view shows the first states of its domain and counts the rest. */
  lemma ViewsMatchDomains(states: seq<Entity>, ranked: seq<Group>, views: seq<DomainView>)
    requires forall i :: 0 <= i < |ranked| ==> HasDomain(states, ranked[i].0) && ranked[i].1 == InDomain(states, ranked[i].0)
    requires |views| <= |ranked|
    requires forall i :: 0 <= i < |views| ==> views[i] == ViewGroup(ranked[i])
    ensures forall i :: 0 <= i < |views| ==>
      var all := InDomain(states, views[i].domain);
      && HasDomain(states, views[i].domain)
      && views[i].shown == all[..Min(MaxEntitiesPerDomain, |all|)]
      && (views[i].more.Some? <==> |all| > MaxEntitiesPerDomain)
      && (views[i].more.Some? ==> |views[i].shown| + views[i].more.value == |all|)
  {
    forall i | 0 <= i < |views|
      ensures var all := InDomain(states, views[i].domain);
        && HasDomain(states, views[i].domain)
        && views[i].shown == all[..Min(MaxEntitiesPerDomain, |all|)]
        && (views[i].more.Some? <==> |all| > MaxEntitiesPerDomain)
        && (views[i].more.Some? ==> |views[i].shown| + views[i].more.value == |all|)
    {
      assert views[i].domain == ranked[i].0;
    }
  }
}
