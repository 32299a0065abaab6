/** The site index compiler: overlapping site sources become one label map and one
    disjoint, merged segment list, with site 0 wherever claims of different sites meet. */
module SiteIndex {
  import opened Base
  import opened Cidrs

  const SITE_CONTESTED: u16 := 0

  datatype Site = Site(id: u16, vpce: seq<Bytes>, cidrs: CidrSet)

  datatype Segment = Segment(start: u128, end: u128, id: u16) {
    predicate Has(a: int) {
      start <= a <= end
    }
  }

  // ----- the naive reference: who claims this? -------------------------------

  /** Nobody, the sole claimant, or quarantine. */
  ghost function Contest(claimants: set<u16>): Option<u16> {
    if claimants == {} then None
    else if |claimants| == 1 then
      var x :| x in claimants;
      Some(x)
    else Some(SITE_CONTESTED)
  }

  ghost function AddressClaimants(sites: seq<Site>, a: int): set<u16> {
    set s | s in sites && InSome(s.cidrs.ranges, a) :: s.id
  }

  ghost function LabelClaimants(sites: seq<Site>, name: Bytes): set<u16> {
    set s | s in sites && name in s.vpce :: s.id
  }

  ghost predicate SitesValid(sites: seq<Site>) {
    forall s :: s in sites ==> s.cidrs.Valid()
  }

  lemma ContestSole(x: u16)
    ensures Contest({x}) == Some(x)
  {
    assert |{x}| == 1;
  }

  /** How one more claimant changes the answer. */
  lemma ContestAdd(claimants: set<u16>, x: u16)
    ensures Contest(claimants + {x}) ==
      match Contest(claimants)
      case None => Some(x)
      case Some(v) => if v != x && v != SITE_CONTESTED then Some(SITE_CONTESTED) else Some(v)
  {
    if claimants == {} {
      assert claimants + {x} == {x};
      ContestSole(x);
    } else if |claimants| == 1 {
      var v :| v in claimants;
      assert |claimants - {v}| == 0;
      assert claimants == {v};
      ContestSole(v);
      if v == x {
        assert claimants + {x} == {x};
      } else {
        assert |claimants + {x}| == 2;
      }
    } else if x in claimants {
      assert claimants + {x} == claimants;
    } else {
      assert |claimants + {x}| == |claimants| + 1;
    }
  }

  // ----- the compiled scheme -------------------------------------------------

  datatype Scheme = Scheme(prefix: Bytes, sites: seq<Site>, vpceIndex: map<Bytes, u16>, segments: seq<Segment>) {

    /** What compilation establishes: both indices answer the naive question. */
    ghost predicate Compiled() {
      && |prefix| == 6
      && Apart(segments)
      && Unmergeable(segments)
      && (forall a: u128, id: u16 :: Tells(segments, a, id) <==> Contest(AddressClaimants(sites, a)) == Some(id))
      && (forall l: Bytes :: LabelSite(l) == Contest(LabelClaimants(sites, l)))
    }

    function AddrSite(addr: u128): (r: Option<u16>)
      requires Apart(segments)
      ensures forall id: u16 :: r == Some(id) <==> Tells(segments, addr, id)
    {
      var i := StartedBy(segments, addr);
      if i > 0 && addr <= segments[i - 1].end then Some(segments[i - 1].id) else None
    }

    function RangeSite(start: u128, end: u128): (r: Option<u16>)
      requires Apart(segments)
    {
      var i := StartedBy(segments, start);
      if i > 0 && end <= segments[i - 1].end then Some(segments[i - 1].id) else None
    }

    function LabelSite(name: Bytes): Option<u16> {
      if name in vpceIndex then Some(vpceIndex[name]) else None
    }
  }

  ghost predicate Tells(segs: seq<Segment>, a: int, id: u16) {
    exists s :: s in segs && s.Has(a) && s.id == id
  }

  ghost predicate Apart(segs: seq<Segment>) {
    && (forall s :: s in segs ==> s.start <= s.end)
    && forall i, j :: 0 <= i < j < |segs| ==> segs[i].end < segs[j].start
  }

  /** No two segments touch and carry the same id. */
  ghost predicate Unmergeable(segs: seq<Segment>) {
    forall i, j :: 0 <= i < j < |segs| && segs[i].end + 1 == segs[j].start ==> segs[i].id != segs[j].id
  }

  /** How many segments start at or before `a`; the last of them is the only one that can hold it. */
  function StartedBy(segs: seq<Segment>, a: u128): (i: nat)
    requires Apart(segs)
    ensures i <= |segs|
    ensures i > 0 ==> segs[i - 1] in segs && segs[i - 1].start <= a
    ensures forall s :: s in segs && s.Has(a) ==> i > 0 && s == segs[i - 1]
  {
    var i := PartitionPoint(segs, (s: Segment) => s.start <= a);
    LastStarted(segs, a, i);
    i
  }

  lemma LastStarted(segs: seq<Segment>, a: u128, i: nat)
    requires Apart(segs) && i <= |segs|
    requires forall j :: 0 <= j < i ==> segs[j].start <= a
    requires forall j :: i <= j < |segs| ==> segs[j].start > a
    ensures forall s :: s in segs && s.Has(a) ==> i > 0 && s == segs[i - 1]
  {
    forall s | s in segs && s.Has(a) ensures i > 0 && s == segs[i - 1] {
      var k :| 0 <= k < |segs| && segs[k] == s;
    }
  }

  ghost predicate AllTell(segs: seq<Segment>, start: u128, end: u128, id: u16) {
    forall a: u128 :: start <= a <= end ==> Tells(segs, a, id)
  }

  /** One segment answers for an interval exactly when every address in it answers alike. */
  lemma RangeSiteExactly(sch: Scheme, start: u128, end: u128, id: u16)
    requires Apart(sch.segments) && Unmergeable(sch.segments) && start <= end
    ensures sch.RangeSite(start, end) == Some(id) <==> AllTell(sch.segments, start, end, id)
  {
    RangeOwned(sch.segments, start, end, id, StartedBy(sch.segments, start));
  }

  lemma RangeOwned(segs: seq<Segment>, start: u128, end: u128, id: u16, i: nat)
    requires Apart(segs) && Unmergeable(segs) && start <= end && i <= |segs|
    requires i > 0 ==> segs[i - 1].start <= start && segs[i - 1] in segs
    requires forall s :: s in segs && s.Has(start) ==> i > 0 && s == segs[i - 1]
    ensures AllTell(segs, start, end, id) <==> i > 0 && end <= segs[i - 1].end && segs[i - 1].id == id
  {
    if i > 0 && end <= segs[i - 1].end && segs[i - 1].id == id {
      forall a: u128 | start <= a <= end ensures Tells(segs, a, id) {
        assert segs[i - 1].Has(a);
      }
    } else if AllTell(segs, start, end, id) {
      assert Tells(segs, start, id);
      MergedRunsEnd(segs, i, id);
      assert false;
    }
  }

  /** The address after a segment never answers to the same id: they would have merged. */
  lemma MergedRunsEnd(segs: seq<Segment>, i: nat, id: u16)
    requires Apart(segs) && Unmergeable(segs) && 0 < i <= |segs| && segs[i - 1].id == id
    ensures !Tells(segs, segs[i - 1].end + 1, id)
  {
    var next := segs[i - 1].end + 1;
    forall s | s in segs && s.Has(next) ensures s.id != id {
      var k :| 0 <= k < |segs| && segs[k] == s;
      assert k >= i;
      if k > i {
        assert segs[i] in segs && segs[i].end < segs[k].start;
      }
    }
  }

  // ----- labels --------------------------------------------------------------

  ghost function IndexTells(index: map<Bytes, u16>, l: Bytes): Option<u16> {
    if l in index then Some(index[l]) else None
  }

  /** The index answers for whole sites and the first n labels of one more. */
  ghost predicate Answers(index: map<Bytes, u16>, sites: seq<Site>, site: Site, n: nat, l: Bytes)
    requires n <= |site.vpce|
  {
    IndexTells(index, l) == Contest(LabelClaimants(sites, l) + if l in site.vpce[..n] then {site.id} else {})
  }

  lemma AnswersStep(index: map<Bytes, u16>, sites: seq<Site>, site: Site, n: nat, l: Bytes, index': map<Bytes, u16>)
    requires n < |site.vpce| && Answers(index, sites, site, n, l)
    requires var v := site.vpce[n];
      index' == if v !in index then index[v := site.id]
                else if index[v] != site.id && index[v] != SITE_CONTESTED then index[v := SITE_CONTESTED]
                else index
    ensures Answers(index', sites, site, n + 1, l)
  {
    var v := site.vpce[n];
    assert site.vpce[..n + 1] == site.vpce[..n] + [v];
    var before := LabelClaimants(sites, l) + if l in site.vpce[..n] then {site.id} else {};
    if l == v {
      ContestAdd(before, site.id);
      assert before + {site.id} == LabelClaimants(sites, l) + {site.id};
    } else {
      assert l in site.vpce[..n + 1] <==> l in site.vpce[..n];
      assert IndexTells(index', l) == IndexTells(index, l);
    }
  }

  lemma AnswersWhole(index: map<Bytes, u16>, sites: seq<Site>, site: Site, l: Bytes)
    ensures Answers(index, sites, site, 0, l) <==> IndexTells(index, l) == Contest(LabelClaimants(sites, l))
    ensures Answers(index, sites, site, |site.vpce|, l)
       <==> IndexTells(index, l) == Contest(LabelClaimants(sites + [site], l))
  {
    assert LabelClaimants(sites, l) + {} == LabelClaimants(sites, l);
    assert LabelClaimants(sites + [site], l) == LabelClaimants(sites, l) + if l in site.vpce then {site.id} else {};
    assert site.vpce[..|site.vpce|] == site.vpce;
  }

  /** vpce bytes to site id; a label a second site lists turns to site 0 and stays there. */
  method IndexLabels(sites: seq<Site>) returns (index: map<Bytes, u16>)
    ensures forall l: Bytes :: IndexTells(index, l) == Contest(LabelClaimants(sites, l))
  {
    index := map[];
    for i := 0 to |sites|
      invariant forall l: Bytes :: IndexTells(index, l) == Contest(LabelClaimants(sites[..i], l))
    {
      index := IndexSite(index, sites[..i], sites[i]);
      assert sites[..i + 1] == sites[..i] + [sites[i]];
    }
    assert sites[..|sites|] == sites;
  }

  method IndexSite(index: map<Bytes, u16>, ghost before: seq<Site>, site: Site) returns (r: map<Bytes, u16>)
    requires forall l: Bytes :: IndexTells(index, l) == Contest(LabelClaimants(before, l))
    ensures forall l: Bytes :: IndexTells(r, l) == Contest(LabelClaimants(before + [site], l))
  {
    r := index;
    forall l: Bytes ensures Answers(r, before, site, 0, l) { AnswersWhole(r, before, site, l); }
    for j := 0 to |site.vpce|
      invariant forall l: Bytes :: Answers(r, before, site, j, l)
    {
      var v := site.vpce[j];
      ghost var r0 := r;
      if v !in r {
        r := r[v := site.id];
      } else if r[v] != site.id && r[v] != SITE_CONTESTED {
        r := r[v := SITE_CONTESTED];
      }
      ghost var n := j + 1;
      forall l: Bytes ensures Answers(r, before, site, n, l) {
        AnswersStep(r0, before, site, j, l, r);
      }
    }
    forall l: Bytes ensures IndexTells(r, l) == Contest(LabelClaimants(before + [site], l)) {
      AnswersWhole(r, before, site, l);
    }
  }

  // ----- events --------------------------------------------------------------

  datatype Event = Event(pos: u128, open: bool, id: u16)

  /** Position, then closings before openings, then id: the tuple order of the events. */
  function EventKey(e: Event): int {
    e.pos * 0x2_0000 + (if e.open then 0x1_0000 else 0) + e.id
  }

  ghost function Holders(claims: seq<Segment>, a: int): set<u16> {
    set c | c in claims && c.Has(a) :: c.id
  }

  /** A claim opens at its start and closes after its end, unless nothing comes after. */
  function EventsOf(claims: seq<Segment>): seq<Event> {
    if claims == [] then []
    else
      var c := Last(claims);
      EventsOf(claims[..|claims| - 1]) + [Event(c.start, true, c.id)]
        + (if c.end < MAX then [Event(c.end + 1, false, c.id)] else [])
  }

  /** The events of claims that hold each address for exactly the sites claiming it. */
  ghost predicate Represents(events: seq<Event>, claims: seq<Segment>, sites: seq<Site>) {
    && events == EventsOf(claims)
    && (forall c :: c in claims ==> c.start <= c.end)
    && forall a: int :: Holders(claims, a) == AddressClaimants(sites, a)
  }

  method CollectEvents(sites: seq<Site>) returns (events: seq<Event>)
    requires SitesValid(sites)
    ensures exists claims :: Represents(events, claims, sites)
  {
    events := [];
    ghost var claims: seq<Segment> := [];
    for i := 0 to |sites|
      invariant Represents(events, claims, sites[..i])
    {
      var site := sites[i];
      var ranges := site.cidrs.ranges;
      ghost var before := claims;
      for j := 0 to |ranges|
        invariant events == EventsOf(claims)
        invariant forall c :: c in claims <==>
          c in before || (c.id == site.id && Range(c.start, c.end) in ranges[..j])
      {
        var r := ranges[j];
        events := events + [Event(r.start, true, site.id)];
        if r.end < MAX {
          events := events + [Event(r.end + 1, false, site.id)];
        }
        ghost var claim := Segment(r.start, r.end, site.id);
        assert (claims + [claim])[..|claims|] == claims;
        claims := claims + [claim];
        assert ranges[..j + 1] == ranges[..j] + [r];
      }
      assert ranges[..|ranges|] == ranges;
      assert sites[..i + 1] == sites[..i] + [site];
      SiteJoins(sites[..i], site, before, claims);
    }
    assert sites[..|sites|] == sites;
  }

  lemma SiteJoins(front: seq<Site>, site: Site, before: seq<Segment>, claims: seq<Segment>)
    requires forall a: int :: Holders(before, a) == AddressClaimants(front, a)
    requires forall c :: c in claims <==>
      c in before || (c.id == site.id && Range(c.start, c.end) in site.cidrs.ranges)
    ensures forall a: int :: Holders(claims, a) == AddressClaimants(front + [site], a)
  {
    forall a: int ensures Holders(claims, a) == AddressClaimants(front + [site], a) {
      var mine: set<u16> := if InSome(site.cidrs.ranges, a) then {site.id} else {};
      assert AddressClaimants(front + [site], a) == AddressClaimants(front, a) + mine;
      forall x: u16 ensures x in Holders(claims, a) <==> x in Holders(before, a) + mine {
        if x in mine {
          var r :| r in site.cidrs.ranges && r.Has(a);
          assert Segment(r.start, r.end, site.id) in claims;
        }
      }
    }
  }

  // ----- balances: openings minus closings -----------------------------------

  ghost function Weight(e: Event, id: u16, opens: int, closes: int): int {
    if e.id != id then 0
    else if e.open then (if e.pos <= opens then 1 else 0)
    else (if e.pos <= closes then -1 else 0)
  }

  /** Openings of `id` up to one position minus its closings up to another. */
  ghost function Balance(es: seq<Event>, id: u16, opens: int, closes: int): int {
    if es == [] then 0
    else Balance(es[..|es| - 1], id, opens, closes) + Weight(Last(es), id, opens, closes)
  }

  ghost function Net(es: seq<Event>, id: u16): int {
    Balance(es, id, MAX, MAX)
  }

  lemma {:induction false} BalanceConcat(a: seq<Event>, b: seq<Event>, id: u16, o: int, c: int)
    ensures Balance(a + b, id, o, c) == Balance(a, id, o, c) + Balance(b, id, o, c)
  {
    if b == [] {
      assert a + b == a;
    } else {
      assert (a + b)[..|a + b| - 1] == a + b[..|b| - 1];
      BalanceConcat(a, b[..|b| - 1], id, o, c);
    }
  }

  lemma {:induction false} BalanceMonotone(es: seq<Event>, id: u16, o: int, c: int, o': int, c': int)
    requires forall e :: e in es ==> Weight(e, id, o, c) <= Weight(e, id, o', c')
    ensures Balance(es, id, o, c) <= Balance(es, id, o', c')
  {
    if es == [] {
    } else {
      assert Last(es) in es;
      BalanceMonotone(es[..|es| - 1], id, o, c, o', c');
    }
  }

  lemma {:induction false} BalancePermutes(a: seq<Event>, b: seq<Event>, id: u16, o: int, c: int)
    requires multiset(a) == multiset(b)
    ensures Balance(a, id, o, c) == Balance(b, id, o, c)
  {
    SameMembers(a, b);
    if a == [] {
    } else {
      var k := PermutationDrop(a, b);
      var x := b[k];
      BalancePermutes(a[..|a| - 1], b[..k] + b[k + 1..], id, o, c);
      assert b == b[..k] + ([x] + b[k + 1..]);
      BalanceConcat(b[..k], [x] + b[k + 1..], id, o, c);
      BalanceConcat([x], b[k + 1..], id, o, c);
      BalanceConcat(b[..k], b[k + 1..], id, o, c);
    }
  }

  /** Over the raw events the balance counts the claims holding an address. */
  lemma {:induction false} RawBalance(claims: seq<Segment>, id: u16, a: u128)
    requires forall c :: c in claims ==> c.start <= c.end
    ensures Balance(EventsOf(claims), id, a, a) >= 0
    ensures Balance(EventsOf(claims), id, a, a) > 0 <==> id in Holders(claims, a)
    ensures Balance(EventsOf(claims), id, a - 1, a) >= 0
  {
    if claims == [] {
    } else {
      var front, c := claims[..|claims| - 1], Last(claims);
      assert claims == front + [c];
      RawBalance(front, id, a);
      OneClaim(claims, id, a, a);
      OneClaim(claims, id, a - 1, a);
      assert Holders(claims, a) == Holders(front, a) + if c.Has(a) then {c.id} else {};
    }
  }

  lemma OneClaim(claims: seq<Segment>, id: u16, o: int, a: int)
    requires claims != [] && a <= MAX
    ensures var c := Last(claims);
      Balance(EventsOf(claims), id, o, a) == Balance(EventsOf(claims[..|claims| - 1]), id, o, a)
        + (if c.id == id && c.start <= o then 1 else 0) - (if c.id == id && c.end < a then 1 else 0)
  {
    var before, c := EventsOf(claims[..|claims| - 1]), Last(claims);
    var opening := Event(c.start, true, c.id);
    assert (before + [opening])[..|before|] == before;
    if c.end < MAX {
      var closing := Event(c.end + 1, false, c.id);
      assert (before + [opening] + [closing])[..|before| + 1] == before + [opening];
    } else {
      assert before + [opening] + [] == before + [opening];
    }
  }

  // ----- the sweep -----------------------------------------------------------

  ghost predicate SortedEvents(es: seq<Event>) {
    forall i, j :: 0 <= i < j < |es| ==> es[i].pos <= es[j].pos
  }

  /** Past every event up to an address, the net count says who holds that address. */
  lemma NetAtBoundary(es: seq<Event>, claims: seq<Segment>, i: nat, a: u128, id: u16)
    requires multiset(es) == multiset(EventsOf(claims)) && i <= |es|
    requires forall c :: c in claims ==> c.start <= c.end
    requires forall e :: e in es[..i] ==> e.pos <= a
    requires forall e :: e in es[i..] ==> e.pos > a
    ensures Net(es[..i], id) >= 0
    ensures Net(es[..i], id) > 0 <==> id in Holders(claims, a)
  {
    RawBalance(claims, id, a);
    BalancePermutes(es, EventsOf(claims), id, a, a);
    assert es == es[..i] + es[i..];
    BalanceConcat(es[..i], es[i..], id, a, a);
    AllCount(es[..i], id, a);
    NoneCount(es[i..], id, a, a);
  }

  lemma AllCount(es: seq<Event>, id: u16, a: int)
    requires forall e :: e in es ==> e.pos <= a
    ensures Balance(es, id, a, a) == Net(es, id)
  {
    BalanceMonotone(es, id, a, a, MAX, MAX);
    BalanceMonotone(es, id, MAX, MAX, a, a);
  }

  lemma SortedSplit(es: seq<Event>, i: nat)
    requires SortedEvents(es) && 0 < i <= |es|
    ensures forall e :: e in es[..i] ==> e.pos <= es[i - 1].pos
    ensures forall e :: e in es[i..] ==> e.pos >= es[i - 1].pos
  {
  }

  lemma FewerOpen(es: seq<Event>, id: u16, a: int)
    requires forall e :: e in es ==> e.pos <= a
    ensures Balance(es, id, a - 1, a) <= Net(es, id)
  {
    BalanceMonotone(es, id, a - 1, a, MAX, MAX);
  }

  /** Events past both positions weigh nothing; past one of them they only close. */
  lemma {:induction false} NoneCount(es: seq<Event>, id: u16, o: int, c: int)
    requires forall e :: e in es ==> e.pos > o
    ensures Balance(es, id, o, c) <= 0
    ensures (forall e :: e in es ==> e.pos > c) ==> Balance(es, id, o, c) == 0
  {
    if es == [] {
    } else {
      assert Last(es) in es;
      NoneCount(es[..|es| - 1], id, o, c);
    }
  }

  /** No prefix of the sorted events closes more than it opened. */
  lemma NetNeverNegative(es: seq<Event>, claims: seq<Segment>, i: nat, id: u16)
    requires multiset(es) == multiset(EventsOf(claims)) && 0 < i <= |es| && SortedEvents(es)
    requires forall c :: c in claims ==> c.start <= c.end
    ensures Net(es[..i], id) >= 0
  {
    var a := es[i - 1].pos;
    SortedSplit(es, i);
    NetAbove(es, i, id, a);
    BalanceAhead(es, claims, id, a);
  }

  lemma NetAbove(es: seq<Event>, i: nat, id: u16, a: int)
    requires i <= |es|
    requires forall e :: e in es[..i] ==> e.pos <= a
    requires forall e :: e in es[i..] ==> e.pos >= a
    ensures Net(es[..i], id) >= Balance(es, id, a - 1, a)
  {
    assert es == es[..i] + es[i..];
    BalanceConcat(es[..i], es[i..], id, a - 1, a);
    FewerOpen(es[..i], id, a);
    NoneCount(es[i..], id, a - 1, a);
  }

  lemma BalanceAhead(es: seq<Event>, claims: seq<Segment>, id: u16, a: u128)
    requires multiset(es) == multiset(EventsOf(claims))
    requires forall c :: c in claims ==> c.start <= c.end
    ensures Balance(es, id, a - 1, a) >= 0
  {
    var before: int := a - 1;
    RawBalance(claims, id, a);
    BalancePermutes(es, EventsOf(claims), id, before, a);
  }

  /** The active claimants with their multiplicity. */
  ghost predicate Counts(active: map<u16, nat>, es: seq<Event>) {
    forall id: u16 :: (if id in active then active[id] else 0) == Net(es, id) && (id in active ==> active[id] > 0)
  }

  /** One event of the inner loop: open counts up, close counts down and drops at zero. */
  method Apply(active: map<u16, nat>, ghost done: seq<Event>, e: Event) returns (r: map<u16, nat>)
    requires Counts(active, done)
    requires forall id: u16 :: Net(done + [e], id) >= 0
    ensures Counts(r, done + [e])
  {
    r := active;
    assert (done + [e])[..|done|] == done;
    assert Net(done + [e], e.id) == Net(done, e.id) + if e.open then 1 else -1;
    if e.open {
      r := r[e.id := (if e.id in r then r[e.id] else 0) + 1];
    } else if e.id in r {
      r := r[e.id := r[e.id] - 1];
      if r[e.id] == 0 {
        r := map id | id in r && id != e.id :: r[id];
      }
    }
    forall id: u16
      ensures (if id in r then r[id] else 0) == Net(done + [e], id) && (id in r ==> r[id] > 0)
    {
      assert id != e.id ==> Net(done + [e], id) == Net(done, id);
    }
  }

  /** Below `bound` the segments answer exactly as the claims do. */
  ghost predicate Tiles(segs: seq<Segment>, claims: seq<Segment>, bound: int) {
    && Apart(segs)
    && (forall s :: s in segs ==> s.end < bound)
    && forall a: u128, id: u16 :: a < bound ==> (Tells(segs, a, id) <==> Contest(Holders(claims, a)) == Some(id))
  }

  /** Every address of a stretch has the same holders. */
  ghost predicate Steady(claims: seq<Segment>, lo: int, hi: int, who: Option<u16>) {
    forall a: u128 :: lo <= a < hi ==> Contest(Holders(claims, a)) == who
  }

  /** Emitting a steady stretch extends the tiling over it. */
  lemma TileOn(segs: seq<Segment>, claims: seq<Segment>, lo: u128, hi: int, who: Option<u16>)
    requires lo <= hi <= TOP
    requires Tiles(segs, claims, lo) && Steady(claims, lo, hi, who)
    ensures lo < hi && who.Some? ==> Tiles(segs + [Segment(lo, hi - 1, who.value)], claims, hi)
    ensures lo == hi || who.None? ==> Tiles(segs, claims, hi)
  {
    if lo < hi && who.Some? {
      var s := Segment(lo, hi - 1, who.value);
      assert s in segs + [s];
      forall a: u128, id: u16 | a < hi
        ensures Tells(segs + [s], a, id) <==> Contest(Holders(claims, a)) == Some(id)
      {
        assert Tells(segs + [s], a, id) <==> Tells(segs, a, id) || (s.Has(a) && s.id == id);
      }
    }
  }

  /** After all events up to a position, the active map names the holders until the next one. */
  lemma ActiveHolds(active: map<u16, nat>, es: seq<Event>, claims: seq<Segment>, i: nat, a: u128)
    requires multiset(es) == multiset(EventsOf(claims)) && i <= |es|
    requires forall c :: c in claims ==> c.start <= c.end
    requires Counts(active, es[..i])
    requires forall e :: e in es[..i] ==> e.pos <= a
    requires forall e :: e in es[i..] ==> e.pos > a
    ensures active.Keys == Holders(claims, a)
  {
    forall id: u16 ensures id in active <==> id in Holders(claims, a) {
      NetAtBoundary(es, claims, i, a, id);
    }
  }

  method Sweep(events: seq<Event>, ghost claims: seq<Segment>) returns (segments: seq<Segment>)
    requires multiset(events) == multiset(EventsOf(claims)) && SortedEvents(events)
    requires forall c :: c in claims ==> c.start <= c.end
    ensures Tiles(segments, claims, TOP)
  {
    segments := [];
    var active: map<u16, nat> := map[];
    var curStart: u128 := 0;
    var curId: Option<u16> := None;
    var i := 0;
    BeforeAnything(events, claims);
    while i < |events|
      invariant i <= |events|
      invariant i == 0 ==> curStart == 0
      invariant forall e :: e in events[i..] ==> (if i == 0 then curStart <= e.pos else curStart < e.pos)
      invariant Counts(active, events[..i])
      invariant Tiles(segments, claims, curStart)
      invariant Steady(claims, curStart, NextPos(events, i), curId)
    {
      var pos := events[i].pos;
      assert events[i] in events[i..];
      TileOn(segments, claims, curStart, pos, curId);
      if curId.Some? {
        if pos > curStart {
          segments := segments + [Segment(curStart, pos - 1, curId.value)];
        }
      }
      i, active := Group(events, claims, i, active);
      curId := Winner(active);
      forall a: u128 | pos <= a < NextPos(events, i) ensures Contest(Holders(claims, a)) == curId {
        ActiveHolds(active, events, claims, i, a);
      }
      curStart := pos;
    }
    TileOn(segments, claims, curStart, TOP, curId);
    if curId.Some? {
      segments := segments + [Segment(curStart, MAX, curId.value)];
    }
  }

  ghost function NextPos(es: seq<Event>, i: nat): int
    requires i <= |es|
  {
    if i < |es| then es[i].pos else TOP
  }

  lemma BeforeAnything(es: seq<Event>, claims: seq<Segment>)
    requires multiset(es) == multiset(EventsOf(claims)) && SortedEvents(es)
    requires forall c :: c in claims ==> c.start <= c.end
    ensures Steady(claims, 0, NextPos(es, 0), None)
  {
    forall a: u128 | a < NextPos(es, 0) ensures Contest(Holders(claims, a)) == None {
      ActiveHolds(map[], es, claims, 0, a);
    }
  }

  /** The sole active claimant, nobody, or quarantine. */
  function Winner(active: map<u16, nat>): (r: Option<u16>)
    ensures r == Contest(active.Keys)
  {
    if |active.Keys| == 0 then None
    else if |active.Keys| == 1 then
      SoleKey(active.Keys);
      var x :| x in active.Keys;
      Some(x)
    else Some(SITE_CONTESTED)
  }

  lemma SoleKey(keys: set<u16>)
    requires |keys| == 1
    ensures forall x, y :: x in keys && y in keys ==> x == y
  {
    forall x, y | x in keys && y in keys ensures x == y {
      assert |keys - {x}| == 0;
    }
  }

  /** All events at one position take effect together. */
  method Group(events: seq<Event>, ghost claims: seq<Segment>, start: nat, active: map<u16, nat>)
    returns (i: nat, r: map<u16, nat>)
    requires multiset(events) == multiset(EventsOf(claims)) && SortedEvents(events) && start < |events|
    requires forall c :: c in claims ==> c.start <= c.end
    requires Counts(active, events[..start])
    ensures start < i <= |events| && Counts(r, events[..i])
    ensures forall e :: e in events[..i] ==> e.pos <= events[start].pos
    ensures forall e :: e in events[i..] ==> e.pos > events[start].pos
  {
    var pos := events[start].pos;
    i, r := start, active;
    while i < |events| && events[i].pos == pos
      invariant start <= i <= |events|
      invariant i == start ==> r == active
      invariant Counts(r, events[..i])
      invariant forall j :: start <= j < i ==> events[j].pos == pos
    {
      ghost var upTo := events[..i + 1];
      assert upTo == events[..i] + [events[i]];
      forall id: u16 ensures Net(upTo, id) >= 0 { NetNeverNegative(events, claims, i + 1, id); }
      r := Apply(r, events[..i], events[i]);
      i := i + 1;
    }
  }

  // ----- merging -------------------------------------------------------------

  predicate Joins(last: Segment, seg: Segment) {
    last.id == seg.id && (last.end + 1) % TOP == seg.start
  }

  ghost predicate Agree(s: seq<Segment>, t: seq<Segment>) {
    forall a: int, id: u16 :: Tells(s, a, id) <==> Tells(t, a, id)
  }

  /** Neighbours that touch and carry one id become one segment, grown in place. */
  method Merge(segments: seq<Segment>) returns (merged: seq<Segment>)
    requires Apart(segments)
    ensures Apart(merged) && Unmergeable(merged) && Agree(merged, segments)
  {
    merged := [];
    for i := 0 to |segments|
      invariant MergedSoFar(merged, segments[..i])
    {
      MergeStep(merged, segments, i);
      var seg := segments[i];
      if |merged| > 0 && Joins(merged[|merged| - 1], seg) {
        merged := merged[|merged| - 1 := merged[|merged| - 1].(end := seg.end)];
      } else {
        merged := merged + [seg];
      }
    }
    assert segments[..|segments|] == segments;
  }

  ghost predicate MergedSoFar(merged: seq<Segment>, done: seq<Segment>) {
    && Apart(merged) && Unmergeable(merged) && Agree(merged, done)
    && (merged == [] <==> done == [])
    && (merged != [] ==> Last(merged).end == Last(done).end)
  }

  lemma MergeStep(merged: seq<Segment>, segments: seq<Segment>, i: nat)
    requires i < |segments| && Apart(segments) && MergedSoFar(merged, segments[..i])
    ensures var seg := segments[i];
      MergedSoFar(if merged != [] && Joins(Last(merged), seg) then merged[|merged| - 1 := Last(merged).(end := seg.end)]
                  else merged + [seg], segments[..i + 1])
  {
    var done, seg := segments[..i], segments[i];
    assert segments[..i + 1] == done + [seg];
    assert seg in segments;
    if merged != [] {
      assert Last(done) == segments[i - 1];
      assert Last(merged).end < seg.start;
    }
    if merged != [] && Joins(Last(merged), seg) {
      Grow(merged, seg, done);
    } else {
      Append(merged, seg, done);
    }
  }

  lemma Append(merged: seq<Segment>, seg: Segment, done: seq<Segment>)
    requires Apart(merged) && Unmergeable(merged) && Agree(merged, done) && seg.start <= seg.end
    requires merged != [] ==> Last(merged).end < seg.start && !Joins(Last(merged), seg)
    ensures Apart(merged + [seg]) && Unmergeable(merged + [seg]) && Agree(merged + [seg], done + [seg])
  {
    forall a: int, id: u16 ensures Tells(merged + [seg], a, id) <==> Tells(done + [seg], a, id) {
      TellsSnoc(merged, seg, a, id);
      TellsSnoc(done, seg, a, id);
    }
  }

  lemma Grow(merged: seq<Segment>, seg: Segment, done: seq<Segment>)
    requires Apart(merged) && Unmergeable(merged) && Agree(merged, done) && seg.start <= seg.end
    requires merged != [] && Last(merged).end < seg.start && Joins(Last(merged), seg)
    ensures var out := merged[|merged| - 1 := Last(merged).(end := seg.end)];
      Apart(out) && Unmergeable(out) && Agree(out, done + [seg])
  {
    var front, last := merged[..|merged| - 1], Last(merged);
    var grown := last.(end := seg.end);
    var out := merged[|merged| - 1 := grown];
    assert merged == front + [last] && out == front + [grown];
    forall a: int, id: u16 ensures Tells(out, a, id) <==> Tells(done + [seg], a, id) {
      TellsSnoc(front, last, a, id);
      TellsSnoc(front, grown, a, id);
      TellsSnoc(done, seg, a, id);
    }
  }

  lemma TellsSnoc(segs: seq<Segment>, s: Segment, a: int, id: u16)
    ensures Tells(segs + [s], a, id) <==> Tells(segs, a, id) || (s.Has(a) && s.id == id)
  {
    if Tells(segs, a, id) {
      var t :| t in segs && t.Has(a) && t.id == id;
      assert t in segs + [s];
    }
    assert s in segs + [s];
  }

  // ----- the constructor -----------------------------------------------------

  /** Compile the indices once; nothing later reads the per-site structures for matching. */
  method New(prefix: Bytes, declared: seq<Site>) returns (sch: Scheme)
    requires |prefix| == 6 && SitesValid(declared)
    ensures sch.Compiled() && sch.prefix == prefix
    ensures multiset(sch.sites) == multiset(declared)
  {
    var sites := SortBy(declared, (s: Site) => s.id);
    SameMembers(declared, sites);
    var vpceIndex := IndexLabels(sites);
    var segments := IndexSegments(sites);
    sch := Scheme(prefix, sites, vpceIndex, segments);
  }

  method IndexSegments(sites: seq<Site>) returns (merged: seq<Segment>)
    requires SitesValid(sites)
    ensures Apart(merged) && Unmergeable(merged)
    ensures forall a: u128, id: u16 :: Tells(merged, a, id) <==> Contest(AddressClaimants(sites, a)) == Some(id)
  {
    var events := CollectEvents(sites);
    ghost var claims :| Represents(events, claims, sites);
    var sorted := SortBy(events, EventKey);
    KeyOrdersPositions(sorted);
    var segments := Sweep(sorted, claims);
    merged := Merge(segments);
    SegmentsAnswer(sites, claims, segments, merged);
  }

  lemma SegmentsAnswer(sites: seq<Site>, claims: seq<Segment>, segments: seq<Segment>, merged: seq<Segment>)
    requires Tiles(segments, claims, TOP) && Agree(merged, segments)
    requires forall a: int :: Holders(claims, a) == AddressClaimants(sites, a)
    ensures forall a: u128, id: u16 :: Tells(merged, a, id) <==> Contest(AddressClaimants(sites, a)) == Some(id)
  {
    forall a: u128, id: u16
      ensures Tells(merged, a, id) <==> Contest(AddressClaimants(sites, a)) == Some(id)
    {
      assert Tells(merged, a, id) <==> Tells(segments, a, id);
    }
  }

  lemma KeyOrdersPositions(es: seq<Event>)
    requires Ordered(es, EventKey)
    ensures SortedEvents(es)
  {
    forall i, j | 0 <= i < j < |es| ensures es[i].pos <= es[j].pos {
      assert EventKey(es[i]) <= EventKey(es[j]);
    }
  }

  // ----- what compilation means ----------------------------------------------

  /** Every address: nobody, the sole claimant however often it claims, or site 0. */
  lemma AddrSiteIsNaive(sch: Scheme, a: u128)
    requires sch.Compiled()
    ensures sch.AddrSite(a) == Contest(AddressClaimants(sch.sites, a))
  {
    var r := sch.AddrSite(a);
    var want := Contest(AddressClaimants(sch.sites, a));
    if r.Some? {
      assert Tells(sch.segments, a, r.value);
    }
    if want.Some? {
      assert Tells(sch.segments, a, want.value);
    }
  }

  /** A range belongs to a site exactly when each of its addresses does. */
  lemma RangeSiteIsNaive(sch: Scheme, start: u128, end: u128, id: u16)
    requires sch.Compiled() && start <= end
    ensures sch.RangeSite(start, end) == Some(id)
       <==> forall a: u128 :: start <= a <= end ==> Contest(AddressClaimants(sch.sites, a)) == Some(id)
  {
    RangeSiteExactly(sch, start, end, id);
    assert AllTell(sch.segments, start, end, id)
      <==> forall a: u128 :: start <= a <= end ==> Tells(sch.segments, a, id);
  }

  ghost function Ids(sites: seq<Site>): set<u16> {
    set s | s in sites :: s.id
  }

  /** Two lists of sites that declare the same ids and make the same claims. */
  ghost predicate Alike(s: seq<Site>, t: seq<Site>) {
    && Ids(s) == Ids(t)
    && (forall a: u128 :: AddressClaimants(s, a) == AddressClaimants(t, a))
    && (forall name :: LabelClaimants(s, name) == LabelClaimants(t, name))
  }

  /** Only the claims show in a lookup. */
  lemma AlikeAnswers(s: Scheme, t: Scheme, a: u128, b: u128, name: Bytes)
    requires s.Compiled() && t.Compiled() && Alike(s.sites, t.sites)
    ensures s.AddrSite(a) == t.AddrSite(a)
    ensures a <= b ==> s.RangeSite(a, b) == t.RangeSite(a, b)
    ensures s.LabelSite(name) == t.LabelSite(name)
  {
    assert LabelClaimants(s.sites, name) == LabelClaimants(t.sites, name);
    AddrSiteIsNaive(s, a);
    AddrSiteIsNaive(t, a);
    if a <= b {
      forall id: u16 ensures s.RangeSite(a, b) == Some(id) <==> t.RangeSite(a, b) == Some(id) {
        RangeSiteIsNaive(s, a, b, id);
        RangeSiteIsNaive(t, a, b, id);
      }
    }
  }

  /** Declaration order, repetition included, never shows in a lookup. */
  lemma OrderIndependent(s: Scheme, t: Scheme, a: u128, b: u128, name: Bytes)
    requires s.Compiled() && t.Compiled() && multiset(s.sites) == multiset(t.sites)
    ensures s.AddrSite(a) == t.AddrSite(a)
    ensures a <= b ==> s.RangeSite(a, b) == t.RangeSite(a, b)
    ensures s.LabelSite(name) == t.LabelSite(name)
  {
    SameMembers(s.sites, t.sites);
    forall x: u128 ensures AddressClaimants(s.sites, x) == AddressClaimants(t.sites, x) {}
    forall l ensures LabelClaimants(s.sites, l) == LabelClaimants(t.sites, l) {}
    AlikeAnswers(s, t, a, b, name);
  }
}
