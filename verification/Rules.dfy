/** Rule lists expanded against a table, and the decision they make. */
module Rules {
  import opened Base
  import opened Text
  import opened Cidrs
  import opened SiteIndex
  import opened Ppv2
  import opened Identities
  import opened Meeting
  import opened Groups
  import opened Scopes

  /** How a header encodes, and what names mean. */
  datatype Table = Table(scheme: Scheme, groups: GroupMap)

  /** The rules of one enforcing filter, as authored. */
  datatype RawRules = RawRules(allow: seq<Bytes>, scopes: Option<seq<(seq<Pattern>, seq<Bytes>)>>)

  /** Rules expanded against one table. */
  datatype Judged = Judged(allow: CidrSet, scopes: Option<seq<Scope>>) {
    ghost predicate Valid() {
      && allow.Valid()
      && (scopes.Some? ==> forall s :: s in scopes.value ==> s.allow.Valid())
    }

    /** Whether the list in charge of this name holds the address; no list, no permission. */
    predicate Permits(sni: Bytes, addr: u128)
      requires Valid()
    {
      match scopes
      case None => allow.Contains(addr)
      case Some(list) =>
        match Match(list, sni)
        case None => false
        case Some(k) => list[k].allow.Contains(addr)
    }
  }

  function DenyAll(scoped: bool): (j: Judged)
    ensures j.Valid() && forall sni: Bytes, addr: u128 :: !j.Permits(sni, addr)
  {
    Judged(DEFAULT_SET, if scoped then Some([]) else None)
  }

  // ----- expansion -----------------------------------------------------------

  const STAR_REF: Bytes := [BANG, STAR]
  const QUARANTINE_REF: Bytes := [BANG, 0x30]

  function EncodeAllSites(sch: Scheme): (cs: seq<Cidr>)
    requires |sch.prefix| == 6
    ensures |cs| == |sch.sites|
    ensures forall i :: 0 <= i < |cs| ==> cs[i] == EmbedRule(sch.prefix, SiteSpace(sch.sites[i].id))
  {
    seq(|sch.sites|, i requires 0 <= i < |sch.sites| => EmbedRule(sch.prefix, SiteSpace(sch.sites[i].id)))
  }

  function Encodings(host: Host, sch: Scheme, members: seq<Bytes>): seq<Cidr>
    requires |sch.prefix| == 6 && Apart(sch.segments)
  {
    if members == [] then []
    else
      var m := Last(members);
      Encodings(host, sch, members[..|members| - 1])
        + if m == STAR_REF then EncodeAllSites(sch) else [EmbedRule(sch.prefix, RuleOf(host, sch, m))]
  }

  /** The CIDRs one member contributes. */
  ghost predicate Contributes(host: Host, sch: Scheme, m: Bytes, c: Cidr)
    requires |sch.prefix| == 6 && Apart(sch.segments)
  {
    if m == STAR_REF then exists s :: s in sch.sites && c == EmbedRule(sch.prefix, SiteSpace(s.id))
    else c == EmbedRule(sch.prefix, RuleOf(host, sch, m))
  }

  lemma {:induction false} EncodingsAreContributions(host: Host, sch: Scheme, members: seq<Bytes>, c: Cidr)
    requires |sch.prefix| == 6 && Apart(sch.segments)
    ensures c in Encodings(host, sch, members) <==> exists m :: m in members && Contributes(host, sch, m, c)
    ensures c in Encodings(host, sch, members) ==> c.width <= 128
  {
    if members != [] {
      var front, m := members[..|members| - 1], Last(members);
      assert members == front + [m];
      EncodingsAreContributions(host, sch, front, c);
      var mine := if m == STAR_REF then EncodeAllSites(sch) else [EmbedRule(sch.prefix, RuleOf(host, sch, m))];
      assert c in mine <==> Contributes(host, sch, m, c) by {
        if s :| s in sch.sites && m == STAR_REF && c == EmbedRule(sch.prefix, SiteSpace(s.id)) {
          var i :| 0 <= i < |sch.sites| && sch.sites[i] == s;
          assert mine[i] == c;
        }
      }
      assert c in Encodings(host, sch, members) <==> c in Encodings(host, sch, front) || c in mine;
    }
  }

  lemma ResolvedScope(host: Host, t: Table, raw: seq<(seq<Pattern>, seq<Bytes>)>, k: nat)
    requires t.scheme.Compiled() && k < |raw|
    ensures ResolveScopes(host, t, raw).value[k] == Scope(raw[k].0, Resolve(host, t, raw[k].1).value)
  {
    if k < |raw| - 1 {
      ResolvedScope(host, t, raw[..|raw| - 1], k);
    }
  }

  /** What `ResolveRules` computes. */
  function Resolve(host: Host, t: Table, list: seq<Bytes>): (r: Result<CidrSet, CidrError>)
    requires t.scheme.Compiled()
    ensures r.Ok? && r.value.Valid()
  {
    var cs := Encodings(host, t.scheme, Expand(t.groups, list));
    assert forall c :: c in cs ==> c.width <= 128 by {
      forall c | c in cs ensures c.width <= 128 {
        EncodingsAreContributions(host, t.scheme, Expand(t.groups, list), c);
      }
    }
    Build(cs)
  }

  /** Expand the group references, encode each literal, build the set. */
  method ResolveRules(host: Host, t: Table, list: seq<Bytes>) returns (r: Result<CidrSet, CidrError>)
    requires t.scheme.Compiled()
    ensures r == Resolve(host, t, list)
  {
    var encoded := EncodeAll(host, t.scheme, Expand(t.groups, list));
    r := BuildFrom(encoded);
  }

  method EncodeAll(host: Host, sch: Scheme, members: seq<Bytes>) returns (encoded: seq<Cidr>)
    requires |sch.prefix| == 6 && Apart(sch.segments)
    ensures encoded == Encodings(host, sch, members)
  {
    encoded := [];
    for i := 0 to |members|
      invariant encoded == Encodings(host, sch, members[..i])
    {
      assert members[..i + 1][..i] == members[..i];
      if members[i] == STAR_REF {
        encoded := encoded + EncodeAllSites(sch);
      } else {
        var c := EncodeMember(host, sch, members[i]);
        encoded := encoded + [c];
      }
    }
    assert members[..|members|] == members;
  }

  function ResolveScopes(host: Host, t: Table, raw: seq<(seq<Pattern>, seq<Bytes>)>): (r: Result<seq<Scope>, CidrError>)
    requires t.scheme.Compiled()
    ensures r.Ok? && |r.value| == |raw|
    ensures forall s :: s in r.value ==> s.allow.Valid()
  {
    if raw == [] then Ok([])
    else
      match ResolveScopes(host, t, raw[..|raw| - 1])
      case Err(e) => Err(e)
      case Ok(front) =>
        match Resolve(host, t, Last(raw).1)
        case Err(e) => Err(e)
        case Ok(allow) => Ok(front + [Scope(Last(raw).0, allow)])
  }

  /** The pure expansion; it never fails, because every member encodes to a lawful width. */
  function JudgeAgainst(host: Host, raw: RawRules, t: Table): (r: Result<Judged, CidrError>)
    requires t.scheme.Compiled()
    ensures r.Ok? && r.value.Valid()
  {
    match Resolve(host, t, raw.allow)
    case Err(e) => Err(e)
    case Ok(allow) =>
      match raw.scopes
      case None => Ok(Judged(allow, None))
      case Some(list) =>
        match ResolveScopes(host, t, list)
        case Err(e) => Err(e)
        case Ok(scopes) => Ok(Judged(allow, Some(scopes)))
  }

  /** The expansion, list by list. */
  method Judge(host: Host, raw: RawRules, t: Table) returns (r: Result<Judged, CidrError>)
    requires t.scheme.Compiled()
    ensures r == JudgeAgainst(host, raw, t)
  {
    var allow := ResolveRules(host, t, raw.allow);
    match raw.scopes {
      case None => r := Ok(Judged(allow.value, None));
      case Some(list) =>
        var scopes := JudgeScopes(host, t, list);
        r := Ok(Judged(allow.value, Some(scopes)));
    }
  }

  method JudgeScopes(host: Host, t: Table, raw: seq<(seq<Pattern>, seq<Bytes>)>) returns (scopes: seq<Scope>)
    requires t.scheme.Compiled()
    ensures ResolveScopes(host, t, raw) == Ok(scopes)
  {
    scopes := [];
    for k := 0 to |raw|
      invariant ResolveScopes(host, t, raw[..k]) == Ok(scopes)
    {
      assert raw[..k + 1][..k] == raw[..k];
      var allow := ResolveRules(host, t, raw[k].1);
      scopes := scopes + [Scope(raw[k].0, allow.value)];
    }
    assert raw[..|raw|] == raw;
  }

  /** Ask an expansion: the flat list, or the list of the matching scope. */
  method Ask(j: Judged, sni: Bytes, addr: u128) returns (b: bool)
    requires j.Valid()
    ensures b == j.Permits(sni, addr)
  {
    match j.scopes {
      case None => b := j.allow.Contains(addr);
      case Some(list) =>
        var chosen := MatchScopes(list, sni);
        b := chosen.Some? && chosen.value.Contains(addr);
    }
  }

  // ----- the decision --------------------------------------------------------

  /** A reachable literal, once every group reference is followed. */
  ghost predicate Stands(t: Table, list: seq<Bytes>, m: Bytes) {
    IsLiteral(t.groups, m) && Reachable(t.groups, list, m)
  }

  /** Whether one member's CIDRs hold an identity's address. */
  ghost predicate MemberCovers(host: Host, sch: Scheme, m: Bytes, who: Identity)
    requires |sch.prefix| == 6 && Apart(sch.segments)
  {
    if m == STAR_REF then exists s :: s in sch.sites && Meets(sch.prefix, SiteSpace(s.id), who)
    else Meets(sch.prefix, RuleOf(host, sch, m), who)
  }

  /** An expanded list contains an address exactly when some reachable literal covers it. */
  lemma ResolveCovers(host: Host, t: Table, list: seq<Bytes>, who: Identity)
    requires t.scheme.Compiled()
    ensures Resolve(host, t, list).value.Contains(Embed(t.scheme.prefix, who))
       <==> exists m :: Stands(t, list, m) && MemberCovers(host, t.scheme, m, who)
  {
    var sch, members := t.scheme, Expand(t.groups, list);
    var cs, a := Encodings(host, sch, members), Embed(sch.prefix, who);
    assert Resolve(host, t, list) == Build(cs);
    assert Resolve(host, t, list).value.Contains(a) <==> SomeCovers(cs, a);
    if SomeCovers(cs, a) {
      var c :| c in cs && Covering(c, a);
      EncodingsAreContributions(host, sch, members, c);
      var m :| m in members && Contributes(host, sch, m, c);
      ExpandIsReachability(t.groups, list, m);
      ContributionCovers(host, sch, m, c, who);
    }
    if m :| Stands(t, list, m) && MemberCovers(host, sch, m, who) {
      ExpandIsReachability(t.groups, list, m);
      var c := CoveringCidr(host, sch, m, who);
      EncodingsAreContributions(host, sch, members, c);
    }
  }

  predicate Covering(c: Cidr, a: u128) {
    c.width <= 128 && RangeOf(c.addr, c.width).Has(a)
  }

  ghost predicate SomeCovers(cs: seq<Cidr>, a: u128) {
    exists c :: c in cs && Covering(c, a)
  }

  lemma ContributionCovers(host: Host, sch: Scheme, m: Bytes, c: Cidr, who: Identity)
    requires |sch.prefix| == 6 && Apart(sch.segments)
    ensures Contributes(host, sch, m, c) && Covering(c, Embed(sch.prefix, who)) ==> MemberCovers(host, sch, m, who)
  {
  }

  lemma CoveringCidr(host: Host, sch: Scheme, m: Bytes, who: Identity) returns (c: Cidr)
    requires |sch.prefix| == 6 && Apart(sch.segments)
    ensures MemberCovers(host, sch, m, who) ==>
      Contributes(host, sch, m, c) && Covering(c, Embed(sch.prefix, who))
  {
    if !MemberCovers(host, sch, m, who) {
      c := Cidr(0, 0);
    } else if m == STAR_REF {
      var s :| s in sch.sites && Meets(sch.prefix, SiteSpace(s.id), who);
      c := EmbedRule(sch.prefix, SiteSpace(s.id));
    } else {
      c := EmbedRule(sch.prefix, RuleOf(host, sch, m));
    }
  }

  // ----- nothing but the claims decides --------------------------------------

  /** Two tables whose sites make the same claims under one prefix, with the same groups. */
  ghost predicate SameTables(t: Table, t': Table) {
    && t.scheme.Compiled() && t'.scheme.Compiled() && t.scheme.prefix == t'.scheme.prefix
    && Alike(t.scheme.sites, t'.scheme.sites) && t.groups == t'.groups
  }

  lemma SameLabel(host: Host, t: Table, t': Table, h: Header)
    requires SameTables(t, t') && |h.src| == 16
    ensures WireIdentity(host, t.scheme, h) == WireIdentity(host, t'.scheme, h)
  {
    AlikeAnswers(t.scheme, t'.scheme, Mapped(h), 0, h.vpce);
  }

  lemma SameRef(sites: seq<Site>, sites': seq<Site>, m: Bytes)
    requires Ids(sites) == Ids(sites')
    ensures SiteRef(sites, m) == SiteRef(sites', m)
  {
    forall s | s in sites ensures exists s' :: s' in sites' && s'.id == s.id {
      assert s.id in Ids(sites');
    }
    forall s' | s' in sites' ensures exists s :: s in sites && s.id == s'.id {
      assert s'.id in Ids(sites);
    }
  }

  lemma SameRule(host: Host, t: Table, t': Table, m: Bytes)
    requires SameTables(t, t')
    ensures RuleOf(host, t.scheme, m) == RuleOf(host, t'.scheme, m)
  {
    SameRef(t.scheme.sites, t'.scheme.sites, m);
    var src := Classify(host, m);
    if src.Name? {
      AlikeAnswers(t.scheme, t'.scheme, 0, 0, m);
    } else {
      AlikeAnswers(t.scheme, t'.scheme, SourceRange(src).start, SourceRange(src).end, []);
    }
  }

  lemma SameCover(host: Host, t: Table, t': Table, m: Bytes, who: Identity)
    requires SameTables(t, t')
    ensures MemberCovers(host, t.scheme, m, who) ==> MemberCovers(host, t'.scheme, m, who)
  {
    SameRule(host, t, t', m);
    if s :| m == STAR_REF && s in t.scheme.sites && Meets(t.scheme.prefix, SiteSpace(s.id), who) {
      assert s.id in Ids(t'.scheme.sites);
    }
  }

  lemma SomeoneCovers(host: Host, t: Table, t': Table, list: seq<Bytes>, who: Identity)
    requires SameTables(t, t')
    ensures (exists m :: Stands(t, list, m) && MemberCovers(host, t.scheme, m, who)) ==>
            exists m :: Stands(t', list, m) && MemberCovers(host, t'.scheme, m, who)
  {
    if m :| Stands(t, list, m) && MemberCovers(host, t.scheme, m, who) {
      SameCover(host, t, t', m, who);
      assert Stands(t', list, m);
    }
  }

  lemma SameList(host: Host, t: Table, t': Table, list: seq<Bytes>, addr: u128)
    requires SameTables(t, t')
    ensures Resolve(host, t, list).value.Contains(addr) ==> Resolve(host, t', list).value.Contains(addr)
  {
    assert Embed(t.scheme.prefix, Real(addr)) == addr;
    ResolveCovers(host, t, list, Real(addr));
    SomeoneCovers(host, t, t', list, Real(addr));
    ResolveCovers(host, t', list, Real(addr));
  }

  lemma SameVerdict(host: Host, raw: RawRules, t: Table, t': Table, sni: Bytes, addr: u128)
    requires SameTables(t, t') && JudgeAgainst(host, raw, t).value.Permits(sni, addr)
    ensures JudgeAgainst(host, raw, t').value.Permits(sni, addr)
  {
    match raw.scopes
    case None => SameList(host, t, t', raw.allow, addr);
    case Some(list) =>
      var s, s' := ResolveScopes(host, t, list).value, ResolveScopes(host, t', list).value;
      forall k: nat | k < |list| ensures s[k].names == s'[k].names {
        ResolvedScope(host, t, list, k);
        ResolvedScope(host, t', list, k);
      }
      MatchByName(s, s', sni);
      var k := Match(s, sni).value;
      ResolvedScope(host, t, list, k);
      ResolvedScope(host, t', list, k);
      SameList(host, t, t', list[k].1, addr);
  }

  /** Such tables are interchangeable to every query. */
  lemma VerdictsAgree(host: Host, raw: RawRules, t: Table, t': Table, sni: Bytes, addr: u128)
    requires SameTables(t, t')
    ensures JudgeAgainst(host, raw, t).value.Permits(sni, addr)
       <==> JudgeAgainst(host, raw, t').value.Permits(sni, addr)
  {
    if JudgeAgainst(host, raw, t).value.Permits(sni, addr) {
      SameVerdict(host, raw, t, t', sni, addr);
    }
    if JudgeAgainst(host, raw, t').value.Permits(sni, addr) {
      SameVerdict(host, raw, t', t, sni, addr);
    }
  }

  // ----- what it means -------------------------------------------------------

  ghost predicate NonzeroIds(sites: seq<Site>) {
    forall s :: s in sites ==> s.id != SITE_CONTESTED
  }

  /** Which headers a reachable literal is meant to admit, `!*` included. */
  ghost predicate MeantBy(host: Host, sch: Scheme, m: Bytes, h: Header)
    requires |sch.prefix| == 6 && |h.src| == 16
  {
    if m == STAR_REF then Owner(sch.sites, h).Some? && Owner(sch.sites, h) != Some(SITE_CONTESTED)
    else Meant(host, sch.prefix, sch.sites, m, h)
  }

  /** `!*` admits exactly the headers whose site is nonzero. */
  lemma StarMeansOnboarded(host: Host, sch: Scheme, h: Header)
    requires sch.Compiled() && NonzeroIds(sch.sites) && |h.src| == 16 && SourceOutside(sch.prefix, sch.sites, h)
    ensures MemberCovers(host, sch, STAR_REF, WireIdentity(host, sch, h)) <==> MeantBy(host, sch, STAR_REF, h)
  {
    var who := WireIdentity(host, sch, h);
    forall s | s in sch.sites ensures Meets(sch.prefix, SiteSpace(s.id), who) <==> Owner(sch.sites, h) == Some(s.id) {
      SiteMeans(host, sch, s.id, h);
    }
    if MeantBy(host, sch, STAR_REF, h) {
      OwnersAreDeclared(sch.sites, h);
    }
  }

  /** The end-to-end decision of a flat list: some reachable literal means this header. */
  lemma FlatDecision(host: Host, t: Table, list: seq<Bytes>, h: Header)
    requires t.scheme.Compiled() && NonzeroIds(t.scheme.sites) && |h.src| == 16
    requires SourceOutside(t.scheme.prefix, t.scheme.sites, h)
    ensures Resolve(host, t, list).value.Contains(Embed(t.scheme.prefix, WireIdentity(host, t.scheme, h)))
       <==> exists m :: Stands(t, list, m) && MeantBy(host, t.scheme, m, h)
  {
    var sch := t.scheme;
    var who := WireIdentity(host, sch, h);
    ResolveCovers(host, t, list, who);
    forall m | Stands(t, list, m)
      ensures MemberCovers(host, sch, m, who) <==> MeantBy(host, sch, m, h)
    {
      if m == STAR_REF {
        StarMeansOnboarded(host, sch, h);
      } else {
        RuleMeetsWire(host, sch, m, h);
      }
    }
  }

  /** Quarantined traffic passes exactly where something reachable stands for site 0. */
  lemma QuarantineDecision(host: Host, t: Table, list: seq<Bytes>, h: Header)
    requires t.scheme.Compiled() && NonzeroIds(t.scheme.sites) && |h.src| == 16
    requires forall m :: Stands(t, list, m) ==> MemberOutside(host, t.scheme, m)
    requires Owner(t.scheme.sites, h) == Some(SITE_CONTESTED)
    ensures Resolve(host, t, list).value.Contains(Embed(t.scheme.prefix, WireIdentity(host, t.scheme, h)))
       <==> exists m :: Stands(t, list, m) && m != STAR_REF
              && MemberSite(host, t.scheme.sites, m) == Some(SITE_CONTESTED)
  {
    FlatDecision(host, t, list, h);
    forall m | Stands(t, list, m)
      ensures MeantBy(host, t.scheme, m, h)
        <==> m != STAR_REF && MemberSite(host, t.scheme.sites, m) == Some(SITE_CONTESTED)
    {
      QuarantineNeedsSiteZero(host, t.scheme, m, h);
      RuleMeetsWire(host, t.scheme, m, h);
    }
  }

  /** `!*` with `!0` admits exactly the headers with any site at all. */
  lemma StarAndQuarantine(host: Host, t: Table, h: Header)
    requires t.scheme.Compiled() && NonzeroIds(t.scheme.sites) && |h.src| == 16
    requires SourceOutside(t.scheme.prefix, t.scheme.sites, h)
    ensures Resolve(host, t, [STAR_REF, QUARANTINE_REF]).value
              .Contains(Embed(t.scheme.prefix, WireIdentity(host, t.scheme, h)))
       <==> Owner(t.scheme.sites, h).Some?
  {
    StarAndQuarantineCover(host, t, WireIdentity(host, t.scheme, h));
    StarMeansOnboarded(host, t.scheme, h);
    QuarantineRefIsZero(host, t.scheme.sites);
    RuleMeetsWire(host, t.scheme, QUARANTINE_REF, h);
  }

  lemma StarAndQuarantineCover(host: Host, t: Table, who: Identity)
    requires t.scheme.Compiled()
    ensures Resolve(host, t, [STAR_REF, QUARANTINE_REF]).value.Contains(Embed(t.scheme.prefix, who))
       <==> MemberCovers(host, t.scheme, STAR_REF, who) || MemberCovers(host, t.scheme, QUARANTINE_REF, who)
  {
    ResolveCovers(host, t, [STAR_REF, QUARANTINE_REF], who);
    TwoLiterals(t, STAR_REF);
    TwoLiterals(t, QUARANTINE_REF);
    if m :| Stands(t, [STAR_REF, QUARANTINE_REF], m) && MemberCovers(host, t.scheme, m, who) {
      TwoLiterals(t, m);
    }
  }

  lemma TwoLiterals(t: Table, m: Bytes)
    ensures Stands(t, [STAR_REF, QUARANTINE_REF], m) <==> m == STAR_REF || m == QUARANTINE_REF
  {
    var list := [STAR_REF, QUARANTINE_REF];
    assert list[0] in list && list[1] in list;
    ExpandIsReachability(t.groups, list, m);
    LiteralsStay(t.groups, list);
  }

  lemma QuarantineRefIsZero(host: Host, sites: seq<Site>)
    ensures MemberSite(host, sites, QUARANTINE_REF) == Some(SITE_CONTESTED)
  {
    var digits: Bytes := [0x30];
    assert QUARANTINE_REF[1..] == digits;
    assert digits[..0] == [];
    assert Decimal(digits) == 0;
  }

  /** A list without references expands to itself. */
  lemma {:induction false} LiteralsStay(groups: GroupMap, list: seq<Bytes>)
    requires forall m :: m in list ==> IsLiteral(groups, m)
    ensures Walk(groups, list, {}) == (list, {})
  {
    if list != [] {
      assert list[0] in list && list == [list[0]] + list[1..];
      LiteralsStay(groups, list[1..]);
    }
  }
}
