/** Rule and wire meet by construction: which headers each authored member admits, stated
    over the naive claims of the declared sites and never over the compiled indices. */
module Meeting {
  import opened Base
  import opened Text
  import opened Cidrs
  import opened SiteIndex
  import opened Ppv2
  import opened Identities

  /** The header carries an endpoint id that some site lists. */
  ghost predicate KnownEndpoint(sites: seq<Site>, h: Header) {
    h.vpce != [] && LabelClaimants(sites, h.vpce) != {}
  }

  /** Who claims a header: where some site lists its endpoint id, the source is not looked at. */
  ghost function Claimants(sites: seq<Site>, h: Header): set<u16>
    requires |h.src| == 16
  {
    if KnownEndpoint(sites, h) then LabelClaimants(sites, h.vpce) else AddressClaimants(sites, Mapped(h))
  }

  /** The site a header belongs to. */
  ghost function Owner(sites: seq<Site>, h: Header): Option<u16>
    requires |h.src| == 16
  {
    Contest(Claimants(sites, h))
  }

  ghost predicate OwnsAll(sites: seq<Site>, r: Range, id: u16) {
    forall a: u128 :: r.Has(a) ==> Contest(AddressClaimants(sites, a)) == Some(id)
  }

  /** The site that owns every address of a range, if one does. */
  ghost function RangeOwner(sites: seq<Site>, r: Range): Option<u16> {
    if exists id: u16 :: OwnsAll(sites, r, id) then
      var id: u16 :| OwnsAll(sites, r, id);
      Some(id)
    else None
  }

  /** The site a member stands for: a reference, an owned range or a listed label. */
  ghost function MemberSite(host: Host, sites: seq<Site>, member: Bytes): Option<u16> {
    match SiteRef(sites, member)
    case Some(id) => Some(id)
    case None =>
      var src := Classify(host, member);
      if src.Name? then Contest(LabelClaimants(sites, member)) else RangeOwner(sites, SourceRange(src))
  }

  /** The identity of a header in terms of who claims it: the machine is filled in for
      IPv4 only, and for a site only when its label matched. */
  ghost function IdentityOf(host: Host, sites: seq<Site>, h: Header): Identity
    requires |h.src| == 16
  {
    match Owner(sites, h)
    case Some(id) => Tenant(id, if KnownEndpoint(sites, h) && !h.isV6 then V4Of(h) else 0)
    case None =>
      if h.vpce != [] then Stranger(host.digest(h.vpce), if h.isV6 then 0 else V4Of(h))
      else if h.isV6 then Real(V6Of(h)) else Plain(V4Of(h))
  }

  /** No site claims it and it carries no endpoint id: its source stands for itself. */
  ghost predicate Unclaimed(sites: seq<Site>, h: Header)
    requires |h.src| == 16
  {
    Owner(sites, h) == None && h.vpce == []
  }

  /** Which headers a member is meant to admit: its site's, or else the unclaimed ones of its
      IPv4 range, the ones whose address its IPv6 range holds, or the unclaimed ones whose
      endpoint id has its digest. */
  ghost predicate Meant(host: Host, prefix: Bytes, sites: seq<Site>, member: Bytes, h: Header)
    requires |prefix| == 6 && |h.src| == 16
  {
    match MemberSite(host, sites, member)
    case Some(id) => Owner(sites, h) == Some(id)
    case None =>
      match Classify(host, member)
      case V4(a, w) => Unclaimed(sites, h) && !h.isV6 && SourceRange(V4(a, w)).Has(Mapped(h))
      case V6(a, w) => SourceRange(V6(a, w)).Has(Embed(prefix, IdentityOf(host, sites, h)))
      case Name => Owner(sites, h) == None && h.vpce != [] && host.digest(h.vpce) == host.digest(member)
  }

  /** The assumption on the outside world: no IPv6 source that passes through lives inside the /48. */
  ghost predicate SourceOutside(prefix: Bytes, sites: seq<Site>, h: Header)
    requires |prefix| == 6 && |h.src| == 16
  {
    Unclaimed(sites, h) && h.isV6 ==> !UlaRange(prefix).Has(V6Of(h))
  }

  /** An IPv6 member no site owns that stays clear of the /48. */
  ghost predicate MemberOutside(host: Host, sch: Scheme, member: Bytes)
    requires |sch.prefix| == 6
  {
    var src := Classify(host, member);
    src.V6? && MemberSite(host, sch.sites, member).None? ==> SourceRange(src).Clear(UlaRange(sch.prefix))
  }

  /** What the filter checks: the header's address lies in the member's CIDR. */
  predicate Covers(host: Host, sch: Scheme, member: Bytes, h: Header)
    requires |h.src| == 16 && |sch.prefix| == 6 && Apart(sch.segments)
  {
    Meets(sch.prefix, RuleOf(host, sch, member), WireIdentity(host, sch, h))
  }

  // ----- compiled answers are the naive ones ---------------------------------

  lemma ContestNone(claimants: set<u16>)
    ensures Contest(claimants).None? <==> claimants == {}
  {
  }

  lemma OwnerIsCompiled(sch: Scheme, h: Header)
    requires sch.Compiled() && |h.src| == 16
    ensures SiteOf(sch, h) ==
      match Owner(sch.sites, h)
      case Some(id) => Some(SiteMatch(id, KnownEndpoint(sch.sites, h)))
      case None => None
  {
    AddrSiteIsNaive(sch, Mapped(h));
    ContestNone(LabelClaimants(sch.sites, h.vpce));
  }

  lemma RangeOwnerIsCompiled(sch: Scheme, r: Range)
    requires sch.Compiled() && r.start <= r.end
    ensures sch.RangeSite(r.start, r.end) == RangeOwner(sch.sites, r)
  {
    forall id: u16 ensures sch.RangeSite(r.start, r.end) == Some(id) <==> OwnsAll(sch.sites, r, id) {
      RangeSiteIsNaive(sch, r.start, r.end, id);
    }
  }

  lemma MemberSiteIsCompiled(host: Host, sch: Scheme, member: Bytes)
    requires sch.Compiled()
    ensures RuleOf(host, sch, member) ==
      match MemberSite(host, sch.sites, member)
      case Some(id) => SiteSpace(id)
      case None =>
        match Classify(host, member)
        case V4(a, w) => Lift(a, w)
        case V6(a, w) => Literal(a, w)
        case Name => HashSpace(host.digest(member))
  {
    var src := Classify(host, member);
    if !src.Name? {
      RangeOwnerIsCompiled(sch, SourceRange(src));
    }
  }

  // ----- the theorem ---------------------------------------------------------

  lemma IdentityOutside(host: Host, sch: Scheme, h: Header)
    requires sch.Compiled() && |h.src| == 16 && SourceOutside(sch.prefix, sch.sites, h)
    ensures Outside(sch.prefix, WireIdentity(host, sch, h))
  {
    IdentityOfOwner(host, sch, h);
  }

  lemma MappedRangesAgree(a: u32, w: nat, u: u32)
    requires w <= 32
    ensures RangeOf(MAPPED + a, 96 + w).Has(MAPPED + u) <==> RangeOf(a, 96 + w).Has(u)
  {
    LowBitsDecide(0xffff, a, u, w);
  }

  lemma IdentityOfOwner(host: Host, sch: Scheme, h: Header)
    requires sch.Compiled() && |h.src| == 16
    ensures WireIdentity(host, sch, h) == IdentityOf(host, sch.sites, h)
  {
    OwnerIsCompiled(sch, h);
  }

  /** A member admits exactly the headers it means, whatever the member. */
  lemma RuleMeetsWire(host: Host, sch: Scheme, member: Bytes, h: Header)
    requires sch.Compiled() && |h.src| == 16 && SourceOutside(sch.prefix, sch.sites, h)
    ensures Covers(host, sch, member, h) <==> Meant(host, sch.prefix, sch.sites, member, h)
  {
    IdentityOfOwner(host, sch, h);
    MemberSiteIsCompiled(host, sch, member);
    match MemberSite(host, sch.sites, member)
    case Some(id) => SiteMeans(host, sch, id, h);
    case None =>
      match Classify(host, member)
      case V4(a, w) => LiftMeans(host, sch, a, w, h);
      case V6(a, w) =>
      case Name => HashMeans(host, sch, host.digest(member), h);
  }

  lemma SiteMeans(host: Host, sch: Scheme, id: u16, h: Header)
    requires sch.Compiled() && |h.src| == 16 && SourceOutside(sch.prefix, sch.sites, h)
    ensures Meets(sch.prefix, SiteSpace(id), WireIdentity(host, sch, h)) <==> Owner(sch.sites, h) == Some(id)
  {
    IdentityOfOwner(host, sch, h);
    IdentityOutside(host, sch, h);
    RuleMeetsIdentity(sch.prefix, SiteSpace(id), WireIdentity(host, sch, h));
  }

  lemma LiftMeans(host: Host, sch: Scheme, a: u32, w: nat, h: Header)
    requires sch.Compiled() && |h.src| == 16 && SourceOutside(sch.prefix, sch.sites, h) && w <= 32
    ensures Meets(sch.prefix, Lift(a, w), WireIdentity(host, sch, h))
       <==> Unclaimed(sch.sites, h) && !h.isV6 && SourceRange(V4(a, w)).Has(Mapped(h))
  {
    var who := WireIdentity(host, sch, h);
    IdentityOfOwner(host, sch, h);
    IdentityOutside(host, sch, h);
    assert who.Plain? <==> Unclaimed(sch.sites, h) && !h.isV6;
    LiftAdmits(sch.prefix, a, w, who);
    assert who.Plain? ==> Mapped(h) == MAPPED + who.v4;
  }

  lemma LiftAdmits(prefix: Bytes, a: u32, w: nat, who: Identity)
    requires |prefix| == 6 && Outside(prefix, who) && w <= 32
    ensures Meets(prefix, Lift(a, w), who) <==> who.Plain? && SourceRange(V4(a, w)).Has(MAPPED + who.v4)
  {
    RuleMeetsIdentity(prefix, Lift(a, w), who);
    if who.Plain? {
      MappedRangesAgree(a, w, who.v4);
    }
  }

  lemma HashMeans(host: Host, sch: Scheme, hash: u32, h: Header)
    requires sch.Compiled() && |h.src| == 16 && SourceOutside(sch.prefix, sch.sites, h)
    ensures Meets(sch.prefix, HashSpace(hash), WireIdentity(host, sch, h))
       <==> Owner(sch.sites, h) == None && h.vpce != [] && host.digest(h.vpce) == hash
  {
    IdentityOfOwner(host, sch, h);
    IdentityOutside(host, sch, h);
    RuleMeetsIdentity(sch.prefix, HashSpace(hash), WireIdentity(host, sch, h));
  }

  /** An unowned IPv6 rule clear of the /48 means exactly the unclaimed IPv6 sources of its range. */
  lemma PlainLiteral(host: Host, prefix: Bytes, sites: seq<Site>, member: Bytes, h: Header)
    requires |prefix| == 6 && |h.src| == 16 && SourceOutside(prefix, sites, h)
    requires MemberSite(host, sites, member).None? && Classify(host, member).V6?
    requires SourceRange(Classify(host, member)).Clear(UlaRange(prefix))
    ensures Meant(host, prefix, sites, member, h)
       <==> Unclaimed(sites, h) && h.isV6 && SourceRange(Classify(host, member)).Has(V6Of(h))
  {
    var who := IdentityOf(host, sites, h);
    if !who.Real? {
      SynthesizedInside(prefix, who);
    }
  }

  /** One that holds the whole /48 admits everything but the pass-through sources outside its range. */
  lemma WideLiteral(host: Host, prefix: Bytes, sites: seq<Site>, member: Bytes, h: Header)
    requires |prefix| == 6 && |h.src| == 16 && SourceOutside(prefix, sites, h)
    requires MemberSite(host, sites, member).None? && Classify(host, member).V6?
    ensures UlaRange(prefix).Within(SourceRange(Classify(host, member))) ==>
      (Meant(host, prefix, sites, member, h)
       <==> (Unclaimed(sites, h) && h.isV6 ==> SourceRange(Classify(host, member)).Has(V6Of(h))))
  {
    var who := IdentityOf(host, sites, h);
    if !who.Real? {
      SynthesizedInside(prefix, who);
    }
  }

  /** The code does not check that assumption, and it is exactly what "inside the /48 means
      synthesized" needs. */
  lemma InsideMeansSynthesized(host: Host, sch: Scheme, h: Header)
    requires sch.Compiled() && |h.src| == 16
    ensures var who := WireIdentity(host, sch, h);
      (UlaRange(sch.prefix).Has(Embed(sch.prefix, who)) ==> !who.Real?) <==> SourceOutside(sch.prefix, sch.sites, h)
  {
    IdentityOfOwner(host, sch, h);
  }

  /** A source that breaks it is indistinguishable from the tenant whose address it bears. */
  lemma PassThroughCollides(host: Host, sch: Scheme, h: Header, id: u16, machine: u32)
    requires sch.Compiled() && |h.src| == 16
    requires Unclaimed(sch.sites, h) && h.isV6 && V6Of(h) == Embed(sch.prefix, Tenant(id, machine))
    ensures Meets(sch.prefix, SiteSpace(id), WireIdentity(host, sch, h))
  {
    IdentityOfOwner(host, sch, h);
    RuleMeetsIdentity(sch.prefix, SiteSpace(id), Tenant(id, machine));
  }

  /** Such a header exists on the wire: an IPv6 frame whose source is the address of a tenant, under
      a table in which no site claims that address. */
  lemma CollidingFrame(host: Host, sch: Scheme, id: u16, machine: u32, dst: Bytes) returns (h: Header)
    requires sch.Compiled() && |dst| == 16
    requires AddressClaimants(sch.sites, Embed(sch.prefix, Tenant(id, machine))) == {}
    ensures var src := Be(Embed(sch.prefix, Tenant(id, machine)), 16);
      Parse(Serialize(true, 1, src, dst, 0, 0, [])) == Ok(h)
    ensures |h.src| == 16 && Owner(sch.sites, h).None? && !SourceOutside(sch.prefix, sch.sites, h)
    ensures Meets(sch.prefix, SiteSpace(id), WireIdentity(host, sch, h))
  {
    var a := Embed(sch.prefix, Tenant(id, machine));
    var src := Be(a, 16);
    var wire := Serialize(true, 1, src, dst, 0, 0, []);
    ParseInverts(true, 1, src, dst, 0, 0, [], []);
    assert wire + [] == wire;
    h := Header(|wire|, src + Zeros(0), 0, true, []);
    Pow2Words();
    FromBeBe(a, 16);
    assert h.src == src && V6Of(h) == a;
    PassThroughCollides(host, sch, h, id, machine);
    SynthesizedInside(sch.prefix, Tenant(id, machine));
  }

  /** The table with no sites is one such table. */
  lemma EmptyTableOwnsNothing(prefix: Bytes, a: int)
    requires |prefix| == 6
    ensures Scheme(prefix, [], map[], []).Compiled()
    ensures AddressClaimants([], a) == {}
  {
    var none: seq<Site> := [];
    forall x: int ensures AddressClaimants(none, x) == {} {}
    forall l: Bytes ensures LabelClaimants(none, l) == {} {}
  }

  /** A site found by address rather than label leaves the machine bits zero. */
  lemma PrefixTenantsHaveNoMachine(host: Host, sch: Scheme, h: Header)
    requires sch.Compiled() && |h.src| == 16
    requires !KnownEndpoint(sch.sites, h)
    requires Owner(sch.sites, h).Some?
    ensures Embed(sch.prefix, WireIdentity(host, sch, h)) % 0x1_0000_0000 == 0
  {
    IdentityOfOwner(host, sch, h);
    MachineBits(Ula(sch.prefix), KIND_SITE, Owner(sch.sites, h).value, 0);
  }

  lemma MachineBits(ula: int, kind: u16, body: u32, machine: u32)
    requires 0 <= ula < 0x1_0000_0000_0000
    ensures Compose(ula, kind, body, machine) % 0x1_0000_0000 == machine
  {
  }

  // ----- in plain bytes ------------------------------------------------------

  /** The label of a header, byte by byte, from the bytes of its source. */
  lemma LabelBytes(host: Host, sch: Scheme, h: Header, src: Bytes)
    requires sch.Compiled() && |src| == (if h.isV6 then 16 else 4) && h.src == src + Zeros(16 - |src|)
    ensures Be(Embed(sch.prefix, WireIdentity(host, sch, h)), 16) ==
      match Owner(sch.sites, h)
      case Some(id) =>
        sch.prefix + [0x0b, 0x1a, 0x00, 0x00, id / 0x100, id % 0x100]
          + if KnownEndpoint(sch.sites, h) && !h.isV6 then src else [0, 0, 0, 0]
      case None =>
        if h.vpce != [] then
          sch.prefix + [0x00, 0x01] + Be(host.digest(h.vpce), 4) + if h.isV6 then [0, 0, 0, 0] else src
        else if h.isV6 then src
        else sch.prefix + [0x00, 0x04, 0x00, 0x00, 0x00, 0x00] + src
  {
    IdentityOfOwner(host, sch, h);
    IdentityBytes(sch.prefix, WireIdentity(host, sch, h));
    SourceBytes(h, src);
    BeFromBe(src);
    ZeroWord();
    BeFromBe(ZERO_WORD);
  }

  /** A site reference means its site. */
  lemma RefMeans(host: Host, prefix: Bytes, sites: seq<Site>, n: u16, h: Header)
    requires |prefix| == 6 && |h.src| == 16 && (n == 0 || exists s :: s in sites && s.id == n)
    ensures Meant(host, prefix, sites, [0x21] + Print(n), h) <==> Owner(sites, h) == Some(n)
  {
    WrittenRef(sites, n);
  }

  /** A mapped IPv4 address that agrees with this one in its leading bits. */
  predicate InV4(v4: u32, n: nat, a: u128)
    requires n <= 32
  {
    && 0xffff_0000_0000 <= a <= 0xffff_ffff_ffff
    && (a - 0xffff_0000_0000) / Pow2(32 - n) == v4 / Pow2(32 - n)
  }

  /** The site owns every one of them. */
  ghost predicate OwnsV4(sites: seq<Site>, v4: u32, n: nat, id: u16)
    requires n <= 32
  {
    forall a: u128 :: InV4(v4, n, a) ==> Contest(AddressClaimants(sites, a)) == Some(id)
  }

  /** And every IPv6 address. */
  ghost predicate OwnsV6(sites: seq<Site>, v6: u128, n: nat, id: u16)
    requires n <= 128
  {
    forall a: u128 :: a / Pow2(128 - n) == v6 / Pow2(128 - n) ==> Contest(AddressClaimants(sites, a)) == Some(id)
  }

  lemma MappedPrefix(v4: u32, n: nat, a: u128)
    requires n <= 32
    ensures SourceRange(V4(v4, n)).Has(a) <==> InV4(v4, n, a)
  {
    if 0xffff_0000_0000 <= a <= 0xffff_ffff_ffff {
      MappedRangesAgree(v4, n, a - 0xffff_0000_0000);
      RangeHas(v4, 96 + n, a - 0xffff_0000_0000);
    } else {
      MappedUpper(a);
      MappedUpper(MAPPED + v4);
      NarrowImpliesUpper(MAPPED + v4, n, a);
    }
  }

  lemma MappedUpper(a: u128)
    ensures a / 0x1_0000_0000 == 0xffff <==> 0xffff_0000_0000 <= a <= 0xffff_ffff_ffff
  {
  }

  lemma OwnsV4IsOwnsAll(sites: seq<Site>, v4: u32, n: nat, id: u16)
    requires n <= 32
    ensures OwnsAll(sites, SourceRange(V4(v4, n)), id) <==> OwnsV4(sites, v4, n, id)
  {
    forall a: u128 ensures SourceRange(V4(v4, n)).Has(a) <==> InV4(v4, n, a) {
      MappedPrefix(v4, n, a);
    }
  }

  lemma OwnsV6IsOwnsAll(sites: seq<Site>, v6: u128, n: nat, id: u16)
    requires n <= 128
    ensures OwnsAll(sites, SourceRange(V6(v6, n)), id) <==> OwnsV6(sites, v6, n, id)
  {
    forall a: u128 ensures SourceRange(V6(v6, n)).Has(a) <==> a / Pow2(128 - n) == v6 / Pow2(128 - n) {
      RangeHas(v6, n, a);
    }
  }

  /** Nobody, or the one site that owns it all. */
  lemma RangeOwnerIs(sites: seq<Site>, r: Range, id: u16)
    requires r.start <= r.end
    ensures OwnsAll(sites, r, id) ==> RangeOwner(sites, r) == Some(id)
    ensures RangeOwner(sites, r).Some? ==> OwnsAll(sites, r, RangeOwner(sites, r).value)
  {
    if OwnsAll(sites, r, id) {
      assert r.Has(r.start);
    }
  }

  /** An authored IPv4 prefix, in plain text and plain numbers: the headers of the site that owns all
      of it, or else the unclaimed IPv4 sources that agree with it in its leading bits. */
  lemma Ipv4RuleExactly(
      host: Host, prefix: Bytes, sites: seq<Site>, text: Bytes, n: nat, id: u16, h: Header, src: Bytes)
    requires |prefix| == 6 && 0x2f !in text && text != [] && text[0] != 0x21 && host.v4(text).Some? && n <= 32
    requires |src| == (if h.isV6 then 16 else 4) && h.src == src + Zeros(16 - |src|)
    ensures var meant := Meant(host, prefix, sites, text + [0x2f] + Print(n), h);
      var v4 := host.v4(text).value;
      && (OwnsV4(sites, v4, n, id) ==> (meant <==> Owner(sites, h) == Some(id)))
      && ((forall x: u16 :: !OwnsV4(sites, v4, n, x)) ==>
           (meant <==> Unclaimed(sites, h) && !h.isV6 && FromBe(src) / Pow2(32 - n) == v4 / Pow2(32 - n)))
  {
    var member, v4 := text + [0x2f] + Print(n), host.v4(text).value;
    WrittenMember(host, sites, text, n);
    RangeOwnerIs(sites, SourceRange(V4(v4, n)), id);
    OwnsV4IsOwnsAll(sites, v4, n, id);
    if RangeOwner(sites, SourceRange(V4(v4, n))).Some? {
      OwnsV4IsOwnsAll(sites, v4, n, RangeOwner(sites, SourceRange(V4(v4, n))).value);
    }
    SourceBytes(h, src);
    MappedPrefix(v4, n, Mapped(h));
  }

  /** The source of an unclaimed header lies in no range a site owns whole. */
  lemma UnclaimedIsOutside(sites: seq<Site>, v4: u32, n: nat, h: Header, src: Bytes, id: u16)
    requires n <= 32 && !h.isV6 && |src| == 4 && h.src == src + Zeros(12) && Unclaimed(sites, h)
    ensures OwnsV4(sites, v4, n, id) ==> FromBe(src) / Pow2(32 - n) != v4 / Pow2(32 - n)
  {
    SourceBytes(h, src);
    assert Contest(AddressClaimants(sites, Mapped(h))) == None;
  }

  lemma WrittenMember(host: Host, sites: seq<Site>, text: Bytes, n: nat)
    requires 0x2f !in text && text != [] && text[0] != 0x21
    ensures var member := text + [0x2f] + Print(n);
      && SiteRef(sites, member) == None
      && Classify(host, member) ==
           if host.v4(text).Some? && n <= 32 then V4(host.v4(text).value, n)
           else if host.v6(text).Some? && n <= 128 then V6(host.v6(text).value, n)
           else Name
  {
    WrittenIsSpelled(n);
    WideMember(host, text, Print(n), n);
    assert (text + [0x2f] + Print(n))[0] == text[0];
  }

  /** An authored IPv6 prefix: the headers of the site that owns all of it, or else those whose label
      agrees with it in its leading bits. */
  lemma Ipv6RuleExactly(host: Host, prefix: Bytes, sites: seq<Site>, text: Bytes, n: nat, id: u16, h: Header)
    requires |prefix| == 6 && |h.src| == 16 && 0x2f !in text && text != [] && text[0] != 0x21
    requires host.v4(text).None? && host.v6(text).Some? && n <= 128
    ensures var meant := Meant(host, prefix, sites, text + [0x2f] + Print(n), h);
      var v6 := host.v6(text).value;
      && (OwnsV6(sites, v6, n, id) ==> (meant <==> Owner(sites, h) == Some(id)))
      && ((forall x: u16 :: !OwnsV6(sites, v6, n, x)) ==>
           (meant <==> Embed(prefix, IdentityOf(host, sites, h)) / Pow2(128 - n) == v6 / Pow2(128 - n)))
  {
    var v6 := host.v6(text).value;
    var r := SourceRange(V6(v6, n));
    WrittenMember(host, sites, text, n);
    RangeOwnerIs(sites, r, id);
    OwnsV6IsOwnsAll(sites, v6, n, id);
    if RangeOwner(sites, r).Some? {
      OwnsV6IsOwnsAll(sites, v6, n, RangeOwner(sites, r).value);
    }
    RangeHas(v6, n, Embed(prefix, IdentityOf(host, sites, h)));
  }

  /** An authored name: the headers of the site it stands for, if some site lists it, or else those
      no site claims whose endpoint id has its digest. */
  lemma NameRuleExactly(host: Host, prefix: Bytes, sites: seq<Site>, name: Bytes, h: Header)
    requires |prefix| == 6 && |h.src| == 16 && 0x2f !in name && (name == [] || name[0] != 0x21)
    requires host.v4(name).None? && host.v6(name).None?
    ensures Meant(host, prefix, sites, name, h) <==>
      if LabelClaimants(sites, name) != {} then Owner(sites, h) == Contest(LabelClaimants(sites, name))
      else Owner(sites, h) == None && h.vpce != [] && host.digest(h.vpce) == host.digest(name)
  {
    BareMember(host, name);
  }

  // ----- quarantine ----------------------------------------------------------

  /** A quarantined header is admitted by nothing but what stands for site 0. */
  lemma QuarantineNeedsSiteZero(host: Host, sch: Scheme, member: Bytes, h: Header)
    requires sch.Compiled() && |h.src| == 16 && MemberOutside(host, sch, member)
    requires Owner(sch.sites, h) == Some(SITE_CONTESTED)
    ensures Covers(host, sch, member, h) <==> MemberSite(host, sch.sites, member) == Some(SITE_CONTESTED)
  {
    RuleMeetsWire(host, sch, member, h);
    if MemberSite(host, sch.sites, member).None? && Classify(host, member).V6? {
      PlainLiteral(host, sch.prefix, sch.sites, member, h);
    }
  }

  /** With every declared id nonzero, site 0 is minted by contests alone. */
  lemma SiteZeroIsContested(sites: seq<Site>, h: Header)
    requires |h.src| == 16 && forall s :: s in sites ==> s.id != SITE_CONTESTED
    ensures Owner(sites, h) == Some(SITE_CONTESTED) <==> |Claimants(sites, h)| >= 2
  {
    assert SITE_CONTESTED !in Claimants(sites, h);
  }

  /** A resolved nonzero site is always a declared one. */
  lemma OwnersAreDeclared(sites: seq<Site>, h: Header)
    requires |h.src| == 16 && Owner(sites, h).Some? && Owner(sites, h) != Some(SITE_CONTESTED)
    ensures exists s :: s in sites && s.id == Owner(sites, h).value
  {
    assert Owner(sites, h).value in Claimants(sites, h);
  }
}
