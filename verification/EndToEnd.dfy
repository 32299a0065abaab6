/** From bytes on the wire and rules as authored to one decision. */
module EndToEnd {
  import opened Base
  import opened Text
  import opened SiteIndex
  import opened Ppv2
  import opened Identities
  import opened Meeting
  import opened Groups
  import opened Scopes
  import opened Rules
  import opened Tables
  import Tcp
  import Udp

  /** Some literal reachable from a rule list means this header. */
  ghost predicate ListMeans(host: Host, t: Table, list: seq<Bytes>, h: Header)
    requires |t.scheme.prefix| == 6 && |h.src| == 16
  {
    exists m :: Stands(t, list, m) && MeantBy(host, t.scheme, m, h)
  }

  /** The standing assumptions: a parsed table, real IPv6 addresses outside its /48. */
  ghost predicate Sound(t: Table, h: Header) {
    && t.scheme.Compiled() && NonzeroIds(t.scheme.sites)
    && |h.src| == 16 && SourceOutside(t.scheme.prefix, t.scheme.sites, h)
  }

  /** A flat filter permits exactly the headers its list means; the name plays no part. */
  lemma FlatPermits(host: Host, t: Table, raw: RawRules, sni: Bytes, h: Header)
    requires raw.scopes.None? && Sound(t, h)
    ensures JudgeAgainst(host, raw, t).value.Permits(sni, Tcp.Label(host, t, h))
       <==> ListMeans(host, t, raw.allow, h)
  {
    FlatDecision(host, t, raw.allow, h);
  }

  /** A scoped filter permits exactly the headers meant by the list of the best scope for the name. */
  lemma ScopedPermits(host: Host, t: Table, raw: RawRules, sni: Bytes, h: Header)
    requires raw.scopes.Some? && Sound(t, h)
    ensures var scopes := ResolveScopes(host, t, raw.scopes.value).value;
      var best := Match(scopes, sni);
      && Best(scopes, sni, best)
      && (forall k :: 0 <= k < |scopes| ==> scopes[k].names == raw.scopes.value[k].0)
      && (JudgeAgainst(host, raw, t).value.Permits(sni, Tcp.Label(host, t, h))
          <==> best.Some? && ListMeans(host, t, raw.scopes.value[best.value].1, h))
  {
    var list := raw.scopes.value;
    var scopes := ResolveScopes(host, t, list).value;
    MatchIsBest(scopes, sni);
    forall k | 0 <= k < |scopes| ensures scopes[k].names == list[k].0 {
      ResolvedScope(host, t, list, k);
    }
    match Match(scopes, sni)
    case None =>
    case Some(k) =>
      ResolvedScope(host, t, list, k);
      FlatDecision(host, t, list[k].1, h);
  }

  /** The header a serialized connection speaks of. */
  function HeaderOf(isV6: bool, transport: nat, src: Bytes, dst: Bytes, sport: u16, dport: u16, ts: seq<Tlv>)
    : (h: Header)
    requires transport < 0x10 && |src| == |dst| == AddrSize(isV6)
    ensures |h.src| == 16
  {
    var wire := Serialize(isV6, transport, src, dst, sport, dport, ts);
    Header(|wire|, src + Zeros(16 - |src|), sport, isV6, FirstEndpoint(ts))
  }

  /** Bytes to verdict: both enforcing filters admit a well-formed header exactly when some
      reachable literal of the rules means what the header says, whatever payload follows. */
  lemma BytesToVerdict(
      host: Host, t: Table, raw: RawRules, isV6: bool, transport: nat, src: Bytes, dst: Bytes, sport: u16, dport: u16,
      ts: seq<Tlv>, payload: Bytes, i: Tcp.Input)
    requires transport < 0x10 && |src| == |dst| == AddrSize(isV6)
    requires forall x :: x in ts ==> x.Valid()
    requires |Serialize(isV6, transport, src, dst, sport, dport, ts)| <= MAX_HEADER
    requires raw.scopes.None? && Sound(t, HeaderOf(isV6, transport, src, dst, sport, dport, ts))
    requires i.table == Some(t) && i.relabelOk
    requires i.buf == Serialize(isV6, transport, src, dst, sport, dport, ts) + payload
    requires forall a: u128 :: i.judge(a) == JudgeAgainst(host, raw, t).value.Permits([], a)
    ensures var h := HeaderOf(isV6, transport, src, dst, sport, dport, ts);
      && (Tcp.Step(host, true, Tcp.FRESH, i).1 == Tcp.Continue <==> ListMeans(host, t, raw.allow, h))
      && (Udp.Verdict(host, i).0 == Tcp.Continue <==> ListMeans(host, t, raw.allow, h))
  {
    var h := HeaderOf(isV6, transport, src, dst, sport, dport, ts);
    ParseInverts(isV6, transport, src, dst, sport, dport, ts, payload);
    assert Parse(i.buf) == Ok(h);
    FlatPermits(host, t, raw, [], h);
    Udp.AgreesWithTcp(host, i);
  }

  /** The TLS chain: a labelling filter writes the header's address, and what it wrote, judged by
      name later, is admitted exactly when the best scope for the name means the header. */
  lemma LabelThenScope(host: Host, t: Table, raw: RawRules, i: Tcp.Input, h: Header, sni: Bytes)
    requires i.table == Some(t) && i.relabelOk && Parse(i.buf) == Ok(h)
    requires raw.scopes.Some? && Sound(t, h)
    ensures var (_, status, log) := Tcp.Step(host, false, Tcp.FRESH, i);
      && status == Tcp.Continue && |log| > 0 && log[0] == Tcp.Relabel(Tcp.Label(host, t, h), h.srcPort, true)
      && (JudgeAgainst(host, raw, t).value.Permits(sni, log[0].addr)
          <==> var best := Match(ResolveScopes(host, t, raw.scopes.value).value, sni);
               best.Some? && ListMeans(host, t, raw.scopes.value[best.value].1, h))
  {
    assert Tcp.Step(host, false, Tcp.FRESH, i) == Tcp.Settled(false, Tcp.FRESH, i, h, Tcp.Label(host, t, h));
    ScopedPermits(host, t, raw, sni, h);
  }

  // ----- single rules, in plain bytes ------------------------------------------

  lemma SoleMember(host: Host, t: Table, m: Bytes, h: Header)
    requires |t.scheme.prefix| == 6 && |h.src| == 16 && (m == [] || m[0] != 0x40)
    ensures ListMeans(host, t, [m], h) <==> MeantBy(host, t.scheme, m, h)
  {
    forall x ensures Stands(t, [m], x) <==> x == m {
      SoleLiteral(t.groups, m, x);
    }
  }

  /** An IPv4 prefix as the only rule, and a frame with no endpoint id from a source no site claims:
      both filters admit it exactly when the source agrees with the prefix in its leading bits. */
  lemma Ipv4RuleOnWire(
      host: Host, t: Table, raw: RawRules, text: Bytes, n: nat, transport: nat, src: Bytes, dst: Bytes,
      sport: u16, dport: u16, ts: seq<Tlv>, payload: Bytes, i: Tcp.Input)
    requires 0x2f !in text && text != [] && text[0] != 0x21 && text[0] != 0x40 && host.v4(text).Some? && n <= 32
    requires raw == RawRules([text + [0x2f] + Print(n)], None)
    requires transport < 0x10 && |src| == |dst| == 4 && (forall x :: x in ts ==> x.Valid()) && FirstEndpoint(ts) == []
    requires |Serialize(false, transport, src, dst, sport, dport, ts)| <= MAX_HEADER
    requires t.scheme.Compiled() && NonzeroIds(t.scheme.sites)
    requires AddressClaimants(t.scheme.sites, 0xffff_0000_0000 + FromBe(src)) == {}
    requires i.table == Some(t) && i.relabelOk
    requires i.buf == Serialize(false, transport, src, dst, sport, dport, ts) + payload
    requires forall a: u128 :: i.judge(a) == JudgeAgainst(host, raw, t).value.Permits([], a)
    ensures var agree := FromBe(src) / Pow2(32 - n) == host.v4(text).value / Pow2(32 - n);
      && (Tcp.Step(host, true, Tcp.FRESH, i).1 == Tcp.Continue <==> agree)
      && (Udp.Verdict(host, i).0 == Tcp.Continue <==> agree)
  {
    var h := HeaderOf(false, transport, src, dst, sport, dport, ts);
    var m := text + [0x2f] + Print(n);
    SourceBytes(h, src);
    assert m[0] == text[0];
    BytesToVerdict(host, t, raw, false, transport, src, dst, sport, dport, ts, payload, i);
    SoleMember(host, t, m, h);
    var sites, v4 := t.scheme.sites, host.v4(text).value;
    if id: u16 :| OwnsV4(sites, v4, n, id) {
      Ipv4RuleExactly(host, t.scheme.prefix, sites, text, n, id, h, src);
      UnclaimedIsOutside(sites, v4, n, h, src, id);
    } else {
      Ipv4RuleExactly(host, t.scheme.prefix, sites, text, n, 0, h, src);
    }
  }

  // ----- from the config -----------------------------------------------------

  /** The site of a header, over the entries of the config. */
  ghost function AuthoredOwner(host: Host, sites: Entries, h: Header): Option<u16>
    requires |h.src| == 16
  {
    if h.vpce != [] && AuthoredListers(host, sites, h.vpce) != {} then Contest(AuthoredListers(host, sites, h.vpce))
    else Contest(AuthoredClaimants(host, sites, Mapped(h)))
  }

  /** What a parsed table promises the theorems above, and who owns a header under it. */
  lemma ConfigOwns(host: Host, t: Table, prefix: Bytes, sites: Entries, groups: Entries, h: Header)
    requires ParsedFrom(host, t, prefix, sites, groups) && |h.src| == 16
    ensures Owner(t.scheme.sites, h) == AuthoredOwner(host, sites, h)
    ensures Sound(t, h) <==> SourceOutside(prefix, t.scheme.sites, h)
    ensures Owner(t.scheme.sites, h).Some? ==> Sound(t, h)
  {
    IdsAreAuthored(host, t, prefix, sites, groups);
    AddressClaimsAreAuthored(host, t, prefix, sites, groups, Mapped(h));
    LabelClaimsAreAuthored(host, t, prefix, sites, groups, h.vpce);
  }

  /** Configs that make the same claims are interchangeable: whatever the order of their entries and
      the writing of their prefixes, every header gets the same label and every query the same answer. */
  lemma ConfigDecides(
      host: Host, t: Table, t': Table, prefix: Bytes, sites: Entries, sites': Entries,
      groups: Entries, groups': Entries,
      raw: RawRules, sni: Bytes, addr: u128, h: Header)
    requires ParsedFrom(host, t, prefix, sites, groups) && ParsedFrom(host, t', prefix, sites', groups')
    requires SameClaims(host, sites, sites') && GroupsOf(groups) == GroupsOf(groups') && |h.src| == 16
    ensures Tcp.Label(host, t, h) == Tcp.Label(host, t', h)
    ensures JudgeAgainst(host, raw, t).value.Permits(sni, addr)
       <==> JudgeAgainst(host, raw, t').value.Permits(sni, addr)
  {
    SameClaimsParseAlike(host, t, t', prefix, sites, sites', groups, groups');
    SameLabel(host, t, t', h);
    VerdictsAgree(host, raw, t, t', sni, addr);
  }

  /** A site reference as the only rule admits exactly the headers the config gives to that site. */
  lemma SiteRuleOfConfig(
      host: Host, t: Table, prefix: Bytes, sites: Entries, groups: Entries, raw: RawRules, n: u16, sni: Bytes,
      h: Header)
    requires ParsedFrom(host, t, prefix, sites, groups) && Sound(t, h)
    requires n == 0 || n in AuthoredIds(sites)
    requires raw == RawRules([[0x21] + Print(n)], None)
    ensures JudgeAgainst(host, raw, t).value.Permits(sni, Tcp.Label(host, t, h)) <==>
      AuthoredOwner(host, sites, h) == Some(n)
  {
    var m := [0x21] + Print(n);
    ConfigOwns(host, t, prefix, sites, groups, h);
    IdsAreAuthored(host, t, prefix, sites, groups);
    assert n in Ids(t.scheme.sites) ==> exists s :: s in t.scheme.sites && s.id == n;
    FlatPermits(host, t, raw, sni, h);
    SoleMember(host, t, m, h);
    RefMeans(host, prefix, t.scheme.sites, n, h);
    assert m[1] != STAR_REF[1];
  }

  /** `!*` as the only rule admits exactly the headers the config gives to a site of its own. */
  lemma StarRuleOfConfig(
      host: Host, t: Table, prefix: Bytes, sites: Entries, groups: Entries, raw: RawRules, sni: Bytes, h: Header)
    requires ParsedFrom(host, t, prefix, sites, groups) && Sound(t, h) && raw == RawRules([[0x21, 0x2a]], None)
    ensures JudgeAgainst(host, raw, t).value.Permits(sni, Tcp.Label(host, t, h)) <==>
      AuthoredOwner(host, sites, h).Some? && AuthoredOwner(host, sites, h) != Some(0)
  {
    ConfigOwns(host, t, prefix, sites, groups, h);
    FlatPermits(host, t, raw, sni, h);
    SoleMember(host, t, [0x21, 0x2a], h);
  }

  /** An endpoint id as the only rule admits the headers of the site the config lists it under, or, listed
      nowhere, the headers with no site whose endpoint id has its digest. */
  lemma NameRuleOfConfig(
      host: Host, t: Table, prefix: Bytes, sites: Entries, groups: Entries, raw: RawRules, name: Bytes, sni: Bytes,
      h: Header)
    requires ParsedFrom(host, t, prefix, sites, groups) && Sound(t, h)
    requires 0x2f !in name && (name == [] || (name[0] != 0x21 && name[0] != 0x40))
    requires host.v4(name).None? && host.v6(name).None? && raw == RawRules([name], None)
    ensures JudgeAgainst(host, raw, t).value.Permits(sni, Tcp.Label(host, t, h)) <==>
      if AuthoredListers(host, sites, name) != {} then
        AuthoredOwner(host, sites, h) == Contest(AuthoredListers(host, sites, name))
      else AuthoredOwner(host, sites, h) == None && h.vpce != [] && host.digest(h.vpce) == host.digest(name)
  {
    ConfigOwns(host, t, prefix, sites, groups, h);
    LabelClaimsAreAuthored(host, t, prefix, sites, groups, name);
    FlatPermits(host, t, raw, sni, h);
    SoleMember(host, t, name, h);
    NameRuleExactly(host, prefix, t.scheme.sites, name, h);
    assert name != STAR_REF;
  }

  /** A group of plain members as the only rule admits what those written in the config mean. */
  lemma GroupRuleOfConfig(
      host: Host, t: Table, prefix: Bytes, sites: Entries, groups: Entries, raw: RawRules, k: nat, sni: Bytes,
      h: Header)
    requires ParsedFrom(host, t, prefix, sites, groups) && Sound(t, h) && LastOf(groups, k)
    requires forall m :: m in groups[k].1 ==> m == [] || m[0] != 0x40
    requires raw == RawRules([[0x40] + groups[k].0], None)
    ensures JudgeAgainst(host, raw, t).value.Permits(sni, Tcp.Label(host, t, h)) <==>
      exists m :: m in groups[k].1 && MeantBy(host, t.scheme, m, h)
  {
    var name := groups[k].0;
    GroupMembersAreAuthored(groups, k);
    FlatPermits(host, t, raw, sni, h);
    forall m ensures Stands(t, [[0x40] + name], m) <==> m in groups[k].1 {
      SoleGroup(t.groups, name, m);
    }
  }
}
