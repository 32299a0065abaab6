/** From a carrier's site and group maps to a compiled table. */
module Tables {
  import opened Base
  import opened Text
  import opened Cidrs
  import opened SiteIndex
  import opened Identities
  import opened Groups
  import opened Rules

  /** A map in key order: site key to sources, or group name to members. */
  type Entries = seq<(Bytes, seq<Bytes>)>

  /** What one text under a site is: addresses, a label, or neither, which no config may hold. */
  datatype SiteSource = Prefix(cidr: Cidr) | Endpoint | Malformed

  function ClassifySource(host: Host, source: Bytes): SiteSource {
    var (text, width) := SplitOnce(source, SLASH);
    var bits := if width.Some? then ParseUint(width.value, 255) else None;
    if width.Some? && bits.None? then Malformed
    else if host.v4(text).Some? then
      var b := if bits.Some? then bits.value else 32;
      if b > 32 then Malformed else Prefix(Cidr(MAPPED + host.v4(text).value, 96 + b))
    else if host.v6(text).Some? then
      Prefix(Cidr(host.v6(text).value, if bits.Some? then bits.value else 128))
    else Endpoint
  }

  /** A source without a slash is always lawful: one address, or else an endpoint id. */
  lemma BareSource(host: Host, text: Bytes)
    requires 0x2f !in text
    ensures ClassifySource(host, text) ==
      if host.v4(text).Some? then Prefix(Cidr(0xffff_0000_0000 + host.v4(text).value, 128))
      else if host.v6(text).Some? then Prefix(Cidr(host.v6(text).value, 128))
      else Endpoint
  {
    SplitAtSlash(text, []);
  }

  /** With a width it is that prefix; an endpoint id may have one too, if it is at most 255. */
  lemma WideSource(host: Host, text: Bytes, w: Bytes, n: nat)
    requires 0x2f !in text && Spells(w, n)
    ensures ClassifySource(host, text + [0x2f] + w) ==
      if n > 255 then Malformed
      else if host.v4(text).Some? then
        if n > 32 then Malformed else Prefix(Cidr(0xffff_0000_0000 + host.v4(text).value, 96 + n))
      else if host.v6(text).Some? then Prefix(Cidr(host.v6(text).value, n))
      else Endpoint
    ensures LawfulSource(host, text + [0x2f] + w)
       <==> n <= (if host.v4(text).Some? then 32 else if host.v6(text).Some? then 128 else 255)
  {
    SplitAtSlash(text, w);
    SpelledReads(w, n, 255);
  }

  /** With anything else after the slash it fails the config, endpoint ids included. */
  lemma BadWidthSource(host: Host, text: Bytes, w: Bytes)
    requires 0x2f !in text && forall n :: !Spells(w, n)
    ensures ClassifySource(host, text + [0x2f] + w) == Malformed
  {
    SplitAtSlash(text, w);
    if ParseUint(w, 255).Some? {
      ReadIsSpelled(w, 255);
    }
  }

  /** The two classifiers agree: a text that is a lawful site source covers, as a rule member, the
      same addresses, and one that is an endpoint id is a name there too. */
  lemma SourceMeetsMember(host: Host, text: Bytes)
    ensures Agree(ClassifySource(host, text), Classify(host, text))
  {
    var (t, width) := SplitOnce(text, SLASH);
    match width
    case None =>
      assert t == text;
      BareMeets(host, t);
    case Some(w) =>
      assert text == t + [0x2f] + w;
      if n :| Spells(w, n) {
        WideMeets(host, t, w, n);
      } else {
        BadWidthSource(host, t, w);
        BadWidthMember(host, t, w);
      }
  }

  predicate Agree(s: SiteSource, m: Source)
    requires (m.V4? ==> m.width4 <= 32) && (m.V6? ==> m.width6 <= 128)
  {
    match s
    case Prefix(c) => c.width <= 128 ==> !m.Name? && SourceRange(m) == RangeOf(c.addr, c.width)
    case Endpoint => m.Name?
    case Malformed => !m.V4?
  }

  lemma BareMeets(host: Host, t: Bytes)
    requires 0x2f !in t
    ensures Agree(ClassifySource(host, t), Classify(host, t))
  {
    BareSource(host, t);
    BareMember(host, t);
  }

  lemma WideMeets(host: Host, t: Bytes, w: Bytes, n: nat)
    requires 0x2f !in t && Spells(w, n)
    ensures Agree(ClassifySource(host, t + [0x2f] + w), Classify(host, t + [0x2f] + w))
  {
    WideSource(host, t, w, n);
    WideMember(host, t, w, n);
  }

  /** A source text after trimming; the empty ones are dropped. */
  ghost predicate Names(host: Host, sources: seq<Bytes>, source: Bytes) {
    source != [] && exists m :: m in sources && host.trim(m) == source
  }

  ghost predicate LawfulSource(host: Host, source: Bytes) {
    match ClassifySource(host, source)
    case Malformed => false
    case Endpoint => true
    case Prefix(c) => c.width <= 128
  }

  /** A site entry is well formed: id 1 to 65535, every source lawful. */
  ghost predicate LawfulEntry(host: Host, e: (Bytes, seq<Bytes>)) {
    && ParseUint(e.0, 0xffff).Some? && ParseUint(e.0, 0xffff).value != SITE_CONTESTED
    && forall source :: Names(host, e.1, source) ==> LawfulSource(host, source)
  }

  /** The site an entry declares: its id, its labels, and the addresses its prefixes cover. */
  ghost predicate Declares(host: Host, e: (Bytes, seq<Bytes>), s: Site) {
    && ParseUint(e.0, 0xffff) == Some(s.id) && s.id != SITE_CONTESTED
    && s.cidrs.Valid()
    && (forall l :: l in s.vpce <==> Names(host, e.1, l) && ClassifySource(host, l) == Endpoint)
    && (forall a: u128 ::
          InSome(s.cidrs.ranges, a) <==> exists source :: Names(host, e.1, source) && Claims(host, source, a))
  }

  ghost predicate Claims(host: Host, source: Bytes, a: u128) {
    match ClassifySource(host, source)
    case Prefix(c) => c.width <= 128 && RangeOf(c.addr, c.width).Has(a)
    case _ => false
  }

  lemma NamesOneMore(host: Host, sources: seq<Bytes>, m: Bytes, s: Bytes)
    ensures Names(host, sources + [m], s) <==> Names(host, sources, s) || (s == host.trim(m) && s != [])
  {
    assert forall x :: x in sources + [m] <==> x in sources || x == m;
  }

  /** Sort one site's sources into labels and prefixes. */
  method SplitSources(host: Host, sources: seq<Bytes>) returns (r: Option<(seq<Bytes>, seq<Cidr>)>)
    ensures r.None? ==> exists source :: Names(host, sources, source) && ClassifySource(host, source) == Malformed
    ensures r.Some? ==> forall source :: Names(host, sources, source) ==> ClassifySource(host, source) != Malformed
    ensures r.Some? ==> forall l ::
      l in r.value.0 <==> Names(host, sources, l) && ClassifySource(host, l) == Endpoint
    ensures r.Some? ==> forall c ::
      c in r.value.1 <==> exists source :: Names(host, sources, source) && ClassifySource(host, source) == Prefix(c)
  {
    var vpce: seq<Bytes>, prefixes: seq<Cidr> := [], [];
    for i := 0 to |sources|
      invariant forall source :: Names(host, sources[..i], source) ==> ClassifySource(host, source) != Malformed
      invariant forall l :: l in vpce <==> Names(host, sources[..i], l) && ClassifySource(host, l) == Endpoint
      invariant forall c :: c in prefixes <==>
        exists source :: Names(host, sources[..i], source) && ClassifySource(host, source) == Prefix(c)
    {
      var m := host.trim(sources[i]);
      assert sources[..i + 1] == sources[..i] + [sources[i]];
      forall s: Bytes
        ensures Names(host, sources[..i + 1], s) <==> Names(host, sources[..i], s) || (s == m && m != [])
      {
        NamesOneMore(host, sources[..i], sources[i], s);
      }
      if m != [] {
        match ClassifySource(host, m) {
          case Malformed =>
            assert Names(host, sources, m);
            return None;
          case Prefix(c) => prefixes := prefixes + [c];
          case Endpoint => vpce := vpce + [m];
        }
      }
    }
    assert sources[..|sources|] == sources;
    return Some((vpce, prefixes));
  }

  method BuildSite(host: Host, e: (Bytes, seq<Bytes>)) returns (r: Option<Site>)
    ensures r.Some? <==> LawfulEntry(host, e)
    ensures r.Some? ==> Declares(host, e, r.value)
  {
    var id := ParseUint(e.0, 0xffff);
    if id.None? || id.value == SITE_CONTESTED {
      return None;
    }
    var split := SplitSources(host, e.1);
    if split.None? {
      return None;
    }
    var (vpce, prefixes) := split.value;
    var cidrs := BuildFrom(prefixes);
    if cidrs.Err? {
      var c :| c in prefixes && c.width > 128;
      return None;
    }
    r := Some(Site(id.value, vpce, cidrs.value));
    SiteIsDeclared(host, e, r.value, prefixes);
  }

  /** Prefixes collected from the sources of one site cover what those sources claim. */
  lemma SiteIsDeclared(host: Host, e: (Bytes, seq<Bytes>), s: Site, prefixes: seq<Cidr>)
    requires forall c ::
      c in prefixes <==> exists source :: Names(host, e.1, source) && ClassifySource(host, source) == Prefix(c)
    ensures Build(prefixes) == Ok(s.cidrs) ==> forall a: u128 ::
      InSome(s.cidrs.ranges, a) <==> exists source :: Names(host, e.1, source) && Claims(host, source, a)
    ensures Build(prefixes).Ok? ==> forall source ::
      Names(host, e.1, source) && ClassifySource(host, source).Prefix? ==> LawfulSource(host, source)
  {
    if Build(prefixes) == Ok(s.cidrs) {
      forall a: u128
        ensures InSome(s.cidrs.ranges, a) <==> exists source :: Names(host, e.1, source) && Claims(host, source, a)
      {
        if InSome(s.cidrs.ranges, a) {
          var c :| c in prefixes && RangeOf(c.addr, c.width).Has(a);
          var source :| Names(host, e.1, source) && ClassifySource(host, source) == Prefix(c);
          assert Claims(host, source, a);
        }
        if source :| Names(host, e.1, source) && Claims(host, source, a) {
          assert ClassifySource(host, source).cidr in prefixes;
        }
      }
    }
  }

  /** Every entry becomes a site, or the first bad one fails the config. */
  method BuildSites(host: Host, raw: Entries) returns (r: Option<seq<Site>>)
    ensures r.Some? <==> forall e :: e in raw ==> LawfulEntry(host, e)
    ensures r.Some? ==> |r.value| == |raw| && forall i :: 0 <= i < |raw| ==> Declares(host, raw[i], r.value[i])
  {
    var sites: seq<Site> := [];
    for i := 0 to |raw|
      invariant |sites| == i
      invariant forall j :: 0 <= j < i ==> LawfulEntry(host, raw[j]) && Declares(host, raw[j], sites[j])
    {
      var s := BuildSite(host, raw[i]);
      if s.None? {
        assert raw[i] in raw;
        return None;
      }
      sites := sites + [s.value];
    }
    return Some(sites);
  }

  /** Group entries in order, a later one replacing an earlier one of the same name. */
  function GroupsOf(raw: Entries): GroupMap {
    if raw == [] then map[] else GroupsOf(raw[..|raw| - 1])[Last(raw).0 := Last(raw).1]
  }

  /** The groups are those of the authored names. */
  lemma {:induction false} GroupNamesAreAuthored(raw: Entries, name: Bytes)
    ensures name in GroupsOf(raw) <==> exists j :: 0 <= j < |raw| && raw[j].0 == name
  {
    if raw != [] {
      GroupNamesAreAuthored(raw[..|raw| - 1], name);
      assert raw == raw[..|raw| - 1] + [Last(raw)];
    }
  }

  /** A group has exactly the members of the last entry of its name. */
  lemma {:induction false} GroupMembersAreAuthored(raw: Entries, k: nat)
    requires LastOf(raw, k)
    ensures raw[k].0 in GroupsOf(raw) && GroupsOf(raw)[raw[k].0] == raw[k].1
  {
    if k < |raw| - 1 {
      GroupMembersAreAuthored(raw[..|raw| - 1], k);
    }
  }

  /** No later entry has the same name. */
  ghost predicate LastOf(raw: Entries, k: nat) {
    k < |raw| && forall j :: k < j < |raw| ==> raw[j].0 != raw[k].0
  }

  /** The groups of the authored names, each with exactly the members last given under its name. */
  ghost predicate GroupsStand(raw: Entries, groups: GroupMap) {
    && (forall name :: name in groups <==> exists j :: 0 <= j < |raw| && raw[j].0 == name)
    && forall k: nat :: LastOf(raw, k) ==> raw[k].0 in groups && groups[raw[k].0] == raw[k].1
  }

  lemma GroupsAreAuthored(raw: Entries)
    ensures GroupsStand(raw, GroupsOf(raw))
  {
    forall name ensures name in GroupsOf(raw) <==> exists j :: 0 <= j < |raw| && raw[j].0 == name {
      GroupNamesAreAuthored(raw, name);
    }
    forall k: nat | LastOf(raw, k) ensures raw[k].0 in GroupsOf(raw) && GroupsOf(raw)[raw[k].0] == raw[k].1 {
      GroupMembersAreAuthored(raw, k);
    }
  }

  /** One site per entry, each what its entry declares. */
  ghost predicate DeclaredBy(host: Host, entries: Entries, sites: seq<Site>) {
    |sites| == |entries| && forall i :: 0 <= i < |entries| ==> Declares(host, entries[i], sites[i])
  }

  /** A compiled table whose sites are, in some order, exactly those the entries declare. */
  ghost predicate ParsedFrom(host: Host, t: Table, prefix: Bytes, sites: Entries, groups: Entries) {
    && t.scheme.Compiled() && t.scheme.prefix == prefix && t.groups == GroupsOf(groups)
    && exists declared :: DeclaredBy(host, sites, declared) && multiset(declared) == multiset(t.scheme.sites)
  }

  /** The carrier's config: it parses exactly when every site entry is lawful. */
  method ParseTable(host: Host, prefix: Bytes, sites: Entries, groups: Entries) returns (r: Option<Table>)
    requires |prefix| == 6
    ensures r.Some? <==> forall e :: e in sites ==> LawfulEntry(host, e)
    ensures r.Some? ==> ParsedFrom(host, r.value, prefix, sites, groups)
    ensures r.Some? ==> forall e :: e in sites ==> exists s :: s in r.value.scheme.sites && Declares(host, e, s)
    ensures r.Some? ==> forall s :: s in r.value.scheme.sites ==> exists e :: e in sites && Declares(host, e, s)
    ensures r.Some? ==> GroupsStand(groups, r.value.groups)
  {
    var declared := BuildSites(host, sites);
    if declared.None? {
      return None;
    }
    var scheme := New(prefix, declared.value);
    assert DeclaredBy(host, sites, declared.value);
    var graph := BuildGroups(groups);
    r := Some(Table(scheme, graph));
    TableIsAuthored(host, r.value, prefix, sites, groups);
  }

  method BuildGroups(raw: Entries) returns (groups: GroupMap)
    ensures groups == GroupsOf(raw) && GroupsStand(raw, groups)
  {
    var graph := new Graph();
    for i := 0 to |raw|
      invariant graph.groups == GroupsOf(raw[..i])
    {
      assert raw[..i + 1][..i] == raw[..i];
      graph.Upsert(raw[i].0, raw[i].1);
    }
    assert raw[..|raw|] == raw;
    GroupsAreAuthored(raw);
    return graph.groups;
  }

  // ----- claims as authored --------------------------------------------------

  /** Every entry's site is in the table. */
  lemma EntryIsCompiled(host: Host, t: Table, prefix: Bytes, sites: Entries, groups: Entries, e: (Bytes, seq<Bytes>))
    requires ParsedFrom(host, t, prefix, sites, groups) && e in sites
    ensures exists s :: s in t.scheme.sites && Declares(host, e, s)
  {
    var declared: seq<Site> :| DeclaredBy(host, sites, declared) && multiset(declared) == multiset(t.scheme.sites);
    SameMembers(declared, t.scheme.sites);
    var i :| 0 <= i < |sites| && sites[i] == e;
    assert declared[i] in t.scheme.sites && Declares(host, e, declared[i]);
  }

  /** And nothing besides: a site of the table is what some entry declares. */
  lemma SiteIsAuthored(host: Host, t: Table, prefix: Bytes, sites: Entries, groups: Entries, s: Site)
    requires ParsedFrom(host, t, prefix, sites, groups) && s in t.scheme.sites
    ensures exists e :: e in sites && Declares(host, e, s)
  {
    var declared: seq<Site> :| DeclaredBy(host, sites, declared) && multiset(declared) == multiset(t.scheme.sites);
    SameMembers(declared, t.scheme.sites);
    var i :| 0 <= i < |declared| && declared[i] == s;
    assert sites[i] in sites && Declares(host, sites[i], s);
  }

  lemma TableIsAuthored(host: Host, t: Table, prefix: Bytes, sites: Entries, groups: Entries)
    requires ParsedFrom(host, t, prefix, sites, groups)
    ensures forall e :: e in sites ==> exists s :: s in t.scheme.sites && Declares(host, e, s)
    ensures forall s :: s in t.scheme.sites ==> exists e :: e in sites && Declares(host, e, s)
  {
    forall e | e in sites ensures exists s :: s in t.scheme.sites && Declares(host, e, s) {
      EntryIsCompiled(host, t, prefix, sites, groups, e);
    }
    forall s | s in t.scheme.sites ensures exists e :: e in sites && Declares(host, e, s) {
      SiteIsAuthored(host, t, prefix, sites, groups, s);
    }
  }

  /** A source of the entry covers the address. */
  ghost predicate EntryClaims(host: Host, e: (Bytes, seq<Bytes>), a: u128) {
    exists source :: Names(host, e.1, source) && Claims(host, source, a)
  }

  /** The entry lists the label. */
  ghost predicate EntryLists(host: Host, e: (Bytes, seq<Bytes>), name: Bytes) {
    Names(host, e.1, name) && ClassifySource(host, name) == Endpoint
  }

  /** What one source text contributes: nothing if trimming leaves nothing, else what the trimmed text is. */
  lemma SoleSource(host: Host, key: Bytes, m: Bytes, name: Bytes, a: u128)
    ensures var text := host.trim(m);
      && (EntryLists(host, (key, [m]), name) <==> name == text != [] && ClassifySource(host, text) == Endpoint)
      && (EntryClaims(host, (key, [m]), a) <==> text != [] && Claims(host, text, a))
  {
    assert m in [m];
  }

  /** Several sources contribute each on its own. */
  lemma SourcesAddUp(host: Host, key: Bytes, ms: seq<Bytes>, ns: seq<Bytes>, name: Bytes, a: u128)
    ensures EntryLists(host, (key, ms + ns), name) <==>
      EntryLists(host, (key, ms), name) || EntryLists(host, (key, ns), name)
    ensures EntryClaims(host, (key, ms + ns), a) <==>
      EntryClaims(host, (key, ms), a) || EntryClaims(host, (key, ns), a)
  {
    assert forall s :: Names(host, ms + ns, s) <==> Names(host, ms, s) || Names(host, ns, s);
  }

  /** The id a key reads as; no lawful key reads as 0. */
  function KeyId(e: (Bytes, seq<Bytes>)): u16 {
    match ParseUint(e.0, 0xffff)
    case Some(id) => id
    case None => 0
  }

  /** A lawful key is any spelling of 1 to 65535, and its id is the number spelled. */
  lemma KeyExactly(host: Host, e: (Bytes, seq<Bytes>), id: nat)
    ensures LawfulEntry(host, e) ==> (KeyId(e) == id <==> id <= 0xffff && Spells(e.0, id))
    ensures LawfulEntry(host, e) ==> 1 <= KeyId(e)
    ensures (forall n :: Spells(e.0, n) ==> n == 0 || n > 0xffff) ==> !LawfulEntry(host, e)
  {
    ParseUintExactly(e.0, id, 0xffff);
    if ParseUint(e.0, 0xffff).Some? {
      ReadIsSpelled(e.0, 0xffff);
    }
  }

  ghost function AuthoredIds(sites: Entries): set<u16> {
    set e | e in sites :: KeyId(e)
  }

  ghost function AuthoredClaimants(host: Host, sites: Entries, a: u128): set<u16> {
    set e | e in sites && EntryClaims(host, e, a) :: KeyId(e)
  }

  ghost function AuthoredListers(host: Host, sites: Entries, name: Bytes): set<u16> {
    set e | e in sites && EntryLists(host, e, name) :: KeyId(e)
  }

  lemma DeclaredClaims(host: Host, e: (Bytes, seq<Bytes>), s: Site, a: u128, name: Bytes)
    requires Declares(host, e, s)
    ensures KeyId(e) == s.id
    ensures InSome(s.cidrs.ranges, a) <==> EntryClaims(host, e, a)
    ensures name in s.vpce <==> EntryLists(host, e, name)
  {
  }

  /** Who claims an address in a parsed table can be read off the entries. */
  lemma AddressClaimsAreAuthored(host: Host, t: Table, prefix: Bytes, sites: Entries, groups: Entries, a: u128)
    requires ParsedFrom(host, t, prefix, sites, groups)
    ensures AddressClaimants(t.scheme.sites, a) == AuthoredClaimants(host, sites, a)
  {
    forall s | s in t.scheme.sites && InSome(s.cidrs.ranges, a) ensures s.id in AuthoredClaimants(host, sites, a) {
      SiteIsAuthored(host, t, prefix, sites, groups, s);
      var e :| e in sites && Declares(host, e, s);
      DeclaredClaims(host, e, s, a, []);
    }
    forall e | e in sites && EntryClaims(host, e, a) ensures KeyId(e) in AddressClaimants(t.scheme.sites, a) {
      EntryIsCompiled(host, t, prefix, sites, groups, e);
      var s :| s in t.scheme.sites && Declares(host, e, s);
      DeclaredClaims(host, e, s, a, []);
    }
  }

  /** And so can who lists a label. */
  lemma LabelClaimsAreAuthored(host: Host, t: Table, prefix: Bytes, sites: Entries, groups: Entries, name: Bytes)
    requires ParsedFrom(host, t, prefix, sites, groups)
    ensures LabelClaimants(t.scheme.sites, name) == AuthoredListers(host, sites, name)
  {
    forall s | s in t.scheme.sites && name in s.vpce ensures s.id in AuthoredListers(host, sites, name) {
      SiteIsAuthored(host, t, prefix, sites, groups, s);
      var e :| e in sites && Declares(host, e, s);
      DeclaredClaims(host, e, s, 0, name);
    }
    forall e | e in sites && EntryLists(host, e, name) ensures KeyId(e) in LabelClaimants(t.scheme.sites, name) {
      EntryIsCompiled(host, t, prefix, sites, groups, e);
      var s :| s in t.scheme.sites && Declares(host, e, s);
      DeclaredClaims(host, e, s, 0, name);
    }
  }

  /** The declared ids are those the keys read as, and none is 0. */
  lemma IdsAreAuthored(host: Host, t: Table, prefix: Bytes, sites: Entries, groups: Entries)
    requires ParsedFrom(host, t, prefix, sites, groups)
    ensures Ids(t.scheme.sites) == AuthoredIds(sites) && NonzeroIds(t.scheme.sites)
  {
    forall s | s in t.scheme.sites ensures s.id in AuthoredIds(sites) && s.id != SITE_CONTESTED {
      SiteIsAuthored(host, t, prefix, sites, groups, s);
    }
    forall e | e in sites ensures KeyId(e) in Ids(t.scheme.sites) {
      EntryIsCompiled(host, t, prefix, sites, groups, e);
    }
  }

  /** Two site maps that declare the same ids and make the same claims, however they are written. */
  ghost predicate SameClaims(host: Host, sites: Entries, sites': Entries) {
    && AuthoredIds(sites) == AuthoredIds(sites')
    && (forall a: u128 :: AuthoredClaimants(host, sites, a) == AuthoredClaimants(host, sites', a))
    && (forall name :: AuthoredListers(host, sites, name) == AuthoredListers(host, sites', name))
  }

  lemma SameClaimsParseAlike(
      host: Host, t: Table, t': Table, prefix: Bytes, sites: Entries, sites': Entries,
      groups: Entries, groups': Entries)
    requires ParsedFrom(host, t, prefix, sites, groups) && ParsedFrom(host, t', prefix, sites', groups')
    requires SameClaims(host, sites, sites') && GroupsOf(groups) == GroupsOf(groups')
    ensures SameTables(t, t')
  {
    IdsAreAuthored(host, t, prefix, sites, groups);
    IdsAreAuthored(host, t', prefix, sites', groups');
    forall a: u128 ensures AddressClaimants(t.scheme.sites, a) == AddressClaimants(t'.scheme.sites, a) {
      AddressClaimsAreAuthored(host, t, prefix, sites, groups, a);
      AddressClaimsAreAuthored(host, t', prefix, sites', groups', a);
    }
    forall name ensures LabelClaimants(t.scheme.sites, name) == LabelClaimants(t'.scheme.sites, name) {
      LabelClaimsAreAuthored(host, t, prefix, sites, groups, name);
      LabelClaimsAreAuthored(host, t', prefix, sites', groups', name);
    }
  }
}
