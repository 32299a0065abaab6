# Verified model of ppv2-auth

ppv2-auth is an Envoy module that turns the identity in an AWS PROXY protocol v2 header into
an IPv6 address, and the rules an operator writes into IPv6 prefixes, so that admitting a
connection is one range lookup. This project models that pipeline end to end in Dafny and
proves that the two sides meet: which headers each authored rule admits, under every table,
every cut of the byte stream and every interleaving of table publishes with verdicts.

`dafny verify dfyconfig.toml` checks everything. The files follow the program:

| file | what it models |
|---|---|
| `Base.dfy`, `Text.dfy` | 128-bit words, big-endian bytes, bisection, sorting; config text as bytes, unsigned number parsing |
| `Cidrs.dfy` | `src/cidr.rs`: prefix ranges, merging, the searched set |
| `SiteIndex.dfy` | `Scheme::new` in `src/identity.rs`: label contests, the event sweep, segment merging, the lookups |
| `Ppv2.dfy` | `src/ppv2.rs`: the incremental parser and the TLV walk; a serializer after section 2.2 of the PROXY protocol specification |
| `Identities.dfy`, `Meeting.dfy` | the encoder twins of `src/identity.rs`, and what each rule admits |
| `Groups.dfy` | `src/graph.rs`: the group walk against reachability |
| `Scopes.dfy` | SNI patterns and matching in `src/config.rs` |
| `Rules.dfy`, `Tables.dfy` | expansion and decision of rule lists; site and table parsing |
| `Cache.dfy`, `Config.dfy` | the published table and the per-filter cache, interleaved and sequential |
| `Tcp.dfy`, `Udp.dfy`, `EndToEnd.dfy` | the filters over whole runs, and bytes and config to verdict |

How it is modelled:

- An address is a natural number below 2^128. Masking is taking away the remainder modulo a power of two.
- Text is a sequence of bytes. The standard library's IPv4 and IPv6 parsers, its whitespace
  trimming and the first four digest bytes are the functions of `Text.Host`, about which
  nothing is assumed; in particular digests may collide.
- A CIDR string is the pair (address, width) it denotes.
- The naive reference for site ownership is `AddressClaimants` and `LabelClaimants`, the sets of
  ids of the declared sites that claim an address or a label, with `Contest` giving nobody, the
  sole claimant, or site 0. What a rule means (`Meeting.Meant`) is said over these alone, never over the
  compiled indices.
- Code that updates things in place is imperative here too: classes for the filters, the
  published cell, the cache and the group graph, loops for the sweep, the merges and the walks,
  byte buffers for addresses. Each method is proved against a function or a naive
  statement, and the theorems are about those.

Where the code and its remarks disagree the code is followed: an address two sites claim goes to
site 0, not to the lowest id (src/identity.rs:99-100, 360); the default set has span (0, 0), not
(MAX, 0) (src/cidr.rs:15-20).

What turned out not to hold, with the exact condition:

- That an interval is covered whenever single ranges cover its ends and meet (src/cidr.rs:33-35) fails
  where stored ranges touch: `HalvesAreNotJoined` builds the two halves of the address space, which
  contain every address while the whole is not reported; `TouchingRangesAreNotJoined` says it of any
  such pair. `ContainsRangeCondition` says exactly when the answer is yes.
- That an address inside the /48 was always synthesized (src/identity.rs:3-4) is not enforced by the
  code: `InsideMeansSynthesized` gives the exact condition, `CollidingFrame` a frame on the wire that
  breaks it, `PassThroughCollides` the consequence. The theorems carry that condition as the assumption
  `SourceOutside`; it concerns unclaimed pass-through IPv6 sources only.
- That `want` never grows (src/tcp.rs:68) fails: in the run `WantGrows` it goes 256, 16, 116.
  `WantGrowsExactly` says at which callbacks of any run it grows, `WantGrowsOnStream` that on peeks of one
  stream this is the callback at which the preamble is first whole. It never exceeds 256.
- A client is not always refused as soon as nothing it could send would be accepted: `WaitsInVain`.
  `AcceptableExactly` says when some continuation is accepted, `AsksExactly` and `RefusesExactly` when the
  parser waits and when it refuses.
- The coarse rule "any onboarded tenant" on the site kind also admits quarantined traffic: `KindRule`.
- The generation behind a caller's verdict is not monotone: `SlowReaderOverwrites`. `StaleExactly` says
  when a verdict can be older than the generation its call read: exactly when, as the call began, another
  call still held an older one. `AnswerableBelowExactly` says it at every later moment and for every
  generation, and a verdict is never older than every generation still held when the call began.

## Model

| member | source | states |
|---|---|---|
| Text.ParseInvertsPrint | src/identity.rs:378-392 | a written number reads back, plus sign or not, exactly when it is in range |
| Text.ParseUintExactly | src/identity.rs:378-392 | a text reads as n exactly when n is in range and the text is an optional plus sign, any zeros, and n as written |
| Cidrs.BlockHalves | src/cidr.rs:67-77 | a prefix covers one address at 128, twice as many with each bit less, and everything at 0 |
| Cidrs.RangeHas | src/cidr.rs:67-77 | a prefix range holds exactly the addresses that agree with it above its width, /0 included |
| Cidrs.PrefixesNest | src/cidr.rs:67-77 | two prefix ranges are nested or disjoint, never straddling |
| Cidrs.CidrSet.Contains | src/cidr.rs:24-31 | the span test and the bisection decide membership in some stored range, both empty forms included |
| Cidrs.CidrSet.ContainsRange | src/cidr.rs:36-42 | a nonempty interval is contained exactly when one stored range covers it whole |
| Cidrs.Build | src/cidr.rs:86-116 | succeeds exactly when every width is at most 128; the set is lawful and holds an address exactly when some listed CIDR does |
| Cidrs.MergedCovers | src/cidr.rs:96-109 | collapsing overlaps of sorted ranges gives sorted disjoint ranges with the same addresses |
| Cidrs.BuildFrom | src/cidr.rs:86-116 | the parse, sort and merge loops compute `Build` |
| Cidrs.BuiltRangesAreMaximal | src/cidr.rs:98-109 | the stored ranges are exactly the maximal listed prefixes |
| Cidrs.ContainsRangeExactly | src/cidr.rs:33-42 | whole-range containment holds exactly when one listed prefix covers the interval |
| Cidrs.ContainsRangeCondition | src/cidr.rs:33-42 | an interval is reported exactly when its start is contained and no stored range ends short of its end; then all its addresses are contained |
| Cidrs.TouchingRangesAreNotJoined | src/cidr.rs:33-42 | two stored ranges that touch contain every address of their union, yet the union is not reported as contained |
| Cidrs.ClearPrefixIsStored | src/cidr.rs:98-109 | a listed prefix clear of all other listed ones is stored as it is, neighbours included |
| Cidrs.TouchingPairIsNotJoined | src/cidr.rs:33-42 | the set built from two prefixes whose ranges touch contains every address of both, yet the union is not reported as contained |
| Cidrs.HalvesAreNotJoined | src/cidr.rs:33-42 | the set built from the two /1 prefixes contains every address, yet the whole space is not reported as contained |
| SiteIndex.ContestAdd | src/identity.rs:79-95 | how one more claimant changes nobody, a sole claimant or site 0 |
| SiteIndex.IndexLabels | src/identity.rs:76-97 | for every label the map answers nobody, the sole listing site, or 0 when two or more list it, once contested never leaving 0 |
| SiteIndex.CollectEvents | src/identity.rs:101-109 | the pushed events are the openings and closings of claims that say exactly who holds each address |
| SiteIndex.RawBalance | src/identity.rs:99-109 | openings minus closings up to an address count the claims holding it, a range ending at MAX included |
| SiteIndex.NetAtBoundary | src/identity.rs:117-135 | past all events up to an address, the net count is positive exactly for the ids holding it |
| SiteIndex.NetNeverNegative | src/identity.rs:128-133 | no prefix of the sorted events closes an id more often than it opened it |
| SiteIndex.Winner | src/identity.rs:138-151 | exactly the contest of the active ids: nobody, the only one, or site 0 |
| SiteIndex.Sweep | src/identity.rs:112-156 | the emitted segments are sorted, disjoint and answer for every address up to MAX exactly as the claims do |
| SiteIndex.Merge | src/identity.rs:157-164 | merging keeps every answer and leaves no two touching segments with one id |
| SiteIndex.IndexSegments | src/identity.rs:99-164 | events, sweep and merge together answer every address as the naive claims do |
| SiteIndex.New | src/identity.rs:72-172 | a constructed scheme has both indices answering the naive ownership question, over a permutation of the given sites |
| SiteIndex.Scheme.AddrSite | src/identity.rs:175-178 | the binary search finds exactly the segment telling the address |
| SiteIndex.AddrSiteIsNaive | src/identity.rs:174-178 | every address resolves to nobody, its sole claimant however often repeated, or 0 when contested |
| SiteIndex.RangeSiteExactly | src/identity.rs:180-186 | one segment answers for an interval exactly when every address in it answers alike |
| SiteIndex.RangeSiteIsNaive | src/identity.rs:180-186 | a range belongs to a site exactly when each of its addresses naively does |
| SiteIndex.AlikeAnswers | src/identity.rs:174-192 | schemes whose sites make the same claims give the same answers on all three lookups |
| SiteIndex.OrderIndependent | src/identity.rs:72-74 | permuting the declared sites changes none of the three lookups |
| Ppv2.FindVpce | src/ppv2.rs:101-116 | the walk returns the first endpoint id of the longest well-formed TLV run, or empty |
| Ppv2.WalkIsDecode | src/ppv2.rs:101-116 | walking by index equals decoding TLVs and taking the first that names an endpoint |
| Ppv2.FirstEndpointWins | src/ppv2.rs:109-112 | the first TLV naming an endpoint decides, later ones cannot displace it, and its id is never empty |
| Ppv2.DecodeInverts | src/ppv2.rs:101-116 | decoding inverts the TLV wire form whatever ill-formed tail follows |
| Ppv2.DecodeIsLongest | src/ppv2.rs:103-108 | what is decoded is a prefix of the bytes after which no whole TLV stands |
| Ppv2.Parse | src/ppv2.rs:49-98 | an accepted header fits the buffer and 256 bytes; a request for more names a total above the buffer, from 16 to 256 |
| Ppv2.ParseBuffer | src/ppv2.rs:49-98 | the branching parser with its source buffer and TLV loop computes `Parse` |
| Ppv2.FinalIsStable | src/ppv2.rs:49-98 | more bytes never change an accepted header or a rejection |
| Ppv2.NeedIsMet | src/ppv2.rs:51-70 | supplying what was asked for gives a final answer, or, only after asking for 16, a larger request |
| Ppv2.AsksExactly | src/ppv2.rs:51-70 | under sixteen bytes more is asked for exactly while they agree with the signature; from there on exactly for an incomplete header with the right signature and command and a length of at most 256 |
| Ppv2.RefusesExactly | src/ppv2.rs:51-84 | a short buffer is refused exactly when it has left the signature; a longer one exactly for its signature, command, length, family or a body too short for its family |
| Ppv2.AcceptableExactly | src/ppv2.rs:49-98 | some continuation of the bytes so far is accepted exactly when none of them contradicts a header |
| Ppv2.WaitsInVain | src/ppv2.rs:51-58 | after the signature and the health-check command more is asked for, though no continuation is accepted |
| Ppv2.ParseInverts | src/ppv2.rs:49-98 | parsing inverts serializing for every address block, port, TLV list and payload with a header of at most 256 bytes |
| Ppv2.FrameParses | src/ppv2.rs:49-98 | a frame with any tail parses, the tail read as far as it is well formed |
| Ppv2.PlainFrameParses | src/ppv2.rs:8-30 | a header with one endpoint TLV, written out in plain bytes for every address, port, transport and id of either family, parses as what it says |
| Ppv2.OnlyFramesParse | src/ppv2.rs:49-98 | every accepted buffer is such a frame and what follows it, and the header is what the frame says |
| Identities.SourceBytes | src/identity.rs:199-209 | an IPv4 source is the first four bytes and is mapped above 0xffff_0000_0000, an IPv6 source is all sixteen |
| Identities.SiteRefExactly | src/identity.rs:378-382 | a member refers to site n exactly when it is a bang and a spelling of n, with n 0 or declared |
| Identities.WrittenRef | src/identity.rs:378-382 | `!n` as usually written refers to n when n is 0 or declared, and to nothing otherwise |
| Identities.BareMember | src/identity.rs:384-419 | a member without a slash is an address of full width, IPv4 first, or else a name |
| Identities.WideMember | src/identity.rs:384-419 | with a width after the slash, however spelled, it is that prefix if the width fits the address, else a name |
| Identities.BadWidthMember | src/identity.rs:388-394 | with anything else after the slash it is a name |
| Identities.IdentityBytes | src/identity.rs:5-12 | the sixteen bytes of every identity, field by field |
| Identities.RuleBytes | src/identity.rs:403-449 | the sixteen bytes and the width of every encoded rule |
| Identities.Synthesize | src/identity.rs:233-270 | the address filled in byte by byte is the embedding of the header's abstract identity |
| Identities.EncodeMember | src/identity.rs:371-428 | the CIDR filled in byte by byte is the embedding of the member's abstract rule |
| Identities.EncodeSite | src/identity.rs:443-449 | a site space is prefix, site kind and id with the machine bits open |
| Identities.RuleMeetsIdentity | src/identity.rs:352-370 | an identity's address lies in a rule's CIDR exactly when the rule means the identity |
| Identities.SpacesAreApart | src/identity.rs:6-11 | above the machine bits an address tells its kind and body: the spaces are pairwise disjoint |
| Identities.SynthesizedInside | src/identity.rs:3-4 | with pass-through sources outside the /48, the /48 holds exactly the synthesized addresses |
| Identities.EmbedInjective | src/identity.rs:233-270 | no two identities share an address |
| Identities.KindRule | src/identity.rs:32-39 | a /64 rule on one kind admits exactly that kind, quarantine included |
| Identities.MachineRule | src/identity.rs:359-362 | a rule of width 96 to 128 inside the /48 admits exactly the identities of its kind and body whose machine lies in its block |
| Identities.MachineBlocks | src/identity.rs:359-362 | at 96 that block is every machine, at 128 the one written |
| Meeting.OwnerIsCompiled | src/identity.rs:211-230 | the resolved site is the naive owner: a listed endpoint id outranks the source address |
| Meeting.IdentityOfOwner | src/identity.rs:232-270 | the identity of a header in terms of who claims it, the machine shown only where the source is the own IPv4 address of a listed tenant or a stranger |
| Meeting.MemberSiteIsCompiled | src/identity.rs:371-427 | a member encodes to its naive site's space, or to its own lift, literal or hash when it has none |
| Meeting.RuleMeetsWire | src/identity.rs:352-370 | every member admits exactly the headers it means: its site's; or unclaimed ones of its IPv4 range; or those whose address its IPv6 range holds; or unclaimed endpoint ids with its digest |
| Meeting.PlainLiteral | src/identity.rs:409-417 | an unowned IPv6 rule clear of the /48 means exactly the unclaimed IPv6 sources of its range |
| Meeting.WideLiteral | src/identity.rs:409-417 | an unowned IPv6 rule holding the whole /48 admits everything but the pass-through sources outside its range |
| Meeting.InsideMeansSynthesized | src/identity.rs:261-264 | an address inside the /48 means a synthesized identity exactly when the header is not an unclaimed IPv6 source inside it |
| Meeting.PassThroughCollides | src/identity.rs:261-264 | such a source meets the site space of the tenant whose address it bears |
| Meeting.CollidingFrame | src/identity.rs:261-264 | under any table in which no site claims it, a frame with a tenant's address as source parses, breaks the assumption and meets that tenant's space |
| Meeting.EmptyTableOwnsNothing | src/identity.rs:72-74 | the empty table is compiled and claims no address, so such tables exist |
| Meeting.PrefixTenantsHaveNoMachine | src/identity.rs:241-245 | a tenant known by source prefix has zero low 32 bits |
| Meeting.LabelBytes | src/identity.rs:232-270 | the label of a header in plain bytes, from the bytes of its source, in each of the four cases |
| Meeting.RefMeans | src/identity.rs:378-382 | `!n` means the headers whose owner is n |
| Meeting.Ipv4RuleExactly | src/identity.rs:396-408 | an IPv4 prefix as written means the headers of the site that owns all of it, or else the unclaimed IPv4 sources agreeing with it in its leading bits |
| Meeting.Ipv6RuleExactly | src/identity.rs:409-417 | an IPv6 prefix as written means the headers of the site that owns all of it, or else those whose label agrees with it in its leading bits |
| Meeting.NameRuleExactly | src/identity.rs:419-427 | a name means the headers of the site it stands for when some site lists it, or else the unowned endpoint ids with its digest |
| Meeting.QuarantineNeedsSiteZero | src/identity.rs:33-37 | with unowned IPv6 rules clear of the /48, a quarantined header is admitted by a member exactly when the member stands for site 0 |
| Meeting.SiteZeroIsContested | src/identity.rs:33-37 | with nonzero declared ids, a header resolves to site 0 exactly when two or more sites claim it |
| Groups.RefExactly | src/graph.rs:38-50 | an at sign and the name of a known group is a reference to it; no other text is one |
| Groups.Graph.Upsert | src/graph.rs:21-24 | inserts or replaces one group and nothing else |
| Groups.Graph.WalkMember | src/graph.rs:38-51 | the recursive walk grows output and seen-set as the specification says, and terminates on every graph |
| Groups.Graph.Resolve | src/graph.rs:29-36 | the walk from an entry list computes `Expand` |
| Groups.SoleLiteral | src/graph.rs:38-50 | a member that does not begin with an at sign reaches itself alone |
| Groups.SoleGroup | src/graph.rs:38-50 | a reference to a group of plain members reaches exactly its members |
| Groups.ExpandIsReachability | src/graph.rs:26-51 | the walk returns exactly the literals reachable from the entry, cycles and self-references included |
| Groups.ExpandedIsNamed | src/graph.rs:41-46 | a group is expanded exactly when some reachable member refers to it |
| Groups.ExpandsEachGroupOnce | src/graph.rs:41-46 | each output literal is counted once per direct occurrence in the entry and in each reachable group |
| Scopes.MatchScopes | src/config.rs:179-201 | the two searches return the list of the scope `Match` finds |
| Scopes.MatchIsBest | src/config.rs:168-201 | the result is the first exact scope, else the first holding the longest wildcard the name ends in, else none |
| Scopes.BestIsUnique | src/config.rs:168-169 | that description determines the scope |
| Scopes.OnePatternMatches | src/config.rs:141-157 | `*.x` matches every name ending in `.x` but not `x` itself; any other text matches the same name in any case |
| Scopes.CaseInsensitive | src/config.rs:149-166 | neither the case of the name nor of the configured pattern matters |
| Scopes.FoldExactly | src/config.rs:149-166 | two texts fold alike exactly when they differ at most in the case of A to Z |
| Scopes.CaseAlone | src/config.rs:149-166 | names differing in that alone match alike, and such texts are one pattern |
| Scopes.PlainPattern | src/config.rs:148-166 | what one text matches, in plain bytes |
| Scopes.ExactTextWins | src/config.rs:179-187 | the first scope writing the name itself is chosen |
| Scopes.WildTextWins | src/config.rs:188-200 | where none writes it, the first scope writing the longest wildcard for it is chosen |
| Scopes.NoTextMatches | src/config.rs:179-201 | where none writes either, no scope is chosen |
| Scopes.OrderDoesNotMatter | src/config.rs:179-201 | when no pattern occurs in two scopes, reordering them never changes the chosen list |
| Rules.DenyAll | src/config.rs:112-118 | denies every name and address in either mode |
| Rules.Resolve | src/config.rs:59-69 | expansion never fails and gives a lawful set |
| Rules.EncodingsAreContributions | src/config.rs:60-67 | the expanded CIDRs are exactly what the members contribute, each of width at most 128 |
| Rules.ResolveRules | src/config.rs:59-69 | the expansion loop computes `Resolve` |
| Rules.JudgeAgainst | src/config.rs:232-249 | judging rules against any compiled table never fails |
| Rules.Judge | src/config.rs:232-249 | the list-by-list expansion computes `JudgeAgainst` |
| Rules.Ask | src/config.rs:121-127 | asking the flat list or the matching scope computes `Permits` |
| Rules.ResolveCovers | src/config.rs:54-69 | an expanded list holds an address exactly when some reachable literal's CIDRs do |
| Rules.VerdictsAgree | src/config.rs:232-249 | tables whose sites make the same claims, with one prefix and the same groups, give every query the same answer |
| Rules.StarMeansOnboarded | src/identity.rs:430-440 | `!*` admits exactly the headers whose site is nonzero |
| Rules.FlatDecision | src/config.rs:54-69 | a flat list admits a header exactly when some reachable literal means it |
| Rules.QuarantineDecision | src/identity.rs:33-37 | with unowned IPv6 rules clear of the /48, quarantined traffic passes exactly where a reachable member other than `!*` stands for site 0 |
| Rules.StarAndQuarantine | src/identity.rs:430-440 | `!*` with `!0` admits exactly the headers with any site |
| Tables.SplitSources | src/config.rs:391-402 | one site's trimmed sources sort into exactly its labels and prefixes, or one is malformed |
| Tables.SourceMeetsMember | src/config.rs:347-376 | a lawful site source covers, as a rule member, the same addresses; an endpoint id is a name in both |
| Tables.BareSource | src/config.rs:353-376 | a source without a slash is always lawful: that one address, mapped if IPv4, or an endpoint id |
| Tables.WideSource | src/config.rs:353-376 | with a width, however spelled, the exact prefix it is, an endpoint id, or a mistake, and exactly which are lawful |
| Tables.BadWidthSource | src/config.rs:354-361 | with anything else after the slash it fails the config, endpoint ids included |
| Tables.KeyExactly | src/config.rs:385-389 | a lawful key is a spelling of 1 to 65535 and its id is the number spelled |
| Tables.SoleSource | src/config.rs:391-402 | what one source text contributes: nothing if trimming leaves nothing, else what the trimmed text is |
| Tables.SourcesAddUp | src/config.rs:391-402 | several sources contribute each on its own |
| Tables.BuildSites | src/config.rs:378-411 | succeeds exactly when every entry is lawful; each site has its nonzero id, its labels and the addresses of its prefixes |
| Tables.ParseTable | src/config.rs:334-345 | parses exactly when every entry is lawful; the table is compiled, its sites are those the entries declare, one each and nothing besides, and its groups are the authored ones with their last authored members |
| Tables.GroupNamesAreAuthored | src/config.rs:340-343 | the groups of a table are those of the authored names |
| Tables.GroupMembersAreAuthored | src/config.rs:340-343 | a group has exactly the members of the last entry of its name |
| Tables.EntryIsCompiled | src/config.rs:334-345 | every entry of the config has its site in the table |
| Tables.SiteIsAuthored | src/config.rs:334-345 | every site of the table is what some entry declares |
| Tables.AddressClaimsAreAuthored | src/config.rs:378-411 | who claims an address in a parsed table is exactly who has a source covering it in the config |
| Tables.LabelClaimsAreAuthored | src/config.rs:378-411 | who lists a label in a parsed table is exactly who has it among the trimmed sources in the config |
| Tables.IdsAreAuthored | src/config.rs:383-390 | the ids of a parsed table are exactly those the keys read as, none of them 0 |
| Cache.NextKeeps | src/config.rs:80-90 | every step of every publisher and caller keeps tag and content together |
| Cache.VerdictOfOneGeneration | src/config.rs:203-224 | over every interleaving a verdict is that of one published generation, never older than all those held when the call began |
| Cache.NoCallIsStuck | src/config.rs:207-224 | a call in flight can always take its next step |
| Cache.AloneIsLatest | src/config.rs:207-224 | an uninterrupted call answers for the latest generation whatever the cache held |
| Cache.AnswerableBelowExactly | src/config.rs:207-224 | from any reachable state a call can be answered from below g exactly when some call still holds a generation below g or it is about to read a cache tagged below g |
| Cache.StaleExactly | src/config.rs:207-224 | a verdict can be older than the generation its call read exactly when another call held an older one as it began |
| Cache.SlowReaderOverwrites | src/config.rs:208-222 | a run in which a caller that read generation 1 is answered from generation 0 |
| Config.Published.Publish | src/config.rs:81-85 | appends one generation |
| Config.Enforcer.Permits | src/config.rs:207-224 | an uninterrupted call judges against the latest table and leaves the cache tagged with it |
| Config.EveryVerdictJudgesOneTable | src/config.rs:203-249 | on real tables, every verdict is the whole judgement of one published table, or the denial before the first |
| Tcp.Ppv2Filter.OnData | src/tcp.rs:197-249 | one callback changes the fields, answers and acts on the connection as `Step` says |
| Tcp.Ppv2Filter.Refuse | src/tcp.rs:179-184 | sets the terminal flag, explains, closes |
| Tcp.ShortPeekDecides | src/tcp.rs:212-221 | a peek under sixteen bytes settles exactly when it has left the signature |
| Tcp.StrangerIsRefused | src/tcp.rs:217-221 | a client whose first bytes leave the signature is counted, explained and closed, and never admitted whatever it sends later |
| Tcp.FirstDecisionIsFinal | src/tcp.rs:197-249 | in any run nothing happens until a callback decides, that decision is the whole log, and every later answer repeats it |
| Tcp.DecisionAdmits | src/tcp.rs:207-247 | a deciding callback continues exactly when the header parsed, the label was written and, if enforcing, the list permits |
| Tcp.LogTellsWhy | src/tcp.rs:207-247 | the counter and the reason left behind say exactly which outcome it was |
| Tcp.RunIsSafe | src/tcp.rs:82-84 | any run closes once if refused and never otherwise, drains and counts at most once, drains only right after labelling and only the length of a header it was shown, never reverses a verdict, wants at most 256 bytes |
| Tcp.RelabelIsOwn | src/tcp.rs:229-243 | in every run, denied ones included, the address and port written are those of a header the filter was shown, and exactly that header is stripped next if the write succeeded |
| Tcp.LogInFull | src/tcp.rs:229-247 | once a header is seen, the whole log in order for each of the three outcomes |
| Tcp.ContinueMeansAdmitted | src/tcp.rs:197-249 | Continue is answered only after labelling with the header's identity and port, stripping exactly that header and being permitted |
| Tcp.FragmentationIsInvisible | src/tcp.rs:197-249 | however a stream is cut into peeks, the run ends as on the whole stream |
| Tcp.WantIsAsked | src/tcp.rs:212-215 | after undecided callbacks the filter wants what the parser asked for on the last peek, 256 before the first |
| Tcp.WantGrowsExactly | src/tcp.rs:66-72 | in any run `want` grows at a callback exactly when none so far decided, it is not the first, and it sees a header length where the one before saw none or a smaller one |
| Tcp.WantGrowsOnStream | src/tcp.rs:66-72 | on peeks of one stream that is exactly when the peek first reaches sixteen bytes |
| Tcp.WantGrows | src/tcp.rs:66-72 | a run in which `want` goes from 256 to 16 and then to 116 |
| Tcp.TwoAsksSuffice | src/tcp.rs:193-216 | in a run whose peeks extend each other and are as long as `want` asked, one of the first three decides |
| Tcp.AuthFilter.OnAccept | src/tcp.rs:287-306 | admits exactly when a label is present and the scope of the name permits it; closes otherwise |
| Tcp.AuthFilter.OnData | src/tcp.rs:313-319 | never admits |
| Udp.Ppv2AuthFilter.OnData | src/udp.rs:91-149 | a datagram is judged on its joined bytes alone, whatever the reused buffer held |
| Udp.Ppv2AuthFilter.Gather | src/udp.rs:100-113 | one chunk in place or several joined give the datagram |
| Udp.ChunkingIsInvisible | src/udp.rs:100-113 | cutting a chunk of a datagram in two, anywhere, changes neither verdict nor effects |
| Udp.VerdictExactly | src/udp.rs:90-149 | every outcome in full: status, count, and which bytes are set |
| Udp.ForwardsStripped | src/udp.rs:119-138 | a forwarded datagram has lost its header: of a frame and payload exactly the payload goes on |
| Udp.ForwardsOwnPayload | src/udp.rs:119-122 | what is forwarded is exactly the current datagram after its header |
| Udp.AgreesWithTcp | src/udp.rs:116-128 | on the same bytes UDP forwards exactly when a fresh enforcing TCP filter admits |
| Udp.CountsLikeTcp | src/udp.rs:131-148 | it counts as TCP does, a datagram too short to parse counting as not PPv2 |
| EndToEnd.FlatPermits | src/config.rs:121-127 | a flat filter permits exactly the headers its list means |
| EndToEnd.ScopedPermits | src/config.rs:121-127 | a scoped filter permits exactly the headers meant by the list of the best scope for the name |
| EndToEnd.LabelThenScope | src/tcp.rs:285-306 | what a labelling filter writes, judged later by name, is admitted exactly when the best scope means the header |
| EndToEnd.BytesToVerdict | src/tcp.rs:197-249 | both enforcing filters admit a serialized header exactly when some reachable literal means what it says, whatever payload follows |
| EndToEnd.ConfigOwns | src/config.rs:334-345 | the owner of a header under a parsed table is the contest of the config entries that list its endpoint id or cover its source; only `SourceOutside` is left of what the theorems assume, and nothing where the header has an owner |
| EndToEnd.ConfigDecides | src/config.rs:334-345 | configs that make the same claims, whatever the order of their entries and the writing of their prefixes, give every header the same label and every query the same answer |
| EndToEnd.Ipv4RuleOnWire | src/tcp.rs:197-249 | with one written IPv4 prefix as the rule, both filters admit a frame without endpoint id from an unclaimed source exactly when its source bytes agree with the prefix in its leading bits |
| EndToEnd.SiteRuleOfConfig | src/identity.rs:378-382 | with `!n` as the rule, exactly the headers the config gives to site n are admitted |
| EndToEnd.StarRuleOfConfig | src/identity.rs:430-440 | with `!*` as the rule, exactly the headers the config gives to one site |
| EndToEnd.NameRuleOfConfig | src/identity.rs:419-427 | with an endpoint id as the rule, exactly the headers of the site the config lists it under, or else the unowned ones with its digest |
| EndToEnd.GroupRuleOfConfig | src/config.rs:334-345 | with a group as the rule, exactly what its members as written in the config mean |

## Left out

- The text of addresses and of printed CIDRs: parsers are parameters, and printing is taken to round-trip through parsing.
- SHA-256 itself: the digest is a parameter, and label results hold up to equality of its four bytes.
- The `/48` parser (src/identity.rs:328-350): a prefix is any six bytes; no theorem needs it to be unique-local.
- JSON shapes, unknown-field rejection, filter-name validators, `DenyAllFilter` and `TableFilter`: plumbing or constants.
- Envoy's side of the calls: buffers, setter success and SNI are inputs, effects are a log; access-log metadata and counter registration are not modelled, so every counter is taken to be registered.
- Locks, poisoning, panics and generation overflow: each lock region is one step, generations are unbounded, and the tag a cache is born with equals none of them.
- Claim counts in the sweep are unbounded where the source uses 32 bits.
- The sort used by the source is the library's unstable one; here it is some ordered permutation, and no statement depends on ties.
- Label and verdict on TCP may use different generations: `Tcp.Input` lets the allowlist's answer be arbitrary, and only `EndToEnd` fixes one table.
- IPv6 rules inside the /48 of a width other than 64 and 96 to 128 mean the addresses they hold; only those widths are decoded into kinds, tenants and machines (`Identities.KindRule`, `Identities.MachineRule`).
