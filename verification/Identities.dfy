/** The encoder twins: what address a header gets on the wire, what CIDR a rule member
    gets at config time, and the proof that the two meet. */
module Identities {
  import opened Base
  import opened Text
  import opened Cidrs
  import opened SiteIndex
  import opened Ppv2

  const KIND_SITE: u16 := 0x0b1a
  const KIND_VPCE: u16 := 1
  const KIND_ADDR: u16 := 4

  /** ::ffff:0:0, under which site prefixes hold IPv4. */
  const MAPPED: u128 := 0xffff_0000_0000

  // ----- what an address says ------------------------------------------------

  /** The abstract identity behind a synthesized address. */
  datatype Identity =
    | Tenant(site: u16, machine: u32)
    | Stranger(hash: u32, machine: u32)
    | Plain(v4: u32)
    | Real(v6: u128)

  function Ula(prefix: Bytes): (r: int)
    requires |prefix| == 6
    ensures 0 <= r < 0x1_0000_0000_0000
  {
    FromBeBound(prefix);
    Pow2Words();
    FromBe(prefix)
  }

  /** Prefix in the top 48 bits, then kind, body and machine. */
  function Compose(ula: int, kind: u16, body: u32, machine: u32): (r: u128)
    requires 0 <= ula < 0x1_0000_0000_0000
  {
    ula * 0x1_0000_0000_0000_0000_0000 + kind * 0x1_0000_0000_0000_0000 + body * 0x1_0000_0000 + machine
  }

  function Embed(prefix: Bytes, who: Identity): u128
    requires |prefix| == 6
  {
    match who
    case Tenant(site, machine) => Compose(Ula(prefix), KIND_SITE, site, machine)
    case Stranger(hash, machine) => Compose(Ula(prefix), KIND_VPCE, hash, machine)
    case Plain(v4) => Compose(Ula(prefix), KIND_ADDR, 0, v4)
    case Real(v6) => v6
  }

  function UlaRange(prefix: Bytes): Range
    requires |prefix| == 6
  {
    var first := Ula(prefix) * 0x1_0000_0000_0000_0000_0000;
    Range(first, first + 0xffff_ffff_ffff_ffff_ffff)
  }

  /** A pass-through address is trusted to lie outside the /48. */
  predicate Outside(prefix: Bytes, who: Identity)
    requires |prefix| == 6
  {
    who.Real? ==> !UlaRange(prefix).Has(who.v6)
  }

  // ----- the wire side -------------------------------------------------------

  datatype SiteMatch = SiteMatch(id: u16, inner: bool)

  function V4Of(h: Header): u32
    requires |h.src| == 16
  {
    FromBeBound(h.src[..4]);
    Pow2Words();
    FromBe(h.src[..4])
  }

  function V6Of(h: Header): u128
    requires |h.src| == 16
  {
    FromBeBound(h.src);
    Pow2Words();
    FromBe(h.src)
  }

  function Mapped(h: Header): u128
    requires |h.src| == 16
  {
    if h.isV6 then V6Of(h) else MAPPED + V4Of(h)
  }

  /** Which bytes these read: an IPv4 source is the first four, an IPv6 source all sixteen. */
  lemma SourceBytes(h: Header, src: Bytes)
    requires |src| == AddrSize(h.isV6) && h.src == src + Zeros(16 - |src|)
    ensures !h.isV6 ==> V4Of(h) == FromBe(src) && Mapped(h) == 0xffff_0000_0000 + FromBe(src)
    ensures h.isV6 ==> V6Of(h) == FromBe(src) == Mapped(h)
  {
    if h.isV6 {
      assert h.src == src;
    } else {
      assert h.src[..4] == src;
    }
  }

  function SiteOf(sch: Scheme, h: Header): Option<SiteMatch>
    requires |h.src| == 16 && Apart(sch.segments)
  {
    if h.vpce != [] && sch.LabelSite(h.vpce).Some? then
      Some(SiteMatch(sch.LabelSite(h.vpce).value, true))
    else
      match sch.AddrSite(Mapped(h))
      case Some(id) => Some(SiteMatch(id, false))
      case None => None
  }

  /** Who the header speaks for: the four cases in order. */
  function WireIdentity(host: Host, sch: Scheme, h: Header): Identity
    requires |h.src| == 16 && Apart(sch.segments)
  {
    match SiteOf(sch, h)
    case Some(m) => Tenant(m.id, if m.inner && !h.isV6 then V4Of(h) else 0)
    case None =>
      if h.vpce != [] then Stranger(host.digest(h.vpce), if h.isV6 then 0 else V4Of(h))
      else if h.isV6 then Real(V6Of(h))
      else Plain(V4Of(h))
  }

  /** Overwrite part of a byte buffer. */
  method CopyInto(out: array<byte>, at: nat, bytes: Bytes)
    requires at + |bytes| <= out.Length
    modifies out
    ensures out[..at] == old(out[..at])
    ensures out[at..at + |bytes|] == bytes
    ensures out[at + |bytes|..] == old(out[at + |bytes|..])
  {
    forall i | 0 <= i < |bytes| {
      out[at + i] := bytes[i];
    }
  }

  /** Fill a zeroed sixteen-byte address: prefix, kind, body, machine. */
  method Assemble(prefix: Bytes, kind: u16, body: Bytes, machine: Bytes) returns (addr: Bytes)
    requires |prefix| == 6 && |body| == 4 && |machine| == 4
    ensures |addr| == 16 && FromBe(body) < 0x1_0000_0000 && FromBe(machine) < 0x1_0000_0000
    ensures FromBe(addr) == Compose(Ula(prefix), kind, FromBe(body), FromBe(machine))
  {
    var out := new byte[16](_ => 0);
    CopyInto(out, 0, prefix);
    assert out[..6] == prefix;
    CopyInto(out, 6, Be(kind, 2));
    assert out[..8] == out[..6] + out[6..8];
    CopyInto(out, 8, body);
    assert out[..12] == out[..8] + out[8..12];
    CopyInto(out, 12, machine);
    assert out[..] == out[..12] + out[12..16];
    Layout(prefix, kind, body, machine);
    addr := out[..];
  }

  const ZERO_WORD: Bytes := [0, 0, 0, 0]

  /** The address of a header, branch by branch. */
  method Synthesize(host: Host, sch: Scheme, h: Header) returns (addr: Bytes)
    requires |sch.prefix| == 6 && Apart(sch.segments) && h.Valid()
    ensures |addr| == 16 && FromBe(addr) == Embed(sch.prefix, WireIdentity(host, sch, h))
  {
    ZeroWord();
    match SiteOf(sch, h) {
      case Some(m) =>
        WordOfBe(m.id);
        addr := Assemble(sch.prefix, KIND_SITE, Be(m.id, 4), if m.inner && !h.isV6 then h.src[..4] else ZERO_WORD);
        return;
      case None =>
    }
    if h.vpce != [] {
      var digest := host.digest(h.vpce);
      WordOfBe(digest);
      addr := Assemble(sch.prefix, KIND_VPCE, Be(digest, 4), if !h.isV6 then h.src[..4] else ZERO_WORD);
      return;
    }
    if h.isV6 {
      return h.src;
    }
    addr := Assemble(sch.prefix, KIND_ADDR, ZERO_WORD, h.src[..4]);
  }

  lemma AppendKind(a: Bytes, kind: u16)
    ensures FromBe(a + Be(kind, 2)) == FromBe(a) * 0x1_0000 + kind
  {
    Pow2Of16();
    FromBeBe(kind, 2);
    FromBeConcat(a, Be(kind, 2));
  }

  lemma AppendWord(a: Bytes, w: Bytes)
    requires |w| == 4
    ensures FromBe(w) < 0x1_0000_0000
    ensures FromBe(a + w) == FromBe(a) * 0x1_0000_0000 + FromBe(w)
  {
    Pow2Of32();
    FromBeBound(w);
    FromBeConcat(a, w);
  }

  /** Sixteen bytes laid out as prefix, kind, body, machine read as the composed number. */
  lemma Layout(prefix: Bytes, kind: u16, body: Bytes, machine: Bytes)
    requires |prefix| == 6 && |body| == 4 && |machine| == 4
    ensures FromBe(body) < 0x1_0000_0000 && FromBe(machine) < 0x1_0000_0000
    ensures FromBe(prefix + Be(kind, 2) + body + machine) == Compose(Ula(prefix), kind, FromBe(body), FromBe(machine))
  {
    AppendKind(prefix, kind);
    AppendWord(prefix + Be(kind, 2), body);
    AppendWord(prefix + Be(kind, 2) + body, machine);
  }

  lemma WordOfBe(d: u32)
    ensures FromBe(Be(d, 4)) == d
  {
    Pow2Words();
    FromBeBe(d, 4);
  }

  lemma ZeroWord()
    ensures FromBe(ZERO_WORD) == 0
  {
    assert Be(0, 1) == [0] && Be(0, 2) == [0, 0] && Be(0, 3) == [0, 0, 0];
    assert Be(0, 4) == ZERO_WORD;
    WordOfBe(0);
  }

  // ----- the rule side -------------------------------------------------------

  /** What an authored member encodes to. */
  datatype Rule =
    | SiteSpace(id: u16)
    | Lift(v4: u32, width: nat)
    | Literal(v6: u128, width: nat)
    | HashSpace(hash: u32)
  {
    predicate Valid() {
      (Lift? ==> width <= 32) && (Literal? ==> width <= 128)
    }
  }

  function EmbedRule(prefix: Bytes, rule: Rule): (c: Cidr)
    requires |prefix| == 6
    ensures rule.Valid() ==> c.width <= 128
  {
    match rule
    case SiteSpace(id) => Cidr(Compose(Ula(prefix), KIND_SITE, id, 0), 96)
    case Lift(v4, width) => Cidr(Compose(Ula(prefix), KIND_ADDR, 0, v4), 96 + width)
    case Literal(v6, width) => Cidr(v6, width)
    case HashSpace(hash) => Cidr(Compose(Ula(prefix), KIND_VPCE, hash, 0), 96)
  }

  /** A member read as an address with a width, or as a name. */
  datatype Source = V4(addr4: u32, width4: nat) | V6(addr6: u128, width6: nat) | Name

  /** An absent width is the full one; a bad one demotes the member to a name. */
  function WidthOf(text: Option<Bytes>, max: nat): (r: Option<nat>)
    ensures r.Some? ==> r.value <= max
  {
    match text
    case None => Some(max)
    case Some(w) =>
      match ParseUint(w, 255)
      case Some(b) => if b <= max then Some(b) else None
      case None => None
  }

  function Classify(host: Host, member: Bytes): (r: Source)
    ensures r.V4? ==> r.width4 <= 32
    ensures r.V6? ==> r.width6 <= 128
  {
    var (text, width) := SplitOnce(member, SLASH);
    if host.v4(text).Some? && WidthOf(width, 32).Some? then V4(host.v4(text).value, WidthOf(width, 32).value)
    else if host.v6(text).Some? && WidthOf(width, 128).Some? then V6(host.v6(text).value, WidthOf(width, 128).value)
    else Name
  }

  /** `!N`, declared or quarantine; any other `!` text is not a reference. */
  function SiteRef(sites: seq<Site>, member: Bytes): Option<u16> {
    match StripByte(member, BANG)
    case None => None
    case Some(text) =>
      match ParseUint(text, 0xffff)
      case None => None
      case Some(id) => if id == SITE_CONTESTED || exists s :: s in sites && s.id == id then Some(id) else None
  }

  /** A reference is a bang and any spelling of 0 or of a declared id. */
  lemma SiteRefExactly(sites: seq<Site>, m: Bytes, n: nat)
    ensures SiteRef(sites, m) == Some(n)
       <==> && m != [] && m[0] == 0x21 && n <= 0xffff && Spells(m[1..], n)
            && (n == 0 || exists s :: s in sites && s.id == n)
  {
    if m != [] {
      ParseUintExactly(m[1..], n, 0xffff);
    }
  }

  /** As it is usually written. */
  lemma WrittenRef(sites: seq<Site>, n: u16)
    ensures SiteRef(sites, [0x21] + Print(n)) ==
      if n == 0 || exists s :: s in sites && s.id == n then Some(n) else None
  {
    ParseInvertsPrint(n, 0xffff);
    BangStrips(Print(n));
  }

  lemma BangStrips(text: Bytes)
    ensures StripByte([0x21] + text, BANG) == Some(text)
  {
  }

  /** An address without a slash is that one address, anything else without one a name. */
  lemma BareMember(host: Host, text: Bytes)
    requires 0x2f !in text
    ensures Classify(host, text) ==
      if host.v4(text).Some? then V4(host.v4(text).value, 32)
      else if host.v6(text).Some? then V6(host.v6(text).value, 128)
      else Name
  {
    SplitAtSlash(text, []);
  }

  /** With a width after the slash it is a prefix of that width, if the width fits the address. */
  lemma WideMember(host: Host, text: Bytes, w: Bytes, n: nat)
    requires 0x2f !in text && Spells(w, n)
    ensures Classify(host, text + [0x2f] + w) ==
      if host.v4(text).Some? && n <= 32 then V4(host.v4(text).value, n)
      else if host.v6(text).Some? && n <= 128 then V6(host.v6(text).value, n)
      else Name
  {
    SplitAtSlash(text, w);
    WidthReads(w, n, 32);
    WidthReads(w, n, 128);
  }

  lemma WidthReads(w: Bytes, n: nat, max: nat)
    requires Spells(w, n) && max <= 255
    ensures WidthOf(Some(w), max) == if n <= max then Some(n) else None
  {
    SpelledReads(w, n, 255);
  }

  /** With anything else after the slash it is a name. */
  lemma BadWidthMember(host: Host, text: Bytes, w: Bytes)
    requires 0x2f !in text && forall n :: !Spells(w, n)
    ensures Classify(host, text + [0x2f] + w) == Name
  {
    SplitAtSlash(text, w);
    if ParseUint(w, 255).Some? {
      ParseUintExactly(w, ParseUint(w, 255).value, 255);
    }
  }

  /** The addresses a classified source covers, IPv4 in its mapped form. */
  function SourceRange(src: Source): Range
    requires (src.V4? && src.width4 <= 32) || (src.V6? && src.width6 <= 128)
  {
    match src
    case V4(a, w) => RangeOf(MAPPED + a, 96 + w)
    case V6(a, w) => RangeOf(a, w)
  }

  /** An address range belongs to the site owning all of it, or stands for itself. */
  function RuleOfRange(sch: Scheme, src: Source): (r: Rule)
    requires Apart(sch.segments) && ((src.V4? && src.width4 <= 32) || (src.V6? && src.width6 <= 128))
    ensures r.Valid()
  {
    var range := SourceRange(src);
    match sch.RangeSite(range.start, range.end)
    case Some(id) => SiteSpace(id)
    case None => if src.V4? then Lift(src.addr4, src.width4) else Literal(src.addr6, src.width6)
  }

  /** A label belongs to the site listing it, or to its hash. */
  function RuleOfName(host: Host, sch: Scheme, member: Bytes): (r: Rule)
    ensures r.Valid()
  {
    match sch.LabelSite(member)
    case Some(id) => SiteSpace(id)
    case None => HashSpace(host.digest(member))
  }

  function RuleOf(host: Host, sch: Scheme, member: Bytes): (r: Rule)
    requires Apart(sch.segments)
    ensures r.Valid()
  {
    match SiteRef(sch.sites, member)
    case Some(id) => SiteSpace(id)
    case None =>
      var src := Classify(host, member);
      if src.Name? then RuleOfName(host, sch, member) else RuleOfRange(sch, src)
  }

  /** The CIDR of a member, filled in byte by byte. */
  method EncodeMember(host: Host, sch: Scheme, member: Bytes) returns (c: Cidr)
    requires |sch.prefix| == 6 && Apart(sch.segments)
    ensures c == EmbedRule(sch.prefix, RuleOf(host, sch, member))
  {
    match SiteRef(sch.sites, member) {
      case Some(id) =>
        c := EncodeSite(sch.prefix, id);
        return;
      case None =>
    }
    match Classify(host, member) {
      case V4(a, w) => c := EncodeV4(sch, a, w);
      case V6(a, w) => c := EncodeV6(sch, a, w);
      case Name => c := EncodeName(host, sch, member);
    }
  }

  method EncodeV4(sch: Scheme, a: u32, w: nat) returns (c: Cidr)
    requires |sch.prefix| == 6 && Apart(sch.segments) && w <= 32
    ensures c == EmbedRule(sch.prefix, RuleOfRange(sch, V4(a, w)))
  {
    var r := SourceRange(V4(a, w));
    match sch.RangeSite(r.start, r.end) {
      case Some(id) => c := EncodeSite(sch.prefix, id);
      case None => c := EncodeWord(sch.prefix, KIND_ADDR, 0, a, 96 + w);
    }
  }

  method EncodeV6(sch: Scheme, a: u128, w: nat) returns (c: Cidr)
    requires |sch.prefix| == 6 && Apart(sch.segments) && w <= 128
    ensures c == EmbedRule(sch.prefix, RuleOfRange(sch, V6(a, w)))
  {
    var r := SourceRange(V6(a, w));
    match sch.RangeSite(r.start, r.end) {
      case Some(id) => c := EncodeSite(sch.prefix, id);
      case None => c := Cidr(a, w);
    }
  }

  method EncodeName(host: Host, sch: Scheme, member: Bytes) returns (c: Cidr)
    requires |sch.prefix| == 6
    ensures c == EmbedRule(sch.prefix, RuleOfName(host, sch, member))
  {
    match sch.LabelSite(member) {
      case Some(id) => c := EncodeSite(sch.prefix, id);
      case None => c := EncodeWord(sch.prefix, KIND_VPCE, host.digest(member), 0, 96);
    }
  }

  /** The whole tenant: machine bits open. */
  method EncodeSite(prefix: Bytes, id: u16) returns (c: Cidr)
    requires |prefix| == 6
    ensures c == EmbedRule(prefix, SiteSpace(id))
  {
    c := EncodeWord(prefix, KIND_SITE, id, 0, 96);
  }

  method EncodeWord(prefix: Bytes, kind: u16, body: u32, machine: u32, width: nat) returns (c: Cidr)
    requires |prefix| == 6
    ensures c == Cidr(Compose(Ula(prefix), kind, body, machine), width)
  {
    WordOfBe(body);
    WordOfBe(machine);
    var addr := Assemble(prefix, kind, Be(body, 4), Be(machine, 4));
    c := Cidr(FromBe(addr), width);
  }

  // ----- in plain bytes -------------------------------------------------------

  /** The sixteen bytes of every identity. */
  lemma IdentityBytes(prefix: Bytes, who: Identity)
    requires |prefix| == 6
    ensures Be(Embed(prefix, who), 16) ==
      match who
      case Tenant(site, machine) =>
        prefix + [0x0b, 0x1a, 0x00, 0x00, site / 0x100, site % 0x100] + Be(machine, 4)
      case Stranger(hash, machine) => prefix + [0x00, 0x01] + Be(hash, 4) + Be(machine, 4)
      case Plain(v4) => prefix + [0x00, 0x04, 0x00, 0x00, 0x00, 0x00] + Be(v4, 4)
      case Real(v6) => Be(v6, 16)
  {
    match who
    case Tenant(site, machine) =>
      ComposedBytes(prefix, KIND_SITE, site, machine);
      SiteWord(site);
    case Stranger(hash, machine) => ComposedBytes(prefix, KIND_VPCE, hash, machine);
    case Plain(v4) => ComposedBytes(prefix, KIND_ADDR, 0, v4);
    case Real(v6) =>
  }

  lemma SiteWord(site: u16)
    ensures Be(site, 4) == [0x00, 0x00, site / 0x100, site % 0x100]
  {
    var s := [0x00, 0x00, site / 0x100, site % 0x100];
    FromBeFour(0, 0, site / 0x100, site % 0x100);
    BeFromBe(s);
  }

  lemma ComposedBytes(prefix: Bytes, kind: u16, body: u32, machine: u32)
    requires |prefix| == 6
    ensures Be(Compose(Ula(prefix), kind, body, machine), 16) == prefix + Be(kind, 2) + Be(body, 4) + Be(machine, 4)
  {
    WordOfBe(body);
    WordOfBe(machine);
    Layout(prefix, kind, Be(body, 4), Be(machine, 4));
    BeFromBe(prefix + Be(kind, 2) + Be(body, 4) + Be(machine, 4));
  }

  /** And of every encoded rule, with its width. */
  lemma RuleBytes(prefix: Bytes, rule: Rule)
    requires |prefix| == 6
    ensures var c := EmbedRule(prefix, rule);
      match rule
      case SiteSpace(id) =>
        Be(c.addr, 16) == prefix + [0x0b, 0x1a, 0x00, 0x00, id / 0x100, id % 0x100, 0, 0, 0, 0] && c.width == 96
      case HashSpace(hash) => Be(c.addr, 16) == prefix + [0x00, 0x01] + Be(hash, 4) + [0, 0, 0, 0] && c.width == 96
      case Lift(v4, width) => Be(c.addr, 16) == prefix + [0, 4, 0, 0, 0, 0] + Be(v4, 4) && c.width == 96 + width
      case Literal(v6, width) => c == Cidr(v6, width)
  {
    match rule
    case SiteSpace(id) => IdentityBytes(prefix, Tenant(id, 0));
    case HashSpace(hash) => IdentityBytes(prefix, Stranger(hash, 0));
    case Lift(v4, width) => IdentityBytes(prefix, Plain(v4));
    case Literal(_, _) =>
  }

  // ----- the numbers meet ----------------------------------------------------

  /** Whether the address of an identity falls in the CIDR of a rule. */
  predicate Meets(prefix: Bytes, rule: Rule, who: Identity)
    requires |prefix| == 6 && rule.Valid()
  {
    var c := EmbedRule(prefix, rule);
    RangeOf(c.addr, c.width).Has(Embed(prefix, who))
  }

  /** What the encoding is meant to say. */
  predicate Admits(rule: Rule, who: Identity)
    requires rule.Valid()
  {
    match rule
    case SiteSpace(id) => who.Tenant? && who.site == id
    case HashSpace(hash) => who.Stranger? && who.hash == hash
    case Lift(v4, width) => who.Plain? && RangeOf(v4, 96 + width).Has(who.v4)
    case Literal(v6, width) => who.Real? && RangeOf(v6, width).Has(who.v6)
  }

  lemma UpperBits(ula: int, kind: u16, body: u32, machine: u32)
    requires 0 <= ula < 0x1_0000_0000_0000
    ensures Compose(ula, kind, body, machine) / 0x1_0000_0000
         == ula * 0x1_0000_0000_0000 + kind * 0x1_0000_0000 + body
  {
  }

  lemma RealUpperBits(prefix: Bytes, v6: u128, kind: u16, body: u32)
    requires |prefix| == 6 && !UlaRange(prefix).Has(v6)
    ensures v6 / 0x1_0000_0000 != Ula(prefix) * 0x1_0000_0000_0000 + kind * 0x1_0000_0000 + body
  {
    var upper := v6 / 0x1_0000_0000;
    assert upper * 0x1_0000_0000 <= v6 < upper * 0x1_0000_0000 + 0x1_0000_0000;
  }

  /** Above the machine bits an address tells its kind and body. */
  lemma SpacesAreApart(prefix: Bytes, who: Identity, kind: u16, body: u32, machine: u32)
    requires |prefix| == 6 && Outside(prefix, who)
    ensures Embed(prefix, who) / 0x1_0000_0000 == Compose(Ula(prefix), kind, body, machine) / 0x1_0000_0000
       <==> match who
            case Tenant(site, _) => kind == KIND_SITE && body == site
            case Stranger(hash, _) => kind == KIND_VPCE && body == hash
            case Plain(_) => kind == KIND_ADDR && body == 0
            case Real(_) => false
  {
    UpperBits(Ula(prefix), kind, body, machine);
    match who
    case Tenant(site, m) => UpperBits(Ula(prefix), KIND_SITE, site, m);
    case Stranger(hash, m) => UpperBits(Ula(prefix), KIND_VPCE, hash, m);
    case Plain(v4) => UpperBits(Ula(prefix), KIND_ADDR, 0, v4);
    case Real(v6) => RealUpperBits(prefix, v6, kind, body);
  }

  /** Widths of 96 and more look only at the low 32 bits once the upper ones agree. */
  lemma LowBitsDecide(high: nat, v: u32, u: u32, width: nat)
    requires width <= 32 && high * 0x1_0000_0000 + 0xffff_ffff < TOP
    ensures RangeOf(high * 0x1_0000_0000 + v, 96 + width).Has(high * 0x1_0000_0000 + u)
       <==> RangeOf(v, 96 + width).Has(u)
  {
    RangeHas(high * 0x1_0000_0000 + v, 96 + width, high * 0x1_0000_0000 + u);
    RangeHas(v, 96 + width, u);
    var b, c := Block(96 + width), Pow2(width);
    BlockTimes(width);
    ShiftOut(high, v, b, c);
    ShiftOut(high, u, b, c);
  }

  lemma BlockTimes(width: nat)
    requires width <= 32
    ensures Block(96 + width) * Pow2(width) == 0x1_0000_0000
  {
    Pow2Add(32 - width, width);
    Pow2Words();
  }

  lemma ShiftOut(high: nat, v: nat, b: int, c: int)
    requires b > 0 && c > 0
    ensures (high * (b * c) + v) / b == high * c + v / b
  {
    MulSwap(high, c, b);
    DivFloor(v, b);
    MulSplit(high * c, v / b, b);
    DivUnique(high * (b * c) + v, b, high * c + v / b, v - v / b * b);
  }

  /** A rule's range holds an identity's address exactly when the rule admits that identity. */
  lemma RuleMeetsIdentity(prefix: Bytes, rule: Rule, who: Identity)
    requires |prefix| == 6 && rule.Valid() && Outside(prefix, who)
    requires rule.Literal? ==> RangeOf(rule.v6, rule.width).Clear(UlaRange(prefix))
    ensures Meets(prefix, rule, who) <==> Admits(rule, who)
  {
    match rule
    case SiteSpace(id) => SpaceMeets(prefix, who, KIND_SITE, id);
    case HashSpace(hash) => SpaceMeets(prefix, who, KIND_VPCE, hash);
    case Lift(v4, width) => LiftMeets(prefix, v4, width, who);
    case Literal(v6, width) =>
      if !who.Real? {
        SynthesizedInside(prefix, who);
      }
  }

  lemma SpaceMeets(prefix: Bytes, who: Identity, kind: u16, body: u32)
    requires |prefix| == 6 && Outside(prefix, who)
    ensures RangeOf(Compose(Ula(prefix), kind, body, 0), 96).Has(Embed(prefix, who))
       <==> match who
            case Tenant(site, _) => kind == KIND_SITE && body == site
            case Stranger(hash, _) => kind == KIND_VPCE && body == hash
            case Plain(_) => kind == KIND_ADDR && body == 0
            case Real(_) => false
  {
    MachineOpen(Compose(Ula(prefix), kind, body, 0), Embed(prefix, who));
    SpacesAreApart(prefix, who, kind, body, 0);
  }

  lemma LiftMeets(prefix: Bytes, v4: u32, width: nat, who: Identity)
    requires |prefix| == 6 && Outside(prefix, who) && width <= 32
    ensures Meets(prefix, Lift(v4, width), who) <==> who.Plain? && RangeOf(v4, 96 + width).Has(who.v4)
  {
    SpacesAreApart(prefix, who, KIND_ADDR, 0, v4);
    if who.Plain? {
      LowBitsDecide(Ula(prefix) * 0x1_0000_0000_0000 + 0x4_0000_0000, v4, who.v4, width);
    } else {
      NarrowImpliesUpper(Compose(Ula(prefix), KIND_ADDR, 0, v4), width, Embed(prefix, who));
    }
  }

  lemma MachineOpen(addr: u128, a: u128)
    ensures RangeOf(addr, 96).Has(a) <==> a / 0x1_0000_0000 == addr / 0x1_0000_0000
  {
    Pow2Words();
    RangeHas(addr, 96, a);
  }

  lemma NarrowImpliesUpper(addr: u128, width: nat, a: u128)
    requires width <= 32
    ensures RangeOf(addr, 96 + width).Has(a) ==> a / 0x1_0000_0000 == addr / 0x1_0000_0000
  {
    Pow2Words();
    RangeHas(addr, 96 + width, a);
    if a / Block(96 + width) == addr / Block(96 + width) {
      Pow2Add(32 - width, width);
      DivDiv(a, Block(96 + width), Pow2(width));
      DivDiv(addr, Block(96 + width), Pow2(width));
    }
  }

  /** An identity's address lies in the /48 unless it is a pass-through source. */
  lemma SynthesizedInside(prefix: Bytes, who: Identity)
    requires |prefix| == 6 && Outside(prefix, who)
    ensures UlaRange(prefix).Has(Embed(prefix, who)) <==> !who.Real?
  {
  }

  /** Addresses decode: no two identities share one. */
  lemma EmbedInjective(prefix: Bytes, w: Identity, z: Identity)
    requires |prefix| == 6 && Outside(prefix, w) && Outside(prefix, z)
    requires Embed(prefix, w) == Embed(prefix, z)
    ensures w == z
  {
    match z
    case Tenant(site, m) => SpacesAreApart(prefix, w, KIND_SITE, site, m);
    case Stranger(hash, m) => SpacesAreApart(prefix, w, KIND_VPCE, hash, m);
    case Plain(v4) => SpacesAreApart(prefix, w, KIND_ADDR, 0, v4);
    case Real(v6) => SynthesizedInside(prefix, w); SynthesizedInside(prefix, z);
  }

  /** A /64 rule on one kind admits that whole kind, quarantined tenants included. */
  lemma KindRule(prefix: Bytes, kind: u16, who: Identity)
    requires |prefix| == 6 && Outside(prefix, who)
    ensures Meets(prefix, Literal(Compose(Ula(prefix), kind, 0, 0), 64), who)
       <==> match who
            case Tenant(_, _) => kind == KIND_SITE
            case Stranger(_, _) => kind == KIND_VPCE
            case Plain(_) => kind == KIND_ADDR
            case Real(_) => false
  {
    Pow2Words();
    RangeHas(Compose(Ula(prefix), kind, 0, 0), 64, Embed(prefix, who));
    KindBits(Ula(prefix), kind, 0, 0);
    KindsAreApart(prefix, who, kind);
  }

  lemma KindsAreApart(prefix: Bytes, who: Identity, kind: u16)
    requires |prefix| == 6 && Outside(prefix, who)
    ensures Embed(prefix, who) / 0x1_0000_0000_0000_0000 == Ula(prefix) * 0x1_0000 + kind
       <==> match who
            case Tenant(_, _) => kind == KIND_SITE
            case Stranger(_, _) => kind == KIND_VPCE
            case Plain(_) => kind == KIND_ADDR
            case Real(_) => false
  {
    match who
    case Tenant(site, m) => KindBits(Ula(prefix), KIND_SITE, site, m);
    case Stranger(hash, m) => KindBits(Ula(prefix), KIND_VPCE, hash, m);
    case Plain(v4) => KindBits(Ula(prefix), KIND_ADDR, 0, v4);
    case Real(v6) => RealKindBits(prefix, v6, kind);
  }

  /** A rule of width 96 or more written inside the /48 admits the identities of its kind and body
      whose machine lies in its block: at 96 a whole tenant, at 128 one machine. */
  lemma MachineRule(prefix: Bytes, kind: u16, body: u32, machine: u32, width: nat, who: Identity)
    requires |prefix| == 6 && Outside(prefix, who) && width <= 32
    ensures Meets(prefix, Literal(Compose(Ula(prefix), kind, body, machine), 96 + width), who)
       <==> match who
            case Tenant(site, m) => kind == KIND_SITE && body == site && RangeOf(machine, 96 + width).Has(m)
            case Stranger(hash, m) => kind == KIND_VPCE && body == hash && RangeOf(machine, 96 + width).Has(m)
            case Plain(v4) => kind == KIND_ADDR && body == 0 && RangeOf(machine, 96 + width).Has(v4)
            case Real(_) => false
  {
    var c, a := Compose(Ula(prefix), kind, body, machine), Embed(prefix, who);
    var high := Ula(prefix) * 0x1_0000_0000_0000 + kind * 0x1_0000_0000 + body;
    SpacesAreApart(prefix, who, kind, body, machine);
    UpperBits(Ula(prefix), kind, body, machine);
    if a / 0x1_0000_0000 == high {
      LowBitsDecide(high, machine, a % 0x1_0000_0000, width);
    } else {
      NarrowImpliesUpper(c, width, a);
    }
  }

  /** Width 96 leaves the machine open, width 128 names one. */
  lemma MachineBlocks(machine: u32, m: u32)
    ensures RangeOf(machine, 96).Has(m)
    ensures RangeOf(machine, 128).Has(m) <==> m == machine
  {
    Pow2Words();
    RangeHas(machine, 96, m);
    RangeHas(machine, 128, m);
  }

  lemma KindBits(ula: int, kind: u16, body: u32, machine: u32)
    requires 0 <= ula < 0x1_0000_0000_0000
    ensures Compose(ula, kind, body, machine) / 0x1_0000_0000_0000_0000 == ula * 0x1_0000 + kind
  {
  }

  lemma RealKindBits(prefix: Bytes, v6: u128, kind: u16)
    requires |prefix| == 6 && !UlaRange(prefix).Has(v6)
    ensures v6 / 0x1_0000_0000_0000_0000 != Ula(prefix) * 0x1_0000 + kind
  {
    var upper := v6 / 0x1_0000_0000_0000_0000;
    assert upper * 0x1_0000_0000_0000_0000 <= v6 < upper * 0x1_0000_0000_0000_0000 + 0x1_0000_0000_0000_0000;
  }
}
