/** Reading the binary header of section 2.2 of the PROXY protocol specification: version 2,
    the PROXY command, IPv4 or IPv6. */
module Ppv2 {
  import opened Base

  const SIGNATURE: Bytes := [0x0d, 0x0a, 0x0d, 0x0a, 0x00, 0x0d, 0x0a, 0x51, 0x55, 0x49, 0x54, 0x0a]
  const V2_PROXY: byte := 0x21
  const PREAMBLE: nat := 16
  const MAX_HEADER: nat := 256
  const PORTS: nat := 4
  const TLV_HEADER: nat := 3
  const TLV_AWS: byte := 0xea
  const AWS_SUBTYPE_VPCE_ID: byte := 0x01

  datatype ParseError = Need(total: nat) | Invalid

  /** `src` holds four bytes and zeros for IPv4, all sixteen for IPv6; `vpce` is empty when absent. */
  datatype Header = Header(len: nat, src: Bytes, srcPort: u16, isV6: bool, vpce: Bytes) {
    ghost predicate Valid() {
      |src| == 16
    }
  }

  function Word(hi: byte, lo: byte): u16 {
    hi * 0x100 + lo
  }

  // ----- TLVs ----------------------------------------------------------------

  datatype Tlv = Tlv(kind: byte, body: Bytes) {
    predicate Valid() {
      |body| < 0x1_0000
    }

    /** The bytes on the wire: kind, two length bytes, body. */
    function Wire(): Bytes {
      [kind, (|body| / 0x100) % 0x100, |body| % 0x100] + body
    }

    predicate NamesEndpoint() {
      kind == TLV_AWS && |body| > 1 && body[0] == AWS_SUBTYPE_VPCE_ID
    }
  }

  function WireAll(ts: seq<Tlv>): Bytes {
    if ts == [] then [] else ts[0].Wire() + WireAll(ts[1..])
  }

  /** The id in the first TLV that names an endpoint, or empty. */
  function FirstEndpoint(ts: seq<Tlv>): Bytes {
    if ts == [] then []
    else if ts[0].NamesEndpoint() then ts[0].body[1..]
    else FirstEndpoint(ts[1..])
  }

  /** Later TLVs cannot displace the first that names an endpoint, and its id is never empty. */
  lemma {:induction false} FirstEndpointWins(ts: seq<Tlv>, k: nat)
    requires k <= |ts| && forall j :: 0 <= j < k ==> !ts[j].NamesEndpoint()
    requires k < |ts| ==> ts[k].NamesEndpoint()
    ensures FirstEndpoint(ts) == if k < |ts| then ts[k].body[1..] else []
    ensures FirstEndpoint(ts) == [] <==> k == |ts|
  {
    if k > 0 {
      FirstEndpointWins(ts[1..], k - 1);
    }
  }

  /** Whether a whole TLV stands at the front, and how many bytes it takes. */
  function TlvSpan(b: Bytes): Option<nat> {
    if |b| < TLV_HEADER || TLV_HEADER + Word(b[1], b[2]) > |b| then None
    else Some(TLV_HEADER + Word(b[1], b[2]))
  }

  /** The longest well-formed run of TLVs. */
  function Decode(b: Bytes): (ts: seq<Tlv>)
    ensures forall t :: t in ts ==> t.Valid()
  {
    match TlvSpan(b)
    case None => []
    case Some(n) => [Tlv(b[0], b[TLV_HEADER..n])] + Decode(b[n..])
  }

  /** The walk by index, as the loop below takes it. */
  function VpceFrom(tlvs: Bytes, i: nat): Bytes
    requires i <= |tlvs|
    decreases |tlvs| - i
  {
    if i + TLV_HEADER > |tlvs| then []
    else
      var bodyLen := Word(tlvs[i + 1], tlvs[i + 2]);
      var end := i + TLV_HEADER + bodyLen;
      if end > |tlvs| then []
      else if tlvs[i] == TLV_AWS && bodyLen > 1 && tlvs[i + TLV_HEADER] == AWS_SUBTYPE_VPCE_ID then
        tlvs[i + TLV_HEADER + 1..end]
      else VpceFrom(tlvs, end)
  }

  /** The loop over offsets. A body running past the end leaves the header without an id, not invalid. */
  method FindVpce(tlvs: Bytes) returns (vpce: Bytes)
    ensures vpce == FirstEndpoint(Decode(tlvs))
  {
    WalkIsDecode(tlvs, 0);
    assert tlvs[0..] == tlvs;
    var i := 0;
    while i + TLV_HEADER <= |tlvs|
      invariant i <= |tlvs|
      invariant VpceFrom(tlvs, 0) == VpceFrom(tlvs, i)
    {
      var bodyLen := Word(tlvs[i + 1], tlvs[i + 2]);
      var end := i + TLV_HEADER + bodyLen;
      if end > |tlvs| {
        break;
      }
      if tlvs[i] == TLV_AWS && bodyLen > 1 && tlvs[i + TLV_HEADER] == AWS_SUBTYPE_VPCE_ID {
        return tlvs[i + TLV_HEADER + 1..end];
      }
      i := end;
    }
    return [];
  }

  lemma {:induction false} WalkIsDecode(tlvs: Bytes, i: nat)
    requires i <= |tlvs|
    ensures VpceFrom(tlvs, i) == FirstEndpoint(Decode(tlvs[i..]))
    decreases |tlvs| - i
  {
    if i + TLV_HEADER <= |tlvs| {
      var end := i + TLV_HEADER + Word(tlvs[i + 1], tlvs[i + 2]);
      WalkOnRest(tlvs, i);
      HeadOfWalk(tlvs[i..]);
      if end <= |tlvs| {
        WalkIsDecode(tlvs, end);
        assert tlvs[i..][end - i..] == tlvs[end..];
      }
    }
  }

  /** One turn of the walk, seen from where it stands. */
  lemma WalkOnRest(tlvs: Bytes, i: nat)
    requires i + TLV_HEADER <= |tlvs|
    ensures var b := tlvs[i..];
            var n := Word(b[1], b[2]);
            VpceFrom(tlvs, i) ==
              if TLV_HEADER + n > |b| then []
              else if b[0] == TLV_AWS && n > 1 && b[TLV_HEADER] == AWS_SUBTYPE_VPCE_ID
                then b[TLV_HEADER + 1..TLV_HEADER + n]
              else VpceFrom(tlvs, i + TLV_HEADER + n)
  {
    var b := tlvs[i..];
    var n := Word(b[1], b[2]);
    if TLV_HEADER + n <= |b| && n > 1 {
      assert b[TLV_HEADER + 1..TLV_HEADER + n] == tlvs[i + TLV_HEADER + 1..i + TLV_HEADER + n];
    }
  }

  lemma HeadOfWalk(b: Bytes)
    requires |b| >= TLV_HEADER
    ensures var n := Word(b[1], b[2]);
            FirstEndpoint(Decode(b)) ==
              if TLV_HEADER + n > |b| then []
              else if b[0] == TLV_AWS && n > 1 && b[TLV_HEADER] == AWS_SUBTYPE_VPCE_ID
                then b[TLV_HEADER + 1..TLV_HEADER + n]
              else FirstEndpoint(Decode(b[TLV_HEADER + n..]))
  {
    var n := Word(b[1], b[2]);
    if TLV_HEADER + n <= |b| {
      var t := Tlv(b[0], b[TLV_HEADER..TLV_HEADER + n]);
      assert Decode(b) == [t] + Decode(b[TLV_HEADER + n..]);
      assert Decode(b)[1..] == Decode(b[TLV_HEADER + n..]);
    }
  }

  /** Decoding inverts the wire form, whatever ill-formed tail follows. */
  lemma {:induction false} DecodeInverts(ts: seq<Tlv>, tail: Bytes)
    requires (forall t :: t in ts ==> t.Valid()) && TlvSpan(tail).None?
    ensures Decode(WireAll(ts) + tail) == ts
  {
    if ts == [] {
      assert WireAll(ts) + tail == tail;
    } else {
      DecodeInverts(ts[1..], tail);
      var rest := WireAll(ts[1..]) + tail;
      assert ts[0] in ts;
      SpanOfWire(ts[0], rest);
      assert WireAll(ts) + tail == ts[0].Wire() + rest;
    }
  }

  lemma SpanOfWire(t: Tlv, rest: Bytes)
    requires t.Valid()
    ensures var b := t.Wire() + rest;
      TlvSpan(b) == Some(|t.Wire()|) && Tlv(b[0], b[TLV_HEADER..|t.Wire()|]) == t && b[|t.Wire()|..] == rest
  {
    var n := |t.body|;
    assert n / 0x100 < 0x100;
    assert n == n / 0x100 * 0x100 + n % 0x100;
  }

  /** What was decoded is a prefix of the input, and no whole TLV follows it. */
  lemma {:induction false} DecodeIsLongest(b: Bytes)
    ensures WireAll(Decode(b)) <= b
    ensures TlvSpan(b[|WireAll(Decode(b))|..]).None?
  {
    match TlvSpan(b)
    case None =>
      assert b[0..] == b;
    case Some(n) =>
      DecodeIsLongest(b[n..]);
      var rest := WireAll(Decode(b[n..]));
      FirstOfWire(b, n);
      CutTwice(b, n, rest);
  }

  lemma CutTwice(b: Bytes, n: nat, rest: Bytes)
    requires n <= |b| && rest <= b[n..]
    ensures b[..n] + rest <= b && b[n..][|rest|..] == b[|b[..n] + rest|..]
  {
    assert b == b[..n] + b[n..];
  }

  lemma FirstOfWire(b: Bytes, n: nat)
    requires TlvSpan(b) == Some(n)
    ensures WireAll(Decode(b)) == b[..n] + WireAll(Decode(b[n..]))
  {
    var t := Tlv(b[0], b[TLV_HEADER..n]);
    WordSplits(b[1], b[2]);
    assert t.Wire() == b[..n];
    assert Decode(b)[0] == t && Decode(b)[1..] == Decode(b[n..]);
  }

  lemma WordSplits(hi: byte, lo: byte)
    ensures Word(hi, lo) / 0x100 % 0x100 == hi && Word(hi, lo) % 0x100 == lo
  {
  }

  // ----- the header ----------------------------------------------------------

  function Min(a: nat, b: nat): nat {
    if a < b then a else b
  }

  function Zeros(n: nat): Bytes {
    seq(n, _ => 0)
  }

  function Parse(buf: Bytes): (r: Result<Header, ParseError>)
    ensures r.Ok? ==> r.value.Valid() && PREAMBLE <= r.value.len <= Min(|buf|, MAX_HEADER)
    ensures r.Err? && r.error.Need? ==> |buf| < r.error.total && PREAMBLE <= r.error.total <= MAX_HEADER
  {
    if |buf| < PREAMBLE then
      var n := Min(|buf|, |SIGNATURE|);
      if buf[..n] != SIGNATURE[..n] then Err(Invalid) else Err(Need(PREAMBLE))
    else if buf[..12] != SIGNATURE || buf[12] != V2_PROXY then Err(Invalid)
    else
      var len := PREAMBLE + Word(buf[14], buf[15]);
      if len > MAX_HEADER then Err(Invalid)
      else if |buf| < len then Err(Need(len))
      else ParseBody(len, buf[13] / 0x10, buf[PREAMBLE..len])
  }

  function ParseBody(len: nat, family: nat, body: Bytes): (r: Result<Header, ParseError>)
    ensures r.Ok? ==> r.value.Valid() && r.value.len == len
    ensures r.Err? ==> r.error == Invalid
  {
    if family != 1 && family != 2 then Err(Invalid)
    else
      var isV6 := family == 2;
      var addrSize := if isV6 then 16 else 4;
      var blockLen := addrSize * 2 + PORTS;
      if |body| < blockLen then Err(Invalid)
      else
        var portOff := addrSize * 2;
        Ok(Header(len, body[..addrSize] + Zeros(16 - addrSize), Word(body[portOff], body[portOff + 1]),
                  isV6, FirstEndpoint(Decode(body[blockLen..]))))
  }

  /** The parser, branch by branch, filling the source buffer and walking the TLVs. */
  method ParseBuffer(buf: Bytes) returns (r: Result<Header, ParseError>)
    ensures r == Parse(buf)
  {
    if |buf| < PREAMBLE {
      var n := Min(|buf|, |SIGNATURE|);
      return if buf[..n] != SIGNATURE[..n] then Err(Invalid) else Err(Need(PREAMBLE));
    }
    if buf[..12] != SIGNATURE || buf[12] != V2_PROXY {
      return Err(Invalid);
    }
    var len := PREAMBLE + Word(buf[14], buf[15]);
    if len > MAX_HEADER {
      return Err(Invalid);
    }
    if |buf| < len {
      return Err(Need(len));
    }
    r := ParseBlock(len, buf[13] / 0x10, buf[PREAMBLE..len]);
  }

  method ParseBlock(len: nat, family: nat, body: Bytes) returns (r: Result<Header, ParseError>)
    ensures r == ParseBody(len, family, body)
  {
    if family != 1 && family != 2 {
      return Err(Invalid);
    }
    var isV6 := family == 2;
    var addrSize := if isV6 then 16 else 4;
    var blockLen := addrSize * 2 + PORTS;
    if |body| < blockLen {
      return Err(Invalid);
    }
    var src := new byte[16](_ => 0);
    forall i | 0 <= i < addrSize {
      src[i] := body[i];
    }
    assert src[..] == body[..addrSize] + Zeros(16 - addrSize);
    var portOff := addrSize * 2;
    var vpce := FindVpce(body[blockLen..]);
    r := Ok(Header(len, src[..], Word(body[portOff], body[portOff + 1]), isV6, vpce));
  }

  // ----- fragmentation -------------------------------------------------------

  predicate Final(r: Result<Header, ParseError>) {
    r.Ok? || r.error.Invalid?
  }

  /** More bytes never change a final answer. */
  lemma FinalIsStable(buf: Bytes, more: Bytes)
    requires Final(Parse(buf))
    ensures Parse(buf + more) == Parse(buf)
  {
    var all := buf + more;
    if |buf| < PREAMBLE {
      var n := Min(|buf|, |SIGNATURE|);
      var m := Min(|all|, |SIGNATURE|);
      assert buf[..n] != SIGNATURE[..n];
      assert all[..m][..n] == buf[..n] && SIGNATURE[..m][..n] == SIGNATURE[..n];
      assert all[..m] != SIGNATURE[..m];
      assert |all| >= PREAMBLE ==> all[..12][..n] == buf[..n] && SIGNATURE[..12] == SIGNATURE;
    } else {
      assert all[..12] == buf[..12];
      var len := PREAMBLE + Word(buf[14], buf[15]);
      if len <= |buf| {
        assert all[PREAMBLE..len] == buf[PREAMBLE..len];
      }
    }
  }

  /** Supplying what was asked for gives a final answer or asks for strictly more, once. */
  lemma NeedIsMet(buf: Bytes, more: Bytes)
    requires Parse(buf).Err? && Parse(buf).error.Need?
    requires |buf + more| >= Parse(buf).error.total
    ensures var r := Parse(buf + more);
      Final(r) || (|buf| < PREAMBLE && Parse(buf).error == Need(PREAMBLE) && r.error.total > PREAMBLE)
  {
    var all := buf + more;
    if |buf| >= PREAMBLE {
      assert all[..12] == buf[..12];
    }
  }

  // ----- which bytes wait, which are refused ---------------------------------

  /** Below sixteen bytes the parser waits exactly while they agree with the signature; from there
      on, exactly while a header it will look at is still incomplete. */
  lemma AsksExactly(buf: Bytes, n: nat)
    ensures Parse(buf) == Err(Need(n)) <==>
      if |buf| < 16 then n == 16 && (buf <= SIGNATURE || SIGNATURE <= buf)
      else SIGNATURE <= buf && buf[12] == 0x21 && n == 16 + Word(buf[14], buf[15]) && |buf| < n <= 256
  {
    SignatureSoFar(buf);
  }

  /** What remains is accepted or refused: short bytes that leave the signature at once; longer ones
      for the signature, the command, the length, or a body too short for its family. */
  lemma RefusesExactly(buf: Bytes)
    ensures Parse(buf) == Err(Invalid) <==>
      if |buf| < 16 then !(buf <= SIGNATURE) && !(SIGNATURE <= buf)
      else
        var n := Word(buf[14], buf[15]);
        || !(SIGNATURE <= buf) || buf[12] != 0x21 || 16 + n > 256
        || (|buf| >= 16 + n && !(buf[13] / 0x10 == 1 && n >= 12) && !(buf[13] / 0x10 == 2 && n >= 36))
  {
    SignatureSoFar(buf);
  }

  lemma SignatureSoFar(buf: Bytes)
    ensures var n := Min(|buf|, 12);
      buf[..n] == SIGNATURE[..n] <==> buf <= SIGNATURE || SIGNATURE <= buf
  {
    if |buf| <= 12 {
      assert buf[..|buf|] == buf;
    } else {
      assert SIGNATURE[..12] == SIGNATURE;
    }
  }

  /** The bytes so far may still become a header: none of them contradicts one. */
  predicate Begins(buf: Bytes) {
    && (buf <= SIGNATURE || SIGNATURE <= buf)
    && (|buf| > 12 ==> buf[12] == 0x21)
    && (|buf| > 13 ==> buf[13] / 0x10 == 1 || buf[13] / 0x10 == 2)
    && (|buf| > 14 ==> buf[14] == 0)
    && (|buf| > 15 ==> (if buf[13] / 0x10 == 1 then 12 else 36) <= buf[15] <= 240)
  }

  /** Some continuation is accepted exactly when none of the bytes so far contradicts a header. */
  lemma AcceptableExactly(buf: Bytes)
    ensures (exists more :: Parse(buf + more).Ok?) <==> Begins(buf)
  {
    if more :| Parse(buf + more).Ok? {
      AcceptedBegins(buf, more);
    }
    if Begins(buf) {
      var more := Completion(buf);
    }
  }

  lemma AcceptedBegins(buf: Bytes, more: Bytes)
    requires Parse(buf + more).Ok?
    ensures Begins(buf)
  {
    var all := buf + more;
    RefusesExactly(all);
    AsksExactly(all, 16 + Word(all[14], all[15]));
    assert forall k :: 0 <= k < |buf| ==> buf[k] == all[k];
  }

  lemma Completion(buf: Bytes) returns (more: Bytes)
    requires Begins(buf)
    ensures Parse(buf + more).Ok?
  {
    if |buf| < 16 {
      more := (SIGNATURE + [0x21, 0x11, 0x00, 0x24])[|buf|..] + Zeros(36);
    } else {
      var len := 16 + Word(buf[14], buf[15]);
      more := Zeros(if |buf| < len then len - |buf| else 0);
    }
    var all := buf + more;
    assert SIGNATURE <= all;
    RefusesExactly(all);
    AsksExactly(all, 16 + Word(all[14], all[15]));
  }

  /** So the parser may wait where nothing can help: after the signature and the command of a
      health check it asks for the rest of the preamble. */
  lemma WaitsInVain()
    ensures Parse(SIGNATURE + [0x20]) == Err(Need(16))
    ensures forall more :: !Parse(SIGNATURE + [0x20] + more).Ok?
  {
    AsksExactly(SIGNATURE + [0x20], 16);
    AcceptableExactly(SIGNATURE + [0x20]);
  }

  // ----- the serializer ------------------------------------------------------

  /** A header as section 2.2 lays it out: signature, version and command, family and
      transport, length, addresses, ports, and a tail that may or may not be whole TLVs. */
  function Frame(isV6: bool, transport: nat, src: Bytes, dst: Bytes, sport: u16, dport: u16, tail: Bytes): Bytes
    requires transport < 0x10
  {
    var body := src + dst + Be(sport, 2) + Be(dport, 2) + tail;
    SIGNATURE + [V2_PROXY, (if isV6 then 0x20 else 0x10) + transport] + Be(|body|, 2) + body
  }

  function Serialize(isV6: bool, transport: nat, src: Bytes, dst: Bytes, sport: u16, dport: u16, ts: seq<Tlv>): Bytes
    requires transport < 0x10
  {
    Frame(isV6, transport, src, dst, sport, dport, WireAll(ts))
  }

  function AddrSize(isV6: bool): nat {
    if isV6 then 16 else 4
  }

  lemma BeTwo(n: u16)
    ensures |Be(n, 2)| == 2 && Word(Be(n, 2)[0], Be(n, 2)[1]) == n
  {
    assert Be(n, 2) == Be(n / 0x100, 1) + [n % 0x100];
    assert Be(n / 0x100, 1) == Be(n / 0x100 / 0x100, 0) + [n / 0x100 % 0x100];
  }

  /** Parsing inverts serializing, whatever payload follows the header. */
  lemma ParseInverts(
      isV6: bool, transport: nat, src: Bytes, dst: Bytes, sport: u16, dport: u16, ts: seq<Tlv>, payload: Bytes)
    requires transport < 0x10 && |src| == |dst| == AddrSize(isV6)
    requires forall t :: t in ts ==> t.Valid()
    requires |Serialize(isV6, transport, src, dst, sport, dport, ts)| <= MAX_HEADER
    ensures var wire := Serialize(isV6, transport, src, dst, sport, dport, ts);
      Parse(wire + payload) == Ok(Header(|wire|, src + Zeros(16 - |src|), sport, isV6, FirstEndpoint(ts)))
  {
    FrameParses(isV6, transport, src, dst, sport, dport, WireAll(ts), payload);
    assert WireAll(ts) + [] == WireAll(ts);
    DecodeInverts(ts, []);
  }

  /** A frame parses, its tail read as far as it is well formed. */
  lemma FrameParses(
      isV6: bool, transport: nat, src: Bytes, dst: Bytes, sport: u16, dport: u16, tail: Bytes, payload: Bytes)
    requires transport < 0x10 && |src| == |dst| == AddrSize(isV6)
    requires |Frame(isV6, transport, src, dst, sport, dport, tail)| <= MAX_HEADER
    ensures var wire := Frame(isV6, transport, src, dst, sport, dport, tail);
      Parse(wire + payload) == Ok(Header(|wire|, src + Zeros(16 - |src|), sport, isV6, FirstEndpoint(Decode(tail))))
  {
    var wire := Frame(isV6, transport, src, dst, sport, dport, tail);
    var body := src + dst + Be(sport, 2) + Be(dport, 2) + tail;
    BeTwo(|body|);
    var family := (if isV6 then 0x20 else 0x10) + transport;
    var n := Be(|body|, 2);
    assert family / 0x10 == if isV6 then 2 else 1;
    assert wire + payload == SIGNATURE + [V2_PROXY, family, n[0], n[1]] + body + payload;
    ParseFramed(family, n[0], n[1], body, payload);
    BodyParses(|wire|, isV6, src, dst, sport, dport, tail);
  }

  lemma ParseFramed(family: byte, hi: byte, lo: byte, body: Bytes, payload: Bytes)
    requires Word(hi, lo) == |body| && PREAMBLE + |body| <= MAX_HEADER
    ensures Parse(SIGNATURE + [V2_PROXY, family, hi, lo] + body + payload)
         == ParseBody(PREAMBLE + |body|, family / 0x10, body)
  {
    var buf := SIGNATURE + [V2_PROXY, family, hi, lo] + body + payload;
    assert buf[..12] == SIGNATURE;
    assert buf[PREAMBLE..PREAMBLE + |body|] == body;
  }

  lemma BodyParses(len: nat, isV6: bool, src: Bytes, dst: Bytes, sport: u16, dport: u16, tail: Bytes)
    requires |src| == |dst| == AddrSize(isV6)
    ensures ParseBody(len, if isV6 then 2 else 1, src + dst + Be(sport, 2) + Be(dport, 2) + tail)
         == Ok(Header(len, src + Zeros(16 - |src|), sport, isV6, FirstEndpoint(Decode(tail))))
  {
    var body := src + dst + Be(sport, 2) + Be(dport, 2) + tail;
    BeTwo(sport);
    var size := |src|;
    assert body[..size] == src;
    assert body[size * 2] == Be(sport, 2)[0] && body[size * 2 + 1] == Be(sport, 2)[1];
    assert body[size * 2 + PORTS..] == tail;
  }

  /** An endpoint TLV in plain bytes. */
  function PlainTlv(id: Bytes): Bytes
    requires |id| < 0xff
  {
    [0xea, 0x00, 1 + |id|, 0x01] + id
  }

  /** A header with one endpoint TLV, of either family and any transport, in plain bytes. */
  function PlainBytes(isV6: bool, transport: nat, src: Bytes, dst: Bytes, sport: u16, dport: u16, id: Bytes): Bytes
    requires transport < 0x10 && |src| + |dst| + 8 + |id| <= 240
  {
    [0x0d, 0x0a, 0x0d, 0x0a, 0x00, 0x0d, 0x0a, 0x51, 0x55, 0x49, 0x54, 0x0a]
    + [0x21, (if isV6 then 0x20 else 0x10) + transport, 0x00, |src| + |dst| + 8 + |id|]
    + (src + dst + [sport / 0x100, sport % 0x100] + [dport / 0x100, dport % 0x100] + PlainTlv(id))
  }

  /** It parses as what it says, whatever payload follows. */
  lemma PlainFrameParses(
      isV6: bool, transport: nat, src: Bytes, dst: Bytes, sport: u16, dport: u16, id: Bytes, payload: Bytes)
    requires transport < 0x10 && |src| == |dst| == (if isV6 then 16 else 4)
    requires 0 < |id| && |src| + |dst| + 8 + |id| <= 240
    ensures Parse(PlainBytes(isV6, transport, src, dst, sport, dport, id) + payload)
         == Ok(Header(24 + |src| + |dst| + |id|, src + Zeros(16 - |src|), sport, isV6, id))
  {
    PlainIsFrame(isV6, transport, src, dst, sport, dport, id);
    FrameParses(isV6, transport, src, dst, sport, dport, PlainTlv(id), payload);
    PlainEndpoint(id);
  }

  lemma PlainEndpoint(id: Bytes)
    requires 0 < |id| < 0xff
    ensures FirstEndpoint(Decode(PlainTlv(id))) == id
  {
    var t := Tlv(0xea, [0x01] + id);
    assert t.Wire() == PlainTlv(id);
    EndpointDecodes(t);
    assert t.body[1..] == id;
  }

  lemma PlainIsFrame(isV6: bool, transport: nat, src: Bytes, dst: Bytes, sport: u16, dport: u16, id: Bytes)
    requires transport < 0x10 && |src| + |dst| + 8 + |id| <= 240
    ensures PlainBytes(isV6, transport, src, dst, sport, dport, id)
         == Frame(isV6, transport, src, dst, sport, dport, PlainTlv(id))
  {
    var body := src + dst + Be(sport, 2) + Be(dport, 2) + PlainTlv(id);
    WordBytes(sport);
    WordBytes(dport);
    WordBytes(|body|);
  }

  lemma EndpointDecodes(t: Tlv)
    requires t.Valid() && t.NamesEndpoint()
    ensures FirstEndpoint(Decode(t.Wire())) == t.body[1..]
  {
    DecodeInverts([t], []);
    assert WireAll([t]) + [] == t.Wire() by {
      assert WireAll([t][1..]) == [];
    }
  }

  lemma WordBytes(n: u16)
    ensures Be(n, 2) == [n / 0x100, n % 0x100]
  {
    BeTwo(n);
    assert Be(n, 2)[1] == n % 0x100;
  }

  /** Nothing else is accepted: every accepted buffer is a frame and what follows it. */
  lemma OnlyFramesParse(buf: Bytes)
    returns (transport: nat, src: Bytes, dst: Bytes, sport: u16, dport: u16, tail: Bytes)
    requires Parse(buf).Ok?
    ensures var h := Parse(buf).value;
      && transport < 0x10 && |src| == |dst| == AddrSize(h.isV6)
      && buf[..h.len] == Frame(h.isV6, transport, src, dst, sport, dport, tail)
      && h == Header(h.len, src + Zeros(16 - |src|), sport, h.isV6, FirstEndpoint(Decode(tail)))
  {
    var h := Parse(buf).value;
    var body := buf[PREAMBLE..h.len];
    var size := AddrSize(h.isV6);
    transport := buf[13] % 0x10;
    src, dst, sport, dport, tail := SplitBlock(body, size);
    WordWrites(buf[14], buf[15]);
    assert body == src + dst + Be(sport, 2) + Be(dport, 2) + tail;
    AcceptedPreamble(buf, h);
  }

  lemma AcceptedPreamble(buf: Bytes, h: Header)
    requires Parse(buf) == Ok(h)
    ensures buf[13] == (if h.isV6 then 0x20 else 0x10) + buf[13] % 0x10
    ensures buf[..h.len] == SIGNATURE + [V2_PROXY, buf[13]] + [buf[14], buf[15]] + buf[PREAMBLE..h.len]
  {
    assert buf[..h.len] == buf[..12] + [buf[12], buf[13]] + [buf[14], buf[15]] + buf[PREAMBLE..h.len];
  }

  lemma SplitBlock(body: Bytes, size: nat) returns (src: Bytes, dst: Bytes, sport: u16, dport: u16, tail: Bytes)
    requires size * 2 + PORTS <= |body|
    ensures |src| == |dst| == size && body == src + dst + Be(sport, 2) + Be(dport, 2) + tail
    ensures src == body[..size] && tail == body[size * 2 + PORTS..]
    ensures sport == Word(body[size * 2], body[size * 2 + 1])
  {
    src, dst := body[..size], body[size..size * 2];
    sport := Word(body[size * 2], body[size * 2 + 1]);
    dport := Word(body[size * 2 + 2], body[size * 2 + 3]);
    tail := body[size * 2 + PORTS..];
    WordWrites(body[size * 2], body[size * 2 + 1]);
    WordWrites(body[size * 2 + 2], body[size * 2 + 3]);
  }

  lemma WordWrites(hi: byte, lo: byte)
    ensures Be(Word(hi, lo), 2) == [hi, lo]
  {
    BeTwo(Word(hi, lo));
    assert Be(Word(hi, lo), 2)[1] == Word(hi, lo) % 0x100;
  }
}
