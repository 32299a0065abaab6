/** The UDP listener filter: join, parse, enforce, strip; one verdict per datagram. */
module Udp {
  import opened Base
  import opened Text
  import opened Ppv2
  import opened Identities
  import Tcp

  /** The chunks of one datagram in order. */
  function Join(chunks: seq<Bytes>): Bytes {
    if chunks == [] then [] else Join(chunks[..|chunks| - 1]) + Last(chunks)
  }

  datatype Action = Bump(counter: Tcp.Counter) | SetDatagram(payload: Bytes, ok: bool)

  /** A datagram judged on its own: forward what follows the header, or drop. */
  ghost function Verdict(host: Host, i: Tcp.Input): (r: (Tcp.Status, seq<Action>))
    requires i.Valid()
  {
    if i.table.None? then (Tcp.StopIteration, [])
    else
      match Parse(i.buf)
      case Err(_) => (Tcp.StopIteration, [Bump(Tcp.NotPpv2)])
      case Ok(h) =>
        if i.judge(Tcp.Label(host, i.table.value, h)) then
          (if i.relabelOk then Tcp.Continue else Tcp.StopIteration,
           [Bump(Tcp.Allowed), SetDatagram(i.buf[h.len..], i.relabelOk)])
        else (Tcp.StopIteration, [Bump(Tcp.Denied)])
  }

  class Ppv2AuthFilter {
    /** Reused across datagrams. */
    var payload: Bytes
    var log: seq<Action>

    constructor ()
      ensures payload == [] && log == []
    {
      payload, log := [], [];
    }

    /** `around` is what a TCP callback would find: the table, the setter's success, the allowlist. */
    method OnData(host: Host, chunks: seq<Bytes>, around: Tcp.Input) returns (status: Tcp.Status)
      requires around.Valid()
      modifies this
      ensures var (s, actions) := Verdict(host, around.(buf := Join(chunks)));
        status == s && log == old(log) + actions
    {
      if around.table.None? {
        return Tcp.StopIteration;
      }
      var buf := Gather(chunks);
      var parsed := ParseBuffer(buf);
      match parsed {
        case Err(_) =>
          log := log + [Bump(Tcp.NotPpv2)];
          return Tcp.StopIteration;
        case Ok(h) =>
          var addr := Synthesize(host, around.table.value.scheme, h);
          if !around.judge(FromBe(addr)) {
            log := log + [Bump(Tcp.Denied)];
            return Tcp.StopIteration;
          }
          Stage(buf, h.len);
          log := log + [Bump(Tcp.Allowed), SetDatagram(payload, around.relabelOk)];
          return if around.relabelOk then Tcp.Continue else Tcp.StopIteration;
      }
    }

    /** Clear the reused buffer, then fill it with what follows the header. */
    method Stage(buf: Bytes, len: nat)
      requires len <= |buf|
      modifies this`payload
      ensures payload == buf[len..]
    {
      payload := [];
      payload := payload + buf[len..];
    }

    /** A single chunk is used in place, several are joined. */
    method Gather(chunks: seq<Bytes>) returns (buf: Bytes)
      ensures buf == Join(chunks)
    {
      if |chunks| == 1 {
        assert Join(chunks[..0]) == [];
        return chunks[0];
      }
      buf := [];
      for k := 0 to |chunks|
        invariant buf == Join(chunks[..k])
      {
        assert chunks[..k + 1][..k] == chunks[..k];
        buf := buf + chunks[k];
      }
      assert chunks[..|chunks|] == chunks;
    }
  }

  lemma {:induction false} JoinConcat(a: seq<Bytes>, b: seq<Bytes>)
    ensures Join(a + b) == Join(a) + Join(b)
  {
    if b == [] {
      assert a + b == a;
    } else {
      assert (a + b)[..|a + b| - 1] == a + b[..|b| - 1];
      JoinConcat(a, b[..|b| - 1]);
    }
  }

  /** Cutting any chunk of a datagram in two changes neither the verdict nor the effects. */
  lemma ChunkingIsInvisible(host: Host, a: seq<Bytes>, x: Bytes, y: Bytes, b: seq<Bytes>, around: Tcp.Input)
    requires around.Valid()
    ensures Verdict(host, around.(buf := Join(a + [x + y] + b))) == Verdict(host, around.(buf := Join(a + [x, y] + b)))
  {
    JoinConcat(a + [x + y], b);
    JoinConcat(a + [x, y], b);
    JoinConcat(a, [x + y]);
    JoinConcat(a, [x, y]);
    JoinTwo(x, y);
    assert Join(a) + (x + y) + Join(b) == Join(a + [x, y] + b);
  }

  lemma JoinTwo(x: Bytes, y: Bytes)
    ensures Join([x + y]) == x + y == Join([x, y])
  {
    JoinOne(x + y);
    JoinOne(x);
    JoinOne(y);
    JoinConcat([x], [y]);
    assert [x] + [y] == [x, y];
  }

  lemma JoinOne(x: Bytes)
    ensures Join([x]) == x
  {
    assert [x][..0] == [];
  }

  /** What is forwarded is exactly the current datagram after its header. */
  lemma ForwardsOwnPayload(host: Host, i: Tcp.Input, p: Bytes, ok: bool)
    requires i.Valid() && SetDatagram(p, ok) in Verdict(host, i).1
    ensures Parse(i.buf).Ok? && i.buf == i.buf[..Parse(i.buf).value.len] + p
  {
    var actions := Verdict(host, i).1;
    assert |actions| == 2 && actions[1] == SetDatagram(p, ok);
    assert p == i.buf[Parse(i.buf).value.len..];
  }

  /** Every outcome in full: which bytes are set, and nothing else but one count. */
  lemma VerdictExactly(host: Host, i: Tcp.Input, wire: Bytes, p: Bytes)
    requires i.Valid() && i.buf == wire + p
    ensures i.table.None? ==> Verdict(host, i) == (Tcp.StopIteration, [])
    ensures i.table.Some? && Parse(i.buf).Err? ==> Verdict(host, i) == (Tcp.StopIteration, [Bump(Tcp.NotPpv2)])
    ensures i.table.Some? && Parse(i.buf).Ok? && Parse(i.buf).value.len == |wire| ==>
      Verdict(host, i) ==
        if !i.judge(Tcp.Label(host, i.table.value, Parse(i.buf).value)) then (Tcp.StopIteration, [Bump(Tcp.Denied)])
        else (if i.relabelOk then Tcp.Continue else Tcp.StopIteration, [Bump(Tcp.Allowed), SetDatagram(p, i.relabelOk)])
  {
    assert i.buf[|wire|..] == p;
  }

  /** A forwarded datagram has lost its header: of the bytes sent, the payload alone goes on. */
  lemma ForwardsStripped(
      host: Host, i: Tcp.Input, isV6: bool, transport: nat, src: Bytes, dst: Bytes, sport: u16, dport: u16,
      ts: seq<Tlv>, payload: Bytes)
    requires transport < 0x10 && |src| == |dst| == AddrSize(isV6)
    requires forall x :: x in ts ==> x.Valid()
    requires |Serialize(isV6, transport, src, dst, sport, dport, ts)| <= MAX_HEADER
    requires i.Valid() && i.buf == Serialize(isV6, transport, src, dst, sport, dport, ts) + payload
    ensures Verdict(host, i).0 == Tcp.Continue ==> Verdict(host, i).1 == [Bump(Tcp.Allowed), SetDatagram(payload, true)]
    ensures Verdict(host, i).0 != Tcp.Continue ==> SetDatagram(payload, true) !in Verdict(host, i).1
  {
    ParseInverts(isV6, transport, src, dst, sport, dport, ts, payload);
    VerdictExactly(host, i, Serialize(isV6, transport, src, dst, sport, dport, ts), payload);
  }

  /** On the same bytes the UDP filter forwards exactly when a fresh enforcing TCP filter admits. */
  lemma AgreesWithTcp(host: Host, i: Tcp.Input)
    requires i.Valid() && i.relabelOk
    ensures (Verdict(host, i).0 == Tcp.Continue) <==> Tcp.Step(host, true, Tcp.FRESH, i).1 == Tcp.Continue
    ensures (Verdict(host, i).0 == Tcp.Continue) <==> Tcp.Admits(host, true, i)
  {
    if i.table.Some? && Parse(i.buf).Ok? {
      var h := Parse(i.buf).value;
      var id := Tcp.Label(host, i.table.value, h);
      assert Tcp.Step(host, true, Tcp.FRESH, i) == Tcp.Settled(true, Tcp.FRESH, i, h, id);
    }
  }

  /** It also counts as TCP does, except that a datagram too short to parse is not PPv2 at once. */
  lemma CountsLikeTcp(host: Host, i: Tcp.Input, c: Tcp.Counter)
    requires i.Valid() && i.relabelOk
    ensures Bump(c) in Verdict(host, i).1 <==>
      if Tcp.Decides(i) then Tcp.Bump(c) in Tcp.Decision(host, true, i).2 else c == Tcp.NotPpv2
  {
    if Tcp.Decides(i) {
      Tcp.LogTellsWhy(host, true, i);
    }
  }
}
