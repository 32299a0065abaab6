/** The two TCP filters: one reads the header and labels the connection, perhaps judging it at once;
    the other judges the label once the server name is known. */
module Tcp {
  import opened Base
  import opened Text
  import opened Ppv2
  import opened Identities
  import opened Rules

  datatype Counter = NotPpv2 | Denied | Allowed

  datatype Reason = NoIdentityTable | NotProxyProtocol | SetRemoteAddressFailed | DeniedByAllowlist
    | NoIdentityLabel | UnexpectedOnData

  /** What a filter does to the connection, in order. */
  datatype Action =
    | Bump(counter: Counter)
    | Explain(reason: Reason)
    | CloseChain
    | Relabel(addr: u128, port: u16, ok: bool)
    | Drain(len: nat)

  datatype Status = Continue | StopIteration

  /** The foreign side of a connection: a log of what was asked of it. */
  class Envoy {
    var log: seq<Action>

    constructor ()
      ensures log == []
    {
      log := [];
    }

    method Do(a: Action)
      modifies this
      ensures log == old(log) + [a]
    {
      log := log + [a];
    }
  }

  /** Everything one callback finds around it: the published table, the peeked bytes, whether
      relabelling succeeds, and what the allowlist answers while the callback runs. */
  datatype Input = Input(table: Option<Table>, buf: Bytes, relabelOk: bool, judge: u128 -> bool) {
    ghost predicate Valid() {
      table.Some? ==> table.value.scheme.Compiled()
    }
  }

  datatype FilterState = FilterState(want: nat, done: bool, refused: bool)

  const FRESH := FilterState(MAX_HEADER, false, false)

  ghost function Label(host: Host, t: Table, h: Header): u128
    requires t.scheme.Compiled() && h.Valid()
  {
    Embed(t.scheme.prefix, WireIdentity(host, t.scheme, h))
  }

  // ----- one callback --------------------------------------------------------

  ghost function Refusal(st: FilterState, before: seq<Action>, reason: Reason): (FilterState, Status, seq<Action>) {
    (st.(refused := true), StopIteration, before + [Explain(reason), CloseChain])
  }

  /** What `Ppv2Filter.OnData` does. */
  ghost function Step(host: Host, enforce: bool, st: FilterState, i: Input): (FilterState, Status, seq<Action>)
    requires i.Valid()
  {
    if st.refused then (st, StopIteration, [])
    else if st.done then (st, Continue, [])
    else if i.table.None? then Refusal(st, [], NoIdentityTable)
    else
      match Parse(i.buf)
      case Err(Need(n)) => (st.(want := n), StopIteration, [])
      case Err(Invalid) => Refusal(st, [Bump(NotPpv2)], NotProxyProtocol)
      case Ok(h) => Settled(enforce, st, i, h, Label(host, i.table.value, h))
  }

  ghost function Settled(enforce: bool, st: FilterState, i: Input, h: Header, id: u128)
    : (FilterState, Status, seq<Action>)
  {
    var relabel := Relabel(id, h.srcPort, i.relabelOk);
    if !i.relabelOk then Refusal(st, [relabel], SetRemoteAddressFailed)
    else if enforce && !i.judge(id) then Refusal(st, [relabel, Drain(h.len), Bump(Denied)], DeniedByAllowlist)
    else (st.(done := true), Continue, [relabel, Drain(h.len), Bump(Allowed)])
  }

  class Ppv2Filter {
    const enforce: bool
    var want: nat
    var done: bool
    var refused: bool

    ghost function State(): FilterState
      reads this
    {
      FilterState(want, done, refused)
    }

    constructor (enforce: bool)
      ensures this.enforce == enforce && State() == FRESH
    {
      this.enforce := enforce;
      want, done, refused := MAX_HEADER, false, false;
    }

    /** The one place a refusal happens: mark it, say why, close. */
    method Refuse(envoy: Envoy, reason: Reason) returns (status: Status)
      modifies this, envoy
      ensures State() == old(State()).(refused := true) && status == StopIteration
      ensures envoy.log == old(envoy.log) + [Explain(reason), CloseChain]
    {
      refused := true;
      envoy.Do(Explain(reason));
      envoy.Do(CloseChain);
      status := StopIteration;
    }

    method OnData(host: Host, envoy: Envoy, i: Input) returns (status: Status)
      requires i.Valid()
      modifies this, envoy
      ensures var (st, s, actions) := Step(host, enforce, old(State()), i);
        State() == st && status == s && envoy.log == old(envoy.log) + actions
    {
      if refused {
        return StopIteration;
      }
      if done {
        return Continue;
      }
      if i.table.None? {
        status := Refuse(envoy, NoIdentityTable);
        return;
      }
      var parsed := ParseBuffer(i.buf);
      match parsed {
        case Err(Need(n)) =>
          want := n;
          return StopIteration;
        case Err(Invalid) =>
          envoy.Do(Bump(NotPpv2));
          status := Refuse(envoy, NotProxyProtocol);
        case Ok(h) =>
          var addr := Synthesize(host, i.table.value.scheme, h);
          status := Settle(envoy, i, h, FromBe(addr));
      }
    }

    /** The label and the strip come first, so even a refused connection shows who called. */
    method Settle(envoy: Envoy, i: Input, h: Header, id: u128) returns (status: Status)
      modifies this, envoy
      ensures var (st, s, actions) := Settled(enforce, old(State()), i, h, id);
        State() == st && status == s && envoy.log == old(envoy.log) + actions
    {
      envoy.Do(Relabel(id, h.srcPort, i.relabelOk));
      if !i.relabelOk {
        status := Refuse(envoy, SetRemoteAddressFailed);
        return;
      }
      envoy.Do(Drain(h.len));
      if enforce && !i.judge(id) {
        envoy.Do(Bump(Denied));
        status := Refuse(envoy, DeniedByAllowlist);
        return;
      }
      envoy.Do(Bump(Allowed));
      done := true;
      return Continue;
    }
  }

  // ----- whole runs ----------------------------------------------------------

  ghost predicate AllValid(ins: seq<Input>) {
    forall i :: i in ins ==> i.Valid()
  }

  /** A fresh filter fed any sequence of callbacks: its state, its answers, its actions. */
  ghost function Run(host: Host, enforce: bool, ins: seq<Input>): (r: (FilterState, seq<Status>, seq<Action>))
    requires AllValid(ins)
    ensures |r.1| == |ins|
  {
    if ins == [] then (FRESH, [], [])
    else
      var (st, statuses, log) := Run(host, enforce, ins[..|ins| - 1]);
      var (st', status, actions) := Step(host, enforce, st, Last(ins));
      (st', statuses + [status], log + actions)
  }

  /** A callback that settles the connection: no table, or a final parse. */
  predicate Decides(i: Input) {
    i.table.None? || Final(Parse(i.buf))
  }

  /** What a settling callback does on its own. */
  ghost function Decision(host: Host, enforce: bool, i: Input): (FilterState, Status, seq<Action>)
    requires i.Valid() && Decides(i)
  {
    Step(host, enforce, FRESH, i)
  }

  /** Whether a callback admits: header parsed, label written, allowlist satisfied if enforcing. */
  ghost predicate Admits(host: Host, enforce: bool, i: Input)
    requires i.Valid()
  {
    && i.table.Some? && Parse(i.buf).Ok? && i.relabelOk
    && (enforce ==> i.judge(Label(host, i.table.value, Parse(i.buf).value)))
  }

  /** Until something decides nothing happens; the first decision is the whole story; after it
      every answer repeats and nothing more is done. */
  lemma {:induction false} FirstDecisionIsFinal(host: Host, enforce: bool, ins: seq<Input>, k: nat)
    requires AllValid(ins) && k <= |ins|
    requires forall j :: 0 <= j < k ==> !Decides(ins[j])
    requires k < |ins| ==> Decides(ins[k])
    ensures var (st, statuses, log) := Run(host, enforce, ins);
      && st.want <= MAX_HEADER
      && (forall j :: 0 <= j < k ==> statuses[j] == StopIteration)
      && if k == |ins| then !st.done && !st.refused && log == []
         else
           var (_, status, actions) := Decision(host, enforce, ins[k]);
           && log == actions
           && (forall j :: k <= j < |ins| ==> statuses[j] == status)
           && st.done == (status == Continue) && st.refused == (status == StopIteration)
  {
    if ins == [] {
    } else {
      var front, i := ins[..|ins| - 1], Last(ins);
      assert i in ins && i.Valid();
      if k == |ins| {
        FirstDecisionIsFinal(host, enforce, front, k - 1);
        NoDecisionNoAction(host, enforce, Run(host, enforce, front).0, i);
      } else if k == |ins| - 1 {
        FirstDecisionIsFinal(host, enforce, front, k);
        DecisionSettles(host, enforce, Run(host, enforce, front).0, i);
      } else {
        FirstDecisionIsFinal(host, enforce, front, k);
      }
    }
  }

  lemma NoDecisionNoAction(host: Host, enforce: bool, st: FilterState, i: Input)
    requires i.Valid() && !Decides(i) && !st.done && !st.refused
    ensures var (st', status, actions) := Step(host, enforce, st, i);
      !st'.done && !st'.refused && st'.want <= MAX_HEADER && status == StopIteration && actions == []
  {
  }

  /** A settling callback does the same whatever was asked for before. */
  lemma DecisionSettles(host: Host, enforce: bool, st: FilterState, i: Input)
    requires i.Valid() && Decides(i) && !st.done && !st.refused
    ensures var (st', status, actions) := Step(host, enforce, st, i);
      && (status, actions) == (Decision(host, enforce, i).1, Decision(host, enforce, i).2)
      && st'.want == st.want && st'.done == (status == Continue) && st'.refused == (status == StopIteration)
  {
  }

  /** Which short peeks settle: those whose bytes have left the signature. */
  lemma ShortPeekDecides(i: Input)
    requires i.table.Some? && |i.buf| < 16
    ensures Decides(i) <==> !(i.buf <= SIGNATURE) && !(SIGNATURE <= i.buf)
  {
    RefusesExactly(i.buf);
    AsksExactly(i.buf, 16);
  }

  /** Such a client is refused there and then, whatever it sends later. */
  lemma StrangerIsRefused(host: Host, enforce: bool, ins: seq<Input>)
    requires AllValid(ins) && ins != [] && ins[0].table.Some? && |ins[0].buf| < 16
    requires !(ins[0].buf <= SIGNATURE) && !(SIGNATURE <= ins[0].buf)
    ensures var (st, statuses, log) := Run(host, enforce, ins);
      && st.refused && log == [Bump(NotPpv2), Explain(NotProxyProtocol), CloseChain]
      && forall j :: 0 <= j < |ins| ==> statuses[j] == StopIteration
  {
    ShortPeekDecides(ins[0]);
    FirstDecisionIsFinal(host, enforce, ins, 0);
    RefusesExactly(ins[0].buf);
    assert ins[0] in ins;
  }

  // ----- what the filter asks for --------------------------------------------

  /** What the parser asks for on seeing so much, when it can neither accept nor refuse. */
  function Asked(buf: Bytes): nat {
    if |buf| < PREAMBLE then PREAMBLE else PREAMBLE + Word(buf[14], buf[15])
  }

  ghost predicate Undecided(ins: seq<Input>) {
    forall j :: 0 <= j < |ins| ==> !Decides(ins[j])
  }

  /** After undecided callbacks the filter wants what the parser asked for last; it starts with
      the ceiling. */
  lemma WantIsAsked(host: Host, enforce: bool, ins: seq<Input>)
    requires AllValid(ins) && Undecided(ins)
    ensures var want := Run(host, enforce, ins).0.want;
      if ins == [] then want == MAX_HEADER
      else want == Asked(Last(ins).buf) && Parse(Last(ins).buf) == Err(Need(want))
  {
    if ins != [] {
      FirstDecisionIsFinal(host, enforce, ins[..|ins| - 1], |ins| - 1);
      assert Last(ins) in ins && !Decides(ins[|ins| - 1]);
    }
  }

  /** A settled run asks for nothing new. */
  lemma SettledWantStays(host: Host, enforce: bool, ins: seq<Input>)
    requires AllValid(ins) && ins != [] && !Undecided(ins)
    ensures Run(host, enforce, ins).0.want == Run(host, enforce, ins[..|ins| - 1]).0.want
  {
    var front := ins[..|ins| - 1];
    var k := FirstDeciding(front);
    FirstDecisionIsFinal(host, enforce, front, k);
    assert Last(ins) in ins;
    if k == |front| {
      var j :| 0 <= j < |ins| && Decides(ins[j]);
      assert forall l :: 0 <= l < |front| ==> ins[l] == front[l];
      assert j == k;
      DecisionSettles(host, enforce, Run(host, enforce, front).0, Last(ins));
    }
  }

  /** `want` grows at a callback exactly when all so far were undecided, this is not the first, and
      the header length is now visible where the one before showed none or a smaller one. */
  lemma WantGrowsExactly(host: Host, enforce: bool, ins: seq<Input>)
    requires AllValid(ins) && ins != []
    ensures Run(host, enforce, ins).0.want > Run(host, enforce, ins[..|ins| - 1]).0.want <==>
      && Undecided(ins) && |ins| >= 2
      && var before, now := ins[|ins| - 2].buf, ins[|ins| - 1].buf;
         |now| >= PREAMBLE && (|before| >= PREAMBLE ==> Word(before[14], before[15]) < Word(now[14], now[15]))
  {
    if Undecided(ins) {
      WantIsAsked(host, enforce, ins);
      WantIsAsked(host, enforce, ins[..|ins| - 1]);
    } else {
      SettledWantStays(host, enforce, ins);
    }
  }

  /** On peeks of one stream that means: exactly when the peek first reaches past the preamble. */
  lemma WantGrowsOnStream(host: Host, enforce: bool, ins: seq<Input>)
    requires AllValid(ins) && |ins| >= 2 && Undecided(ins) && ins[|ins| - 2].buf <= ins[|ins| - 1].buf
    ensures Run(host, enforce, ins).0.want > Run(host, enforce, ins[..|ins| - 1]).0.want
       <==> |ins[|ins| - 2].buf| < PREAMBLE <= |ins[|ins| - 1].buf|
    ensures |ins[|ins| - 1].buf| >= PREAMBLE ==> Word(ins[|ins| - 1].buf[14], ins[|ins| - 1].buf[15]) > 0
  {
    WantGrowsExactly(host, enforce, ins);
    WantIsAsked(host, enforce, ins);
  }

  /** It does happen: nothing seen, then a preamble declaring a hundred bytes more. */
  lemma WantGrows(host: Host, enforce: bool, nothing: Input, preamble: Input)
    requires nothing.Valid() && preamble.Valid() && nothing.table.Some? && preamble.table.Some?
    requires nothing.buf == [] && preamble.buf == SIGNATURE + [V2_PROXY, 0x11, 0, 100]
    ensures Run(host, enforce, []).0.want == 256
    ensures Run(host, enforce, [nothing]).0.want == 16
    ensures Run(host, enforce, [nothing, preamble]).0.want == 116
  {
    assert preamble.buf[..12] == SIGNATURE && preamble.buf[12] == V2_PROXY;
    assert [nothing, preamble][..1] == [nothing];
    WantIsAsked(host, enforce, [nothing]);
    WantIsAsked(host, enforce, [nothing, preamble]);
  }

  /** The settling callback admits exactly when it answers Continue. */
  lemma DecisionAdmits(host: Host, enforce: bool, i: Input)
    requires i.Valid() && Decides(i)
    ensures (Decision(host, enforce, i).1 == Continue) <==> Admits(host, enforce, i)
  {
  }

  /** Whether a callback labelled the connection and then met an unsatisfied allowlist. */
  ghost predicate Denies(host: Host, enforce: bool, i: Input)
    requires i.Valid()
  {
    && i.table.Some? && Parse(i.buf).Ok? && i.relabelOk
    && enforce && !i.judge(Label(host, i.table.value, Parse(i.buf).value))
  }

  /** The counter and the reason left behind say which of the outcomes it was. */
  lemma LogTellsWhy(host: Host, enforce: bool, i: Input)
    requires i.Valid() && Decides(i)
    ensures var log := Decision(host, enforce, i).2;
      && (Bump(Allowed) in log <==> Admits(host, enforce, i))
      && (Bump(Denied) in log <==> Denies(host, enforce, i))
      && (Explain(DeniedByAllowlist) in log <==> Denies(host, enforce, i))
      && (Bump(NotPpv2) in log <==> i.table.Some? && Parse(i.buf) == Err(Invalid))
      && (Explain(NotProxyProtocol) in log <==> i.table.Some? && Parse(i.buf) == Err(Invalid))
      && (Explain(NoIdentityTable) in log <==> i.table.None?)
      && (Explain(SetRemoteAddressFailed) in log <==> i.table.Some? && Parse(i.buf).Ok? && !i.relabelOk)
  {
    if i.table.Some? && Parse(i.buf).Ok? {
      var h := Parse(i.buf).value;
      SettledTellsWhy(enforce, i, h, Label(host, i.table.value, h));
    }
  }

  lemma SettledTellsWhy(enforce: bool, i: Input, h: Header, id: u128)
    ensures var log := Settled(enforce, FRESH, i, h, id).2;
      && (Bump(Allowed) in log <==> i.relabelOk && (enforce ==> i.judge(id)))
      && (Bump(Denied) in log <==> i.relabelOk && enforce && !i.judge(id))
      && (Explain(DeniedByAllowlist) in log <==> i.relabelOk && enforce && !i.judge(id))
      && (Explain(SetRemoteAddressFailed) in log <==> !i.relabelOk)
      && Bump(NotPpv2) !in log && Explain(NotProxyProtocol) !in log && Explain(NoIdentityTable) !in log
  {
  }

  datatype Kind = Closing | Draining | Counting | Telling

  function KindOf(a: Action): Kind {
    match a
    case CloseChain => Closing
    case Drain(_) => Draining
    case Bump(_) => Counting
    case _ => Telling
  }

  ghost function CountOf(log: seq<Action>, kind: Kind): nat {
    if log == [] then 0 else CountOf(log[..|log| - 1], kind) + if KindOf(Last(log)) == kind then 1 else 0
  }

  /** A header of this length was labelled and stripped, in that order and once. */
  ghost predicate LabelledThenDrained(log: seq<Action>, addr: u128, port: u16, len: nat) {
    |log| >= 2 && log[0] == Relabel(addr, port, true) && log[1] == Drain(len)
  }

  lemma FirstDeciding(ins: seq<Input>) returns (k: nat)
    ensures k <= |ins| && forall j :: 0 <= j < k ==> !Decides(ins[j])
    ensures k < |ins| ==> Decides(ins[k])
  {
    k := 0;
    while k < |ins| && !Decides(ins[k])
      invariant k <= |ins| && forall j :: 0 <= j < k ==> !Decides(ins[j])
    {
      k := k + 1;
    }
  }

  /** Safety of every run: one verdict, one close, one drain, one count, in the right order. */
  lemma RunIsSafe(host: Host, enforce: bool, ins: seq<Input>)
    requires AllValid(ins)
    ensures var (st, statuses, log) := Run(host, enforce, ins);
      && !(st.done && st.refused)
      && st.want <= MAX_HEADER
      && CountOf(log, Closing) == (if st.refused then 1 else 0)
      && CountOf(log, Draining) <= 1 && CountOf(log, Counting) <= 1
      && (forall j, l :: 0 <= j < l < |ins| && statuses[j] == Continue ==> statuses[l] == Continue)
      && (st.refused ==> forall j :: 0 <= j < |ins| ==> statuses[j] == StopIteration)
      && (forall d :: Drain(d) in log ==> log[0].Relabel? && log[0].ok && log[1] == Drain(d))
      && (forall d :: Drain(d) in log ==> exists k :: 0 <= k < |ins| && HeaderLength(ins[k], d))
  {
    StatusesSettle(host, enforce, ins);
    LogIsSafe(host, enforce, ins);
  }

  lemma StatusesSettle(host: Host, enforce: bool, ins: seq<Input>)
    requires AllValid(ins)
    ensures var (st, statuses, _) := Run(host, enforce, ins);
      && !(st.done && st.refused)
      && st.want <= MAX_HEADER
      && (forall j, l :: 0 <= j < l < |ins| && statuses[j] == Continue ==> statuses[l] == Continue)
      && (st.refused ==> forall j :: 0 <= j < |ins| ==> statuses[j] == StopIteration)
  {
    var k := FirstDeciding(ins);
    FirstDecisionIsFinal(host, enforce, ins, k);
  }

  lemma LogIsSafe(host: Host, enforce: bool, ins: seq<Input>)
    requires AllValid(ins)
    ensures var (st, _, log) := Run(host, enforce, ins);
      && CountOf(log, Closing) == (if st.refused then 1 else 0)
      && CountOf(log, Draining) <= 1 && CountOf(log, Counting) <= 1
      && (forall d :: Drain(d) in log ==> log[0].Relabel? && log[0].ok && log[1] == Drain(d))
      && (forall d :: Drain(d) in log ==> exists k :: 0 <= k < |ins| && HeaderLength(ins[k], d))
  {
    var k := FirstDeciding(ins);
    FirstDecisionIsFinal(host, enforce, ins, k);
    if k < |ins| {
      assert ins[k] in ins;
      DecisionIsSafe(host, enforce, ins[k]);
      forall d | Drain(d) in Decision(host, enforce, ins[k]).2
        ensures exists j :: 0 <= j < |ins| && HeaderLength(ins[j], d)
      {
        assert HeaderLength(ins[k], d);
      }
    }
  }

  /** The callback saw a header, and the label and port are those it speaks of. */
  ghost predicate LabelledBy(host: Host, i: Input, addr: u128, port: u16, ok: bool) {
    && i.Valid() && i.table.Some? && Parse(i.buf).Ok? && ok == i.relabelOk
    && var h := Parse(i.buf).value;
       addr == Label(host, i.table.value, h) && port == h.srcPort
  }

  /** In every run, denied ones included, what is written is the label and port of a header the filter
      was shown; if the write succeeds exactly that header is stripped next, and not otherwise. */
  lemma RelabelIsOwn(host: Host, enforce: bool, ins: seq<Input>, addr: u128, port: u16, ok: bool)
    requires AllValid(ins) && Relabel(addr, port, ok) in Run(host, enforce, ins).2
    ensures exists k ::
      && 0 <= k < |ins| && LabelledBy(host, ins[k], addr, port, ok)
      && StripsNext(Run(host, enforce, ins).2, ok, Parse(ins[k].buf).value.len)
  {
    var k := FirstDeciding(ins);
    FirstDecisionIsFinal(host, enforce, ins, k);
    assert ins[k] in ins;
    OwnRelabel(host, enforce, ins[k], addr, port, ok);
  }

  ghost predicate StripsNext(log: seq<Action>, ok: bool, len: nat) {
    |log| >= 2 && log[0].Relabel? && (if ok then log[1] == Drain(len) else forall d :: Drain(d) !in log)
  }

  /** A header seen, the whole log in order: written, stripped, counted, and if refused explained and closed. */
  lemma LogInFull(host: Host, enforce: bool, i: Input, h: Header)
    requires i.Valid() && i.table.Some? && Parse(i.buf) == Ok(h)
    ensures var id := Label(host, i.table.value, h);
      Decision(host, enforce, i).2 ==
        if !i.relabelOk then [Relabel(id, h.srcPort, false), Explain(SetRemoteAddressFailed), CloseChain]
        else if enforce && !i.judge(id) then
          [Relabel(id, h.srcPort, true), Drain(h.len), Bump(Denied), Explain(DeniedByAllowlist), CloseChain]
        else [Relabel(id, h.srcPort, true), Drain(h.len), Bump(Allowed)]
  {
    assert Decision(host, enforce, i) == Settled(enforce, FRESH, i, h, Label(host, i.table.value, h));
  }

  lemma OwnRelabel(host: Host, enforce: bool, i: Input, addr: u128, port: u16, ok: bool)
    requires i.Valid() && Decides(i) && Relabel(addr, port, ok) in Decision(host, enforce, i).2
    ensures LabelledBy(host, i, addr, port, ok)
    ensures StripsNext(Decision(host, enforce, i).2, ok, Parse(i.buf).value.len)
  {
    if i.table.Some? && Parse(i.buf).Ok? {
      var h := Parse(i.buf).value;
      SettledStrips(enforce, i, h, Label(host, i.table.value, h), addr, port, ok);
    }
  }

  lemma SettledStrips(enforce: bool, i: Input, h: Header, id: u128, addr: u128, port: u16, ok: bool)
    requires Relabel(addr, port, ok) in Settled(enforce, FRESH, i, h, id).2
    ensures addr == id && port == h.srcPort && ok == i.relabelOk
    ensures StripsNext(Settled(enforce, FRESH, i, h, id).2, ok, h.len)
  {
  }

  /** A callback saw a header of this length. */
  predicate HeaderLength(i: Input, len: nat) {
    Parse(i.buf).Ok? && Parse(i.buf).value.len == len
  }

  lemma DecisionIsSafe(host: Host, enforce: bool, i: Input)
    requires i.Valid() && Decides(i)
    ensures var (st, status, log) := Decision(host, enforce, i);
      && CountOf(log, Closing) == (if status == StopIteration then 1 else 0)
      && CountOf(log, Draining) <= 1 && CountOf(log, Counting) <= 1
      && (forall d :: Drain(d) in log ==> log[0].Relabel? && log[0].ok && log[1] == Drain(d) && HeaderLength(i, d))
  {
    var (st, status, log) := Decision(host, enforce, i);
    DecisionCounts(log, status, host, enforce, i);
    if i.table.Some? && Parse(i.buf).Ok? {
      var h := Parse(i.buf).value;
      SettledDrains(enforce, i, h, Label(host, i.table.value, h));
    }
  }

  lemma SettledDrains(enforce: bool, i: Input, h: Header, id: u128)
    ensures var log := Settled(enforce, FRESH, i, h, id).2;
      forall d :: Drain(d) in log ==> log[0].Relabel? && log[0].ok && log[1] == Drain(d) && d == h.len
  {
  }

  lemma DecisionCounts(log: seq<Action>, status: Status, host: Host, enforce: bool, i: Input)
    requires i.Valid() && Decides(i)
    requires status == Decision(host, enforce, i).1 && log == Decision(host, enforce, i).2
    ensures CountOf(log, Closing) == (if status == StopIteration then 1 else 0)
    ensures CountOf(log, Draining) <= 1 && CountOf(log, Counting) <= 1
  {
    if i.table.Some? && Parse(i.buf).Ok? {
      var h := Parse(i.buf).value;
      SettledCounts(log, enforce, i, h, Label(host, i.table.value, h));
    } else {
      CountSplits(log, Closing);
      CountSplits(log, Draining);
      CountSplits(log, Counting);
    }
  }

  lemma SettledCounts(log: seq<Action>, enforce: bool, i: Input, h: Header, id: u128)
    requires log == Settled(enforce, FRESH, i, h, id).2
    ensures CountOf(log, Closing) == (if Settled(enforce, FRESH, i, h, id).1 == StopIteration then 1 else 0)
    ensures CountOf(log, Draining) <= 1 && CountOf(log, Counting) <= 1
  {
    CountSplits(log, Closing);
    CountSplits(log, Draining);
    CountSplits(log, Counting);
  }

  /** Counting a short log by its entries. */
  lemma CountSplits(log: seq<Action>, kind: Kind)
    requires |log| <= 5
    ensures CountOf(log, kind) == EntryIs(log, 0, kind) + EntryIs(log, 1, kind) + EntryIs(log, 2, kind)
      + EntryIs(log, 3, kind) + EntryIs(log, 4, kind)
  {
    if log != [] {
      var front := log[..|log| - 1];
      CountSplits(front, kind);
      assert forall k: nat :: k < |front| ==> EntryIs(front, k, kind) == EntryIs(log, k, kind);
    }
  }

  ghost function EntryIs(log: seq<Action>, k: nat, kind: Kind): nat {
    if k < |log| && KindOf(log[k]) == kind then 1 else 0
  }

  /** A callback that admits, with a log that labels its header and strips exactly that. */
  ghost predicate AdmittedBy(host: Host, enforce: bool, i: Input, log: seq<Action>) {
    && i.Valid() && Admits(host, enforce, i)
    && var h := Parse(i.buf).value;
       LabelledThenDrained(log, Label(host, i.table.value, h), h.srcPort, h.len)
  }

  /** Continue is answered only after some callback labelled its header's identity, stripped
      exactly that header, and, when enforcing, was permitted. */
  lemma ContinueMeansAdmitted(host: Host, enforce: bool, ins: seq<Input>, j: nat)
    requires AllValid(ins) && j < |ins| && Run(host, enforce, ins).1[j] == Continue
    ensures exists k :: 0 <= k <= j && AdmittedBy(host, enforce, ins[k], Run(host, enforce, ins).2)
  {
    var k := FirstDeciding(ins);
    FirstDecisionIsFinal(host, enforce, ins, k);
    assert k <= j && ins[k] in ins;
    DecisionAdmits(host, enforce, ins[k]);
  }

  // ----- fragmentation -------------------------------------------------------

  /** Peeks of one stream against one table: the callbacks differ only in how much they see. */
  ghost predicate Peeks(ins: seq<Input>, whole: Input) {
    forall j :: 0 <= j < |ins| ==> ins[j].buf <= whole.buf && ins[j] == whole.(buf := ins[j].buf)
  }

  lemma PeekDecidesAlike(host: Host, enforce: bool, i: Input, whole: Input)
    requires whole.Valid() && i.buf <= whole.buf && i == whole.(buf := i.buf) && Decides(i)
    ensures Decides(whole) && Decision(host, enforce, i) == Decision(host, enforce, whole)
  {
    if i.table.Some? {
      assert whole.buf == i.buf + whole.buf[|i.buf|..];
      FinalIsStable(i.buf, whole.buf[|i.buf|..]);
    }
  }

  /** However a stream is cut into peeks, once one suffices the run is that of the whole stream. */
  lemma FragmentationIsInvisible(host: Host, enforce: bool, ins: seq<Input>, whole: Input)
    requires whole.Valid() && AllValid(ins) && Peeks(ins, whole)
    requires exists j :: 0 <= j < |ins| && Decides(ins[j])
    ensures Decides(whole)
    ensures var (st, statuses, log) := Run(host, enforce, ins);
      var (_, status, actions) := Decision(host, enforce, whole);
      log == actions && Last(statuses) == status && st.done == (status == Continue) && st.refused == !st.done
  {
    var k := FirstDeciding(ins);
    FirstDecisionIsFinal(host, enforce, ins, k);
    PeekDecidesAlike(host, enforce, ins[k], whole);
  }

  /** Each peek extends the one before and reaches as far as the filter then wanted. */
  ghost predicate Honours(host: Host, enforce: bool, ins: seq<Input>)
    requires AllValid(ins)
  {
    forall j :: 0 < j < |ins| ==>
      ins[j - 1].buf <= ins[j].buf && |ins[j].buf| >= Run(host, enforce, ins[..j]).0.want
  }

  /** When peeks honour what the filter wants, one of the first three decides. */
  lemma TwoAsksSuffice(host: Host, enforce: bool, ins: seq<Input>)
    requires AllValid(ins) && Honours(host, enforce, ins) && |ins| >= 3
    ensures exists j :: 0 <= j < 3 && Decides(ins[j])
  {
    if !Decides(ins[0]) && !Decides(ins[1]) {
      WantIsAsked(host, enforce, ins[..1]);
      WantIsAsked(host, enforce, ins[..2]);
      ThirdPeekIsFinal(ins[0].buf, ins[1].buf, ins[2].buf);
    }
  }

  lemma ThirdPeekIsFinal(first: Bytes, second: Bytes, third: Bytes)
    requires first <= second <= third && !Final(Parse(first)) && !Final(Parse(second))
    requires |second| >= Parse(first).error.total && |third| >= Parse(second).error.total
    ensures Final(Parse(third))
  {
    assert second == first + second[|first|..];
    assert third == second + third[|second|..];
    NeedIsMet(first, second[|first|..]);
    NeedIsMet(second, third[|second|..]);
  }

  // ----- the label, judged later by SNI --------------------------------------

  /** Reads the label an earlier filter wrote and judges it; settled either way. */
  class AuthFilter {
    var settled: bool

    constructor ()
      ensures !settled
    {
      settled := false;
    }

    method Refuse(envoy: Envoy, reason: Reason) returns (status: Status)
      modifies this, envoy
      ensures settled && status == StopIteration
      ensures envoy.log == old(envoy.log) + [Explain(reason), CloseChain]
    {
      settled := true;
      envoy.Do(Explain(reason));
      envoy.Do(CloseChain);
      status := StopIteration;
    }

    /** Admits exactly when there is a label and the scope of the name, absent meaning empty, permits it. */
    method OnAccept(envoy: Envoy, written: Option<u128>, sni: Option<Bytes>, judge: (Bytes, u128) -> bool)
      returns (status: Status)
      modifies this, envoy
      ensures settled
      ensures (status == Continue) <==> written.Some? && judge(if sni.Some? then sni.value else [], written.value)
      ensures envoy.log == old(envoy.log) +
        if status == Continue then [Bump(Allowed)]
        else [Bump(Denied), Explain(if written.None? then NoIdentityLabel else DeniedByAllowlist), CloseChain]
    {
      settled := true;
      if written.None? {
        envoy.Do(Bump(Denied));
        status := Refuse(envoy, NoIdentityLabel);
        return;
      }
      var name := if sni.Some? then sni.value else [];
      if judge(name, written.value) {
        envoy.Do(Bump(Allowed));
        return Continue;
      }
      envoy.Do(Bump(Denied));
      status := Refuse(envoy, DeniedByAllowlist);
    }

    /** Never admits: a settled filter waits, an unsettled one closes. */
    method OnData(envoy: Envoy) returns (status: Status)
      modifies this, envoy
      ensures settled && status == StopIteration
      ensures envoy.log == old(envoy.log) + if old(settled) then [] else [Explain(UnexpectedOnData), CloseChain]
    {
      if settled {
        return StopIteration;
      }
      status := Refuse(envoy, UnexpectedOnData);
    }
  }
}
