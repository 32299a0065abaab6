/** The published table and the per-filter cache, as the interleaved steps of any number of
    callers and publishers: read the generation, check, lock, recheck, rebuild, re-read.
    Tables, expansions and queries are abstract here; Config.dfy supplies the real ones. */
module Cache {
  import opened Base

  /** How a generation's table expands, and how an expansion answers a query. */
  datatype Setup<!T, !J, !Q> = Setup(expand: Option<T> -> J, permits: (J, Q) -> bool)

  /** No generation is ever the tag a cache is born with. */
  datatype Tag = Never | Gen(gen: nat)

  /** Where one call stands. `floor` is a history variable: any bound below every generation
      still held when the call began. */
  datatype Call<T, Q> =
    | Holding(query: Q, gen: nat, table: Option<T>, floor: nat)
    | Locking(query: Q, gen: nat, table: Option<T>, floor: nat)
    | Reading(query: Q, gen: nat, table: Option<T>, floor: nat)
    | Answered(query: Q, gen: nat, floor: nat, from: nat, verdict: bool)

  datatype State<T, J, Q> = State(published: seq<T>, tag: Tag, judged: J, calls: map<nat, Call<T, Q>>)

  datatype Step<T, Q> =
    | Publish(t: T)
    | Begin(id: nat, q: Q, bound: nat)
    | Check(id: nat)
    | Rebuild(id: nat)
    | Answer(id: nat)

  /** The table of a generation; generation 0 is before any publish. */
  function TableAt<T>(published: seq<T>, gen: nat): Option<T>
    requires gen <= |published|
  {
    if gen == 0 then None else Some(published[gen - 1])
  }

  predicate Pending<T, Q>(c: Call<T, Q>) {
    c.Holding? || c.Locking?
  }

  predicate InFlight<T, Q>(c: Call<T, Q>) {
    Pending(c) || c.Reading?
  }

  ghost predicate Init<T, J, Q>(cfg: Setup<T, J, Q>, s: State<T, J, Q>) {
    s.published == [] && s.tag == Never && s.judged == cfg.expand(None) && s.calls == map[]
  }

  /** One atomic step; each lock region is one. */
  ghost predicate Next<T, J, Q>(cfg: Setup<T, J, Q>, s: State<T, J, Q>, step: Step<T, Q>, s': State<T, J, Q>) {
    match step
    case Publish(t) => s' == s.(published := s.published + [t])
    case Begin(id, q, bound) =>
      && (id in s.calls ==> s.calls[id].Answered?)
      && bound <= |s.published|
      && (forall d :: d in s.calls && Pending(s.calls[d]) ==> bound <= s.calls[d].gen)
      && var gen := |s.published|;
         s' == s.(calls := s.calls[id := Holding(q, gen, TableAt(s.published, gen), bound)])
    case Check(id) =>
      && id in s.calls && s.calls[id].Holding?
      && var c := s.calls[id];
         s' == s.(calls := s.calls[id :=
           if s.tag == Gen(c.gen) then Reading(c.query, c.gen, c.table, c.floor)
           else Locking(c.query, c.gen, c.table, c.floor)])
    case Rebuild(id) =>
      && id in s.calls && s.calls[id].Locking?
      && var c := s.calls[id];
         var calls := s.calls[id := Reading(c.query, c.gen, c.table, c.floor)];
         s' == if s.tag == Gen(c.gen) then s.(calls := calls)
               else State(s.published, Gen(c.gen), cfg.expand(c.table), calls)
    case Answer(id) =>
      && id in s.calls && s.calls[id].Reading? && s.tag.Gen?
      && var c := s.calls[id];
         s' == s.(calls := s.calls[id :=
           Answered(c.query, c.gen, c.floor, s.tag.gen, cfg.permits(s.judged, c.query))])
  }

  /** States from an initial one, each by one step. */
  ghost predicate Run<T(!new), J, Q(!new)>(cfg: Setup<T, J, Q>, states: seq<State<T, J, Q>>) {
    && states != [] && Init(cfg, states[0])
    && forall i :: 0 <= i < |states| - 1 ==> Steps(cfg, states[i], states[i + 1])
  }

  ghost predicate Steps<T(!new), J, Q(!new)>(cfg: Setup<T, J, Q>, s: State<T, J, Q>, s': State<T, J, Q>) {
    exists step :: Next(cfg, s, step, s')
  }

  // ----- the invariant -------------------------------------------------------

  /** Tag and content belong together: the birth deny-all, or that generation's expansion. */
  ghost predicate TagMatches<T, J, Q>(cfg: Setup<T, J, Q>, s: State<T, J, Q>) {
    match s.tag
    case Never => s.judged == cfg.expand(None)
    case Gen(g) => g <= |s.published| && s.judged == cfg.expand(TableAt(s.published, g))
  }

  ghost predicate CallOk<T, J, Q>(cfg: Setup<T, J, Q>, s: State<T, J, Q>, c: Call<T, Q>) {
    if c.Answered? then
      && c.floor <= c.from <= |s.published|
      && c.verdict == cfg.permits(cfg.expand(TableAt(s.published, c.from)), c.query)
    else
      && c.floor <= c.gen <= |s.published|
      && c.table == TableAt(s.published, c.gen)
      && (c.Reading? ==> s.tag.Gen? && c.floor <= s.tag.gen)
  }

  ghost predicate Inv<T, J, Q>(cfg: Setup<T, J, Q>, s: State<T, J, Q>) {
    && TagMatches(cfg, s)
    && (forall id :: id in s.calls ==> CallOk(cfg, s, s.calls[id]))
    && (forall c, d :: c in s.calls && d in s.calls && InFlight(s.calls[c]) && Pending(s.calls[d])
          ==> s.calls[c].floor <= s.calls[d].gen)
  }

  lemma InitHolds<T, J, Q>(cfg: Setup<T, J, Q>, s: State<T, J, Q>)
    requires Init(cfg, s)
    ensures Inv(cfg, s)
  {
  }

  /** Every step of every caller and publisher keeps the invariant. */
  lemma NextKeeps<T, J, Q>(cfg: Setup<T, J, Q>, s: State<T, J, Q>, step: Step<T, Q>, s': State<T, J, Q>)
    requires Inv(cfg, s) && Next(cfg, s, step, s')
    ensures Inv(cfg, s')
  {
    match step
    case Publish(t) => PublishKeeps(cfg, s, t, s');
    case Begin(id, q, bound) => OneCallMoves(cfg, s, s', id);
    case Check(id) => OneCallMoves(cfg, s, s', id);
    case Rebuild(id) => RebuildKeeps(cfg, s, id, s');
    case Answer(id) => OneCallMoves(cfg, s, s', id);
  }

  lemma PublishKeeps<T, J, Q>(cfg: Setup<T, J, Q>, s: State<T, J, Q>, t: T, s': State<T, J, Q>)
    requires Inv(cfg, s) && Next(cfg, s, Publish(t), s')
    ensures Inv(cfg, s')
  {
    assert forall g :: 0 <= g <= |s.published| ==> TableAt(s'.published, g) == TableAt(s.published, g);
    forall id | id in s'.calls ensures CallOk(cfg, s', s'.calls[id]) {
      assert CallOk(cfg, s, s.calls[id]);
    }
  }

  lemma RebuildKeeps<T, J, Q>(cfg: Setup<T, J, Q>, s: State<T, J, Q>, id: nat, s': State<T, J, Q>)
    requires Inv(cfg, s) && Next(cfg, s, Rebuild(id), s')
    ensures Inv(cfg, s')
  {
    assert CallOk(cfg, s, s.calls[id]);
    forall d | d in s'.calls ensures CallOk(cfg, s', s'.calls[d]) {
      if d != id {
        assert CallOk(cfg, s, s.calls[d]);
      }
    }
  }

  /** A step that changes one call and nothing shared. */
  lemma OneCallMoves<T, J, Q>(cfg: Setup<T, J, Q>, s: State<T, J, Q>, s': State<T, J, Q>, id: nat)
    requires Inv(cfg, s) && id in s'.calls
    requires s' == s.(calls := s.calls[id := s'.calls[id]])
    requires CallOk(cfg, s, s'.calls[id])
    requires Pending(s'.calls[id]) ==>
      (id in s.calls && Pending(s.calls[id]) && s.calls[id].gen == s'.calls[id].gen)
      || s'.calls[id].gen == |s.published|
    requires InFlight(s'.calls[id]) ==>
      (id in s.calls && InFlight(s.calls[id]) && s.calls[id].floor == s'.calls[id].floor)
      || forall d :: d in s.calls && Pending(s.calls[d]) ==> s'.calls[id].floor <= s.calls[d].gen
    ensures Inv(cfg, s')
  {
    forall d | d in s'.calls ensures CallOk(cfg, s', s'.calls[d]) {
      assert CallOk(cfg, s, if d == id then s'.calls[id] else s.calls[d]);
    }
    forall c, d | c in s'.calls && d in s'.calls && InFlight(s'.calls[c]) && Pending(s'.calls[d])
      ensures s'.calls[c].floor <= s'.calls[d].gen
    {
      assert CallOk(cfg, s', s'.calls[c]);
    }
  }

  lemma {:induction false} RunKeeps<T(!new), J, Q(!new)>(cfg: Setup<T, J, Q>, states: seq<State<T, J, Q>>, i: nat)
    requires Run(cfg, states) && i < |states|
    ensures Inv(cfg, states[i])
  {
    if i == 0 {
      InitHolds(cfg, states[0]);
    } else {
      RunKeeps(cfg, states, i - 1);
      assert Steps(cfg, states[i - 1], states[i - 1 + 1]);
      var step :| Next(cfg, states[i - 1], step, states[i]);
      NextKeeps(cfg, states[i - 1], step, states[i]);
    }
  }

  // ----- what callers see ----------------------------------------------------

  /** Over every interleaving a verdict is that of one published generation, never a mixture,
      and never of one older than all those still held when the call began. */
  lemma VerdictOfOneGeneration<T(!new), J, Q(!new)>(cfg: Setup<T, J, Q>, states: seq<State<T, J, Q>>, i: nat, id: nat)
    requires Run(cfg, states) && i < |states| && id in states[i].calls && states[i].calls[id].Answered?
    ensures var c := states[i].calls[id];
      && c.floor <= c.from <= |states[i].published|
      && c.verdict == cfg.permits(cfg.expand(TableAt(states[i].published, c.from)), c.query)
  {
    RunKeeps(cfg, states, i);
    assert CallOk(cfg, states[i], states[i].calls[id]);
  }

  /** A call that runs alone, whatever the cache held, answers for the latest generation. */
  lemma AloneIsLatest<T(!new), J, Q(!new)>(
      cfg: Setup<T, J, Q>, s0: State<T, J, Q>, s1: State<T, J, Q>, s2: State<T, J, Q>, s3: State<T, J, Q>,
      s4: State<T, J, Q>, id: nat, q: Q, bound: nat)
    requires Inv(cfg, s0) && Next(cfg, s0, Begin(id, q, bound), s1) && Next(cfg, s1, Check(id), s2)
    requires if s2.calls[id].Locking? then Next(cfg, s2, Rebuild(id), s3) else s3 == s2
    requires Next(cfg, s3, Answer(id), s4)
    ensures s4.calls[id].from == |s0.published|
    ensures s4.calls[id].verdict == cfg.permits(cfg.expand(TableAt(s0.published, |s0.published|)), q)
  {
    NextKeeps(cfg, s0, Begin(id, q, bound), s1);
    NextKeeps(cfg, s1, Check(id), s2);
    if s2.calls[id].Locking? {
      NextKeeps(cfg, s2, Rebuild(id), s3);
    }
  }

  // ----- how old a verdict can be --------------------------------------------

  /** States from one in which a call is in flight to the one in which it is first answered. */
  ghost predicate Leads<T(!new), J, Q(!new)>(cfg: Setup<T, J, Q>, states: seq<State<T, J, Q>>, id: nat) {
    && states != []
    && (forall i :: 0 <= i < |states| ==> id in states[i].calls)
    && (forall i :: 0 <= i < |states| - 1 ==>
          InFlight(states[i].calls[id]) && Steps(cfg, states[i], states[i + 1]))
    && Last(states).calls[id].Answered?
  }

  /** Some continuation answers the call from a generation below g. */
  ghost predicate AnswerableBelow<T(!new), J(!new), Q(!new)>(cfg: Setup<T, J, Q>, s: State<T, J, Q>, id: nat, g: nat) {
    exists states :: Leads(cfg, states, id) && states[0] == s && Last(states).calls[id].from < g
  }

  /** Some call still holds a generation below g, the call itself included. */
  ghost predicate OldHeld<T, J, Q>(s: State<T, J, Q>, g: nat) {
    exists d :: d in s.calls && Pending(s.calls[d]) && s.calls[d].gen < g
  }

  /** The call is past its rebuild and the cache is tagged below g. */
  ghost predicate ReadsOld<T, J, Q>(s: State<T, J, Q>, id: nat, g: nat) {
    id in s.calls && s.calls[id].Reading? && s.tag.Gen? && s.tag.gen < g
  }

  /** With nothing old held or read, no step makes it so, and an answer is at least g. */
  lemma StaysRecent<T, J, Q>(
      cfg: Setup<T, J, Q>, s: State<T, J, Q>, step: Step<T, Q>, s': State<T, J, Q>, id: nat, g: nat)
    requires Inv(cfg, s) && Next(cfg, s, step, s') && g <= |s.published|
    requires id in s.calls && InFlight(s.calls[id]) && !OldHeld(s, g) && !ReadsOld(s, id, g)
    ensures id in s'.calls && g <= |s'.published|
    ensures if s'.calls[id].Answered? then s'.calls[id].from >= g else !OldHeld(s', g) && !ReadsOld(s', id, g)
  {
    assert CallOk(cfg, s, s.calls[id]);
    forall d | d in s'.calls && Pending(s'.calls[d]) ensures s'.calls[d].gen >= g {
      assert d in s.calls && Pending(s.calls[d]) ==> s.calls[d].gen >= g;
    }
  }

  lemma {:induction false} NeverAnsweredBelow<T(!new), J, Q(!new)>(
      cfg: Setup<T, J, Q>, states: seq<State<T, J, Q>>, id: nat, g: nat)
    requires Leads(cfg, states, id) && Inv(cfg, states[0]) && g <= |states[0].published|
    requires |states| > 1 && !OldHeld(states[0], g) && !ReadsOld(states[0], id, g)
    ensures Last(states).calls[id].from >= g
  {
    assert Steps(cfg, states[0], states[0 + 1]);
    var step :| Next(cfg, states[0], step, states[1]);
    StaysRecent(cfg, states[0], step, states[1], id, g);
    if |states| > 2 {
      NextKeeps(cfg, states[0], step, states[1]);
      LeadsOn(cfg, states, id);
      NeverAnsweredBelow(cfg, states[1..], id, g);
    }
  }

  lemma LeadsOn<T(!new), J, Q(!new)>(cfg: Setup<T, J, Q>, states: seq<State<T, J, Q>>, id: nat)
    requires Leads(cfg, states, id) && |states| > 1
    ensures Leads(cfg, states[1..], id) && Last(states[1..]) == Last(states)
  {
    var rest := states[1..];
    forall i | 0 <= i < |rest| - 1 ensures InFlight(rest[i].calls[id]) && Steps(cfg, rest[i], rest[i + 1]) {
      assert InFlight(states[i + 1].calls[id]) && Steps(cfg, states[i + 1], states[i + 1 + 1]);
    }
  }

  /** How many steps a call is from reading the cache. */
  function Distance<T, Q>(c: Call<T, Q>): nat {
    match c
    case Holding(_, _, _, _) => 2
    case Locking(_, _, _, _) => 1
    case _ => 0
  }

  /** A pending call checks, or rebuilds. */
  lemma Advance<T(!new), J, Q(!new)>(cfg: Setup<T, J, Q>, s: State<T, J, Q>, id: nat) returns (s': State<T, J, Q>)
    requires Inv(cfg, s) && id in s.calls && Pending(s.calls[id])
    ensures Steps(cfg, s, s') && Inv(cfg, s') && s'.calls.Keys == s.calls.Keys
    ensures forall d :: d in s.calls && d != id ==> s'.calls[d] == s.calls[d]
    ensures var c, c' := s.calls[id], s'.calls[id];
      && InFlight(c') && c'.gen == c.gen && Distance(c') < Distance(c)
      && (c.Holding? ==> s'.tag == s.tag && (c'.Locking? <==> s.tag != Gen(c.gen)))
      && (c.Locking? ==> s'.tag == Gen(c.gen))
  {
    var c := s.calls[id];
    var step: Step<T, Q>;
    if c.Holding? {
      step := Check(id);
      s' := s.(calls := s.calls[id := if s.tag == Gen(c.gen) then Reading(c.query, c.gen, c.table, c.floor)
                                      else Locking(c.query, c.gen, c.table, c.floor)]);
    } else {
      step := Rebuild(id);
      var calls := s.calls[id := Reading(c.query, c.gen, c.table, c.floor)];
      s' := if s.tag == Gen(c.gen) then s.(calls := calls)
            else State(s.published, Gen(c.gen), cfg.expand(c.table), calls);
    }
    assert Next(cfg, s, step, s');
    NextKeeps(cfg, s, step, s');
  }

  /** No call ever waits for the cache: whatever the state, its next step can be taken. */
  lemma NoCallIsStuck<T(!new), J, Q(!new)>(cfg: Setup<T, J, Q>, s: State<T, J, Q>, id: nat) returns (s': State<T, J, Q>)
    requires Inv(cfg, s) && id in s.calls && InFlight(s.calls[id])
    ensures Steps(cfg, s, s') && id in s'.calls && s'.calls[id] != s.calls[id]
  {
    var c := s.calls[id];
    if Pending(c) {
      s' := Advance(cfg, s, id);
    } else {
      assert CallOk(cfg, s, c);
      s' := s.(calls := s.calls[id :=
        Answered(c.query, c.gen, c.floor, s.tag.gen, cfg.permits(s.judged, c.query))]);
      assert Next(cfg, s, Answer(id), s');
    }
  }

  lemma Prepend<T(!new), J(!new), Q(!new)>(
      cfg: Setup<T, J, Q>, s: State<T, J, Q>, s': State<T, J, Q>, id: nat, g: nat)
    requires id in s.calls && InFlight(s.calls[id]) && Steps(cfg, s, s') && AnswerableBelow(cfg, s', id, g)
    ensures AnswerableBelow(cfg, s, id, g)
  {
    var rest: seq<State<T, J, Q>> :| Leads(cfg, rest, id) && rest[0] == s' && Last(rest).calls[id].from < g;
    var states := [s] + rest;
    forall i | 0 <= i < |states| - 1
      ensures InFlight(states[i].calls[id]) && Steps(cfg, states[i], states[i + 1])
    {
      if i > 0 {
        assert InFlight(rest[i - 1].calls[id]) && Steps(cfg, rest[i - 1], rest[i - 1 + 1]);
      }
    }
    assert Leads(cfg, states, id) && Last(states) == Last(rest);
  }

  /** A call that holds an old generation, the caller itself or another, can have the last word. */
  lemma {:induction false} Overtaken<T(!new), J(!new), Q(!new)>(
      cfg: Setup<T, J, Q>, s: State<T, J, Q>, id: nat, d: nat, g: nat)
    requires Inv(cfg, s) && id in s.calls && InFlight(s.calls[id]) && d in s.calls
    requires ReadsOld(s, id, g) || (Pending(s.calls[d]) && s.calls[d].gen < g)
    ensures AnswerableBelow(cfg, s, id, g)
    decreases Distance(s.calls[id]) + Distance(s.calls[d])
  {
    assert CallOk(cfg, s, s.calls[id]);
    if ReadsOld(s, id, g) {
      var c := s.calls[id];
      var s' := s.(calls := s.calls[id :=
        Answered(c.query, c.gen, c.floor, s.tag.gen, cfg.permits(s.judged, c.query))]);
      assert Next(cfg, s, Answer(id), s');
      var states: seq<State<T, J, Q>> := [s, s'];
      assert Leads(cfg, states, id) && Last(states) == s';
    } else {
      var s' := Advance(cfg, s, if Pending(s.calls[id]) then id else d);
      Overtaken(cfg, s', id, d, g);
      Prepend(cfg, s, s', id, g);
    }
  }

  /** A call in flight can be answered from below g exactly when some call, itself included, still
      holds a generation below g, or it is about to read a cache tagged below g. */
  lemma AnswerableBelowExactly<T(!new), J(!new), Q(!new)>(cfg: Setup<T, J, Q>, s: State<T, J, Q>, id: nat, g: nat)
    requires Inv(cfg, s) && id in s.calls && InFlight(s.calls[id]) && g <= |s.published|
    ensures AnswerableBelow(cfg, s, id, g) <==> OldHeld(s, g) || ReadsOld(s, id, g)
  {
    if AnswerableBelow(cfg, s, id, g) && !OldHeld(s, g) && !ReadsOld(s, id, g) {
      var states: seq<State<T, J, Q>> :| Leads(cfg, states, id) && states[0] == s && Last(states).calls[id].from < g;
      NeverAnsweredBelow(cfg, states, id, g);
      assert false;
    }
    if ReadsOld(s, id, g) {
      Overtaken(cfg, s, id, id, g);
    } else if OldHeld(s, g) {
      var d :| d in s.calls && Pending(s.calls[d]) && s.calls[d].gen < g;
      Overtaken(cfg, s, id, d, g);
    }
  }

  /** A verdict can be older than the generation its own call read exactly when, as the call
      began, another call was still holding an older one. */
  lemma StaleExactly<T(!new), J(!new), Q(!new)>(
      cfg: Setup<T, J, Q>, s: State<T, J, Q>, id: nat, q: Q, bound: nat, s': State<T, J, Q>)
    requires Inv(cfg, s) && Next(cfg, s, Begin(id, q, bound), s')
    ensures s'.calls[id].gen == |s.published|
    ensures AnswerableBelow(cfg, s', id, s'.calls[id].gen) <==> OldHeld(s, |s.published|)
  {
    var g := |s.published|;
    NextKeeps(cfg, s, Begin(id, q, bound), s');
    AnswerableBelowExactly(cfg, s', id, g);
    if OldHeld(s, g) {
      var d :| d in s.calls && Pending(s.calls[d]) && s.calls[d].gen < g;
      assert s'.calls[d] == s.calls[d];
    }
    if OldHeld(s', g) {
      var d :| d in s'.calls && Pending(s'.calls[d]) && s'.calls[d].gen < g;
      assert s.calls[d] == s'.calls[d];
    }
  }

  /** The generation behind a verdict is not monotone: a slow reader of generation 0 overwrites
      the cache, and a caller that itself read generation 1 is answered from generation 0. */
  lemma SlowReaderOverwrites<T(!new), J, Q(!new)>(cfg: Setup<T, J, Q>, t: T, q: Q) returns (states: seq<State<T, J, Q>>)
    ensures Run(cfg, states)
    ensures 1 in Last(states).calls && Last(states).calls[1].Answered?
    ensures Last(states).calls[1].gen == 1 && Last(states).calls[1].from == 0
  {
    var none: Option<T> := None;
    var slow := Holding(q, 0, none, 0);
    var fast := Holding(q, 1, Some(t), 0);
    var s0 := State([], Never, cfg.expand(None), map[]);
    var s1 := s0.(calls := map[0 := slow]);
    var s2 := s1.(published := [t]);
    var s3 := s2.(calls := s2.calls[1 := fast]);
    var s4 := s3.(calls := s3.calls[1 := Locking(q, 1, Some(t), 0)]);
    var s5 := State([t], Gen(1), cfg.expand(Some(t)), s4.calls[1 := Reading(q, 1, Some(t), 0)]);
    var s6 := s5.(calls := s5.calls[0 := Locking(q, 0, none, 0)]);
    var s7 := State([t], Gen(0), cfg.expand(None), s6.calls[0 := Reading(q, 0, none, 0)]);
    var s8 := s7.(calls := s7.calls[1 := Answered(q, 1, 0, 0, cfg.permits(s7.judged, q))]);
    states := [s0];
    states := Extend(cfg, states, Begin(0, q, 0), s1);
    states := Extend(cfg, states, Publish(t), s2);
    states := Extend(cfg, states, Begin(1, q, 0), s3);
    states := Extend(cfg, states, Check(1), s4);
    states := Extend(cfg, states, Rebuild(1), s5);
    states := Extend(cfg, states, Check(0), s6);
    states := Extend(cfg, states, Rebuild(0), s7);
    states := Extend(cfg, states, Answer(1), s8);
  }

  lemma Extend<T(!new), J, Q(!new)>(
      cfg: Setup<T, J, Q>, states: seq<State<T, J, Q>>, step: Step<T, Q>, s': State<T, J, Q>)
    returns (longer: seq<State<T, J, Q>>)
    requires Run(cfg, states) && Next(cfg, Last(states), step, s')
    ensures Run(cfg, longer) && Last(longer) == s'
  {
    longer := states + [s'];
    forall i | 0 <= i < |longer| - 1 ensures Steps(cfg, longer[i], longer[i + 1]) {
      if i < |states| - 1 {
        assert Steps(cfg, states[i], states[i + 1]);
      }
    }
  }
}
