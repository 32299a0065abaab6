/** An enforcing filter: authored rules, the table in force, and the expansion kept between calls. */
module Config {
  import opened Base
  import opened Text
  import opened Rules
  import opened Cache

  /** What a generation means to a filter: its expansion, or deny-all before any table. */
  ghost function Expansion(host: Host, raw: RawRules, t: Option<Table>): (j: Judged)
    ensures j.Valid()
    ensures t.None? ==> j == DenyAll(raw.scopes.Some?)
    ensures t.Some? && t.value.scheme.Compiled() ==> j == JudgeAgainst(host, raw, t.value).value
  {
    if t.Some? && t.value.scheme.Compiled() then JudgeAgainst(host, raw, t.value).value
    else DenyAll(raw.scopes.Some?)
  }

  /** The process-wide cell: a generation and its table. */
  class Published {
    var gen: nat
    var table: Option<Table>
    ghost var history: seq<Table>

    ghost predicate Valid()
      reads this
    {
      && gen == |history| && table == TableAt(history, gen)
      && forall t :: t in history ==> t.scheme.Compiled()
    }

    constructor ()
      ensures Valid() && history == []
    {
      gen, table, history := 0, None, [];
    }

    method Publish(t: Table)
      requires Valid() && t.scheme.Compiled()
      modifies this
      ensures Valid() && history == old(history) + [t]
    {
      gen := gen + 1;
      table := Some(t);
      history := history + [t];
    }

    method Read() returns (g: nat, t: Option<Table>)
      requires Valid()
      ensures g == gen == |history| && t == TableAt(history, g)
    {
      return gen, table;
    }
  }

  /** Rules and their cached expansion. */
  class Enforcer {
    const raw: RawRules
    var tag: Tag
    var judged: Judged

    ghost predicate Valid(host: Host, history: seq<Table>)
      reads this
    {
      match tag
      case Never => judged == DenyAll(raw.scopes.Some?)
      case Gen(g) => g <= |history| && judged == Expansion(host, raw, TableAt(history, g))
    }

    /** A new filter has expanded nothing, so its first call always does. */
    constructor (host: Host, raw: RawRules)
      ensures this.raw == raw && forall history :: Valid(host, history)
    {
      this.raw := raw;
      tag := Never;
      judged := DenyAll(raw.scopes.Some?);
    }

    /** An uninterrupted call judges against the latest table, whatever the cache held. */
    method Permits(host: Host, cell: Published, sni: Bytes, addr: u128) returns (b: bool)
      requires cell.Valid() && Valid(host, cell.history)
      modifies this
      ensures Valid(host, cell.history) && tag == Gen(cell.gen)
      ensures b == Expansion(host, raw, TableAt(cell.history, cell.gen)).Permits(sni, addr)
    {
      var gen, table := cell.Read();
      if tag != Gen(gen) {
        match table {
          case Some(t) =>
            assert t in cell.history;
            var j := Judge(host, raw, t);
            judged := if j.Ok? then j.value else DenyAll(raw.scopes.Some?);
          case None =>
            judged := DenyAll(raw.scopes.Some?);
        }
        tag := Gen(gen);
      }
      b := Ask(judged, sni, addr);
    }
  }

  // ----- interleaved calls ---------------------------------------------------

  ghost predicate Permitted(j: Judged, q: (Bytes, u128)) {
    j.Valid() && j.Permits(q.0, q.1)
  }

  /** The protocol of Cache, run by a filter on real tables. */
  ghost function FilterSetup(host: Host, raw: RawRules): Setup<Table, Judged, (Bytes, u128)> {
    Setup((t: Option<Table>) => Expansion(host, raw, t), (j: Judged, q: (Bytes, u128)) => Permitted(j, q))
  }

  /** Every verdict under every interleaving is the whole judgement of one published table,
      or the denial that precedes the first. */
  lemma EveryVerdictJudgesOneTable(
      host: Host, raw: RawRules, states: seq<State<Table, Judged, (Bytes, u128)>>, i: nat, id: nat)
    requires Run(FilterSetup(host, raw), states) && i < |states|
    requires id in states[i].calls && states[i].calls[id].Answered?
    requires forall t :: t in states[i].published ==> t.scheme.Compiled()
    ensures var c := states[i].calls[id];
      c.from <= |states[i].published| &&
      match TableAt(states[i].published, c.from)
      case None => !c.verdict
      case Some(t) => t.scheme.Compiled() && c.verdict == JudgeAgainst(host, raw, t).value.Permits(c.query.0, c.query.1)
  {
    VerdictOfOneGeneration(FilterSetup(host, raw), states, i, id);
    var t := TableAt(states[i].published, states[i].calls[id].from);
    assert t.Some? ==> t.value in states[i].published;
  }
}
