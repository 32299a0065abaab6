/** Named groups that may refer to each other, and the proof that expanding them is reachability. */
module Groups {
  import opened Base
  import opened Text

  type GroupMap = map<Bytes, seq<Bytes>>

  /** The group a member names, if it is a reference to a known one. */
  function KnownRef(groups: GroupMap, m: Bytes): (r: Option<Bytes>)
    ensures r.Some? ==> r.value in groups
  {
    match StripByte(m, AT)
    case None => None
    case Some(name) => if name in groups then Some(name) else None
  }

  /** Anything that does not expand: a source, or a reference to no known group. */
  predicate IsLiteral(groups: GroupMap, m: Bytes) {
    KnownRef(groups, m).None?
  }

  /** A reference is an at sign and the name of a group; nothing else is one. */
  lemma RefExactly(groups: GroupMap, m: Bytes, name: Bytes)
    ensures KnownRef(groups, [0x40] + name) == if name in groups then Some(name) else None
    ensures m == [] || m[0] != 0x40 ==> KnownRef(groups, m) == None && IsLiteral(groups, m)
  {
    assert ([0x40] + name)[1..] == name;
  }

  // ----- the walk ------------------------------------------------------------

  /** Walk members in order from a set of groups already expanded. */
  function Walk(groups: GroupMap, members: seq<Bytes>, seen: set<Bytes>): (r: (seq<Bytes>, set<Bytes>))
    requires seen <= groups.Keys
    ensures seen <= r.1 <= groups.Keys
    decreases groups.Keys - seen, |members|
  {
    if members == [] then ([], seen)
    else
      var (head, seen1) := WalkOne(groups, members[0], seen);
      var (rest, seen2) := Walk(groups, members[1..], seen1);
      (head + rest, seen2)
  }

  /** A known unseen reference expands, a seen one is skipped, anything else is a literal. */
  function WalkOne(groups: GroupMap, m: Bytes, seen: set<Bytes>): (r: (seq<Bytes>, set<Bytes>))
    requires seen <= groups.Keys
    ensures seen <= r.1 <= groups.Keys
    decreases groups.Keys - seen, 0
  {
    match KnownRef(groups, m)
    case None => ([m], seen)
    case Some(name) =>
      if name in seen then ([], seen)
      else
        assert name in groups.Keys - seen;
        Walk(groups, groups[name], seen + {name})
  }

  /** What `Graph.Resolve` computes. */
  function Expand(groups: GroupMap, entry: seq<Bytes>): seq<Bytes> {
    Walk(groups, entry, {}).0
  }

  /** The two collections a walk grows as it goes. */
  class WalkState {
    var out: seq<Bytes>
    var seen: set<Bytes>

    constructor ()
      ensures out == [] && seen == {}
    {
      out, seen := [], {};
    }
  }

  class Graph {
    var groups: GroupMap

    constructor ()
      ensures groups == map[]
    {
      groups := map[];
    }

    /** No member list is refused, and the latest one under a name stands. */
    method Upsert(name: Bytes, members: seq<Bytes>)
      modifies this
      ensures groups == old(groups)[name := members]
    {
      groups := groups[name := members];
    }

    method Resolve(entry: seq<Bytes>) returns (out: seq<Bytes>)
      ensures out == Expand(groups, entry)
    {
      var st := new WalkState();
      for i := 0 to |entry|
        invariant st.seen <= groups.Keys
        invariant Expand(groups, entry) == st.out + Walk(groups, entry[i..], st.seen).0
      {
        assert entry[i..][1..] == entry[i + 1..];
        WalkMember(entry[i], st);
      }
      out := st.out;
    }

    method WalkMember(m: Bytes, st: WalkState)
      requires st.seen <= groups.Keys
      modifies st
      ensures st.out == old(st.out) + WalkOne(groups, m, old(st.seen)).0
      ensures st.seen == WalkOne(groups, m, old(st.seen)).1
      decreases groups.Keys - st.seen
    {
      if m != [] && m[0] == AT {
        var name := m[1..];
        if name in groups {
          if name !in st.seen {
            ghost var whole := Walk(groups, groups[name], st.seen + {name});
            st.seen := st.seen + {name};
            var members := groups[name];
            for i := 0 to |members|
              invariant old(st.seen) + {name} <= st.seen <= groups.Keys
              invariant whole.1 == Walk(groups, members[i..], st.seen).1
              invariant old(st.out) + whole.0 == st.out + Walk(groups, members[i..], st.seen).0
            {
              assert members[i..][1..] == members[i + 1..];
              assert name in groups.Keys - old(st.seen) && name !in groups.Keys - st.seen;
              WalkMember(members[i], st);
            }
          }
        } else {
          st.out := st.out + [m];
        }
      } else {
        st.out := st.out + [m];
      }
    }
  }

  // ----- reachability --------------------------------------------------------

  /** A chain of members, each a known reference whose group lists the next. */
  ghost predicate Path(groups: GroupMap, entry: seq<Bytes>, p: seq<Bytes>) {
    && p != [] && p[0] in entry
    && forall k :: 0 <= k < |p| - 1 ==> Lists(groups, p[k], p[k + 1])
  }

  ghost predicate Lists(groups: GroupMap, m: Bytes, next: Bytes) {
    match KnownRef(groups, m)
    case None => false
    case Some(name) => next in groups[name]
  }

  ghost predicate Reachable(groups: GroupMap, entry: seq<Bytes>, m: Bytes) {
    exists p :: Path(groups, entry, p) && Last(p) == m
  }

  lemma ReachableHere(groups: GroupMap, entry: seq<Bytes>, m: Bytes)
    requires m in entry
    ensures Reachable(groups, entry, m)
  {
    assert Path(groups, entry, [m]) && Last([m]) == m;
  }

  lemma ReachableThrough(groups: GroupMap, entry: seq<Bytes>, m: Bytes, name: Bytes, x: Bytes)
    requires m in entry && KnownRef(groups, m) == Some(name) && Reachable(groups, groups[name], x)
    ensures Reachable(groups, entry, x)
  {
    var p :| Path(groups, groups[name], p) && Last(p) == x;
    var q := [m] + p;
    forall k | 0 <= k < |q| - 1 ensures Lists(groups, q[k], q[k + 1]) {
      if k > 0 {
        assert q[k] == p[k - 1] && q[k + 1] == p[k];
      }
    }
    assert Path(groups, entry, q) && Last(q) == x;
  }

  lemma ReachableFromMore(groups: GroupMap, few: seq<Bytes>, many: seq<Bytes>, x: Bytes)
    requires Reachable(groups, few, x) && forall m :: m in few ==> m in many
    ensures Reachable(groups, many, x)
  {
    var p :| Path(groups, few, p) && Last(p) == x;
    assert Path(groups, many, p);
  }

  /** A group counts as named when some reachable member refers to it. */
  ghost predicate Named(groups: GroupMap, entry: seq<Bytes>, name: Bytes) {
    exists m :: Reachable(groups, entry, m) && KnownRef(groups, m) == Some(name)
  }

  /** Soundness: only reachable literals come out, only reachable groups expand. */
  lemma {:induction false} WalkIsSound(groups: GroupMap, members: seq<Bytes>, seen: set<Bytes>)
    requires seen <= groups.Keys
    ensures var (out, seen') := Walk(groups, members, seen);
      && (forall x :: x in out ==> IsLiteral(groups, x) && Reachable(groups, members, x))
      && (forall n :: n in seen' && n !in seen ==> Named(groups, members, n))
    decreases groups.Keys - seen, |members|
  {
    if members != [] {
      var m, rest := members[0], members[1..];
      var (head, seen1) := WalkOne(groups, m, seen);
      WalkIsSound(groups, rest, seen1);
      ReachableHere(groups, members, m);
      forall x | Reachable(groups, rest, x) ensures Reachable(groups, members, x) {
        ReachableFromMore(groups, rest, members, x);
      }
      match KnownRef(groups, m)
      case None =>
      case Some(name) =>
        if name !in seen {
          assert name in groups.Keys - seen;
          WalkIsSound(groups, groups[name], seen + {name});
          forall x | Reachable(groups, groups[name], x) ensures Reachable(groups, members, x) {
            ReachableThrough(groups, members, m, name, x);
          }
        }
    }
  }

  /** Nothing left to do for a member: its literal is out or its group was expanded. */
  ghost predicate Handled(groups: GroupMap, m: Bytes, out: seq<Bytes>, seen: set<Bytes>) {
    match KnownRef(groups, m)
    case None => m in out
    case Some(name) => name in seen
  }

  /** All members of the groups expanded since `before` are handled. */
  ghost predicate Closed(groups: GroupMap, before: set<Bytes>, out: seq<Bytes>, seen: set<Bytes>)
    requires seen <= groups.Keys
  {
    forall n, m :: n in seen && n !in before && m in groups[n] ==> Handled(groups, m, out, seen)
  }

  /** Completeness: every member walked, and every member of a newly expanded group, is handled. */
  lemma {:induction false} WalkIsClosed(groups: GroupMap, members: seq<Bytes>, seen: set<Bytes>)
    requires seen <= groups.Keys
    ensures var (out, seen') := Walk(groups, members, seen);
      (forall m :: m in members ==> Handled(groups, m, out, seen')) && Closed(groups, seen, out, seen')
    decreases groups.Keys - seen, |members|
  {
    if members != [] {
      var m := members[0];
      var (head, seen1) := WalkOne(groups, m, seen);
      var (rest, seen2) := Walk(groups, members[1..], seen1);
      OneIsClosed(groups, m, seen);
      WalkIsClosed(groups, members[1..], seen1);
      assert forall x :: x in head || x in rest ==> x in head + rest;
      assert forall x :: Handled(groups, x, head, seen1) ==> Handled(groups, x, head + rest, seen2);
      assert forall x :: Handled(groups, x, rest, seen2) ==> Handled(groups, x, head + rest, seen2);
      assert forall x :: x in members ==> x == m || x in members[1..];
    }
  }

  lemma {:induction false} OneIsClosed(groups: GroupMap, m: Bytes, seen: set<Bytes>)
    requires seen <= groups.Keys
    ensures var (out, seen') := WalkOne(groups, m, seen);
      Handled(groups, m, out, seen') && Closed(groups, seen, out, seen')
    decreases groups.Keys - seen, 0
  {
    match KnownRef(groups, m)
    case None =>
    case Some(name) =>
      if name !in seen {
        assert name in groups.Keys - seen;
        WalkIsClosed(groups, groups[name], seen + {name});
      }
  }

  lemma {:induction false} PathIsHandled(groups: GroupMap, entry: seq<Bytes>, p: seq<Bytes>)
    requires Path(groups, entry, p)
    ensures var (out, seen) := Walk(groups, entry, {}); Handled(groups, Last(p), out, seen)
  {
    WalkIsClosed(groups, entry, {});
    if |p| > 1 {
      var q := p[..|p| - 1];
      assert forall k :: 0 <= k < |q| ==> q[k] == p[k];
      PathIsHandled(groups, entry, q);
      assert Lists(groups, p[|p| - 2], p[|p| - 2 + 1]);
    }
  }

  /** The walk returns precisely the reachable literals, whatever cycles the groups have. */
  lemma ExpandIsReachability(groups: GroupMap, entry: seq<Bytes>, x: Bytes)
    ensures x in Expand(groups, entry) <==> IsLiteral(groups, x) && Reachable(groups, entry, x)
  {
    WalkIsSound(groups, entry, {});
    if IsLiteral(groups, x) && Reachable(groups, entry, x) {
      var p :| Path(groups, entry, p) && Last(p) == x;
      PathIsHandled(groups, entry, p);
    }
  }

  /** A group is expanded exactly when it is reachable. */
  lemma ExpandedIsNamed(groups: GroupMap, entry: seq<Bytes>, name: Bytes)
    ensures name in Walk(groups, entry, {}).1 <==> Named(groups, entry, name)
  {
    WalkIsSound(groups, entry, {});
    if Named(groups, entry, name) {
      var m :| Reachable(groups, entry, m) && KnownRef(groups, m) == Some(name);
      var p :| Path(groups, entry, p) && Last(p) == m;
      PathIsHandled(groups, entry, p);
    }
  }

  // ----- once each -----------------------------------------------------------

  /** How often a member list holds a literal directly. */
  ghost function Own(groups: GroupMap, members: seq<Bytes>, x: Bytes): nat {
    if members == [] then 0
    else (if IsLiteral(groups, members[0]) && members[0] == x then 1 else 0) + Own(groups, members[1..], x)
  }

  ghost function OwnOfAll(groups: GroupMap, names: set<Bytes>, x: Bytes): nat
    requires names <= groups.Keys
  {
    if names == {} then 0
    else
      var n :| n in names;
      Own(groups, groups[n], x) + OwnOfAll(groups, names - {n}, x)
  }

  lemma {:induction false} OwnOfOneMore(groups: GroupMap, names: set<Bytes>, n: Bytes, x: Bytes)
    requires names <= groups.Keys && n in names
    ensures OwnOfAll(groups, names, x) == Own(groups, groups[n], x) + OwnOfAll(groups, names - {n}, x)
    decreases names
  {
    var k :| k in names && OwnOfAll(groups, names, x) == Own(groups, groups[k], x) + OwnOfAll(groups, names - {k}, x);
    if k != n {
      OwnOfOneMore(groups, names - {k}, n, x);
      OwnOfOneMore(groups, names - {n}, k, x);
      assert names - {k} - {n} == names - {n} - {k};
    }
  }

  lemma {:induction false} OwnOfUnion(groups: GroupMap, a: set<Bytes>, b: set<Bytes>, x: Bytes)
    requires a <= groups.Keys && b <= groups.Keys && a !! b
    ensures OwnOfAll(groups, a + b, x) == OwnOfAll(groups, a, x) + OwnOfAll(groups, b, x)
    decreases a
  {
    if a == {} {
      assert a + b == b;
    } else {
      var n :| n in a;
      OwnOfOneMore(groups, a, n, x);
      OwnOfOneMore(groups, a + b, n, x);
      assert a + b - {n} == (a - {n}) + b;
      OwnOfUnion(groups, a - {n}, b, x);
    }
  }

  /** The output is the entry's own literals and those of every newly expanded group, once. */
  lemma {:induction false} WalkCounts(groups: GroupMap, members: seq<Bytes>, seen: set<Bytes>, x: Bytes)
    requires seen <= groups.Keys
    ensures var (out, seen') := Walk(groups, members, seen);
      multiset(out)[x] == Own(groups, members, x) + OwnOfAll(groups, seen' - seen, x)
    decreases groups.Keys - seen, |members|
  {
    if members == [] {
      assert seen - seen == {};
    } else {
      var m := members[0];
      var (head, seen1) := WalkOne(groups, m, seen);
      var (rest, seen2) := Walk(groups, members[1..], seen1);
      OneCounts(groups, m, seen, x);
      WalkCounts(groups, members[1..], seen1, x);
      assert seen2 - seen == (seen1 - seen) + (seen2 - seen1);
      OwnOfUnion(groups, seen1 - seen, seen2 - seen1, x);
    }
  }

  lemma {:induction false} OneCounts(groups: GroupMap, m: Bytes, seen: set<Bytes>, x: Bytes)
    requires seen <= groups.Keys
    ensures var (out, seen') := WalkOne(groups, m, seen);
      multiset(out)[x] == (if IsLiteral(groups, m) && m == x then 1 else 0) + OwnOfAll(groups, seen' - seen, x)
    decreases groups.Keys - seen, 0
  {
    assert seen - seen == {};
    match KnownRef(groups, m)
    case None =>
    case Some(name) =>
      if name !in seen {
        assert name in groups.Keys - seen;
        WalkCounts(groups, groups[name], seen + {name}, x);
        var (out, seen') := Walk(groups, groups[name], seen + {name});
        OwnOfOneMore(groups, seen' - seen, name, x);
        assert seen' - seen - {name} == seen' - (seen + {name});
      }
  }

  /** Each reachable group is expanded exactly once: its literals are counted once. */
  lemma ExpandsEachGroupOnce(groups: GroupMap, entry: seq<Bytes>, x: Bytes)
    ensures var named := set n | n in groups.Keys && Named(groups, entry, n);
      multiset(Expand(groups, entry))[x] == Own(groups, entry, x) + OwnOfAll(groups, named, x)
  {
    var named := set n | n in groups.Keys && Named(groups, entry, n);
    var seen := Walk(groups, entry, {}).1;
    WalkCounts(groups, entry, {}, x);
    forall n ensures n in seen - {} <==> n in named {
      ExpandedIsNamed(groups, entry, n);
    }
    assert seen - {} == named;
  }

  // ----- short lists ---------------------------------------------------------

  /** A member that is not a reference reaches itself alone. */
  lemma SoleLiteral(groups: GroupMap, m: Bytes, x: Bytes)
    requires m == [] || m[0] != 0x40
    ensures IsLiteral(groups, x) && Reachable(groups, [m], x) <==> x == m
  {
    ReachableHere(groups, [m], m);
    if Reachable(groups, [m], x) {
      var p :| Path(groups, [m], p) && Last(p) == x;
      assert |p| > 1 ==> Lists(groups, p[0], p[0 + 1]);
    }
  }

  /** A reference to a group of plain members reaches exactly them. */
  lemma SoleGroup(groups: GroupMap, name: Bytes, x: Bytes)
    requires name in groups && forall m :: m in groups[name] ==> m == [] || m[0] != 0x40
    ensures IsLiteral(groups, x) && Reachable(groups, [[0x40] + name], x) <==> x in groups[name]
  {
    var r := [0x40] + name;
    RefExactly(groups, r, name);
    if x in groups[name] {
      ReachableHere(groups, groups[name], x);
      assert r in [r];
      ReachableThrough(groups, [r], r, name, x);
    }
    if IsLiteral(groups, x) && Reachable(groups, [r], x) {
      var p :| Path(groups, [r], p) && Last(p) == x;
      assert p[0] == r && |p| > 1;
      assert Lists(groups, p[0], p[0 + 1]);
      assert |p| > 2 ==> Lists(groups, p[1], p[1 + 1]);
    }
  }
}
