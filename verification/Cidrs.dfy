/** The IPv6 CIDR set: ranges sorted, merged and searched by bisection. A CIDR is the
    pair (address, width) its text denotes. */
module Cidrs {
  import opened Base

  datatype Cidr = Cidr(addr: u128, width: nat)

  datatype Range = Range(start: u128, end: u128) {
    predicate Has(a: int) {
      start <= a <= end
    }

    predicate Within(r: Range) {
      r.start <= start && end <= r.end
    }

    predicate Clear(r: Range) {
      end < r.start || r.end < start
    }
  }

  datatype CidrError = WidthAbove128

  /** Addresses one prefix of this width covers. */
  function Block(width: nat): int
    requires width <= 128
  {
    Pow2(128 - width)
  }

  /** One address at 128, twice as many with each bit less, everything at 0. */
  lemma BlockHalves(width: nat)
    requires width <= 128
    ensures width == 128 ==> Block(width) == 1
    ensures width < 128 ==> Block(width) == 2 * Block(width + 1)
    ensures width == 0 ==> Block(width) == TOP
  {
    Pow2Of128();
  }

  /** First and last address of a prefix: the bits below the width all zero, then all one. */
  function RangeOf(addr: u128, width: nat): (r: Range)
    requires width <= 128
    ensures r.Has(addr)
  {
    BlockFits(addr, width);
    if width == 0 then Range(0, MAX)
    else
      var start := addr - addr % Block(width);
      Range(start, start + (Block(width) - 1))
  }

  lemma BlockFits(addr: u128, width: nat)
    requires width <= 128
    ensures var start := addr - addr % Block(width); 0 <= start <= addr < start + Block(width) <= TOP
    ensures width == 0 ==> Block(width) == TOP
  {
    DivFloor(addr, Block(width));
    Pow2Add(width, 128 - width);
    Pow2Words();
    BlockEnds(addr, Block(width), Pow2(width));
  }

  /** A prefix covers exactly the addresses that agree with it above its block. */
  lemma RangeHas(addr: u128, width: nat, a: u128)
    requires width <= 128
    ensures RangeOf(addr, width).Has(a) <==> a / Block(width) == addr / Block(width)
  {
    DivFloor(addr, Block(width));
    SameBlock(addr, a, Block(width));
    if width == 0 {
      BlockFits(addr, 0);
      assert a / TOP == 0 == addr / TOP;
    }
  }

  function ParseCidr(c: Cidr): (r: Result<Range, CidrError>)
    ensures r.Ok? <==> c.width <= 128
  {
    if c.width > 128 then Err(WidthAbove128) else Ok(RangeOf(c.addr, c.width))
  }

  // ----- prefixes never straddle ---------------------------------------------

  /** Two prefixes are nested or disjoint. */
  lemma PrefixesNest(a: u128, v: nat, b: u128, w: nat)
    requires v <= w <= 128
    ensures RangeOf(b, w).Within(RangeOf(a, v)) || RangeOf(b, w).Clear(RangeOf(a, v))
  {
    var r, s := RangeOf(a, v), RangeOf(b, w);
    if !s.Clear(r) {
      var x: u128 := if r.start <= s.start then s.start else r.start;
      FinerFollows(a, v, b, w, x, s.start);
      FinerFollows(a, v, b, w, x, s.end);
    }
  }

  /** A finer prefix that meets a coarser one at x takes its every address along. */
  lemma FinerFollows(a: u128, v: nat, b: u128, w: nat, x: u128, y: u128)
    requires v <= w <= 128
    requires RangeOf(a, v).Has(x) && RangeOf(b, w).Has(x) && RangeOf(b, w).Has(y)
    ensures RangeOf(a, v).Has(y)
  {
    RangeHas(a, v, x);
    RangeHas(a, v, y);
    RangeHas(b, w, x);
    RangeHas(b, w, y);
    Pow2Add(128 - w, w - v);
    DivDiv(x, Block(w), Pow2(w - v));
    DivDiv(y, Block(w), Pow2(w - v));
  }

  ghost predicate Laminar(rs: seq<Range>) {
    forall r, s :: r in rs && s in rs ==> r.Within(s) || s.Within(r) || r.Clear(s)
  }

  // ----- the set -------------------------------------------------------------

  ghost predicate InSome(rs: seq<Range>, a: int) {
    exists r :: r in rs && r.Has(a)
  }

  /** Sorted and pairwise disjoint. */
  ghost predicate Separated(rs: seq<Range>) {
    && (forall r :: r in rs ==> r.start <= r.end)
    && forall i, j :: 0 <= i < j < |rs| ==> rs[i].end < rs[j].start
  }

  datatype CidrSet = CidrSet(ranges: seq<Range>, span: (u128, u128)) {
    /** Either empty form is lawful: the built one is (MAX, 0), the default one (0, 0). */
    ghost predicate Valid() {
      && Separated(ranges)
      && (ranges != [] ==> span == (ranges[0].start, Last(ranges).end))
      && (ranges == [] ==> span == (MAX, 0) || span == (0, 0))
    }

    /** The last range starting at or before `a` is the only one that can hold it. */
    lemma FoundBefore(a: u128, i: nat)
      requires Valid() && i <= |ranges|
      requires forall j :: 0 <= j < i ==> ranges[j].start <= a
      requires forall j :: i <= j < |ranges| ==> ranges[j].start > a
      ensures InSome(ranges, a) <==> i > 0 && a <= ranges[i - 1].end
      ensures InSome(ranges, a) ==> span.0 <= a <= span.1
      ensures forall r :: r in ranges && r.Has(a) ==> i > 0 && r == ranges[i - 1]
    {
      forall r | r in ranges && r.Has(a) ensures i > 0 && r == ranges[i - 1] {
        var k :| 0 <= k < |ranges| && ranges[k] == r;
      }
      if i > 0 && a <= ranges[i - 1].end {
        assert ranges[i - 1] in ranges;
      }
    }

    predicate Contains(a: u128): (b: bool)
      requires Valid()
      ensures b <==> InSome(ranges, a)
    {
      var i := PartitionPoint(ranges, (r: Range) => r.start <= a);
      FoundBefore(a, i);
      if a < span.0 || a > span.1 then false
      else i > 0 && a <= ranges[i - 1].end
    }

    predicate ContainsRange(start: u128, end: u128): (b: bool)
      requires Valid()
      ensures start <= end ==> (b <==> exists r :: r in ranges && Range(start, end).Within(r))
    {
      var i := PartitionPoint(ranges, (r: Range) => r.start <= start);
      FoundBefore(start, i);
      if start < span.0 || end > span.1 then false
      else i > 0 && end <= ranges[i - 1].end
    }
  }

  const DEFAULT_SET := CidrSet([], (0, 0))

  // ----- building ------------------------------------------------------------

  function MergeInto(merged: seq<Range>, r: Range): seq<Range> {
    if merged != [] && r.start <= Last(merged).end then
      if r.end > Last(merged).end then merged[|merged| - 1 := Range(Last(merged).start, r.end)] else merged
    else merged + [r]
  }

  function MergeAll(rs: seq<Range>): seq<Range> {
    if rs == [] then [] else MergeInto(MergeAll(rs[..|rs| - 1]), Last(rs))
  }

  function SpanOf(rs: seq<Range>): (u128, u128) {
    if rs == [] then (MAX, 0) else (rs[0].start, Last(rs).end)
  }

  function ParseAll(list: seq<Cidr>): (r: Result<seq<Range>, CidrError>)
    ensures r.Ok? <==> forall c :: c in list ==> c.width <= 128
    ensures r.Ok? ==> |r.value| == |list|
    ensures r.Ok? ==> forall i :: 0 <= i < |list| ==> r.value[i] == RangeOf(list[i].addr, list[i].width)
  {
    if list == [] then Ok([])
    else
      match ParseAll(list[..|list| - 1])
      case Err(e) => Err(e)
      case Ok(rs) =>
        match ParseCidr(Last(list))
        case Err(e) => Err(e)
        case Ok(r) => Ok(rs + [r])
  }

  /** What `BuildFrom` computes. */
  function Build(list: seq<Cidr>): (r: Result<CidrSet, CidrError>)
    ensures r.Ok? <==> forall c :: c in list ==> c.width <= 128
    ensures r.Ok? ==> r.value.Valid()
    ensures r.Ok? ==> forall a: u128 ::
      InSome(r.value.ranges, a) <==> exists c :: c in list && RangeOf(c.addr, c.width).Has(a)
  {
    match ParseAll(list)
    case Err(e) => Err(e)
    case Ok(raw) =>
      var sorted := SortBy(raw, (r: Range) => r.start);
      SameMembers(raw, sorted);
      MergedCovers(sorted);
      var merged := MergeAll(sorted);
      ListCoverage(list, raw, sorted, merged);
      Ok(CidrSet(merged, SpanOf(merged)))
  }

  ghost predicate SortedByStart(rs: seq<Range>) {
    && (forall r :: r in rs ==> r.start <= r.end)
    && forall i, j :: 0 <= i < j < |rs| ==> rs[i].start <= rs[j].start
  }

  lemma {:induction false} MergedCovers(rs: seq<Range>)
    requires SortedByStart(rs)
    ensures Separated(MergeAll(rs))
    ensures forall a: int :: InSome(MergeAll(rs), a) <==> InSome(rs, a)
    ensures rs != [] ==> MergeAll(rs) != [] && Last(MergeAll(rs)).start <= Last(rs).start
  {
    if rs == [] {
    } else {
      var front, r := rs[..|rs| - 1], Last(rs);
      MergedCovers(front);
      MergeOne(MergeAll(front), r);
      assert rs == front + [r];
      if front != [] {
        assert Last(front) == rs[|rs| - 2];
      }
    }
  }

  lemma MergeOne(m: seq<Range>, r: Range)
    requires Separated(m) && r.start <= r.end && (m != [] ==> Last(m).start <= r.start)
    ensures Separated(MergeInto(m, r))
    ensures MergeInto(m, r) != [] && Last(MergeInto(m, r)).start <= r.start
    ensures forall a: int :: InSome(MergeInto(m, r), a) <==> InSome(m, a) || r.Has(a)
  {
    var out := MergeInto(m, r);
    if m != [] && r.start <= Last(m).end {
      var top := Last(m);
      assert m == m[..|m| - 1] + [top];
      assert out == m[..|m| - 1] + [Last(out)];
      forall a: int ensures InSome(out, a) <==> InSome(m, a) || r.Has(a) {
        assert Last(out).Has(a) <==> top.Has(a) || r.Has(a);
      }
    }
  }

  lemma ListCoverage(list: seq<Cidr>, raw: seq<Range>, sorted: seq<Range>, merged: seq<Range>)
    requires ParseAll(list) == Ok(raw)
    requires forall r :: r in raw <==> r in sorted
    requires forall a: int :: InSome(merged, a) <==> InSome(sorted, a)
    ensures forall a: u128 :: InSome(merged, a) <==> exists c :: c in list && RangeOf(c.addr, c.width).Has(a)
  {
    forall a: u128
      ensures InSome(merged, a) <==> exists c :: c in list && RangeOf(c.addr, c.width).Has(a)
    {
      if InSome(raw, a) {
        var r :| r in raw && r.Has(a);
        var i :| 0 <= i < |raw| && raw[i] == r;
        assert list[i] in list;
      }
      if c :| c in list && RangeOf(c.addr, c.width).Has(a) {
        var i :| 0 <= i < |list| && list[i] == c;
        assert raw[i] in raw;
      }
    }
  }

  /** Parse every entry or stop at the first bad one, sort by start, collapse, take the span. */
  method BuildFrom(list: seq<Cidr>) returns (r: Result<CidrSet, CidrError>)
    ensures r == Build(list)
  {
    var raw: seq<Range> := [];
    for i := 0 to |list|
      invariant ParseAll(list[..i]) == Ok(raw)
    {
      assert list[..i + 1][..i] == list[..i];
      match ParseCidr(list[i]) {
        case Err(e) =>
          assert list[i] in list && Build(list).Err? && Build(list).error == e;
          return Err(e);
        case Ok(range) =>
          raw := raw + [range];
      }
    }
    assert list[..|list|] == list;
    var sorted := SortBy(raw, (r: Range) => r.start);
    var ranges := Collapse(sorted);
    r := Ok(CidrSet(ranges, SpanOf(ranges)));
  }

  /** Overlaps collapse into the last merged range in place; adjacent ranges do not. */
  method Collapse(sorted: seq<Range>) returns (ranges: seq<Range>)
    ensures ranges == MergeAll(sorted)
  {
    ranges := [];
    for i := 0 to |sorted|
      invariant ranges == MergeAll(sorted[..i])
    {
      assert sorted[..i + 1][..i] == sorted[..i];
      var r := sorted[i];
      if |ranges| > 0 && r.start <= ranges[|ranges| - 1].end {
        if r.end > ranges[|ranges| - 1].end {
          ranges := ranges[|ranges| - 1 := ranges[|ranges| - 1].(end := r.end)];
        }
      } else {
        ranges := ranges + [r];
      }
    }
    assert sorted[..|sorted|] == sorted;
  }

  // ----- which ranges a built set holds --------------------------------------

  ghost predicate ListedRange(list: seq<Cidr>, r: Range) {
    exists c :: c in list && c.width <= 128 && r == RangeOf(c.addr, c.width)
  }

  /** The ranges of a built set are exactly the maximal listed prefixes. */
  lemma BuiltRangesAreMaximal(list: seq<Cidr>, r: Range)
    requires Build(list).Ok?
    ensures r in Build(list).value.ranges
       <==> ListedRange(list, r) && forall s :: ListedRange(list, s) && r.Within(s) ==> s == r
  {
    var raw := ParseAll(list).value;
    var sorted := SortBy(raw, (r: Range) => r.start);
    SameMembers(raw, sorted);
    RawIsListed(list);
    ListedNest(list, sorted);
    MergedAreMaximal(sorted, r);
  }

  lemma RawIsListed(list: seq<Cidr>)
    requires ParseAll(list).Ok?
    ensures forall s :: s in ParseAll(list).value <==> ListedRange(list, s)
  {
    var raw := ParseAll(list).value;
    forall s ensures s in raw <==> ListedRange(list, s) {
      if s in raw {
        var i :| 0 <= i < |raw| && raw[i] == s;
        assert list[i] in list;
      }
      if ListedRange(list, s) {
        var c :| c in list && c.width <= 128 && s == RangeOf(c.addr, c.width);
        var i :| 0 <= i < |list| && list[i] == c;
        assert raw[i] == s;
      }
    }
  }

  lemma MergedAreMaximal(rs: seq<Range>, r: Range)
    requires SortedByStart(rs) && Laminar(rs)
    ensures r in MergeAll(rs) <==> r in rs && forall s :: s in rs && r.Within(s) ==> s == r
  {
    var merged := MergeAll(rs);
    assert Separated(merged) by { MergedCovers(rs); }
    MergedAreInputs(rs);
    InputsAreInside(rs);
    if r in merged {
      forall s | s in rs && r.Within(s) ensures s == r {
        NothingAround(merged, r, s);
      }
    } else if r in rs {
      LargerInput(rs, r);
    }
  }

  lemma LargerInput(rs: seq<Range>, r: Range)
    requires SortedByStart(rs) && Laminar(rs) && r in rs && r !in MergeAll(rs)
    ensures exists s :: s in rs && r.Within(s) && s != r
  {
    MergedAreInputs(rs);
    InputsAreInside(rs);
    var m :| m in MergeAll(rs) && r.Within(m);
  }

  /** A range that holds a separated one, and lies inside some separated one, is that one. */
  lemma NothingAround(rs: seq<Range>, r: Range, s: Range)
    requires Separated(rs) && r in rs && r.Within(s) && Inside(s, rs)
    ensures s == r
  {
    var m :| m in rs && s.Within(m);
    SameRange(rs, r, m, r.start);
  }

  lemma SameRange(rs: seq<Range>, r: Range, s: Range, a: int)
    requires Separated(rs) && r in rs && s in rs && r.Has(a) && s.Has(a)
    ensures r == s
  {
    var i :| 0 <= i < |rs| && rs[i] == r;
    var j :| 0 <= j < |rs| && rs[j] == s;
  }

  lemma ListedNest(list: seq<Cidr>, rs: seq<Range>)
    requires forall r :: r in rs ==> ListedRange(list, r)
    ensures Laminar(rs)
  {
    forall r, s | r in rs && s in rs ensures r.Within(s) || s.Within(r) || r.Clear(s) {
      var c :| c in list && c.width <= 128 && r == RangeOf(c.addr, c.width);
      var d :| d in list && d.width <= 128 && s == RangeOf(d.addr, d.width);
      if c.width <= d.width {
        PrefixesNest(c.addr, c.width, d.addr, d.width);
      } else {
        PrefixesNest(d.addr, d.width, c.addr, c.width);
      }
    }
  }

  ghost predicate Inside(r: Range, rs: seq<Range>) {
    exists m :: m in rs && r.Within(m)
  }

  lemma {:induction false} MergedAreInputs(rs: seq<Range>)
    requires SortedByStart(rs) && Laminar(rs)
    ensures forall r :: r in MergeAll(rs) ==> r in rs
  {
    if rs != [] {
      var front, r := rs[..|rs| - 1], Last(rs);
      assert rs == front + [r] && Laminar(front);
      MergedAreInputs(front);
      LastMerged(rs);
      MergeOneInput(MergeAll(front), r);
    }
  }

  /** The last range merged so far starts no later than the next, and nests with it or is clear. */
  lemma LastMerged(rs: seq<Range>)
    requires SortedByStart(rs) && Laminar(rs) && rs != []
    requires forall r :: r in MergeAll(rs[..|rs| - 1]) ==> r in rs
    ensures var m, r := MergeAll(rs[..|rs| - 1]), Last(rs);
      m != [] ==> Last(m).start <= r.start && (r.Within(Last(m)) || Last(m).Within(r) || r.Clear(Last(m)))
  {
    var front, m := rs[..|rs| - 1], MergeAll(rs[..|rs| - 1]);
    if m != [] {
      MergedCovers(front);
      assert Last(front) == rs[|rs| - 2];
      assert Last(m) in rs && Last(rs) in rs;
    }
  }

  lemma {:induction false} InputsAreInside(rs: seq<Range>)
    requires SortedByStart(rs) && Laminar(rs)
    ensures forall r :: r in rs ==> Inside(r, MergeAll(rs))
  {
    if rs != [] {
      var front, r := rs[..|rs| - 1], Last(rs);
      assert rs == front + [r] && Laminar(front);
      MergedAreInputs(front);
      InputsAreInside(front);
      LastMerged(rs);
      var m := MergeAll(front);
      MergeOneInput(m, r);
      forall x | x in rs ensures Inside(x, MergeInto(m, r)) {
        if x in front {
          InsideStays(x, m, MergeInto(m, r));
        }
      }
    }
  }

  lemma InsideStays(x: Range, m: seq<Range>, out: seq<Range>)
    requires Inside(x, m) && forall y :: y in m ==> Inside(y, out)
    ensures Inside(x, out)
  {
    var y :| y in m && x.Within(y);
    var z :| z in out && y.Within(z);
  }

  /** A laminar merge either keeps the last range, replaces it whole, or appends. */
  lemma MergeOneInput(m: seq<Range>, r: Range)
    requires r.start <= r.end && (m != [] ==> Last(m).start <= r.start)
    requires m != [] ==> r.Within(Last(m)) || Last(m).Within(r) || r.Clear(Last(m))
    ensures forall x :: x in MergeInto(m, r) ==> x in m || x == r
    ensures forall x :: x in m || x == r ==> Inside(x, MergeInto(m, r))
  {
    var out := MergeInto(m, r);
    if m != [] && r.start <= Last(m).end {
      var top := Last(m);
      assert m == m[..|m| - 1] + [top];
      var joined := if r.end > top.end then r else top;
      assert out == m[..|m| - 1] + [joined];
      assert joined in out && top.Within(joined) && r.Within(joined);
      forall x | x in m || x == r ensures Inside(x, out) {
        if x != top && x != r {
          assert x in m[..|m| - 1];
          assert x in out && x.Within(x);
        }
      }
    } else {
      assert out == m + [r];
      forall x | x in m || x == r ensures Inside(x, out) {
        assert x in out && x.Within(x);
      }
    }
  }

  /** Whole-range containment holds exactly when one listed prefix covers the interval. */
  lemma ContainsRangeExactly(list: seq<Cidr>, start: u128, end: u128)
    requires Build(list).Ok? && start <= end
    ensures Build(list).value.ContainsRange(start, end)
       <==> exists r :: ListedRange(list, r) && Range(start, end).Within(r)
  {
    var built := Build(list).value;
    var q := Range(start, end);
    if built.ContainsRange(start, end) {
      var r :| r in built.ranges && q.Within(r);
      BuiltRangesAreMaximal(list, r);
    }
    if r :| ListedRange(list, r) && q.Within(r) {
      ListedIsInside(list, r);
      var m :| m in built.ranges && r.Within(m);
    }
  }

  lemma ListedIsInside(list: seq<Cidr>, r: Range)
    requires Build(list).Ok?
    ensures ListedRange(list, r) ==> Inside(r, Build(list).value.ranges)
  {
    var raw := ParseAll(list).value;
    var sorted := SortBy(raw, (r: Range) => r.start);
    SameMembers(raw, sorted);
    RawIsListed(list);
    ListedNest(list, sorted);
    InputsAreInside(sorted);
  }

  /** When the answer for an interval is yes: its start is contained and no stored range ends short
      of its end. So a covered interval is reported exactly when no boundary falls inside it. */
  lemma ContainsRangeCondition(stored: CidrSet, start: u128, end: u128)
    requires stored.Valid() && start <= end
    ensures stored.ContainsRange(start, end)
       <==> stored.Contains(start) && forall r :: r in stored.ranges ==> !(start <= r.end < end)
    ensures stored.ContainsRange(start, end) ==> forall a: u128 :: start <= a <= end ==> stored.Contains(a)
  {
    if stored.ContainsRange(start, end) {
      var r :| r in stored.ranges && Range(start, end).Within(r);
      assert r.Has(start);
      forall s | s in stored.ranges ensures !(start <= s.end < end) {
        if start <= s.end < end {
          SameRange(stored.ranges, r, s, s.end);
        }
      }
      forall a: u128 | start <= a <= end ensures stored.Contains(a) {
        assert r.Has(a);
      }
    } else if stored.Contains(start) {
      var r :| r in stored.ranges && r.Has(start);
      assert !Range(start, end).Within(r);
    }
  }

  /** Two stored ranges that touch contain every address of their union, yet the union is not
      reported as contained. */
  lemma TouchingRangesAreNotJoined(stored: CidrSet, low: Range, high: Range)
    requires stored.Valid() && low in stored.ranges && high in stored.ranges && low.end + 1 == high.start
    ensures forall a: u128 :: low.start <= a <= high.end ==> stored.Contains(a)
    ensures !stored.ContainsRange(low.start, high.end)
  {
    forall a: u128 | low.start <= a <= high.end ensures stored.Contains(a) {
      assert (if a <= low.end then low else high).Has(a);
    }
    forall r | r in stored.ranges ensures !Range(low.start, high.end).Within(r) {
      if Range(low.start, high.end).Within(r) {
        SameRange(stored.ranges, low, r, low.start);
      }
    }
  }

  /** A listed prefix clear of all other listed ones is stored. */
  lemma ClearPrefixIsStored(list: seq<Cidr>, r: Range)
    ensures Build(list).Ok? && ListedRange(list, r) && (forall s :: ListedRange(list, s) ==> s == r || s.Clear(r))
      ==> r in Build(list).value.ranges
  {
    if Build(list).Ok? && ListedRange(list, r) && forall s :: ListedRange(list, s) ==> s == r || s.Clear(r) {
      assert r.start <= r.end;
      BuiltRangesAreMaximal(list, r);
    }
  }

  /** A pair of clear prefixes that touch is built, covered and yet not reported. */
  lemma TouchingPairIsNotJoined(x: Cidr, y: Cidr, low: Range, high: Range)
    requires x.width <= 128 && y.width <= 128
    requires low == RangeOf(x.addr, x.width) && high == RangeOf(y.addr, y.width)
    requires low.end + 1 == high.start
    ensures Build([x, y]).Ok?
    ensures forall a: u128 :: low.start <= a <= high.end ==> Build([x, y]).value.Contains(a)
    ensures !Build([x, y]).value.ContainsRange(low.start, high.end)
  {
    var list := [x, y];
    assert list[0] in list && list[1] in list;
    assert ListedRange(list, low) && ListedRange(list, high);
    assert forall s :: ListedRange(list, s) ==> s == low || s == high;
    ClearPrefixIsStored(list, low);
    ClearPrefixIsStored(list, high);
    TouchingRangesAreNotJoined(Build(list).value, low, high);
  }

  /** The two halves of the address space: every address is contained, the whole is not. */
  lemma HalvesAreNotJoined()
    ensures var list := [Cidr(0, 1), Cidr(TOP / 2, 1)];
      && Build(list).Ok?
      && (forall a: u128 :: Build(list).value.Contains(a))
      && !Build(list).value.ContainsRange(0, MAX)
  {
    HalvesOfEverything();
    TouchingPairIsNotJoined(Cidr(0, 1), Cidr(TOP / 2, 1), Range(0, TOP / 2 - 1), Range(TOP / 2, MAX));
  }

  lemma HalvesOfEverything()
    ensures RangeOf(0, 1) == Range(0, TOP / 2 - 1) && RangeOf(TOP / 2, 1) == Range(TOP / 2, MAX)
  {
    Pow2Add(127, 1);
    Pow2Words();
    assert Pow2(127) == TOP / 2;
  }
}
