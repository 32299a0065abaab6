/** Which scope a server name falls in: its own, or else the longest wildcard that ends it. */
module Scopes {
  import opened Base
  import opened Text
  import opened Cidrs

  /** A wildcard is kept without its leading star and dot; any other text is matched whole. */
  datatype Pattern = Exact(name: Bytes) | Suffix(name: Bytes)

  datatype Scope = Scope(names: seq<Pattern>, allow: CidrSet)

  function Lower(b: byte): byte {
    if 0x41 <= b <= 0x5a then b + 0x20 else b
  }

  function Fold(s: Bytes): (r: Bytes)
    ensures |r| == |s| && forall i :: 0 <= i < |s| ==> r[i] == Lower(s[i])
  {
    seq(|s|, i requires 0 <= i < |s| => Lower(s[i]))
  }

  function ParsePattern(text: Bytes): Pattern {
    var lower := Fold(text);
    if |lower| >= 2 && lower[0] == STAR && lower[1] == DOT && lower[2..] != [] then Suffix(lower[2..])
    else Exact(lower)
  }

  /** Byte-wise comparison against the lowercased name. */
  predicate EqFold(pat: Bytes, sni: Bytes): (b: bool)
    ensures b <==> pat == Fold(sni)
  {
    |pat| == |sni| && forall i :: 0 <= i < |pat| ==> pat[i] == Lower(sni[i])
  }

  predicate NamesExactly(s: Scope, sni: Bytes): (b: bool)
    ensures b <==> Exact(Fold(sni)) in s.names
  {
    exists p :: p in s.names && p.Exact? && EqFold(p.name, sni)
  }

  predicate NamesSuffix(s: Scope, rest: Bytes): (b: bool)
    ensures b <==> Suffix(Fold(rest)) in s.names
  {
    exists p :: p in s.names && p.Suffix? && EqFold(p.name, rest)
  }

  // ----- the matcher ---------------------------------------------------------

  function FirstExact(scopes: seq<Scope>, sni: Bytes): (r: Option<nat>)
    ensures r.Some? ==> r.value < |scopes| && NamesExactly(scopes[r.value], sni)
    ensures forall j :: 0 <= j < (if r.Some? then r.value else |scopes|) ==> !NamesExactly(scopes[j], sni)
  {
    if scopes == [] then None
    else
      match FirstExact(scopes[..|scopes| - 1], sni)
      case Some(k) => Some(k)
      case None => if NamesExactly(Last(scopes), sni) then Some(|scopes| - 1) else None
  }

  function FirstSuffix(scopes: seq<Scope>, rest: Bytes): (r: Option<nat>)
    ensures r.Some? ==> r.value < |scopes| && NamesSuffix(scopes[r.value], rest)
    ensures forall j :: 0 <= j < (if r.Some? then r.value else |scopes|) ==> !NamesSuffix(scopes[j], rest)
  {
    if scopes == [] then None
    else
      match FirstSuffix(scopes[..|scopes| - 1], rest)
      case Some(k) => Some(k)
      case None => if NamesSuffix(Last(scopes), rest) then Some(|scopes| - 1) else None
  }

  /** Drop labels from the front until some scope holds what is left. */
  function MatchSuffix(scopes: seq<Scope>, rest: Bytes): (r: Option<nat>)
    ensures r.Some? ==> r.value < |scopes|
    decreases |rest|
  {
    match Find(rest, DOT)
    case None => None
    case Some(i) =>
      match FirstSuffix(scopes, rest[i + 1..])
      case Some(k) => Some(k)
      case None => MatchSuffix(scopes, rest[i + 1..])
  }

  function Match(scopes: seq<Scope>, sni: Bytes): (r: Option<nat>)
    ensures r.Some? ==> r.value < |scopes|
  {
    match FirstExact(scopes, sni)
    case Some(k) => Some(k)
    case None => MatchSuffix(scopes, sni)
  }

  function Chosen(scopes: seq<Scope>, k: Option<nat>): Option<CidrSet>
    requires k.Some? ==> k.value < |scopes|
  {
    match k
    case None => None
    case Some(i) => Some(scopes[i].allow)
  }

  method MatchScopes(scopes: seq<Scope>, sni: Bytes) returns (r: Option<CidrSet>)
    ensures r == Chosen(scopes, Match(scopes, sni))
  {
    var exact := ScanExact(scopes, sni);
    if exact.Some? {
      return Some(scopes[exact.value].allow);
    }
    var rest := sni;
    var dot := Find(rest, DOT);
    while dot.Some?
      invariant dot == Find(rest, DOT)
      invariant MatchSuffix(scopes, sni) == MatchSuffix(scopes, rest)
      decreases |rest|
    {
      rest := rest[dot.value + 1..];
      var suffix := ScanSuffix(scopes, rest);
      if suffix.Some? {
        return Some(scopes[suffix.value].allow);
      }
      dot := Find(rest, DOT);
    }
    return None;
  }

  method ScanExact(scopes: seq<Scope>, sni: Bytes) returns (r: Option<nat>)
    ensures r == FirstExact(scopes, sni)
  {
    for k := 0 to |scopes|
      invariant forall j :: 0 <= j < k ==> !NamesExactly(scopes[j], sni)
    {
      if NamesExactly(scopes[k], sni) {
        return Some(k);
      }
    }
    return None;
  }

  method ScanSuffix(scopes: seq<Scope>, rest: Bytes) returns (r: Option<nat>)
    ensures r == FirstSuffix(scopes, rest)
  {
    for k := 0 to |scopes|
      invariant forall j :: 0 <= j < k ==> !NamesSuffix(scopes[j], rest)
    {
      if NamesSuffix(scopes[k], rest) {
        return Some(k);
      }
    }
    return None;
  }

  // ----- the declarative optimum ---------------------------------------------

  /** The folded name ends in a dot and then `x`. */
  ghost predicate EndsIn(sni: Bytes, x: Bytes) {
    DotEnding(Fold(sni), x)
  }

  ghost predicate DotEnding(f: Bytes, x: Bytes) {
    |x| < |f| && f[|f| - |x| - 1] == DOT && f[|f| - |x|..] == x
  }

  /** A wildcard scope for the name. */
  ghost predicate Wild(scopes: seq<Scope>, k: nat, sni: Bytes, x: Bytes) {
    k < |scopes| && Suffix(x) in scopes[k].names && EndsIn(sni, x)
  }

  ghost predicate NoneWild(scopes: seq<Scope>, sni: Bytes) {
    forall j: nat, y :: !Wild(scopes, j, sni, y)
  }

  ghost predicate Longest(scopes: seq<Scope>, sni: Bytes, k: nat, x: Bytes) {
    && Wild(scopes, k, sni, x)
    && forall j: nat, y :: Wild(scopes, j, sni, y) ==> |y| < |x| || (|y| == |x| && k <= j)
  }

  /** The longest wildcard, first scope on equal length. */
  ghost predicate BestWild(scopes: seq<Scope>, sni: Bytes, r: Option<nat>) {
    match r
    case None => NoneWild(scopes, sni)
    case Some(k) => exists x :: Longest(scopes, sni, k, x)
  }

  ghost predicate NamedExactly(scopes: seq<Scope>, k: nat, sni: Bytes) {
    k < |scopes| && Exact(Fold(sni)) in scopes[k].names
  }

  /** First scope with an exact match, else the first holding the longest wildcard, else none. */
  ghost predicate Best(scopes: seq<Scope>, sni: Bytes, r: Option<nat>) {
    if exists j: nat :: NamedExactly(scopes, j, sni) then
      r.Some? && NamedExactly(scopes, r.value, sni) && forall j: nat :: NamedExactly(scopes, j, sni) ==> r.value <= j
    else BestWild(scopes, sni, r)
  }

  /** Past its first dot a name keeps all its other endings and is itself the longest one. */
  lemma EndsPastDot(rest: Bytes, i: nat, x: Bytes)
    requires Find(rest, DOT) == Some(i)
    ensures EndsIn(rest, x) <==> x == Fold(rest[i + 1..]) || EndsIn(rest[i + 1..], x)
  {
    assert Fold(rest)[i + 1..] == Fold(rest[i + 1..]);
    DotEndingPastDot(Fold(rest), i, x);
  }

  lemma DotEndingPastDot(f: Bytes, i: nat, x: Bytes)
    requires i < |f| && f[i] == DOT && forall k :: 0 <= k < i ==> f[k] != DOT
    ensures DotEnding(f, x) <==> x == f[i + 1..] || DotEnding(f[i + 1..], x)
  {
    var g := f[i + 1..];
    if |x| < |g| {
      assert g[|g| - |x| - 1] == f[|f| - |x| - 1];
      assert g[|g| - |x|..] == f[|f| - |x|..];
    }
  }

  lemma NoDotNoEnding(rest: Bytes, x: Bytes)
    requires Find(rest, DOT).None?
    ensures !EndsIn(rest, x)
  {
    assert |x| < |rest| ==> rest[|rest| - |x| - 1] != DOT;
  }

  lemma {:induction false} SuffixSearchIsBest(scopes: seq<Scope>, rest: Bytes)
    ensures BestWild(scopes, rest, MatchSuffix(scopes, rest))
    decreases |rest|
  {
    match Find(rest, DOT)
    case None =>
      forall x { NoDotNoEnding(rest, x); }
    case Some(i) =>
      var t := rest[i + 1..];
      match FirstSuffix(scopes, t)
      case Some(k) => LongestIsFirst(scopes, rest, i, k);
      case None =>
        SuffixSearchIsBest(scopes, t);
        NothingAtDot(scopes, rest, i);
        SameWilds(scopes, rest, t, MatchSuffix(scopes, t));
  }

  lemma LongestIsFirst(scopes: seq<Scope>, rest: Bytes, i: nat, k: nat)
    requires Find(rest, DOT) == Some(i) && FirstSuffix(scopes, rest[i + 1..]) == Some(k)
    ensures Longest(scopes, rest, k, Fold(rest[i + 1..]))
  {
    var t := rest[i + 1..];
    assert NamesSuffix(scopes[k], t);
    EndsPastDot(rest, i, Fold(t));
    forall j: nat, y | Wild(scopes, j, rest, y)
      ensures |y| < |Fold(t)| || (|y| == |Fold(t)| && k <= j)
    {
      EndsPastDot(rest, i, y);
      assert y == Fold(t) ==> NamesSuffix(scopes[j], t);
    }
  }

  lemma NothingAtDot(scopes: seq<Scope>, rest: Bytes, i: nat)
    requires Find(rest, DOT) == Some(i) && FirstSuffix(scopes, rest[i + 1..]).None?
    ensures forall j: nat, y :: Wild(scopes, j, rest, y) <==> Wild(scopes, j, rest[i + 1..], y)
  {
    var t := rest[i + 1..];
    forall j: nat, y ensures Wild(scopes, j, rest, y) <==> Wild(scopes, j, t, y) {
      EndsPastDot(rest, i, y);
      assert j < |scopes| ==> !NamesSuffix(scopes[j], t);
    }
  }

  lemma SameWilds(scopes: seq<Scope>, s: Bytes, t: Bytes, r: Option<nat>)
    requires forall j: nat, y :: Wild(scopes, j, s, y) <==> Wild(scopes, j, t, y)
    ensures BestWild(scopes, s, r) <==> BestWild(scopes, t, r)
  {
    if r.Some? {
      forall x ensures Longest(scopes, s, r.value, x) <==> Longest(scopes, t, r.value, x) {}
    }
  }

  /** The loops find the declared optimum. */
  lemma MatchIsBest(scopes: seq<Scope>, sni: Bytes)
    ensures Best(scopes, sni, Match(scopes, sni))
  {
    forall j: nat ensures NamedExactly(scopes, j, sni) <==> j < |scopes| && NamesExactly(scopes[j], sni) {}
    if FirstExact(scopes, sni).None? {
      SuffixSearchIsBest(scopes, sni);
    }
  }

  lemma BestIsUnique(scopes: seq<Scope>, sni: Bytes, r: Option<nat>, s: Option<nat>)
    requires Best(scopes, sni, r) && Best(scopes, sni, s)
    ensures r == s
  {
  }

  ghost predicate SameNames(s: seq<Scope>, t: seq<Scope>) {
    |s| == |t| && forall k :: 0 <= k < |s| ==> s[k].names == t[k].names
  }

  /** Which scope is chosen depends on the names alone. */
  lemma MatchByName(s: seq<Scope>, t: seq<Scope>, sni: Bytes)
    requires SameNames(s, t)
    ensures Match(s, sni) == Match(t, sni)
  {
    MatchIsBest(s, sni);
    MatchIsBest(t, sni);
    BestByName(s, t, sni, Match(s, sni));
    BestIsUnique(t, sni, Match(s, sni), Match(t, sni));
  }

  lemma BestByName(s: seq<Scope>, t: seq<Scope>, sni: Bytes, r: Option<nat>)
    requires SameNames(s, t)
    ensures Best(s, sni, r) ==> Best(t, sni, r)
  {
    assert forall j: nat :: NamedExactly(s, j, sni) <==> NamedExactly(t, j, sni);
    WildsByName(s, t, sni, r);
  }

  lemma WildsByName(s: seq<Scope>, t: seq<Scope>, sni: Bytes, r: Option<nat>)
    requires SameNames(s, t)
    ensures BestWild(s, sni, r) ==> BestWild(t, sni, r)
  {
    assert forall j: nat, y :: Wild(s, j, sni, y) <==> Wild(t, j, sni, y);
    if r.Some? {
      forall x ensures Longest(s, sni, r.value, x) <==> Longest(t, sni, r.value, x) {}
    }
  }

  /** What one configured text matches: `*.x` every name ending in `.x`, though not `x` itself;
      any other text the same name, whatever the case. */
  lemma OnePatternMatches(text: Bytes, allow: CidrSet, sni: Bytes)
    ensures Match([Scope([ParsePattern(text)], allow)], sni).Some? <==>
      if |text| > 2 && text[0] == STAR && text[1] == DOT then EndsIn(sni, Fold(text[2..]))
      else Fold(text) == Fold(sni)
  {
    var p := ParsePattern(text);
    var scopes := [Scope([p], allow)];
    assert |text| > 2 ==> Fold(text)[2..] == Fold(text[2..]);
    MatchIsBest(scopes, sni);
    assert scopes[0].names[0] == p;
    match p
    case Exact(name) =>
      assert NamedExactly(scopes, 0, sni) <==> name == Fold(sni);
    case Suffix(x) =>
      assert Wild(scopes, 0, sni, x) <==> EndsIn(sni, x);
  }

  // ----- case, letter by letter ----------------------------------------------

  /** The same byte, or one ASCII letter in its two cases. */
  predicate SameLetter(a: byte, b: byte) {
    a == b || (0x41 <= a <= 0x5a && b == a + 0x20) || (0x41 <= b <= 0x5a && a == b + 0x20)
  }

  predicate SameLetters(s: Bytes, t: Bytes) {
    |s| == |t| && forall i :: 0 <= i < |s| ==> SameLetter(s[i], t[i])
  }

  /** Folding forgets the case of A to Z, and nothing else. */
  lemma FoldExactly(s: Bytes, t: Bytes)
    ensures Fold(s) == Fold(t) <==> SameLetters(s, t)
  {
    forall a: byte, b: byte ensures Lower(a) == Lower(b) <==> SameLetter(a, b) {}
    if Fold(s) == Fold(t) {
      assert forall i :: 0 <= i < |s| ==> Lower(s[i]) == Fold(s)[i] && Lower(t[i]) == Fold(t)[i];
    }
  }

  /** Names and texts that differ in case alone are treated alike. */
  lemma CaseAlone(scopes: seq<Scope>, s: Bytes, t: Bytes)
    requires SameLetters(s, t)
    ensures Match(scopes, s) == Match(scopes, t)
    ensures ParsePattern(s) == ParsePattern(t)
  {
    FoldExactly(s, t);
    CaseInsensitive(scopes, s, s);
    CaseInsensitive(scopes, t, t);
  }

  /** The name is some bytes, a dot, and then `x` in any case. */
  ghost predicate EndsInLetters(sni: Bytes, x: Bytes) {
    exists k :: TailAfterDot(sni, k, x)
  }

  predicate TailAfterDot(sni: Bytes, k: int, x: Bytes) {
    0 <= k < |sni| && sni[k] == 0x2e && SameLetters(sni[k + 1..], x)
  }

  /** What one configured text matches, in plain bytes. */
  lemma PlainPattern(text: Bytes, allow: CidrSet, sni: Bytes)
    ensures Match([Scope([ParsePattern(text)], allow)], sni).Some? <==>
      if |text| > 2 && text[0] == 0x2a && text[1] == 0x2e then EndsInLetters(sni, text[2..])
      else SameLetters(text, sni)
  {
    OnePatternMatches(text, allow, sni);
    FoldExactly(text, sni);
    if |text| > 2 {
      EndsInPlainly(sni, text[2..]);
    }
  }

  lemma EndsInPlainly(sni: Bytes, x: Bytes)
    ensures EndsIn(sni, Fold(x)) <==> EndsInLetters(sni, x)
  {
    var k := |sni| - |x| - 1;
    if k >= 0 {
      FoldFrom(sni, k);
      FoldExactly(sni[k + 1..], x);
      assert EndsIn(sni, Fold(x)) <==> TailAfterDot(sni, k, x);
    }
    forall j | TailAfterDot(sni, j, x) ensures j == k {}
  }

  lemma FoldFrom(s: Bytes, k: nat)
    requires k < |s|
    ensures Fold(s)[k + 1..] == Fold(s[k + 1..])
    ensures Fold(s)[k] == DOT <==> s[k] == 0x2e
  {
  }

  // ----- lists of scopes, as written -----------------------------------------

  predicate IsWild(text: Bytes) {
    |text| > 2 && text[0] == 0x2a && text[1] == 0x2e
  }

  /** The scopes are those of these texts. */
  ghost predicate Written(scopes: seq<Scope>, texts: seq<seq<Bytes>>) {
    && |scopes| == |texts|
    && forall k, p :: 0 <= k < |scopes| ==>
         (p in scopes[k].names <==> exists text :: text in texts[k] && p == ParsePattern(text))
  }

  lemma WrittenNames(scopes: seq<Scope>, texts: seq<seq<Bytes>>, sni: Bytes, j: nat, x: Bytes)
    requires Written(scopes, texts)
    ensures NamedExactly(scopes, j, sni) <==>
      j < |texts| && exists text :: text in texts[j] && !IsWild(text) && SameLetters(text, sni)
    ensures Wild(scopes, j, sni, x) <==>
      j < |texts| && exists text ::
        text in texts[j] && IsWild(text) && EndsInLetters(sni, text[2..]) && x == Fold(text[2..])
  {
    forall text ensures ParsePattern(text) == Exact(Fold(sni)) <==> !IsWild(text) && SameLetters(text, sni) {
      FoldExactly(text, sni);
      assert |text| > 1 ==> Fold(text)[0] == Lower(text[0]) && Fold(text)[1] == Lower(text[1]);
    }
    forall text ensures ParsePattern(text) == Suffix(x) <==> IsWild(text) && x == Fold(text[2..]) {
      assert |text| > 1 ==> Fold(text)[0] == Lower(text[0]) && Fold(text)[1] == Lower(text[1]);
      assert |text| > 1 ==> Fold(text)[2..] == Fold(text[2..]);
    }
    forall text | IsWild(text) ensures EndsIn(sni, Fold(text[2..])) <==> EndsInLetters(sni, text[2..]) {
      EndsInPlainly(sni, text[2..]);
    }
  }

  /** The first scope that writes the name itself is the one. */
  lemma ExactTextWins(scopes: seq<Scope>, texts: seq<seq<Bytes>>, sni: Bytes, k: nat, text: Bytes)
    requires Written(scopes, texts) && k < |texts|
    requires text in texts[k] && !IsWild(text) && SameLetters(text, sni)
    requires forall j, y :: 0 <= j < k && y in texts[j] && !IsWild(y) ==> !SameLetters(y, sni)
    ensures Match(scopes, sni) == Some(k)
  {
    forall j: nat
      ensures NamedExactly(scopes, j, sni) <==>
        j < |texts| && exists y :: y in texts[j] && !IsWild(y) && SameLetters(y, sni)
    {
      WrittenNames(scopes, texts, sni, j, []);
    }
    MatchIsBest(scopes, sni);
    BestIsUnique(scopes, sni, Match(scopes, sni), Some(k));
  }

  /** Where none does, the first scope that writes the longest wildcard for it is. */
  lemma WildTextWins(scopes: seq<Scope>, texts: seq<seq<Bytes>>, sni: Bytes, k: nat, text: Bytes)
    requires Written(scopes, texts) && k < |texts|
    requires text in texts[k] && IsWild(text) && EndsInLetters(sni, text[2..])
    requires forall j, y :: 0 <= j < |texts| && y in texts[j] && !IsWild(y) ==> !SameLetters(y, sni)
    requires forall j, y :: 0 <= j < |texts| && y in texts[j] && IsWild(y) && EndsInLetters(sni, y[2..]) ==>
      |y| < |text| || (|y| == |text| && k <= j)
    ensures Match(scopes, sni) == Some(k)
  {
    forall j: nat ensures !NamedExactly(scopes, j, sni) {
      WrittenNames(scopes, texts, sni, j, []);
    }
    var x := Fold(text[2..]);
    WrittenNames(scopes, texts, sni, k, x);
    forall j: nat, y | Wild(scopes, j, sni, y) ensures |y| < |x| || (|y| == |x| && k <= j) {
      WrittenNames(scopes, texts, sni, j, y);
    }
    assert Longest(scopes, sni, k, x);
    MatchIsBest(scopes, sni);
    BestIsUnique(scopes, sni, Match(scopes, sni), Some(k));
  }

  /** And where none does that either, no scope is. */
  lemma NoTextMatches(scopes: seq<Scope>, texts: seq<seq<Bytes>>, sni: Bytes)
    requires Written(scopes, texts)
    requires forall j, y :: 0 <= j < |texts| && y in texts[j] ==>
      if IsWild(y) then !EndsInLetters(sni, y[2..]) else !SameLetters(y, sni)
    ensures Match(scopes, sni) == None
  {
    forall j: nat ensures !NamedExactly(scopes, j, sni) {
      WrittenNames(scopes, texts, sni, j, []);
    }
    forall j: nat, y ensures !Wild(scopes, j, sni, y) {
      WrittenNames(scopes, texts, sni, j, y);
    }
    MatchIsBest(scopes, sni);
  }

  // ----- case and order ------------------------------------------------------

  /** Neither the case of the name nor the case of the configured text matters. */
  lemma CaseInsensitive(scopes: seq<Scope>, sni: Bytes, text: Bytes)
    ensures Match(scopes, Fold(sni)) == Match(scopes, sni)
    ensures ParsePattern(Fold(text)) == ParsePattern(text)
  {
    assert Fold(Fold(text)) == Fold(text);
    MatchIsBest(scopes, sni);
    MatchIsBest(scopes, Fold(sni));
    FoldIsIgnored(scopes, sni, Match(scopes, Fold(sni)));
    BestIsUnique(scopes, sni, Match(scopes, sni), Match(scopes, Fold(sni)));
  }

  lemma FoldIsIgnored(scopes: seq<Scope>, sni: Bytes, r: Option<nat>)
    ensures Best(scopes, Fold(sni), r) <==> Best(scopes, sni, r)
  {
    assert Fold(Fold(sni)) == Fold(sni);
    assert forall j: nat :: NamedExactly(scopes, j, Fold(sni)) <==> NamedExactly(scopes, j, sni);
    SameWilds(scopes, Fold(sni), sni, r);
  }

  /** No pattern occurs in two scopes. */
  ghost predicate Unambiguous(scopes: seq<Scope>) {
    forall j, k, p :: 0 <= j < k < |scopes| && p in scopes[j].names ==> p !in scopes[k].names
  }

  /** The pattern a scope wins by: the exact name, or the longest wildcard when none is exact. */
  ghost predicate Wins(scopes: seq<Scope>, sni: Bytes, p: Pattern) {
    match p
    case Exact(name) => name == Fold(sni)
    case Suffix(x) =>
      && EndsIn(sni, x)
      && (forall j: nat :: !NamedExactly(scopes, j, sni))
      && (forall j: nat, y :: Wild(scopes, j, sni, y) ==> |y| <= |x|)
  }

  lemma WinnerCarries(scopes: seq<Scope>, sni: Bytes) returns (p: Pattern)
    requires Match(scopes, sni).Some?
    ensures p in scopes[Match(scopes, sni).value].names && Wins(scopes, sni, p)
  {
    MatchIsBest(scopes, sni);
    var k := Match(scopes, sni).value;
    if NamedExactly(scopes, k, sni) {
      p := Exact(Fold(sni));
    } else {
      var x :| Longest(scopes, sni, k, x);
      p := Suffix(x);
    }
  }

  /** With unambiguous scopes, reordering them never changes which list is chosen. */
  lemma OrderDoesNotMatter(s: seq<Scope>, t: seq<Scope>, sni: Bytes)
    requires multiset(s) == multiset(t) && Unambiguous(s)
    ensures Chosen(s, Match(s, sni)) == Chosen(t, Match(t, sni))
  {
    SameMembers(s, t);
    Carried(s, t, sni);
    Carried(t, s, sni);
    if Match(s, sni).Some? {
      var k, l := Match(s, sni).value, Match(t, sni).value;
      var p := WinnerCarries(s, sni);
      var q := WinnerCarries(t, sni);
      SamePattern(s, t, sni, k, p, l, q);
      assert t[l] in s;
      var j :| 0 <= j < |s| && s[j] == t[l];
      assert j == k;
    }
  }

  /** A permutation still matches what matched before. */
  lemma Carried(s: seq<Scope>, t: seq<Scope>, sni: Bytes)
    requires forall x :: x in s ==> x in t
    ensures Match(s, sni).Some? ==> Match(t, sni).Some?
  {
    if Match(s, sni).Some? {
      var p := WinnerCarries(s, sni);
      var l := IndexOf(t, s[Match(s, sni).value]);
      MatchIsBest(t, sni);
      assert p.Exact? ==> NamedExactly(t, l, sni);
      assert p.Suffix? ==> Wild(t, l, sni, p.name);
    }
  }

  lemma IndexOf<T>(s: seq<T>, x: T) returns (k: nat)
    requires x in s
    ensures k < |s| && s[k] == x
  {
    k :| 0 <= k < |s| && s[k] == x;
  }

  lemma SamePattern(s: seq<Scope>, t: seq<Scope>, sni: Bytes, k: nat, p: Pattern, l: nat, q: Pattern)
    requires forall x :: x in s <==> x in t
    requires k < |s| && p in s[k].names && l < |t| && q in t[l].names
    requires Wins(s, sni, p) && Wins(t, sni, q)
    ensures p == q
  {
    var i := IndexOf(s, t[l]);
    var j := IndexOf(t, s[k]);
    assert q.Exact? ==> NamedExactly(s, i, sni);
    assert p.Exact? ==> NamedExactly(t, j, sni);
    if p.Suffix? && q.Suffix? {
      assert Wild(s, i, sni, q.name) && Wild(t, j, sni, p.name);
      assert |p.name| == |q.name|;
    }
  }
}
