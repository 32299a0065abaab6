/** Machine words, big-endian bytes, powers of two, and the library searches and
    sorts the rest of the model leans on. */
module Base {

  datatype Option<+T> = None | Some(value: T)

  datatype Result<+T, +E> = Ok(value: T) | Err(error: E)

  const TOP: int := 0x1_0000_0000_0000_0000_0000_0000_0000_0000
  const MAX: int := TOP - 1

  type byte = x: int | 0 <= x < 0x100
  type u16 = x: int | 0 <= x < 0x1_0000
  type u32 = x: int | 0 <= x < 0x1_0000_0000
  type u128 = x: int | 0 <= x < TOP
  type Bytes = seq<byte>

  function Last<T>(s: seq<T>): T
    requires s != []
  {
    s[|s| - 1]
  }

  // ----- powers of two -------------------------------------------------------

  function Pow2(n: nat): (r: int)
    ensures r >= 1
  {
    if n == 0 then 1 else 2 * Pow2(n - 1)
  }

  lemma {:induction false} Pow2Add(m: nat, n: nat)
    ensures Pow2(m + n) == Pow2(m) * Pow2(n)
  {
    if n == 0 {
    } else {
      Pow2Add(m, n - 1);
      assert Pow2(m + n) == 2 * Pow2(m + (n - 1));
      assert 2 * (Pow2(m) * Pow2(n - 1)) == Pow2(m) * (2 * Pow2(n - 1));
    }
  }

  lemma Pow2Of8()
    ensures Pow2(8) == 0x100
  {
  }

  lemma Pow2Of16()
    ensures Pow2(16) == 0x1_0000
  {
    Pow2Of8();
    Pow2Add(8, 8);
  }

  lemma Pow2Of32()
    ensures Pow2(32) == 0x1_0000_0000
  {
    Pow2Of16();
    Pow2Add(16, 16);
  }

  lemma Pow2Of48()
    ensures Pow2(48) == 0x1_0000_0000_0000
  {
    Pow2Of16();
    Pow2Of32();
    Pow2Add(32, 16);
  }

  lemma Pow2Of64()
    ensures Pow2(64) == 0x1_0000_0000_0000_0000
  {
    Pow2Of32();
    Pow2Add(32, 32);
  }

  lemma Pow2Of80()
    ensures Pow2(80) == 0x1_0000_0000_0000_0000_0000
  {
    Pow2Of16();
    Pow2Of64();
    Pow2Add(64, 16);
  }

  lemma Pow2Of128()
    ensures Pow2(128) == TOP
  {
    Pow2Of64();
    Pow2Add(64, 64);
  }

  lemma Pow2Words()
    ensures Pow2(8) == 0x100 && Pow2(16) == 0x1_0000 && Pow2(32) == 0x1_0000_0000
    ensures Pow2(48) == 0x1_0000_0000_0000 && Pow2(64) == 0x1_0000_0000_0000_0000
    ensures Pow2(80) == 0x1_0000_0000_0000_0000_0000 && Pow2(128) == TOP
  {
    Pow2Of8();
    Pow2Of16();
    Pow2Of32();
    Pow2Of48();
    Pow2Of64();
    Pow2Of80();
    Pow2Of128();
  }

  /** One more byte is eight more bits. */
  lemma Pow2Byte(k: nat)
    ensures Pow2(8 * (k + 1)) == 0x100 * Pow2(8 * k)
  {
    Pow2Of8();
    Pow2Add(8, 8 * k);
  }

  // ----- division ------------------------------------------------------------

  /** Quotient and remainder are unique. */
  lemma DivUnique(a: int, d: int, q: int, r: int)
    requires d > 0 && a == q * d + r && 0 <= r < d
    ensures a / d == q
  {
    var e := a / d - q;
    assert a == a / d * d + a % d;
    assert e * d == r - a % d by {
      assert (a / d - q) * d == a / d * d - q * d;
    }
    assert e >= 1 ==> e * d >= d;
    assert e <= -1 ==> e * d <= -d;
  }

  lemma DivFloor(a: nat, d: int)
    requires d > 0
    ensures 0 <= a / d * d <= a < a / d * d + d && a - a % d == a / d * d
  {
    assert a == a / d * d + a % d;
  }

  /** Two numbers share a block of size d exactly when one lies in the block of the other. */
  lemma SameBlock(a: nat, x: nat, d: int)
    requires d > 0
    ensures a / d * d <= x < a / d * d + d <==> x / d == a / d
  {
    DivFloor(x, d);
    var q := a / d;
    if q * d <= x < q * d + d {
      DivUnique(x, d, q, x - q * d);
    }
  }

  /** The block of a number below a whole count of blocks ends within that count. */
  lemma BlockEnds(a: nat, d: int, c: int)
    requires d > 0 && a < c * d
    ensures a / d * d + d <= c * d
  {
    DivFloor(a, d);
    var q := a / d;
    assert q >= c ==> q * d >= c * d;
    assert (q + 1) * d <= c * d;
    assert (q + 1) * d == q * d + d;
  }

  lemma DivDiv(a: nat, b: int, c: int)
    requires b > 0 && c > 0
    ensures a / (b * c) == a / b / c
  {
    var m := a / b;
    DivFloor(a, b);
    DivFloor(m, c);
    TwoDigits(a, b, c, m, m / c);
  }

  /** a = mb + (less than b) and m = qc + (less than c), so a = q(bc) + (less than bc). */
  lemma TwoDigits(a: nat, b: int, c: int, m: nat, q: nat)
    requires b > 0 && c > 0
    requires m * b <= a < m * b + b && q * c <= m < q * c + c
    ensures a / (b * c) == q
  {
    var r := m - q * c;
    MulSplit(q * c, r, b);
    MulSwap(q, c, b);
    MulSplit(r, 1, b);
    MulBelow(r + 1, c, b);
    DivUnique(a, b * c, q, r * b + (a - m * b));
  }

  lemma MulSplit(x: int, y: int, b: int)
    ensures (x + y) * b == x * b + y * b
  {
  }

  lemma MulSwap(q: int, c: int, b: int)
    ensures q * c * b == q * (b * c)
  {
  }

  lemma MulBelow(x: int, c: int, b: int)
    requires x <= c && 0 <= b
    ensures x * b <= b * c
  {
    assert (c - x) * b >= 0;
  }

  // ----- big-endian words ----------------------------------------------------

  function FromBe(s: Bytes): nat
  {
    if s == [] then 0 else FromBe(s[..|s| - 1]) * 0x100 + Last(s)
  }

  function Be(n: nat, k: nat): (s: Bytes)
    ensures |s| == k
  {
    if k == 0 then [] else Be(n / 0x100, k - 1) + [n % 0x100]
  }

  lemma {:induction false} FromBeBe(n: nat, k: nat)
    requires n < Pow2(8 * k)
    ensures FromBe(Be(n, k)) == n
  {
    if k > 0 {
      Pow2Byte(k - 1);
      FromBeBe(n / 0x100, k - 1);
      assert Be(n, k)[..k - 1] == Be(n / 0x100, k - 1);
    }
  }

  lemma {:induction false} BeFromBe(s: Bytes)
    ensures Be(FromBe(s), |s|) == s
  {
    if s != [] {
      BeFromBe(s[..|s| - 1]);
    }
  }

  lemma FromBeAppend(s: Bytes, b: byte)
    ensures FromBe(s + [b]) == FromBe(s) * 0x100 + b
  {
    assert (s + [b])[..|s|] == s;
  }

  /** Four bytes, most significant first. */
  lemma FromBeFour(a: byte, b: byte, c: byte, d: byte)
    ensures FromBe([a, b, c, d]) == a * 0x100_0000 + b * 0x1_0000 + c * 0x100 + d
  {
    FromBeAppend([a, b, c], d);
    FromBeAppend([a, b], c);
    FromBeAppend([a], b);
    FromBeAppend([], a);
    assert [] + [a] == [a] && [a] + [b] == [a, b] && [a, b] + [c] == [a, b, c] && [a, b, c] + [d] == [a, b, c, d];
  }

  lemma {:induction false} FromBeBound(s: Bytes)
    ensures FromBe(s) < Pow2(8 * |s|)
  {
    if s != [] {
      FromBeBound(s[..|s| - 1]);
      Pow2Byte(|s| - 1);
    }
  }

  lemma Distribute(f: nat, p: nat, g: nat)
    ensures (f * p + g) * 0x100 == f * (0x100 * p) + g * 0x100
  {
  }

  lemma {:induction false} FromBeConcat(a: Bytes, b: Bytes)
    ensures FromBe(a + b) == FromBe(a) * Pow2(8 * |b|) + FromBe(b)
  {
    if b == [] {
      assert a + b == a;
    } else {
      var b' := b[..|b| - 1];
      assert (a + b)[..|a + b| - 1] == a + b';
      assert Last(a + b) == Last(b);
      FromBeConcat(a, b');
      Pow2Byte(|b'|);
      Distribute(FromBe(a), Pow2(8 * |b'|), FromBe(b'));
    }
  }

  // ----- binary search -------------------------------------------------------

  /** How many leading elements satisfy `below`, by bisection. */
  function PartitionPoint<T>(s: seq<T>, below: T -> bool): (i: nat)
    requires forall j, k :: 0 <= j < k < |s| && below(s[k]) ==> below(s[j])
    ensures i <= |s|
    ensures forall j :: 0 <= j < i ==> below(s[j])
    ensures forall j :: i <= j < |s| ==> !below(s[j])
  {
    Bisect(s, below, 0, |s|)
  }

  function Bisect<T>(s: seq<T>, below: T -> bool, lo: nat, hi: nat): (i: nat)
    requires lo <= hi <= |s|
    requires forall j, k :: 0 <= j < k < |s| && below(s[k]) ==> below(s[j])
    requires forall j :: 0 <= j < lo ==> below(s[j])
    requires forall j :: hi <= j < |s| ==> !below(s[j])
    ensures lo <= i <= hi
    ensures forall j :: 0 <= j < i ==> below(s[j])
    ensures forall j :: i <= j < |s| ==> !below(s[j])
    decreases hi - lo
  {
    if lo == hi then lo
    else
      var mid := (lo + hi) / 2;
      if below(s[mid]) then Bisect(s, below, mid + 1, hi) else Bisect(s, below, lo, mid)
  }

  // ----- sorting -------------------------------------------------------------

  predicate Ordered<T>(s: seq<T>, key: T -> int) {
    forall i, j :: 0 <= i < j < |s| ==> key(s[i]) <= key(s[j])
  }

  /** The standard library's sort by key: some ordered permutation. */
  function SortBy<T>(s: seq<T>, key: T -> int): (r: seq<T>)
    ensures multiset(r) == multiset(s) && |r| == |s|
    ensures Ordered(r, key)
  {
    if s == [] then []
    else
      assert s == s[..|s| - 1] + [Last(s)];
      var front := SortBy(s[..|s| - 1], key);
      var i := PartitionPoint(front, (y: T) => key(y) <= key(Last(s)));
      InsertKeepsOrder(front, key, Last(s), i);
      assert front == front[..i] + front[i..];
      front[..i] + [Last(s)] + front[i..]
  }

  lemma InsertKeepsOrder<T>(s: seq<T>, key: T -> int, x: T, i: nat)
    requires Ordered(s, key) && i <= |s|
    requires forall j :: 0 <= j < i ==> key(s[j]) <= key(x)
    requires forall j :: i <= j < |s| ==> key(x) <= key(s[j])
    ensures Ordered(s[..i] + [x] + s[i..], key)
  {
    var r := s[..i] + [x] + s[i..];
    forall j, k | 0 <= j < k < |r| ensures key(r[j]) <= key(r[k]) {
      assert r[j] == if j < i then s[j] else if j == i then x else s[j - 1];
      assert r[k] == if k < i then s[k] else if k == i then x else s[k - 1];
    }
  }

  lemma SameMembers<T>(a: seq<T>, b: seq<T>)
    requires multiset(a) == multiset(b)
    ensures |a| == |b|
    ensures forall x :: x in a <==> x in b
  {
    assert |a| == |multiset(a)| == |multiset(b)| == |b|;
    forall x ensures x in a <==> x in b {
      assert x in a <==> x in multiset(a);
      assert x in b <==> x in multiset(b);
    }
  }

  /** A permutation of `a` holds its last element somewhere, and permutes the rest around it. */
  lemma PermutationDrop<T>(a: seq<T>, b: seq<T>) returns (k: nat)
    requires a != [] && multiset(a) == multiset(b)
    ensures k < |b| && b[k] == Last(a)
    ensures multiset(a[..|a| - 1]) == multiset(b[..k] + b[k + 1..])
  {
    SameMembers(a, b);
    var x := Last(a);
    assert x in a;
    k :| 0 <= k < |b| && b[k] == x;
    var front, c, d := a[..|a| - 1], b[..k], b[k + 1..];
    assert a == front + [x] && b == c + [x] + d;
    CancelOne(multiset(front), multiset(c), multiset(d), x);
    assert multiset(c + d) == multiset(c) + multiset(d);
  }

  lemma CancelOne<T>(f: multiset<T>, c: multiset<T>, d: multiset<T>, x: T)
    requires f + multiset{x} == c + multiset{x} + d
    ensures f == c + d
  {
    forall y ensures f[y] == (c + d)[y] {
      assert (f + multiset{x})[y] == (c + multiset{x} + d)[y];
    }
  }
}
