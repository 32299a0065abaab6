/** The text a config is written in, as UTF-8 bytes, and what the model takes from the
    outside: address parsing, the digest and whitespace trimming are parameters. */
module Text {
  import opened Base

  const AT: byte := 0x40
  const BANG: byte := 0x21
  const SLASH: byte := 0x2f
  const PLUS: byte := 0x2b
  const DOT: byte := 0x2e
  const STAR: byte := 0x2a

  /** Library functions the source calls and this model does not look inside. */
  datatype Host = Host(
    v4: Bytes -> Option<u32>,
    v6: Bytes -> Option<u128>,
    digest: Bytes -> u32,
    trim: Bytes -> Bytes)

  function StripByte(s: Bytes, c: byte): Option<Bytes> {
    if s != [] && s[0] == c then Some(s[1..]) else None
  }

  /** The position of the first `c`. */
  function Find(s: Bytes, c: byte): (r: Option<nat>)
    ensures r.Some? ==> r.value < |s| && s[r.value] == c
    ensures forall k :: 0 <= k < (if r.Some? then r.value else |s|) ==> s[k] != c
  {
    if s == [] then None
    else if s[0] == c then Some(0)
    else
      match Find(s[1..], c)
      case None => None
      case Some(i) => Some(i + 1)
  }

  /** Around the first `c`, or the whole text and nothing. */
  function SplitOnce(s: Bytes, c: byte): (r: (Bytes, Option<Bytes>))
    ensures c !in r.0
    ensures s == r.0 + match r.1 { case None => [] case Some(rest) => [c] + rest }
  {
    match Find(s, c)
    case None => (s, None)
    case Some(i) => (s[..i], Some(s[i + 1..]))
  }

  predicate Digits(s: Bytes) {
    forall i :: 0 <= i < |s| ==> 0x30 <= s[i] <= 0x39
  }

  function Decimal(s: Bytes): nat
    requires Digits(s)
  {
    if s == [] then 0
    else
      Decimal(s[..|s| - 1]) * 10 + (Last(s) - 0x30)
  }

  /** An unsigned integer no greater than `max`: one optional plus sign, then digits. */
  function ParseUint(s: Bytes, max: nat): Option<nat> {
    var digits := if s != [] && s[0] == PLUS then s[1..] else s;
    if digits != [] && Digits(digits) && Decimal(digits) <= max then Some(Decimal(digits)) else None
  }

  /** How a number is written. */
  function Print(n: nat): (s: Bytes)
    ensures s != [] && Digits(s)
  {
    if n < 10 then [0x30 + n] else Print(n / 10) + [0x30 + n % 10]
  }

  lemma {:induction false} PrintReads(n: nat)
    ensures Decimal(Print(n)) == n
  {
    if n < 10 {
      assert Print(n)[..0] == [];
    } else {
      PrintReads(n / 10);
      assert Print(n)[..|Print(n)| - 1] == Print(n / 10);
    }
  }

  /** A written number reads back, with or without a plus sign, exactly when it is in range. */
  lemma ParseInvertsPrint(n: nat, max: nat)
    ensures ParseUint(Print(n), max) == if n <= max then Some(n) else None
    ensures ParseUint([PLUS] + Print(n), max) == ParseUint(Print(n), max)
    ensures n < 10 ==> Print(n) == [0x30 + n]
  {
    PrintReads(n);
    assert ([PLUS] + Print(n))[1..] == Print(n);
  }

  /** A number as the library reads it: an optional plus sign, any zeros, then as it is written. */
  function Spelling(plus: bool, zeros: nat, n: nat): Bytes {
    if plus then [0x2b] + Padded(zeros, n) else Padded(zeros, n)
  }

  function Padded(zeros: nat, n: nat): Bytes {
    if zeros == 0 then Print(n) else [0x30] + Padded(zeros - 1, n)
  }

  ghost predicate Spells(s: Bytes, n: nat) {
    exists plus, zeros: nat :: s == Spelling(plus, zeros, n)
  }

  /** Exactly the spellings of a number in range are read, each as that number. */
  lemma ParseUintExactly(s: Bytes, n: nat, max: nat)
    ensures ParseUint(s, max) == Some(n) <==> n <= max && Spells(s, n)
  {
    if ParseUint(s, max).Some? {
      ReadIsSpelled(s, max);
    }
    if Spells(s, n) {
      SpelledReads(s, n, max);
    }
  }

  lemma WrittenIsSpelled(n: nat)
    ensures Spells(Print(n), n)
  {
    assert Print(n) == Spelling(false, 0, n);
  }

  lemma SpelledReads(s: Bytes, n: nat, max: nat)
    requires Spells(s, n)
    ensures ParseUint(s, max) == if n <= max then Some(n) else None
  {
    var plus, zeros: nat :| s == Spelling(plus, zeros, n);
    SpelledIsRead(plus, zeros, n, max);
  }

  lemma ReadIsSpelled(s: Bytes, max: nat)
    requires ParseUint(s, max).Some?
    ensures Spells(s, ParseUint(s, max).value)
  {
    var plus := s[0] == PLUS;
    var digits := if plus then s[1..] else s;
    var zeros := DigitsSpell(digits);
    assert s == Spelling(plus, zeros, Decimal(digits));
  }

  lemma SpelledIsRead(plus: bool, zeros: nat, n: nat, max: nat)
    ensures ParseUint(Spelling(plus, zeros, n), max) == if n <= max then Some(n) else None
  {
    SpellingReads(zeros, n);
    PlusIsSkipped(Padded(zeros, n), max);
  }

  lemma PlusIsSkipped(digits: Bytes, max: nat)
    requires digits != [] && Digits(digits)
    ensures ParseUint(digits, max) == if Decimal(digits) <= max then Some(Decimal(digits)) else None
    ensures ParseUint([PLUS] + digits, max) == ParseUint(digits, max)
  {
    assert digits[0] != PLUS;
    assert ([PLUS] + digits)[1..] == digits;
  }

  lemma {:induction false} DigitsSpell(d: Bytes) returns (zeros: nat)
    requires d != [] && Digits(d)
    ensures d == Padded(zeros, Decimal(d))
  {
    if d[0] == 0x30 && |d| > 1 {
      LeadingZero(d[1..]);
      assert d == [0x30] + d[1..];
      zeros := DigitsSpell(d[1..]);
      zeros := zeros + 1;
    } else {
      zeros := 0;
      PrintsBack(d);
    }
  }

  lemma {:induction false} PrintsBack(d: Bytes)
    requires d != [] && Digits(d) && (d[0] == 0x30 ==> |d| == 1)
    ensures Print(Decimal(d)) == d
  {
    var front := d[..|d| - 1];
    if front != [] {
      PrintsBack(front);
      assert Decimal(front) > 0;
    }
  }

  lemma {:induction false} SpellingReads(zeros: nat, n: nat)
    ensures var d := Padded(zeros, n);
      d != [] && Digits(d) && Decimal(d) == n
  {
    if zeros == 0 {
      PrintReads(n);
    } else {
      SpellingReads(zeros - 1, n);
      LeadingZero(Padded(zeros - 1, n));
    }
  }

  lemma {:induction false} LeadingZero(d: Bytes)
    requires Digits(d)
    ensures Digits([0x30] + d) && Decimal([0x30] + d) == Decimal(d)
  {
    if d == [] {
      assert ([0x30] + d)[..0] == [];
    } else {
      LeadingZero(d[..|d| - 1]);
      assert ([0x30] + d)[..|d|] == [0x30] + d[..|d| - 1];
    }
  }

  /** A slash splits a text that had none before it. */
  lemma SplitAtSlash(text: Bytes, rest: Bytes)
    requires SLASH !in text
    ensures SplitOnce(text, SLASH) == (text, None)
    ensures SplitOnce(text + [SLASH] + rest, SLASH) == (text, Some(rest))
  {
    var whole := text + [SLASH] + rest;
    assert whole[|text|] == SLASH && forall k :: 0 <= k < |text| ==> whole[k] == text[k];
    assert Find(whole, SLASH) == Some(|text|);
    assert whole[..|text|] == text && whole[|text| + 1..] == rest;
  }
}
