/** Positional numerals: big-endian digit sequences, the numbers they denote, and the symbols that write them. */
module Numerals {
  import opened Results

  type Bytes = seq<int>

  predicate Below(base: int, s: seq<int>) { forall i | 0 <= i < |s| :: 0 <= s[i] < base }

  /** The number a big-endian numeral denotes. */
  function Num(base: int, s: seq<int>): int
  {
    if s == [] then 0 else Num(base, s[..|s| - 1]) * base + s[|s| - 1]
  }

  /** The numeral of a number without leading zeros; zero has the empty numeral. */
  function Digits(base: int, n: nat): (s: seq<int>)
    requires base >= 2
  {
    if n == 0 then [] else Digits(base, n / base) + [n % base]
  }

  function LeadingZeros(s: seq<int>): (n: nat)
    ensures n <= |s|
  {
    if s == [] || s[0] != 0 then 0 else 1 + LeadingZeros(s[1..])
  }

  function Zeros(n: nat): (s: seq<int>)
    ensures |s| == n && forall i | 0 <= i < n :: s[i] == 0
  {
    if n == 0 then [] else Zeros(n - 1) + [0]
  }

  lemma QuotientRemainder(q: int, r: int, base: int)
    requires base >= 2 && 0 <= r < base
    ensures (q * base + r) / base == q && (q * base + r) % base == r
  {
    var n := q * base + r;
    var k := q - n / base;
    assert k * base == n % base - r;
    assert k >= 1 ==> k * base >= base;
    assert k <= -1 ==> k * base <= -base;
  }

  lemma Division(n: nat, base: int)
    requires base >= 2
    ensures 0 <= n / base && 0 <= n % base < base && n == n / base * base + n % base
    ensures n / base == 0 ==> n % base == n
  {
  }

  lemma NumSnoc(base: int, front: seq<int>, last: int)
    ensures Num(base, front + [last]) == Num(base, front) * base + last
  {
    assert (front + [last])[..|front|] == front;
  }

  lemma DigitsSnoc(base: int, n: nat)
    requires base >= 2 && n > 0
    ensures n / base >= 0 && n / base < n && Digits(base, n) == Digits(base, n / base) + [n % base]
  {
  }

  lemma NoDigits(base: int)
    requires base >= 2
    ensures Digits(base, 0) == [] && Num(base, []) == 0
  {
  }

  lemma {:induction false} NumOfDigits(base: int, n: nat)
    requires base >= 2
    ensures Num(base, Digits(base, n)) == n && Below(base, Digits(base, n))
    ensures n > 0 ==> Digits(base, n) != [] && Digits(base, n)[0] != 0
  {
    hide Num, Digits;
    NoDigits(base);
    if n > 0 {
      DigitsSnoc(base, n);
      Division(n, base);
      var q, r := n / base, n % base;
      NumOfDigits(base, q);
      NumSnoc(base, Digits(base, q), r);
    }
  }

  lemma {:induction false} NumNonNegative(base: int, s: seq<int>)
    requires base >= 2 && Below(base, s)
    ensures Num(base, s) >= 0
    ensures s != [] && s[0] != 0 ==> Num(base, s) > 0
  {
    if s != [] {
      NumNonNegative(base, s[..|s| - 1]);
      if |s| == 1 { assert s[..0] == []; }
    }
  }

  /** A numeral without a leading zero is the one its number has. */
  lemma {:induction false} DigitsOfNum(base: int, s: seq<int>)
    requires base >= 2 && Below(base, s) && (s != [] ==> s[0] != 0)
    ensures Num(base, s) >= 0 && Digits(base, Num(base, s)) == s
  {
    NumNonNegative(base, s);
    if s != [] {
      var front := s[..|s| - 1];
      NumNonNegative(base, front);
      DigitsOfNum(base, front);
      QuotientRemainder(Num(base, front), s[|s| - 1], base);
    }
  }

  lemma {:induction false} NumOfZeros(base: int, n: nat, s: seq<int>)
    ensures Num(base, Zeros(n) + s) == Num(base, s)
  {
    if s != [] {
      assert (Zeros(n) + s)[..n + |s| - 1] == Zeros(n) + s[..|s| - 1];
      NumOfZeros(base, n, s[..|s| - 1]);
    } else if n > 0 {
      assert Zeros(n) + s == Zeros(n) && Zeros(n)[..n - 1] == Zeros(n - 1);
      assert Zeros(n - 1) + [] == Zeros(n - 1);
      NumOfZeros(base, n - 1, []);
    }
  }

  /** A numeral is its leading zeros and the numeral of its number. */
  lemma {:induction false} ZerosThenDigits(base: int, s: seq<int>)
    requires base >= 2 && Below(base, s)
    ensures Num(base, s) >= 0 && s == Zeros(LeadingZeros(s)) + Digits(base, Num(base, s))
  {
    if s != [] && s[0] == 0 {
      ZerosThenDigits(base, s[1..]);
      assert s == Zeros(1) + s[1..] by { assert Zeros(1) == Zeros(0) + [0]; }
      NumOfZeros(base, 1, s[1..]);
      ZerosAppend(1, LeadingZeros(s[1..]));
    } else {
      DigitsOfNum(base, s);
    }
  }

  lemma ZerosAppend(m: nat, n: nat)
    ensures Zeros(m) + Zeros(n) == Zeros(m + n)
  {
  }

  lemma {:induction false} LeadingZerosOf(n: nat, s: seq<int>)
    requires s != [] ==> s[0] != 0
    ensures LeadingZeros(Zeros(n) + s) == n
  {
    if n > 0 {
      ZerosAppend(1, n - 1);
      assert (Zeros(n) + s)[1..] == Zeros(n - 1) + s;
      LeadingZerosOf(n - 1, s);
    } else {
      assert Zeros(0) + s == s;
    }
  }

  lemma AddOne(n: int, w: int)
    ensures (n + 1) * w == n * w + w
  {
  }

  lemma {:induction false} ProductGrows(a: int, b: int, w: int)
    requires w >= 1
    ensures a < b ==> a * w < b * w
    decreases b - a
  {
    if a < b {
      AddOne(b - 1, w);
      ProductGrows(a, b - 1, w);
    }
  }

  function Power2(k: nat): (r: int)
    ensures r >= 1
  {
    if k == 0 then 1 else 2 * Power2(k - 1)
  }

  lemma {:induction false} PowerSum(a: nat, b: nat)
    ensures Power2(a + b) == Power2(a) * Power2(b)
  {
    if a > 0 { PowerSum(a - 1, b); }
  }

  // ---------------------------------------------------------------- symbols

  function IndexIn(s: string, c: char): Option<nat>
  {
    if s == [] then None
    else if s[0] == c then Some(0)
    else
      match IndexIn(s[1..], c)
      case None => None
      case Some(i) => Some(i + 1)
  }

  lemma {:induction false} IndexFinds(s: string, i: nat)
    requires i < |s| && forall j | 0 <= j < i :: s[j] != s[i]
    ensures IndexIn(s, s[i]) == Some(i)
  {
    if i > 0 { IndexFinds(s[1..], i - 1); }
  }

  lemma {:induction false} FoundIndex(s: string, c: char)
    ensures IndexIn(s, c).Some? ==> IndexIn(s, c).value < |s| && s[IndexIn(s, c).value] == c
  {
    if s != [] { FoundIndex(s[1..], c); }
  }
}
