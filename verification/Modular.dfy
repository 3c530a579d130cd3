/** Bytes, 32-bit words, and remainders. */
module Modular {
  const TWO_32: nat := 0x1_0000_0000

  type Byte = b: nat | b < 0x100
  type Bytes = seq<Byte>
  type Word = w: nat | w < 0x1_0000_0000

  /** A number kept to 32 bits, as counters and sequence numbers are (section 3.4 of RFC 9293). */
  function Wrap(n: int): (w: Word)
  {
    n % TWO_32
  }

  lemma AddModulo(a: nat, b: nat)
    ensures (a % TWO_32 + b) % TWO_32 == (a + b) % TWO_32
  {
  }

  /** A multiple of `c` strictly between `-c` and `c` is zero. */
  lemma SmallMultiple(d: int, c: nat)
    requires -(c as int) < d * c < c
    ensures d == 0
  {
    assert d >= 1 ==> d * c >= c;
    assert d <= -1 ==> d * c <= -(c as int);
  }

  lemma RemainderUnique(a: nat, q: nat, r: nat, c: nat)
    requires r < c
    requires a == q * c + r
    ensures a % c == r && a / c == q
  {
    assert (a / c - q) * c == r - a % c;
    SmallMultiple(a / c - q, c);
  }

  /** Fewer than `c` apart, two numbers never share a remainder. */
  lemma RemainderInjective(i: nat, j: nat, c: nat)
    requires i < j < i + c
    ensures i % c != j % c
  {
    if i % c == j % c {
      assert (j / c - i / c) * c == j - i;
      SmallMultiple(j / c - i / c, c);
    }
  }

  lemma Regroup(q: nat, t: nat, c: nat, k: nat)
    ensures q * (t * c) + k * c == (q * t + k) * c
  {
  }

  /** Taking a remainder modulo a multiple of `c` first changes nothing. */
  lemma NestedRemainder(x: nat, t: nat, c: nat)
    requires c > 0 && t * c > 0
    ensures (x % (t * c)) % c == x % c
  {
    var m := t * c;
    var r := x % m;
    Regroup(x / m, t, c, r / c);
    RemainderUnique(x, (x / m) * t + r / c, r % c, c);
  }
}
