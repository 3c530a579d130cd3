/**
 Internet checksums: the 32-bit accumulation and final fold of the program, against the one's-complement
 sum of 16-bit words, carry by carry, that section 1 of RFC 1071 defines.
 */
module InternetChecksum {
  import opened Modular

  const TWO_16: nat := 0x1_0000

  type Half = h: nat | h < 0x1_0000

  /** The number of 16-bit words in `s`; an odd last byte makes a word of its own. */
  function Words(s: Bytes): (n: nat)
    ensures |s| <= 2 * n <= |s| + 1
  {
    (|s| + 1) / 2
  }

  /** Two bytes as a number, most significant first. */
  function U16(high: Byte, low: Byte): Half
  {
    var h: nat := high;
    256 * h + low
  }

  /** Word `k`, most significant byte first, padded with zero. */
  function WordAt(s: Bytes, k: nat): Half
    requires k < Words(s)
  {
    U16(s[2 * k], if 2 * k + 1 < |s| then s[2 * k + 1] else 0)
  }

  /** The plain sum of the first `k` words. */
  function SumTo(s: Bytes, k: nat): nat
    requires k <= Words(s)
  {
    if k == 0 then 0 else SumTo(s, k - 1) + WordAt(s, k - 1)
  }

  /** One's-complement addition: a carry out of the sixteenth bit comes back in at the first. */
  function OnesAdd(a: Half, b: Half): Half
  {
    if a + b < TWO_16 then a + b else a + b - TWO_16 + 1
  }

  /** The one's-complement sum of the first `k` words. */
  function OnesTo(s: Bytes, k: nat): Half
    requires k <= Words(s)
  {
    if k == 0 then 0 else OnesAdd(OnesTo(s, k - 1), WordAt(s, k - 1))
  }

  /** The checksum: the complement of the one's-complement sum. */
  function Checksum(s: Bytes): Half
  {
    0xFFFF - OnesTo(s, Words(s))
  }

  // ---------------------------------------------------------------- the fold

  /** The program's fold of a 32-bit sum; the last addition is kept to 16 bits. */
  function Fold(sum: Word): Half
  {
    var once := sum / TWO_16 + sum % TWO_16;
    (once + once / TWO_16) % TWO_16
  }

  /** `r` is the one's-complement value of the plain sum `s`: congruent modulo 65535, and zero only for zero. */
  ghost predicate Reduces(s: nat, r: nat)
  {
    r <= 0xFFFF && (r == 0 <==> s == 0) && s % 0xFFFF == r % 0xFFFF
  }

  lemma ReducesOnce(s: nat, r: nat, r': nat)
    requires Reduces(s, r) && Reduces(s, r')
    ensures r == r'
  {
  }

  lemma CarryReduces(s: nat, carries: nat)
    ensures (s + 0xFFFF * carries) % 0xFFFF == s % 0xFFFF
  {
  }

  lemma FoldReduces(sum: Word)
    ensures Reduces(sum, Fold(sum))
  {
    var high, low := sum / TWO_16, sum % TWO_16;
    var once := high + low;
    assert sum == once + 0xFFFF * high;
    CarryReduces(once, high);
    if once < TWO_16 {
      assert Fold(sum) == once;
    } else {
      assert Fold(sum) == once - 0xFFFF;
      CarryReduces(once - 0xFFFF, 1);
    }
  }

  lemma OnesAddReduces(s: nat, r: Half, w: Half)
    requires Reduces(s, r)
    ensures Reduces(s + w, OnesAdd(r, w))
  {
  }

  lemma {:induction false} OnesReduces(s: Bytes, k: nat)
    requires k <= Words(s)
    ensures Reduces(SumTo(s, k), OnesTo(s, k))
  {
    if k > 0 {
      OnesReduces(s, k - 1);
      OnesAddReduces(SumTo(s, k - 1), OnesTo(s, k - 1), WordAt(s, k - 1));
    }
  }

  /** Deferring all carries to one fold of a 32-bit sum gives the one's-complement sum. */
  lemma FoldIsOnesSum(s: Bytes, sum: Word)
    requires sum == SumTo(s, Words(s))
    ensures 0xFFFF - Fold(sum) == Checksum(s)
  {
    FoldReduces(sum);
    OnesReduces(s, Words(s));
    ReducesOnce(sum, Fold(sum), OnesTo(s, Words(s)));
  }

  // ---------------------------------------------------------------- sums

  lemma {:induction false} SumBound(s: Bytes, k: nat)
    requires k <= Words(s)
    ensures SumTo(s, k) <= 0xFFFF * k
  {
    if k > 0 {
      SumBound(s, k - 1);
    }
  }

  lemma {:induction false} SumPrefix(a: Bytes, b: Bytes, k: nat)
    requires |a| % 2 == 0 && k <= Words(a)
    ensures Words(a) <= Words(a + b) && SumTo(a + b, k) == SumTo(a, k)
  {
    if k > 0 {
      SumPrefix(a, b, k - 1);
    }
  }

  /** Behind an even number of bytes the words of a body stay its words. */
  lemma {:induction false} SumSplit(a: Bytes, b: Bytes, k: nat)
    requires |a| % 2 == 0 && k <= Words(b)
    ensures Words(a + b) == Words(a) + Words(b)
    ensures SumTo(a + b, Words(a) + k) == SumTo(a, Words(a)) + SumTo(b, k)
  {
    if k == 0 {
      SumPrefix(a, b, Words(a));
    } else {
      SumSplit(a, b, k - 1);
      assert WordAt(a + b, Words(a) + (k - 1)) == WordAt(b, k - 1);
    }
  }

  /** Adds up a body word by word in 32 bits. */
  method SumBody(data: Bytes) returns (sum: Word)
    ensures sum == SumTo(data, Words(data)) % TWO_32
  {
    sum := 0;
    var k := 0;
    while 2 * k + 1 < |data|
      invariant 2 * k <= |data| && sum == SumTo(data, k) % TWO_32
    {
      AddModulo(SumTo(data, k), WordAt(data, k));
      sum := (sum + U16(data[2 * k], data[2 * k + 1])) % TWO_32;
      k := k + 1;
    }
    if 2 * k < |data| {
      AddModulo(SumTo(data, k), WordAt(data, k));
      sum := (sum + U16(data[2 * k], 0)) % TWO_32;
      k := k + 1;
    }
  }

  /** A body that fits a packet does not overflow 32 bits. */
  lemma SumFits(data: Bytes)
    requires |data| < TWO_16
    ensures SumTo(data, Words(data)) <= 0x7FFF_8000
  {
    SumBound(data, Words(data));
  }

  // ---------------------------------------------------------------- what a receiver checks

  /** `s` with the word `k` replaced. */
  function Patched(s: Bytes, k: nat, h: Half): (p: Bytes)
    requires 2 * k + 1 < |s|
    ensures |p| == |s|
  {
    s[2 * k := h / 256][2 * k + 1 := h % 256]
  }

  lemma HalfParts(h: Half)
    ensures h / 256 < 256 && U16(h / 256, h % 256) == h
  {
  }

  lemma PatchedWord(s: Bytes, k: nat, h: Half, j: nat)
    requires 2 * k + 1 < |s| && j < Words(s)
    ensures WordAt(Patched(s, k, h), j) == if j == k then h else WordAt(s, j)
  {
    HalfParts(h);
    var p := Patched(s, k, h);
    if j == k {
      assert p[2 * j] == h / 256 && p[2 * j + 1] == h % 256;
    } else {
      assert p[2 * j] == s[2 * j];
      assert 2 * j + 1 < |s| ==> p[2 * j + 1] == s[2 * j + 1];
    }
  }

  lemma {:induction false} PatchedSum(s: Bytes, k: nat, h: Half, n: nat)
    requires 2 * k + 1 < |s| && n <= Words(s) && WordAt(s, k) == 0
    ensures SumTo(Patched(s, k, h), n) == SumTo(s, n) + if k < n then h else 0
  {
    if n > 0 {
      PatchedSum(s, k, h, n - 1);
      PatchedWord(s, k, h, n - 1);
    }
  }

  lemma AllOnes(sum: nat, r: Half, sum': nat, r': Half)
    requires Reduces(sum, r) && sum' == sum + (0xFFFF - r) && Reduces(sum', r')
    ensures r' == 0xFFFF
  {
  }

  /** With its checksum in place of the zero word, the data sums to all ones, which is what a receiver checks. */
  lemma ChecksumVerifies(s: Bytes, k: nat)
    requires 2 * k + 1 < |s| && WordAt(s, k) == 0
    ensures OnesTo(Patched(s, k, Checksum(s)), Words(s)) == 0xFFFF
  {
    var n, p := Words(s), Patched(s, k, Checksum(s));
    assert SumTo(p, n) == SumTo(s, n) + (0xFFFF - OnesTo(s, n)) by { PatchedSum(s, k, Checksum(s), n); }
    AllOnes(SumTo(s, n), OnesTo(s, n), SumTo(p, n), OnesTo(p, n)) by {
      OnesReduces(s, n);
      OnesReduces(p, n);
    }
  }
}
