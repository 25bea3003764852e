/** The longest-match search of the compressor: eight bytes at a time, then the first
    differing byte of a differing block through its lowest differing bit. */
module SnappyMatch {
  import opened Bytes

  /** Bit t is the lowest bit set in n. */
  ghost predicate LowestSet(n: nat, t: nat) {
    n % Pow2(t) == 0 && n % Pow2(t + 1) != 0
  }

  lemma ModMul(a: nat, m: nat, p: nat)
    requires m > 0 && p > 0
    ensures m * p > 0 && (a * p) % (m * p) == (a % m) * p
  {
    var q, r := a / m, a % m;
    assert a * p == (m * p) * q + r * p by {
      assert a == m * q + r;
      assert (m * q + r) * p == (m * q) * p + r * p;
      assert (m * q) * p == (m * p) * q;
    }
    MulLe(p, r + 1, m);
    assert (r + 1) * p == r * p + p;
    ModUnique(a * p, m * p, q, r * p);
  }

  lemma ModMod(a: nat, m: nat, k: nat)
    requires m > 0 && k > 0
    ensures m * k > 0 && (a % (m * k)) % m == a % m
  {
    var q := a / (m * k);
    var b := a % (m * k);
    assert a == m * (k * q) + b by { MulAssoc(m, k, q); }
    assert b == m * (b / m) + b % m;
    assert m * (k * q) + m * (b / m) == m * (k * q + b / m);
    ModUnique(a, m, k * q + b / m, b % m);
  }

  /** The low a bits can be taken from the low b bits. */
  lemma ModPow(x: nat, a: nat, b: nat)
    requires a <= b
    ensures (x % Pow2(b)) % Pow2(a) == x % Pow2(a)
  {
    Pow2Add(a, b - a);
    ModMod(x, Pow2(a), Pow2(b - a));
  }

  lemma ModPowZero(x: nat, a: nat, b: nat)
    requires a <= b
    ensures x % Pow2(b) == 0 ==> x % Pow2(a) == 0
  {
    ModPow(x, a, b);
    ModUnique(0, Pow2(a), 0, 0);
  }

  /** Shifting the low rc+1 bits, already at the top of the word, k places further up. */
  lemma ShiftTop(n: nat, rc: nat, k: nat)
    requires k <= rc <= 31
    ensures Shl32((n % Pow2(rc + 1)) * Pow2(31 - rc), k) == (n % Pow2(rc + 1 - k)) * Pow2(31 - rc + k)
  {
    var m := n % Pow2(rc + 1);
    var keep, up := Pow2(rc + 1 - k), Pow2(31 - rc + k);
    Pow2Word();
    Pow2Add(rc + 1 - k, 31 - rc + k);
    Pow2Add(31 - rc, k);
    MulAssoc(m, Pow2(31 - rc), Pow2(k));
    ModMul(m, keep, up);
    ModPow(n, rc + 1 - k, rc + 1);
  }

  lemma MulZero(a: nat, b: nat)
    requires b > 0
    ensures a * b == 0 <==> a == 0
  {
  }

  /** Bits::FindLSBSetNonZero, portable version. */
  method FindLSBSetNonZero(n0: nat) returns (rc: nat)
    requires 0 < n0 < WORD32
    ensures rc < 32 && LowestSet(n0, rc)
  {
    var n := n0;
    rc := 31;
    var i, shift := 4, 16;
    LowStart(n0);
    hide Pow2, Shl32, LowestSet, LowSeen;
    while i >= 0
      invariant -1 <= i <= 4 && rc <= 31 && LowSeen(n0, n, rc, i + 1)
      invariant i >= 0 ==> shift == Pow2(i)
    {
      var x := Shl32(n, shift);
      LowStep(n0, n, rc, i);
      if x != 0 {
        n := x;
        rc := rc - shift;
      }
      shift := shift / 2;
      i := i - 1;
    }
    LowEnd(n0, n, rc);
  }

  /** n is n0 shifted up by 31 - rc: the lowest bit set of n0 is among the 2^i bits up to rc. */
  ghost predicate LowSeen(n0: nat, n: nat, rc: nat, i: nat) {
    && Pow2(i) <= rc + 1 <= 32 && n == (n0 % Pow2(rc + 1)) * Pow2(31 - rc)
    && n0 % Pow2(rc + 1) != 0 && n0 % Pow2(rc + 1 - Pow2(i)) == 0
  }

  lemma LowStart(n0: nat)
    requires 0 < n0 < WORD32
    ensures LowSeen(n0, n0, 31, 5) && Pow2(4) == 16
  {
    Pow2Word();
    assert Pow2(5) == 32 && Pow2(0) == 1;
  }

  lemma LowStep(n0: nat, n: nat, rc: nat, i: nat)
    requires LowSeen(n0, n, rc, i + 1)
    ensures var shift, x := Pow2(i), Shl32(n, Pow2(i));
            shift <= rc && if x != 0 then LowSeen(n0, x, rc - shift, i) else LowSeen(n0, n, rc, i)
    ensures i > 0 ==> Pow2(i - 1) == Pow2(i) / 2
  {
    hide Shl32;
    var shift := Pow2(i);
    assert Pow2(i + 1) == 2 * shift;
    ShiftTop(n0, rc, shift);
    MulZero(n0 % Pow2(rc + 1 - shift), Pow2(31 - rc + shift));
  }

  lemma LowEnd(n0: nat, n: nat, rc: nat)
    requires LowSeen(n0, n, rc, 0)
    ensures LowestSet(n0, rc)
  {
  }

  lemma LowestSetUp(n: nat, rc: nat)
    requires n % WORD32 == 0 && LowestSet(n / WORD32, rc)
    ensures LowestSet(n, 32 + rc)
  {
    var top := n / WORD32;
    Pow2Word();
    Pow2Add(rc, 32); Pow2Add(rc + 1, 32);
    ModMul(top, Pow2(rc), WORD32); ModMul(top, Pow2(rc + 1), WORD32);
    MulZero(top % Pow2(rc + 1), WORD32);
    assert n == top * WORD32;
  }

  /** Bits::FindLSBSetNonZero64, by halves. */
  method FindLSBSetNonZero64(n: nat) returns (rc: nat)
    requires 0 < n < WORD32 * WORD32
    ensures rc < 64 && LowestSet(n, rc)
  {
    var bottombits := n % WORD32;
    if bottombits == 0 {
      rc := FindLSBSetNonZero(n / WORD32);
      LowestSetUp(n, rc);
      rc := 32 + rc;
    } else {
      rc := FindLSBSetNonZero(bottombits);
      Pow2Word();
      ModPow(n, rc, 32); ModPow(n, rc + 1, 32);
    }
  }

  /** The low 8k bits of two words agree exactly when their first k bytes do. */
  lemma SameBytes(s: seq<Byte>, t: seq<Byte>, k: nat)
    requires k <= |s| == |t|
    ensures Xor(LittleEndian(s), LittleEndian(t)) % Pow2(8 * k) == 0 <==> s[..k] == t[..k]
  {
    XorMod(LittleEndian(s), LittleEndian(t), 8 * k);
    LittleEndianMask(s, k); LittleEndianMask(t, k);
    LittleEndianInjective(s[..k], t[..k]);
  }

  lemma ByteOfBit(x: nat, bit: nat)
    requires LowestSet(x, bit)
    ensures x % Pow2(8 * (bit / 8)) == 0 && x % Pow2(8 * (bit / 8 + 1)) != 0
  {
    ModPowZero(x, 8 * (bit / 8), bit);
    ModPowZero(x, bit + 1, 8 * (bit / 8 + 1));
  }

  /** In a differing pair of words, the lowest differing bit lies in the first differing byte. */
  lemma FirstDifference(s: seq<Byte>, t: seq<Byte>, bit: nat)
    requires |s| == |t| && bit < 8 * |s|
    requires LowestSet(Xor(LittleEndian(s), LittleEndian(t)), bit)
    ensures s[..bit / 8] == t[..bit / 8] && s[bit / 8] != t[bit / 8]
  {
    var k := bit / 8;
    ByteOfBit(Xor(LittleEndian(s), LittleEndian(t)), bit);
    SameBytes(s, t, k); SameBytes(s, t, k + 1);
    assert s[..k + 1] == s[..k] + [s[k]] && t[..k + 1] == t[..k] + [t[k]];
  }

  /** n is the length of the longest common prefix of s[s1..] and s[s2..limit]. */
  ghost predicate LongestMatch(s: seq<Byte>, s1: nat, s2: nat, limit: nat, n: nat)
    requires s1 <= s2 <= limit <= |s|
  {
    && s2 + n <= limit
    && s[s1..s1 + n] == s[s2..s2 + n]
    && (s2 + n < limit ==> s[s1 + n] != s[s2 + n])
  }

  lemma ExtendMatch(s: seq<Byte>, s1: nat, s2: nat, n: nat, k: nat)
    requires s1 <= s2 && s2 + n + k <= |s|
    requires s[s1..s1 + n] == s[s2..s2 + n] && s[s1 + n..s1 + n + k] == s[s2 + n..s2 + n + k]
    ensures s[s1..s1 + n + k] == s[s2..s2 + n + k]
  {
    assert s[s1..s1 + n + k] == s[s1..s1 + n] + s[s1 + n..s1 + n + k];
    assert s[s2..s2 + n + k] == s[s2..s2 + n] + s[s2 + n..s2 + n + k];
  }

  lemma XorWord(a: nat, b: nat)
    requires a != b && a < Pow2(64) && b < Pow2(64)
    ensures 0 < Xor(a, b) < WORD32 * WORD32
  {
    XorBound(a, b, 64);
    Pow2Word();
  }

  /** Number of bytes two differing words have in common before the first difference. */
  method MatchingBytes(u: seq<Byte>, v: seq<Byte>) returns (k: nat)
    requires |u| == |v| == 8 && u != v
    ensures k < 8 && u[..k] == v[..k] && u[k] != v[k]
  {
    LittleEndianInjective(u, v);
    XorWord(LittleEndian(u), LittleEndian(v));
    var x := Xor(LittleEndian(u), LittleEndian(v));
    var matchingBits := FindLSBSetNonZero64(x);
    FirstDifference(u, v, matchingBits);
    k := matchingBits / 8;
  }

  lemma BlockDiffers(s: seq<Byte>, s1: nat, s2: nat, n: nat, k: nat)
    requires s1 <= s2 && s2 + n + 8 <= |s| && k < 8
    requires s[s1..s1 + n] == s[s2..s2 + n]
    requires s[s2 + n..s2 + n + 8][..k] == s[s1 + n..s1 + n + 8][..k]
    ensures s[s1..s1 + n + k] == s[s2..s2 + n + k]
    ensures s[s2 + n..s2 + n + 8][k] == s[s2 + n + k] && s[s1 + n..s1 + n + 8][k] == s[s1 + n + k]
  {
    SliceSlice(s, s2 + n, s2 + n + 8, 0, k);
    SliceSlice(s, s1 + n, s1 + n + 8, 0, k);
    ExtendMatch(s, s1, s2, n, k);
  }

  /** FindMatchLength, x86-64 version; both pointers run over the same input s. */
  method FindMatchLength(s: seq<Byte>, s1: nat, s20: nat, limit: nat) returns (matched: nat)
    requires s1 <= s20 <= limit <= |s|
    ensures LongestMatch(s, s1, s20, limit, matched)
  {
    hide Shl32;
    var s2 := s20;
    matched := 0;
    while s2 <= limit - 8
      invariant s2 == s20 + matched <= limit
      invariant s[s1..s1 + matched] == s[s20..s20 + matched]
    {
      var u, v := s[s2..s2 + 8], s[s1 + matched..s1 + matched + 8];
      if u != v {
        var k := MatchingBytes(u, v);
        BlockDiffers(s, s1, s20, matched, k);
        return matched + k;
      }
      ExtendMatch(s, s1, s20, matched, 8);
      s2 := s2 + 8;
      matched := matched + 8;
    }
    matched := MatchBytewise(s, s1, s20, limit, matched);
  }

  /** The last, short stretch of FindMatchLength. */
  method MatchBytewise(s: seq<Byte>, s1: nat, s20: nat, limit: nat, start: nat) returns (matched: nat)
    requires s1 <= s20 && s20 + start <= limit <= |s|
    requires s[s1..s1 + start] == s[s20..s20 + start]
    ensures LongestMatch(s, s1, s20, limit, matched)
  {
    matched := start;
    while s20 + matched < limit && s[s1 + matched] == s[s20 + matched]
      invariant s20 + matched <= limit
      invariant s[s1..s1 + matched] == s[s20..s20 + matched]
    {
      ExtendMatch(s, s1, s20, matched, 1);
      matched := matched + 1;
    }
  }
}
