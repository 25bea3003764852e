/** Bytes, little-endian words and the bit operations the codec applies to them. */
module Bytes {
  type Byte = x: int | 0 <= x < 256

  /** A value or none. */
  datatype Option<+T> = None | Some(value: T)

  lemma Assoc<T>(a: seq<T>, b: seq<T>, c: seq<T>)
    ensures a + b + c == a + (b + c)
  {
  }

  /** A slice of a slice is a slice. */
  lemma SliceSlice<T>(s: seq<T>, a: nat, b: nat, c: nat, d: nat)
    requires a <= b <= |s| && c <= d <= b - a
    ensures s[a..b][c..d] == s[a + c..a + d]
  {
    forall i | 0 <= i < d - c
      ensures s[a..b][c..d][i] == s[a + c..a + d][i]
    {
      assert s[a..b][c..d][i] == s[a..b][c + i];
    }
  }

  /** The word stands in src at p. */
  predicate Reads(src: seq<int>, p: nat, word: seq<int>) {
    p + |word| <= |src| && src[p..p + |word|] == word
  }

  lemma ReadsBoth(src: seq<int>, p: nat, a: seq<int>, b: seq<int>)
    ensures Reads(src, p, a + b) <==> Reads(src, p, a) && Reads(src, p + |a|, b)
  {
    if p + |a| + |b| <= |src| {
      assert src[p..p + |a| + |b|] == src[p..p + |a|] + src[p + |a|..p + |a| + |b|];
      if Reads(src, p, a + b) {
        assert src[p..p + |a|] == (a + b)[..|a|] && src[p + |a|..p + |a| + |b|] == (a + b)[|a|..];
      }
    }
  }

  lemma ReadsAll(src: seq<int>, p: nat, a: seq<int>, b: seq<int>, c: seq<int>)
    ensures Reads(src, p, a + b + c) <==> Reads(src, p, a) && Reads(src, p + |a|, b) && Reads(src, p + |a| + |b|, c)
  {
    ReadsBoth(src, p, a + b, c);
    ReadsBoth(src, p, a, b);
  }

  lemma ReadsPrefix(a: seq<int>, b: seq<int>)
    ensures Reads(a + b, 0, a)
  {
  }

  function Pow2(n: nat): (p: nat)
    ensures p > 0
  {
    if n == 0 then 1 else 2 * Pow2(n - 1)
  }

  lemma {:induction false} Pow2Add(a: nat, b: nat)
    ensures Pow2(a + b) == Pow2(a) * Pow2(b)
  {
    if a > 0 {
      Pow2Add(a - 1, b);
      assert Pow2(a + b) == 2 * (Pow2(a - 1) * Pow2(b));
    }
  }

  /** The unsigned value of a little-endian byte string. */
  function LittleEndian(s: seq<Byte>): (v: nat)
    ensures v < Pow2(8 * |s|)
  {
    if s == [] then 0
    else
      assert Pow2(8 * |s|) == 256 * Pow2(8 * (|s| - 1)) by {
        Pow2Add(8, 8 * (|s| - 1));
        assert Pow2(8) == 256;
      }
      s[0] + 256 * LittleEndian(s[1..])
  }

  lemma {:induction false} LittleEndianSplit(s: seq<Byte>, k: nat)
    requires k <= |s|
    ensures LittleEndian(s) == LittleEndian(s[..k]) + Pow2(8 * k) * LittleEndian(s[k..])
  {
    if k == 0 {
      assert s[0..] == s;
    } else {
      LittleEndianSplit(s[1..], k - 1);
      assert s[1..][..k - 1] == s[..k][1..];
      assert s[1..][k - 1..] == s[k..];
      Pow2Byte(k);
      MulAssoc(256, Pow2(8 * (k - 1)), LittleEndian(s[k..]));
    }
  }

  lemma Pow2Byte(k: nat)
    requires k > 0
    ensures Pow2(8 * k) == 256 * Pow2(8 * (k - 1))
  {
    Pow2Add(8, 8 * (k - 1));
    assert Pow2(8) == 256;
  }

  lemma MulAssoc(a: int, b: int, c: int)
    ensures (a * b) * c == a * (b * c)
  {
  }

  lemma MulLe(m: int, a: int, b: int)
    requires m >= 0 && a <= b
    ensures m * a <= m * b
  {
  }

  /** Masking with the low k bytes set keeps exactly the first k bytes. */
  lemma {:induction false} LittleEndianMask(s: seq<Byte>, k: nat)
    requires k <= |s|
    ensures LittleEndian(s) % Pow2(8 * k) == LittleEndian(s[..k])
  {
    LittleEndianSplit(s, k);
    ModUnique(LittleEndian(s), Pow2(8 * k), LittleEndian(s[k..]), LittleEndian(s[..k]));
  }

  lemma ModUnique(x: int, m: int, q: int, r: int)
    requires m > 0 && 0 <= r < m && x == m * q + r
    ensures x % m == r && x / m == q
  {
    var q' := x / m;
    if q > q' {
      MulLe(m, q' + 1, q);
      assert false;
    } else if q < q' {
      MulLe(m, q + 1, q');
      assert false;
    }
  }

  lemma {:induction false} LittleEndianInjective(s: seq<Byte>, t: seq<Byte>)
    requires |s| == |t|
    ensures LittleEndian(s) == LittleEndian(t) <==> s == t
  {
    if s != [] {
      LittleEndianInjective(s[1..], t[1..]);
      assert s == [s[0]] + s[1..] && t == [t[0]] + t[1..];
    }
  }

  /** Bitwise exclusive or. */
  function Xor(x: nat, y: nat): nat
    decreases x + y
  {
    if x == 0 && y == 0 then 0
    else (if x % 2 == y % 2 then 0 else 1) + 2 * Xor(x / 2, y / 2)
  }

  /** The low k bits of x ^ y are clear exactly when x and y agree there. */
  lemma {:induction false} XorMod(x: nat, y: nat, k: nat)
    ensures Xor(x, y) % Pow2(k) == 0 <==> x % Pow2(k) == y % Pow2(k)
  {
    if k > 0 && (x != 0 || y != 0) {
      XorMod(x / 2, y / 2, k - 1);
      XorHalf(x, y);
      XorModStep(x, y, Xor(x, y), Pow2(k - 1));
    }
  }

  lemma XorModStep(x: nat, y: nat, z: nat, m: nat)
    requires m > 0 && (z % 2 == 0 <==> x % 2 == y % 2)
    requires (z / 2) % m == 0 <==> (x / 2) % m == (y / 2) % m
    ensures z % (2 * m) == 0 <==> x % (2 * m) == y % (2 * m)
  {
    HalfMod(x, m);
    HalfMod(y, m);
    HalfMod(z, m);
  }

  lemma XorHalf(x: nat, y: nat)
    ensures Xor(x, y) / 2 == Xor(x / 2, y / 2)
    ensures Xor(x, y) % 2 == 0 <==> x % 2 == y % 2
  {
  }

  lemma HalfMod(x: nat, m: nat)
    requires m > 0
    ensures x % (2 * m) == x % 2 + 2 * ((x / 2) % m)
  {
    var q := (x / 2) / m;
    MulAssoc(2, m, q);
    ModUnique(x, 2 * m, q, x % 2 + 2 * ((x / 2) % m));
  }

  lemma {:induction false} XorBound(x: nat, y: nat, k: nat)
    requires x < Pow2(k) && y < Pow2(k)
    ensures Xor(x, y) < Pow2(k)
    ensures Xor(x, y) == 0 <==> x == y
  {
    if x != 0 || y != 0 {
      assert k > 0;
      XorBound(x / 2, y / 2, k - 1);
    }
  }

  const WORD32 := 0x1_0000_0000

  lemma Pow2Word()
    ensures Pow2(32) == WORD32 && Pow2(64) == WORD32 * WORD32
  {
    Pow2HalfWord();
    Pow2Add(16, 16);
    Pow2Add(32, 32);
  }

  lemma Pow2HalfWord()
    ensures Pow2(16) == 0x1_0000
  {
    Pow2Add(8, 8);
    assert Pow2(8) == 256;
  }

  /** The word shifted left inside 32 bits: bits that leave the top are lost. */
  function Shl32(n: nat, s: nat): (r: nat)
    ensures r < WORD32
  {
    (n * Pow2(s)) % WORD32
  }
}
