/** CompressFragment and Compress. */
module SnappyCompressor {
  import opened Bytes
  import opened SnappyFormat
  import opened SnappyStubs
  import opened SnappyMatch
  import opened SnappyEmit
  import opened SnappySource

  const BLOCK_SIZE := 0x1_0000
  const INPUT_MARGIN := 15
  const MAX_HASH_TABLE_SIZE := 0x4000

  /** An entry of the hash table: a position in the block. */
  type Slot = x: int | 0 <= x < 0x1_0000

  function MaxCompressedLength(n: nat): nat { 32 + n + n / 6 }

  /** Bits::Log2Floor, portable version. */
  method Log2Floor(n: nat) returns (log: int)
    requires n < WORD32
    ensures n == 0 ==> log == -1
    ensures n > 0 ==> log >= 0 && Pow2(log) <= n < Pow2(log + 1)
  {
    if n == 0 { return -1; }
    var value: nat, i := n, 4;
    log := 0;
    LogStart(n);
    hide Pow2;
    while i >= 0
      invariant -1 <= i <= 4 && log >= 0 && Narrowed(n, log, value, i + 1)
    {
      var shift := Pow2(i);
      var x := value / Pow2(shift);
      LogStep(n, log, value, i);
      if x != 0 {
        value := x;
        log := log + shift;
      }
      i := i - 1;
    }
    LogEnd(n, log, value);
  }

  /** value is n shifted down by log, and less than 2^(2^i). */
  ghost predicate Narrowed(n: nat, log: nat, value: nat, i: nat) {
    value == n / Pow2(log) && 0 < value < Pow2(Pow2(i))
  }

  lemma LogStart(n: nat)
    requires 0 < n < WORD32
    ensures Narrowed(n, 0, n, 5)
  {
    Pow2Word();
  }

  lemma LogStep(n: nat, log: nat, value: nat, i: nat)
    requires Narrowed(n, log, value, i + 1)
    ensures var x := value / Pow2(Pow2(i));
            if x != 0 then Narrowed(n, log + Pow2(i), x, i) else Narrowed(n, log, value, i)
  {
    var shift := Pow2(i);
    DivPow(n, log, shift);
    Pow2Add(shift, shift);
    DivBound(value, Pow2(shift), Pow2(shift));
  }

  lemma LogEnd(n: nat, log: nat, value: nat)
    requires Narrowed(n, log, value, 0)
    ensures Pow2(log) <= n < Pow2(log + 1)
  {
    assert value == 1;
  }

  lemma DivPow(n: nat, a: nat, b: nat)
    ensures n / Pow2(a) / Pow2(b) == n / Pow2(a + b)
  {
    Pow2Add(a, b);
    DivDiv(n, Pow2(a), Pow2(b));
  }

  lemma DivDiv(n: nat, m: nat, k: nat)
    requires m > 0 && k > 0
    ensures m * k > 0 && n / m / k == n / (m * k)
  {
    var x, r := n / m, n % m;
    var q, r' := x / k, x % k;
    MulLe(m, r' + 1, k);
    assert n == (m * k) * q + (m * r' + r) by {
      assert n == m * x + r;
      assert x == k * q + r';
      assert m * (k * q + r') == m * (k * q) + m * r';
      MulAssoc(m, k, q);
    }
    ModUnique(n, m * k, q, m * r' + r);
  }

  /** x < a*b gives x/a < b, and x < a is x/a == 0. */
  lemma DivBound(x: nat, a: nat, b: nat)
    requires a > 0 && x < a * b
    ensures x / a < b && (x / a == 0 <==> x < a)
  {
  }

  function HashBytes(bytes: nat, shift: nat): (h: nat)
    requires shift <= 32
    ensures h < Pow2(32 - shift)
  {
    var x := (bytes * 0x1e35a7bd) % WORD32;
    Pow2Word();
    Pow2Add(shift, 32 - shift);
    DivBound(x, Pow2(shift), Pow2(32 - shift));
    x / Pow2(shift)
  }

  /** A hash of four bytes, cut down to the size of the table by `shift`. Nothing below
      depends on which one it is. */
  type HashFunction = (seq<Byte>, nat) -> nat

  ghost predicate Fits(hash: HashFunction, shift: nat, size: nat) {
    forall bytes :: hash(bytes, shift) < size
  }

  /** Four bytes of the block. Two 32-bit loads are equal exactly when the bytes are. */
  function Load32(s: seq<Byte>, i: nat): seq<Byte>
    requires i + 4 <= |s|
  {
    s[i..i + 4]
  }

  /** GetUint32AtOffset on a 64-bit register. */
  function GetUint32AtOffset(v: nat, offset: nat): nat
    requires offset <= 4
  {
    (v / Pow2(8 * offset)) % WORD32
  }

  /** Shifting eight loaded bytes is loading four of them further on. */
  lemma GetUint32IsLoad32(s: seq<Byte>, i: nat, k: nat)
    requires k <= 4 && i + 8 <= |s|
    ensures GetUint32AtOffset(LittleEndian(s[i..i + 8]), k) == LittleEndian(Load32(s, i + k))
  {
    hide LittleEndian;
    var b := s[i..i + 8];
    var v := LittleEndian(b);
    LittleEndianSplit(b, k);
    ModUnique(v, Pow2(8 * k), LittleEndian(b[k..]), LittleEndian(b[..k]));
    LittleEndianMask(b[k..], 4);
    Pow2Word();
    SliceSlice(s, i, i + 8, k, k + 4);
    assert b[k..][..4] == b[k..k + 4];
  }

  /** Bytes the compressor of one block may touch, counted from where it starts writing. */
  function Reach(n: nat): nat { n + n / 6 + 17 }

  /** out[start..p] decodes, after `prefix`, to the first k bytes of the block. */
  ghost predicate Coded(out: seq<Byte>, start: nat, p: nat, prefix: seq<Byte>, input: seq<Byte>, k: nat) {
    start <= p <= |out| && k <= |input| && Emits(out[start..p], prefix, prefix + input[..k])
  }

  lemma CodedIn(out: seq<Byte>, start: nat, p: nat, prefix: seq<Byte>, input: seq<Byte>, k: nat)
    requires Coded(out, start, p, prefix, input, k)
    ensures start <= p <= |out|
  {
  }

  lemma CodedNone(out: seq<Byte>, start: nat, prefix: seq<Byte>, input: seq<Byte>)
    requires start <= |out|
    ensures Coded(out, start, start, prefix, input, 0)
  {
    EmitsNothing(prefix);
    assert out[start..start] == [] && prefix + input[..0] == prefix;
  }

  lemma CodedAll(out: seq<Byte>, start: nat, p: nat, prefix: seq<Byte>, input: seq<Byte>, k: nat)
    requires Coded(out, start, p, prefix, input, k) && k >= |input|
    ensures Coded(out, start, p, prefix, input, |input|)
  {
  }

  /** Writing more code after p extends what is coded. */
  lemma CodedMore(before: seq<Byte>, after: seq<Byte>, start: nat, p: nat, q: nat, prefix: seq<Byte>, input: seq<Byte>,
                  k: nat, to: nat, code: seq<Byte>, end: nat)
    requires Coded(before, start, p, prefix, input, k) && Wrote(before, after, p, code, end)
    requires q == p + |code| && k <= to <= |input|
    requires Emits(code, prefix + input[..k], prefix + input[..to])
    ensures Coded(after, start, q, prefix, input, to)
  {
    hide Emits;
    EmitsChain(before[start..p], code, prefix, prefix + input[..k], prefix + input[..to]);
    assert after[start..p] == after[..p][start..] == before[..p][start..] == before[start..p];
    assert after[start..p + |code|] == after[start..p] + after[p..p + |code|];
  }

  lemma LiteralCodes(prefix: seq<Byte>, input: seq<Byte>, k: nat, n: nat, to: nat)
    requires 1 <= n < 0x8000_0000 && k + n == to <= |input|
    ensures Emits(LiteralTagBytes(n) + input[k..k + n], prefix + input[..k], prefix + input[..to])
  {
    LiteralEmits(input[k..k + n], prefix + input[..k]);
    assert prefix + input[..k] + input[k..k + n] == prefix + input[..to];
  }

  /** A copy from an earlier equal stretch reproduces the input, even when the two overlap. */
  lemma MatchCodes(prefix: seq<Byte>, input: seq<Byte>, candidate: nat, base: nat, n: nat)
    requires candidate < base && 4 <= n && base + n <= |input| <= BLOCK_SIZE
    requires input[candidate..candidate + n] == input[base..base + n]
    ensures Emits(CopyBytes(base - candidate, n), prefix + input[..base], prefix + input[..base + n])
  {
    var offset := base - candidate;
    var out, r := prefix + input[..base], prefix + input[..base + n];
    forall i | |out| <= i < |r|
      ensures r[i] == r[i - offset]
    {
      var j := i - |out|;
      assert r[i] == input[base..base + n][j];
      assert r[i - offset] == input[candidate..candidate + n][j];
    }
    CopyFromUnique(out, offset, n, r);
    CopyEmits(offset, n, out);
  }

  lemma LiteralCost(n: nat)
    requires 1 <= n <= BLOCK_SIZE
    ensures 6 * |LiteralTagBytes(n)| <= n + 5
    ensures n >= 6 ==> 6 * |LiteralTagBytes(n)| <= n
  {
  }

  /** The k-th position that is looked at from ip0 on: after 32 of them only every other byte
      is, after 32 more every third, and so on. */
  function Probe(ip0: nat, k: nat): (ip: nat)
    ensures ip >= ip0 + k
  {
    if k == 0 then ip0 else Probe(ip0, k - 1) + (32 + k - 1) / 32
  }

  /** The table t after the first k positions have been entered. */
  function Entered(hash: HashFunction, input: seq<Byte>, t: seq<Slot>, shift: nat, ip0: nat, k: nat): (t': seq<Slot>)
    requires Fits(hash, shift, |t|) && |input| <= BLOCK_SIZE
    ensures |t'| == |t|
  {
    if k == 0 || Probe(ip0, k - 1) + 4 > |input| then t
    else Entered(hash, input, t, shift, ip0, k - 1)[hash(Load32(input, Probe(ip0, k - 1)), shift) := Probe(ip0, k - 1)]
  }

  /** What the table has for the k-th position. */
  function Candidate(hash: HashFunction, input: seq<Byte>, t: seq<Slot>, shift: nat, ip0: nat, k: nat): Slot
    requires Fits(hash, shift, |t|) && |input| <= BLOCK_SIZE && Probe(ip0, k) + 4 <= |input|
  {
    Entered(hash, input, t, shift, ip0, k)[hash(Load32(input, Probe(ip0, k)), shift)]
  }

  /** The k-th position and its candidate begin with the same four bytes. */
  predicate Hit(hash: HashFunction, input: seq<Byte>, t: seq<Slot>, shift: nat, ip0: nat, k: nat)
    requires Fits(hash, shift, |t|) && |input| <= BLOCK_SIZE && Probe(ip0, k) + 4 <= |input|
  {
    var candidate := Candidate(hash, input, t, shift, ip0, k);
    candidate + 4 <= |input| && Load32(input, Probe(ip0, k)) == Load32(input, candidate)
  }

  /** The first k positions are looked at, in vain; the next after each is within the limit. */
  ghost predicate InVain(hash: HashFunction, input: seq<Byte>, t: seq<Slot>, shift: nat, ip0: nat, k: nat, ipLimit: nat)
    requires Fits(hash, shift, |t|) && |input| == ipLimit + INPUT_MARGIN <= BLOCK_SIZE
  {
    forall q: nat :: q < k ==> Missed(hash, input, t, shift, ip0, q, ipLimit)
  }

  ghost predicate Missed(hash: HashFunction, input: seq<Byte>, t: seq<Slot>, shift: nat, ip0: nat, q: nat, ipLimit: nat)
    requires Fits(hash, shift, |t|) && |input| == ipLimit + INPUT_MARGIN <= BLOCK_SIZE
  {
    Probe(ip0, q + 1) <= ipLimit && !Hit(hash, input, t, shift, ip0, q)
  }

  lemma ProbeStart(hash: HashFunction, input: seq<Byte>, t: seq<Slot>, shift: nat, ip0: nat, ipLimit: nat)
    requires Fits(hash, shift, |t|) && |input| == ipLimit + INPUT_MARGIN <= BLOCK_SIZE
    ensures Probe(ip0, 0) == ip0 && InVain(hash, input, t, shift, ip0, 0, ipLimit) && Entered(hash, input, t, shift, ip0, 0) == t
  {
  }

  lemma ProbeStep(hash: HashFunction, input: seq<Byte>, t: seq<Slot>, shift: nat, ip0: nat, k: nat, ipLimit: nat)
    requires Fits(hash, shift, |t|) && |input| == ipLimit + INPUT_MARGIN <= BLOCK_SIZE && Probe(ip0, k) + 4 <= |input|
    requires InVain(hash, input, t, shift, ip0, k, ipLimit)
    ensures var ip, slots := Probe(ip0, k), Entered(hash, input, t, shift, ip0, k);
            var slot := hash(Load32(input, ip), shift);
            && Probe(ip0, k + 1) == ip + (32 + k) / 32
            && Candidate(hash, input, t, shift, ip0, k) == slots[slot]
            && (Hit(hash, input, t, shift, ip0, k) <==>
                  slots[slot] + 4 <= |input| && Load32(input, ip) == Load32(input, slots[slot]))
            && Entered(hash, input, t, shift, ip0, k + 1) == slots[slot := ip]
            && (!Hit(hash, input, t, shift, ip0, k) && Probe(ip0, k + 1) <= ipLimit ==>
                  InVain(hash, input, t, shift, ip0, k + 1, ipLimit))
  {
    hide Hit, Candidate;
    HitMeans(hash, input, t, shift, ip0, k);
  }

  lemma HitMeans(hash: HashFunction, input: seq<Byte>, t: seq<Slot>, shift: nat, ip0: nat, k: nat)
    requires Fits(hash, shift, |t|) && |input| <= BLOCK_SIZE && Probe(ip0, k) + 4 <= |input|
    ensures var slots := Entered(hash, input, t, shift, ip0, k);
            var slot := hash(Load32(input, Probe(ip0, k)), shift);
            Candidate(hash, input, t, shift, ip0, k) == slots[slot]
            && (Hit(hash, input, t, shift, ip0, k) <==>
                  slots[slot] + 4 <= |input| && Load32(input, Probe(ip0, k)) == Load32(input, slots[slot]))
  {
    hide Entered;
  }

  /** Step 1 of the main loop: the first four bytes, at growing strides, that the table has
      from earlier on; the k-th position is the last one looked at. */
  method ScanForMatch(hash: HashFunction, input: seq<Byte>, table: array<Slot>, shift: nat, ip0: nat, hash0: nat, ipLimit: nat)
    returns (found: bool, ip: nat, candidate: nat, ghost k: nat)
    requires |input| == ipLimit + INPUT_MARGIN <= BLOCK_SIZE
    requires Fits(hash, shift, table.Length)
    requires ip0 + 4 <= |input| && hash0 == hash(Load32(input, ip0), shift)
    requires forall h :: 0 <= h < table.Length ==> table[h] < ip0
    modifies table
    ensures ip == Probe(ip0, k) && InVain(hash, input, old(table[..]), shift, ip0, k, ipLimit)
    ensures found <==> Probe(ip0, k + 1) <= ipLimit
    ensures found ==> Hit(hash, input, old(table[..]), shift, ip0, k) && candidate == Candidate(hash, input, old(table[..]), shift, ip0, k)
    ensures found ==> ip0 <= ip < ipLimit && candidate < ip
    ensures found ==> input[candidate..candidate + 4] == input[ip..ip + 4]
    ensures ip + 4 <= |input| && table[..] == Entered(hash, input, old(table[..]), shift, ip0, if found then k + 1 else k)
    ensures found ==> forall h :: 0 <= h < table.Length ==> table[h] <= ip
  {
    hide Entered, Candidate, Hit, InVain, Probe;
    ghost var t := table[..];
    ProbeStart(hash, input, t, shift, ip0, ipLimit);
    var skip, nextIp, nextHash := 32, ip0, hash0;
    candidate, k := 0, 0;
    while true
      invariant skip == 32 + k && nextIp == Probe(ip0, k) && nextIp + 4 <= |input|
      invariant nextHash == hash(Load32(input, nextIp), shift)
      invariant InVain(hash, input, t, shift, ip0, k, ipLimit) && table[..] == Entered(hash, input, t, shift, ip0, k)
      invariant forall h :: 0 <= h < table.Length ==> table[h] < nextIp
      decreases |input| - nextIp
    {
      ProbeStep(hash, input, t, shift, ip0, k, ipLimit);
      ip := nextIp;
      var slot := nextHash;
      var bytesBetweenHashLookups := skip / 32;
      skip := skip + 1;
      nextIp := ip + bytesBetweenHashLookups;
      if nextIp > ipLimit { return false, ip, 0, k; }
      nextHash := hash(Load32(input, nextIp), shift);
      candidate := table[slot];
      table[slot] := ip;
      if Load32(input, ip) == Load32(input, candidate) {
        return true, ip, candidate, k;
      }
      k := k + 1;
    }
  }

  /** Step 3: emit the match, then further matches that start where it ends. */
  method EmitMatches(hash: HashFunction, input: seq<Byte>, table: array<Slot>, shift: nat, ip0: nat, candidate0: nat, ipLimit: nat,
                     op: array<Byte>, ghost start: nat, p0: nat, ghost prefix: seq<Byte>)
    returns (again: bool, ip: nat, p: nat, nextHash: nat, ghost n: nat)
    requires |input| == ipLimit + INPUT_MARGIN <= BLOCK_SIZE
    requires Fits(hash, shift, table.Length)
    requires candidate0 < ip0 < ipLimit && input[candidate0..candidate0 + 4] == input[ip0..ip0 + 4]
    requires forall h :: 0 <= h < table.Length ==> table[h] <= ip0
    requires Coded(op[..], start, p0, prefix, input, ip0) && 6 * (p0 - start) <= 7 * ip0 + 5
    requires start + Reach(|input|) <= op.Length
    modifies table, op
    ensures ip0 < ip <= |input|
    ensures Coded(op[..], start, p, prefix, input, ip) && 6 * (p - start) + 5 <= 7 * ip
    ensures op[..start] == old(op[..start]) && op[start + Reach(|input|)..] == old(op[start + Reach(|input|)..])
    ensures p <= op.Length && Copied(old(op[..]), op[..p], p0, input, candidate0, ip0, n)
    ensures again ==> ip < ipLimit && nextHash == hash(Load32(input, ip + 1), shift)
    ensures again ==> forall h :: 0 <= h < table.Length ==> table[h] <= ip
  {
    hide CopyBytes, Copied, Put, LongestMatch, Emits, Coded, Reach;
    ip, p, nextHash, n := ip0, p0, 0, 0;
    var candidate: nat := candidate0;
    ghost var begun, out := false, op[..];
    while true
      invariant if begun then p <= op.Length && Copied(out, op[..p], p0, input, candidate0, ip0, n)
                else ip == ip0 && p == p0 && candidate == candidate0 && op[..] == out
      invariant candidate < ip < ipLimit && ip0 <= ip && input[candidate..candidate + 4] == input[ip..ip + 4]
      invariant forall h :: 0 <= h < table.Length ==> table[h] <= ip
      invariant Coded(op[..], start, p, prefix, input, ip) && 6 * (p - start) <= 7 * ip + 5
      invariant op[..start] == old(op[..start])
      invariant op[start + Reach(|input|)..] == old(op[start + Reach(|input|)..])
      decreases |input| - ip
    {
      ghost var ip1, p1, before := ip, p, op[..];
      ip, p := EmitMatch(input, candidate, ip, op, start, p, prefix);
      if begun {
        CopiedStill(out, before, op[..], p0, p1, p, CopyBytes(ip1 - candidate, ip - ip1), input, candidate0, ip0, n);
      } else {
        n, begun := ip - ip0, true;
        CopiedFirst(out, op[..], p0, p, input, candidate0, ip0, n);
      }
      if ip >= ipLimit { return false, ip, p, 0, n; }
      var insertTail := ip - 1;
      var prevHash := hash(Load32(input, insertTail), shift);
      table[prevHash] := ip - 1;
      var curHash := hash(Load32(input, insertTail + 1), shift);
      candidate := table[curHash];
      table[curHash] := ip;
      if Load32(input, insertTail + 1) != Load32(input, candidate) {
        nextHash := hash(Load32(input, insertTail + 2), shift);
        return true, ip, p, nextHash, n;
      }
    }
  }

  /** One match, stretched as far as it goes and emitted as copies. */
  method EmitMatch(input: seq<Byte>, candidate: nat, base: nat, op: array<Byte>, ghost start: nat, p0: nat, ghost prefix: seq<Byte>)
    returns (ip: nat, p: nat)
    requires candidate < base && base + 4 <= |input| <= BLOCK_SIZE
    requires input[candidate..candidate + 4] == input[base..base + 4]
    requires Coded(op[..], start, p0, prefix, input, base) && 6 * (p0 - start) <= 7 * base + 5
    requires start + Reach(|input|) <= op.Length
    modifies op
    ensures base + 4 <= ip <= |input| && LongestMatch(input, candidate, base, |input|, ip - base)
    ensures Put(old(op[..]), op[..], p0, p, CopyBytes(base - candidate, ip - base))
    ensures Coded(op[..], start, p, prefix, input, ip) && 6 * (p - start) + 5 <= 7 * ip
    ensures op[..start] == old(op[..start]) && op[start + Reach(|input|)..] == old(op[start + Reach(|input|)..])
  {
    hide Emits, CopyBytes, LongestMatch, Wrote, Put, Coded;
    CodedIn(op[..], start, p0, prefix, input, base);
    var more := FindMatchLength(input, candidate + 4, base + 4, |input|);
    var matched := 4 + more;
    StillLongest(input, candidate, base, 4, more);
    MatchCodes(prefix, input, candidate, base, matched);
    ghost var before := op[..];
    p := EmitCopy(base - candidate, matched, op, p0);
    ip := base + matched;
    CodedMore(before, op[..], start, p0, p, prefix, input, base, ip, CopyBytes(base - candidate, matched), p);
    WroteInside(before, op[..], p0, CopyBytes(base - candidate, matched), p, start, start + Reach(|input|));
    WrotePut(before, op[..], p0, CopyBytes(base - candidate, matched), p);
  }

  /** The code comes at p, behind what was there before, and ends at q. */
  ghost predicate Put(before: seq<Byte>, after: seq<Byte>, p: nat, q: nat, code: seq<Byte>) {
    p <= q == p + |code| <= |after| == |before| && after[..p] == before[..p] && after[p..q] == code
  }

  /** The code at p0 begins with a copy from the candidate, as long as the match goes. */
  ghost predicate Copied(before: seq<Byte>, after: seq<Byte>, p0: nat, input: seq<Byte>, candidate: nat, ip: nat, n: nat) {
    && candidate < ip <= |input| <= BLOCK_SIZE && 4 <= n && LongestMatch(input, candidate, ip, |input|, n)
    && p0 <= |before| && before[..p0] + CopyBytes(ip - candidate, n) <= after
  }

  lemma CopiedFirst(before: seq<Byte>, after: seq<Byte>, p0: nat, q: nat, input: seq<Byte>, candidate: nat, ip: nat, n: nat)
    requires candidate < ip <= |input| <= BLOCK_SIZE && 4 <= n && LongestMatch(input, candidate, ip, |input|, n)
    requires Put(before, after, p0, q, CopyBytes(ip - candidate, n))
    ensures q <= |after| && Copied(before, after[..q], p0, input, candidate, ip, n)
  {
    hide CopyBytes, LongestMatch;
    assert after[..q] == after[..p0] + after[p0..q];
  }

  lemma CopiedStill(out: seq<Byte>, before: seq<Byte>, after: seq<Byte>, p0: nat, p: nat, q: nat, code: seq<Byte>,
                    input: seq<Byte>, candidate: nat, ip: nat, n: nat)
    requires Put(before, after, p, q, code) && Copied(out, before[..p], p0, input, candidate, ip, n)
    ensures q <= |after| && Copied(out, after[..q], p0, input, candidate, ip, n)
  {
    hide CopyBytes, LongestMatch;
    assert after[..q] == after[..p] + after[p..q];
  }

  lemma WrotePut(before: seq<Byte>, after: seq<Byte>, p: nat, code: seq<Byte>, end: nat)
    requires Wrote(before, after, p, code, end)
    ensures Put(before, after, p, p + |code|, code)
  {
  }

  lemma StillLongest(s: seq<Byte>, s1: nat, s2: nat, k: nat, more: nat)
    requires s1 + k <= s2 + k <= |s| && s[s1..s1 + k] == s[s2..s2 + k] && LongestMatch(s, s1 + k, s2 + k, |s|, more)
    ensures LongestMatch(s, s1, s2, |s|, k + more) && s2 + k + more <= |s| && s[s1..s1 + k + more] == s[s2..s2 + k + more]
  {
    ExtendMatch(s, s1, s2, k, more);
  }

  lemma WroteInside(before: seq<Byte>, after: seq<Byte>, p: nat, code: seq<Byte>, end: nat, start: nat, limit: nat)
    requires Wrote(before, after, p, code, end) && start <= p && end <= limit <= |before|
    ensures after[..start] == before[..start] && after[limit..] == before[limit..]
  {
  }

  /** The code of a literal of n bytes. */
  function LiteralSize(n: nat): nat
    requires n <= BLOCK_SIZE
  {
    if n == 0 then 0 else |LiteralTagBytes(n)| + n
  }

  lemma LiteralSizeNone()
    ensures LiteralSize(0) == 0
  {
  }

  /** No four bytes of the block occur twice. */
  ghost predicate Fresh(input: seq<Byte>) {
    forall i: nat, j: nat :: i < j <= |input| - 4 ==> Load32(input, i) != Load32(input, j)
  }

  lemma NotFresh(input: seq<Byte>, i: nat, j: nat)
    requires i < j <= |input| - 4 && input[i..i + 4] == input[j..j + 4]
    ensures !Fresh(input)
  {
    assert Load32(input, i) == Load32(input, j);
  }

  /** A literal of the bytes not yet coded. */
  method EmitPending(input: seq<Byte>, k: nat, to: nat, fast: bool, op: array<Byte>, ghost start: nat, p0: nat, ghost prefix: seq<Byte>)
    returns (p: nat)
    requires k < to <= |input| <= BLOCK_SIZE && (fast ==> k + 16 <= |input|)
    requires Coded(op[..], start, p0, prefix, input, k)
    requires 6 * (p0 - start) + 5 <= 7 * k || (p0 == start && k == 0)
    requires start + Reach(|input|) <= op.Length
    modifies op
    ensures Coded(op[..], start, p, prefix, input, to) && p == p0 + LiteralSize(to - k)
    ensures Put(old(op[..]), op[..], p0, p, LiteralTagBytes(to - k) + input[k..to])
    ensures 6 * (p - start) <= 7 * to + 5 && (to >= 6 ==> 6 * (p - start) <= 7 * to)
    ensures op[..start] == old(op[..start]) && op[start + Reach(|input|)..] == old(op[start + Reach(|input|)..])
  {
    hide Emits, LiteralTagBytes, Wrote;
    var n := to - k;
    LiteralCost(n);
    LiteralCodes(prefix, input, k, n, to);
    ghost var before, code := op[..], LiteralTagBytes(n) + input[k..k + n];
    ghost var end := if fast && n <= 16 then p0 + 17 else p0 + |code|;
    p := EmitLiteral(input, k, n, fast, op, p0);
    CodedMore(before, op[..], start, p0, p, prefix, input, k, to, code, end);
    WroteInside(before, op[..], p0, code, end, start, start + Reach(|input|));
    WrotePut(before, op[..], p0, code, end);
  }

  /** The first of the positions from the second byte on whose four bytes the table has, 15 bytes
      or more before the end. */
  ghost predicate FirstHit(hash: HashFunction, input: seq<Byte>, t: seq<Slot>, shift: nat, k: nat)
    requires Fits(hash, shift, |t|) && |input| <= BLOCK_SIZE
  {
    && |input| >= 15 && InVain(hash, input, t, shift, 1, k, |input| - 15) && Probe(1, k + 1) <= |input| - 15
    && Hit(hash, input, t, shift, 1, k)
  }

  /** The code begins with a literal of the bytes before ip and a copy from the candidate of as
      many bytes as are equal. */
  ghost predicate Opens(code: seq<Byte>, input: seq<Byte>, ip: nat, candidate: nat) {
    && candidate < ip <= |input| <= BLOCK_SIZE
    && exists n: nat :: OpensWith(code, input, ip, candidate, n)
  }

  ghost predicate OpensWith(code: seq<Byte>, input: seq<Byte>, ip: nat, candidate: nat, n: nat)
    requires candidate < ip <= |input| <= BLOCK_SIZE
  {
    n >= 4 && LongestMatch(input, candidate, ip, |input|, n) && LiteralTagBytes(ip) + input[..ip] + CopyBytes(ip - candidate, n) <= code
  }

  ghost predicate FirstCoded(hash: HashFunction, input: seq<Byte>, t: seq<Slot>, shift: nat, code: seq<Byte>)
    requires Fits(hash, shift, |t|) && |input| <= BLOCK_SIZE
  {
    forall k: nat :: FirstHit(hash, input, t, shift, k) ==> Opens(code, input, Probe(1, k), Candidate(hash, input, t, shift, 1, k))
  }

  lemma FirstIs(hash: HashFunction, input: seq<Byte>, t: seq<Slot>, shift: nat, k: nat, k': nat)
    requires Fits(hash, shift, |t|) && 15 <= |input| <= BLOCK_SIZE && InVain(hash, input, t, shift, 1, k, |input| - 15)
    requires Probe(1, k + 1) <= |input| - 15 ==> Hit(hash, input, t, shift, 1, k)
    requires FirstHit(hash, input, t, shift, k')
    ensures k' == k && Probe(1, k + 1) <= |input| - 15
  {
    if k' < k { MissedAt(hash, input, t, shift, k, k'); }
    if k < k' { MissedAt(hash, input, t, shift, k', k); }
  }

  lemma MissedAt(hash: HashFunction, input: seq<Byte>, t: seq<Slot>, shift: nat, k: nat, q: nat)
    requires Fits(hash, shift, |t|) && 15 <= |input| <= BLOCK_SIZE && InVain(hash, input, t, shift, 1, k, |input| - 15) && q < k
    ensures Probe(1, q) < Probe(1, q + 1) <= |input| - 15 && !Hit(hash, input, t, shift, 1, q)
  {
    hide Hit;
    assert Missed(hash, input, t, shift, 1, q, |input| - 15);
  }

  lemma ProbeUp(k: nat)
    ensures Probe(1, k) < Probe(1, k + 1)
  {
  }

  /** Without a first match there is nothing to begin with. */
  lemma NoFirst(hash: HashFunction, input: seq<Byte>, t: seq<Slot>, shift: nat, k: nat, code: seq<Byte>)
    requires Fits(hash, shift, |t|) && |input| <= BLOCK_SIZE
    requires |input| >= 15 ==> InVain(hash, input, t, shift, 1, k, |input| - 15) && Probe(1, k + 1) > |input| - 15
    ensures FirstCoded(hash, input, t, shift, code)
  {
    hide Hit, Probe, Opens, Candidate;
    forall k' : nat | FirstHit(hash, input, t, shift, k')
      ensures false
    {
      FirstIs(hash, input, t, shift, k, k');
    }
  }

  /** The first round writes the literal and the copy. */
  lemma FirstRound(hash: HashFunction, input: seq<Byte>, t: seq<Slot>, shift: nat, k: nat, n: nat,
                   op0: seq<Byte>, op1: seq<Byte>, op2: seq<Byte>, start: nat, p1: nat, p2: nat)
    requires Fits(hash, shift, |t|) && 15 <= |input| <= BLOCK_SIZE && InVain(hash, input, t, shift, 1, k, |input| - 15)
    requires Probe(1, k + 1) <= |input| - 15 && Hit(hash, input, t, shift, 1, k)
    requires Put(op0, op1, start, p1, LiteralTagBytes(Probe(1, k)) + input[0..Probe(1, k)])
    requires start <= p2 <= |op2| && Copied(op1, op2[..p2], p1, input, Candidate(hash, input, t, shift, 1, k), Probe(1, k), n)
    ensures FirstCoded(hash, input, t, shift, op2[start..p2])
  {
    ProbeUp(k);
    hide Hit, Probe, Candidate, InVain, LongestMatch, CopyBytes, LiteralTagBytes;
    var ip, candidate, code := Probe(1, k), Candidate(hash, input, t, shift, 1, k), op2[start..p2];
    assert op1[..p1] == op1[..start] + op1[start..p1];
    assert op1[..p1] + CopyBytes(ip - candidate, n) <= op2[..p2];
    BehindStart(op1, op2[..p2], start, p1, CopyBytes(ip - candidate, n));
    assert op2[..p2][start..] == code && input[0..ip] == input[..ip];
    assert OpensWith(code, input, ip, candidate, n);
    forall k': nat | FirstHit(hash, input, t, shift, k')
      ensures k' == k
    {
      FirstIs(hash, input, t, shift, k, k');
    }
  }

  lemma BehindStart(a: seq<Byte>, b: seq<Byte>, start: nat, p: nat, code: seq<Byte>)
    requires start <= p <= |a| && a[..p] + code <= b
    ensures a[start..p] + code <= b[start..]
  {
    assert (a[..p] + code)[start..] == a[start..p] + code;
  }

  lemma KeepsPending(first: seq<Byte>, before: seq<Byte>, after: seq<Byte>, start: nat, p: nat, q: nat, code: seq<Byte>)
    requires start <= p <= |before| && first <= before[start..p] && Put(before, after, p, q, code)
    ensures q <= |after| && first <= after[start..q]
  {
    assert after[start..q] == after[..p][start..] + after[p..q];
    assert before[..p][start..] == before[start..p];
  }

  lemma KeepsCopied(first: seq<Byte>, before: seq<Byte>, after: seq<Byte>, start: nat, p: nat, input: seq<Byte>, candidate: nat, ip: nat, n: nat)
    requires start <= p <= |before| && first <= before[start..p] && Copied(before, after, p, input, candidate, ip, n)
    ensures start <= |after| && first <= after[start..]
  {
    hide CopyBytes;
    BehindStart(before, after, start, p, CopyBytes(ip - candidate, n));
  }

  lemma MoreCoded(hash: HashFunction, input: seq<Byte>, t: seq<Slot>, shift: nat, first: seq<Byte>, code: seq<Byte>)
    requires Fits(hash, shift, |t|) && |input| <= BLOCK_SIZE && FirstCoded(hash, input, t, shift, first) && first <= code
    ensures FirstCoded(hash, input, t, shift, code)
  {
    hide Hit, Candidate, CopyBytes, LiteralTagBytes, LongestMatch, InVain;
    forall k: nat | FirstHit(hash, input, t, shift, k)
      ensures Opens(code, input, Probe(1, k), Candidate(hash, input, t, shift, 1, k))
    {
      var ip, candidate := Probe(1, k), Candidate(hash, input, t, shift, 1, k);
      assert Opens(first, input, ip, candidate);
      var n: nat :| OpensWith(first, input, ip, candidate, n);
      assert OpensWith(code, input, ip, candidate, n);
    }
  }

  /** What the code begins with, after one more round: the first one decides. */
  lemma RoundDone(hash: HashFunction, input: seq<Byte>, t: seq<Slot>, shift: nat, first: seq<Byte>, begun: bool, begin: nat, looked: nat,
                  op0: seq<Byte>, op1: seq<Byte>, op2: seq<Byte>, start: nat, p0: nat, p1: nat, p2: nat, candidate: nat, ip: nat, n: nat)
    returns (first': seq<Byte>)
    requires Fits(hash, shift, |t|) && 15 <= |input| <= BLOCK_SIZE && start <= p0 <= |op0| && start <= p2 <= |op2|
    requires if begun then FirstCoded(hash, input, t, shift, first) && first <= op0[start..p0]
             else && begin == 0 && p0 == start && InVain(hash, input, t, shift, 1, looked, |input| - 15)
                  && Probe(1, looked + 1) <= |input| - 15 && Hit(hash, input, t, shift, 1, looked)
                  && ip == Probe(1, looked) && candidate == Candidate(hash, input, t, shift, 1, looked)
    requires begin < ip <= |input| && Put(op0, op1, p0, p1, LiteralTagBytes(ip - begin) + input[begin..ip])
    requires Copied(op1, op2[..p2], p1, input, candidate, ip, n)
    ensures FirstCoded(hash, input, t, shift, first') && first' <= op2[start..p2]
  {
    hide Probe, Entered, Candidate, Hit, InVain, Copied, FirstCoded, LiteralTagBytes;
    if begun {
      KeepsPending(first, op0, op1, start, p0, p1, LiteralTagBytes(ip - begin) + input[begin..ip]);
      KeepsCopied(first, op1, op2[..p2], start, p1, input, candidate, ip, n);
      assert op2[..p2][start..] == op2[start..p2];
      first' := first;
    } else {
      FirstRound(hash, input, t, shift, looked, n, op0, op1, op2, start, p1, p2);
      first' := op2[start..p2];
    }
  }

  /** The main loop: matches with the literals before them, as long as there are any; k bytes of
      the block are coded in the end. */
  method CompressMatches(hash: HashFunction, input: seq<Byte>, op: array<Byte>, start: nat, table: array<Slot>, shift: nat, ghost prefix: seq<Byte>)
    returns (p: nat, k: nat, ghost first: seq<Byte>)
    requires INPUT_MARGIN <= |input| <= BLOCK_SIZE && Fits(hash, shift, table.Length)
    requires forall h :: 0 <= h < table.Length ==> table[h] == 0
    requires start + Reach(|input|) <= op.Length
    modifies op, table
    ensures start <= p <= op.Length && k <= |input| && Coded(op[..], start, p, prefix, input, k)
    ensures 6 * (p - start) + 5 <= 7 * k || (p == start && k == 0)
    ensures Fresh(input) ==> p == start && k == 0
    ensures FirstCoded(hash, input, old(table[..]), shift, first) && first <= op[start..p]
    ensures op[..start] == old(op[..start]) && op[start + Reach(|input|)..] == old(op[start + Reach(|input|)..])
  {
    hide Emits, Probe, Entered, Candidate, Hit, InVain, Fresh, Put, Copied, FirstCoded, Coded;
    CodedNone(op[..], start, prefix, input);
    p, k, first := start, 0, [];
    ghost var t, begun := table[..], false;
    var ipLimit := |input| - INPUT_MARGIN;
    var ip := 1;
    var nextHash := hash(Load32(input, ip), shift);
    while true
      invariant k < ip && ip + 4 <= |input| && (Fresh(input) ==> k == 0 && p == start)
      invariant nextHash == hash(Load32(input, ip), shift)
      invariant forall h :: 0 <= h < table.Length ==> table[h] < ip
      invariant start <= p <= op.Length && Coded(op[..], start, p, prefix, input, k)
      invariant 6 * (p - start) + 5 <= 7 * k || (p == start && k == 0)
      invariant op[..start] == old(op[..start])
      invariant op[start + Reach(|input|)..] == old(op[start + Reach(|input|)..])
      invariant if begun then FirstCoded(hash, input, t, shift, first) && first <= op[start..p]
                else ip == 1 && k == 0 && p == start && table[..] == t && first == []
      decreases |input| - ip
    {
      var found, candidate, again;
      ghost var looked, n;
      ghost var p0, op0, begin := p, op[..], k;
      found, ip, candidate, looked := ScanForMatch(hash, input, table, shift, ip, nextHash, ipLimit);
      if !found {
        if !begun { NoFirst(hash, input, t, shift, looked, first); }
        break;
      }
      NotFresh(input, candidate, ip);
      p := EmitPending(input, k, ip, true, op, start, p, prefix);
      ghost var p1, op1, at := p, op[..], ip;
      again, ip, p, nextHash, n := EmitMatches(hash, input, table, shift, ip, candidate, ipLimit, op, start, p, prefix);
      CodedIn(op[..], start, p, prefix, input, ip);
      first := RoundDone(hash, input, t, shift, first, begun, begin, looked, op0, op1, op[..], start, p0, p1, p, candidate, at, n);
      k, begun := ip, true;
      if !again { break; }
      ip := ip + 1;
    }
  }

  /** CompressFragment: codes the block after op[start..], touching nothing outside
      op[start..start + Reach(|input|)]. */
  method CompressFragment(hash: HashFunction, input: seq<Byte>, op: array<Byte>, start: nat, table: array<Slot>, ghost prefix: seq<Byte>)
    returns (p: nat)
    requires |input| <= BLOCK_SIZE
    requires exists b :: 1 <= b < 32 && table.Length == Pow2(b) && Fits(hash, 32 - b, table.Length)
    requires forall h :: 0 <= h < table.Length ==> table[h] == 0
    requires start + Reach(|input|) <= op.Length
    modifies op, table
    ensures Coded(op[..], start, p, prefix, input, |input|)
    ensures 6 * (p - start) <= 7 * |input| + 5 && (|input| >= 6 ==> 6 * (p - start) <= 7 * |input|)
    ensures Fresh(input) ==> p == start + LiteralSize(|input|)
    ensures forall b :: 1 <= b < 32 && table.Length == Pow2(b) ==>
              Fits(hash, 32 - b, table.Length) && FirstCoded(hash, input, old(table[..]), 32 - b, op[start..p])
    ensures op[..start] == old(op[..start]) && op[start + Reach(|input|)..] == old(op[start + Reach(|input|)..])
  {
    hide Emits, Pow2, Fresh, LiteralSize, Put, FirstCoded, Coded, FirstHit, InVain, Probe;
    var shift := TableShift(table);
    assert Fits(hash, shift, table.Length);
    ghost var t, first: seq<Byte> := table[..], [];
    CodedNone(op[..], start, prefix, input);
    p := start;
    var nextEmit: nat := 0;
    if |input| >= INPUT_MARGIN {
      p, nextEmit, first := CompressMatches(hash, input, op, start, table, shift, prefix);
    } else {
      NoFirst(hash, input, t, shift, 0, first);
    }
    if nextEmit < |input| {
      ghost var p0, was := p, op[..];
      p := EmitPending(input, nextEmit, |input|, false, op, start, p, prefix);
      KeepsPending(first, was, op[..], start, p0, p, LiteralTagBytes(|input| - nextEmit) + input[nextEmit..|input|]);
    } else {
      LiteralSizeNone();
      CodedAll(op[..], start, p, prefix, input, nextEmit);
    }
    CodedIn(op[..], start, p, prefix, input, |input|);
    MoreCoded(hash, input, t, shift, first, op[start..p]);
  }

  /** 32 less log2 of the table size. */
  method TableShift(table: array<Slot>) returns (shift: nat)
    requires exists b :: 1 <= b < 32 && table.Length == Pow2(b)
    ensures forall b :: 0 <= b && table.Length == Pow2(b) ==> shift == 32 - b
  {
    ghost var c :| 1 <= c < 32 && table.Length == Pow2(c);
    Pow2Mono(1, c); Pow2Mono(c, 31); Pow2Word();
    var log := Log2Floor(table.Length);
    forall b | 0 <= b && table.Length == Pow2(b)
      ensures log == b
    {
      if log < b { Pow2Mono(log + 1, b); }
      if log > b { Pow2Mono(b + 1, log); }
    }
    shift := 32 - log;
  }

  lemma Pow2Mono(a: nat, b: nat)
    requires a <= b
    ensures Pow2(a) <= Pow2(b)
  {
  }

  /** Usable with every table size GetHashTable hands out. */
  ghost predicate GoodHash(hash: HashFunction) {
    forall b :: 1 <= b < 32 ==> Fits(hash, 32 - b, Pow2(b))
  }

  /** The hash of the source: a multiplication in 32 bits, of which the top bits are kept. */
  function SourceHash(bytes: seq<Byte>, shift: nat): (h: nat)
    ensures shift <= 32 ==> h < Pow2(32 - shift)
  {
    if shift > 32 then 0 else HashBytes(LittleEndian(bytes), shift)
  }

  lemma SourceHashIsGood()
    ensures GoodHash(SourceHash)
  {
  }

  /** WorkingMemory::GetHashTable: a cleared table whose size is the smallest power of two from
      256 to the maximum that is not below the size of the input, if there is one. */
  method GetHashTable(inputSize: nat) returns (table: array<Slot>)
    ensures fresh(table) && 256 <= table.Length <= MAX_HASH_TABLE_SIZE
    ensures exists b :: 1 <= b < 32 && table.Length == Pow2(b)
    ensures table.Length == MAX_HASH_TABLE_SIZE || inputSize <= table.Length
    ensures table.Length == 256 || table.Length / 2 < inputSize
    ensures forall h :: 0 <= h < table.Length ==> table[h] == 0
  {
    var htsize := 256;
    ghost var b := 8;
    assert Pow2(8) == 256;
    while htsize < MAX_HASH_TABLE_SIZE && htsize < inputSize
      invariant 8 <= b <= 14 && htsize == Pow2(b)
      invariant 256 <= htsize <= MAX_HASH_TABLE_SIZE && (htsize == 256 || htsize / 2 < inputSize)
      decreases 14 - b
    {
      assert Pow2(14) == MAX_HASH_TABLE_SIZE;
      if b == 14 { assert false; }
      Pow2Mono(b + 1, 14);
      htsize := htsize * 2;
      b := b + 1;
    }
    table := new Slot[htsize](_ => 0);
  }

  /** The next n bytes of the source, gathered from as many fragments as needed. */
  method ReadBlock(reader: Source, n: nat) returns (block: seq<Byte>)
    requires reader.Valid() && n <= |reader.Rest()|
    modifies reader
    ensures reader.Valid() && block == old(reader.Rest())[..n] && reader.Rest() == old(reader.Rest())[n..]
  {
    hide Concat;
    ghost var all := reader.Rest();
    var fragment := reader.Peek();
    if |fragment| >= n {
      block := fragment[..n];
      reader.Skip(n);
    } else {
      block := [];
      while |block| < n
        invariant reader.Valid() && |block| <= n && block == all[..|block|] && reader.Rest() == all[|block|..]
      {
        fragment := reader.Peek();
        var k := if |fragment| < n - |block| then |fragment| else n - |block|;
        TakeMore(all, |block|, fragment, k);
        block := block + fragment[..k];
        reader.Skip(k);
      }
    }
  }

  lemma TakeMore(all: seq<Byte>, m: nat, fragment: seq<Byte>, k: nat)
    requires m <= |all| && fragment <= all[m..] && k <= |fragment|
    ensures all[..m] + fragment[..k] == all[..m + k] && all[m..][k..] == all[m + k..]
  {
  }

  /** No four bytes occur twice in the same block. */
  ghost predicate FreshBlocks(data: seq<Byte>) {
    forall k: nat :: k <= |data| && k % 0x1_0000 == 0 ==> Fresh(BlockAt(data, k))
  }

  function BlockAt(data: seq<Byte>, k: nat): seq<Byte>
    requires k <= |data|
  {
    if |data| - k < 0x1_0000 then data[k..] else data[k..k + 0x1_0000]
  }

  /** The code of n bytes, when every block is a literal. */
  function PlainSize(n: nat): nat {
    if n == 0 then 0
    else
      var last := if n % 0x1_0000 == 0 then 0x1_0000 else n % 0x1_0000;
      PlainSize(n - last) + LiteralSize(last)
  }

  /** The code of one more block after the code of the blocks before it. */
  lemma CodedBlock(before: seq<Byte>, after: seq<Byte>, h: nat, p: nat, q: nat, data: seq<Byte>, k: nat, block: seq<Byte>)
    requires Coded(before, h, p, [], data, k) && Coded(after, p, q, data[..k], block, |block|)
    requires p <= |after| && after[..p] == before[..p] && data[k..] != [] && block <= data[k..]
    ensures Coded(after, h, q, [], data, k + |block|)
  {
    var mid, to := [] + data[..k], [] + data[..k + |block|];
    assert data[..k] + block[..|block|] == to && mid == data[..k];
    EmitsChain(before[h..p], after[p..q], [], mid, to);
    assert after[h..p] == after[..p][h..] == before[..p][h..] == before[h..p];
    assert after[h..q] == after[h..p] + after[p..q];
  }

  /** `code` is a length header for the data followed by tags that decode to the data. */
  ghost predicate Compressed(code: seq<Byte>, data: seq<Byte>) {
    && |data| < WORD32
    && VarintBytes(|data|) <= code
    && Emits(code[|VarintBytes(|data|)|..], [], data)
  }

  lemma CompressedWhole(out: seq<Byte>, h: nat, p: nat, data: seq<Byte>)
    requires Coded(out, h, p, [], data, |data|) && |data| < WORD32 && out[..h] == VarintBytes(|data|)
    ensures Compressed(out[..p], data)
  {
    assert [] + data[..|data|] == data;
    SplitAt(out, h, p, VarintBytes(|data|));
  }

  lemma SplitAt(out: seq<Byte>, h: nat, p: nat, head: seq<Byte>)
    requires h <= p <= |out| && out[..h] == head
    ensures head <= out[..p] && out[..p][|head|..] == out[h..p]
  {
  }

  /** out[h..p] is the code of the first k bytes of the data: of all, or of whole blocks. */
  ghost predicate Halfway(out: seq<Byte>, h: nat, p: nat, data: seq<Byte>, k: nat) {
    && h <= 5 && Coded(out, h, p, [], data, k) && 6 * (p - h) <= 7 * k + (if k == |data| then 5 else 0)
    && (k < |data| ==> k % BLOCK_SIZE == 0) && (FreshBlocks(data) ==> p == h + PlainSize(k))
  }

  /** One more block. */
  lemma BlockDone(before: seq<Byte>, after: seq<Byte>, h: nat, p: nat, q: nat, data: seq<Byte>, k: nat, block: seq<Byte>)
    requires Halfway(before, h, p, data, k) && k < |data| && block == BlockAt(data, k)
    requires p <= |after| && after[..p] == before[..p] && Coded(after, p, q, data[..k], block, |block|)
    requires 6 * (q - p) <= 7 * |block| + 5 && (|block| >= 6 ==> 6 * (q - p) <= 7 * |block|)
    requires Fresh(block) ==> q == p + LiteralSize(|block|)
    ensures Halfway(after, h, q, data, k + |block|)
  {
    hide Emits, PlainSize, LiteralSize, Fresh;
    CodedBlock(before, after, h, p, q, data, k, block);
    PlainStep(k, |block|);
  }

  lemma HalfwayStart(out: seq<Byte>, h: nat, data: seq<Byte>)
    requires h <= 5 && h <= |out|
    ensures Halfway(out, h, h, data, 0)
  {
    EmitsNothing([]);
    assert out[h..h] == [] && [] + data[..0] == [];
  }

  lemma HalfwayEnd(out: seq<Byte>, h: nat, p: nat, data: seq<Byte>)
    requires Halfway(out, h, p, data, |data|) && |data| < WORD32 && out[..h] == VarintBytes(|data|)
    ensures p <= MaxCompressedLength(|data|) && p <= |out| && Compressed(out[..p], data)
    ensures FreshBlocks(data) ==> p == h + PlainSize(|data|)
  {
    hide Emits, PlainSize;
    CompressedWhole(out, h, p, data);
  }

  /** rest is the last n bytes of the data. */
  ghost predicate Tail(rest: seq<Byte>, data: seq<Byte>, n: nat) {
    n <= |data| && rest == data[|data| - n..]
  }

  lemma TailEnds(rest: seq<Byte>, data: seq<Byte>)
    ensures Tail(data, data, |data|) && (Tail(rest, data, 0) ==> rest == [])
  {
  }

  /** Only what is between lo and hi has changed. */
  ghost predicate Outside(before: seq<Byte>, after: seq<Byte>, lo: nat, hi: nat) {
    |before| == |after| && forall i :: 0 <= i < |after| && (i < lo || hi <= i) ==> after[i] == before[i]
  }

  lemma OutsideSlices(before: seq<Byte>, after: seq<Byte>, lo: nat, hi: nat, lo': nat, hi': nat)
    requires lo' <= lo <= hi <= hi' && hi <= |before| == |after| && after[..lo] == before[..lo] && after[hi..] == before[hi..]
    ensures Outside(before, after, lo', hi')
  {
    forall i | 0 <= i < lo' || hi' <= i < |after| ensures after[i] == before[i] {
      if i < lo' { assert after[i] == after[..lo][i]; } else { assert after[i] == after[hi..][i - hi]; }
    }
  }

  lemma OutsideTwice(a: seq<Byte>, b: seq<Byte>, c: seq<Byte>, lo: nat, hi: nat)
    requires Outside(a, b, lo, hi) && Outside(b, c, lo, hi)
    ensures Outside(a, c, lo, hi)
  {
  }

  lemma OutsideSame(a: seq<Byte>, lo: nat, hi: nat)
    ensures Outside(a, a, lo, hi)
  {
  }

  lemma SlicesOutside(before: seq<Byte>, after: seq<Byte>, lo: nat, hi: nat)
    requires Outside(before, after, lo, hi) && lo <= |before| && hi <= |before|
    ensures after[..lo] == before[..lo] && after[hi..] == before[hi..]
  {
  }

  /** Compress one block of the n bytes left. */
  method CompressBlock(hash: HashFunction, reader: Source, dest: array<Byte>, ghost h: nat, p0: nat, n: nat, ghost data: seq<Byte>)
    returns (p: nat)
    requires GoodHash(hash) && reader.Valid() && 0 < n && Tail(reader.Rest(), data, n)
    requires Halfway(dest[..], h, p0, data, |data| - n) && MaxCompressedLength(|data|) <= dest.Length
    modifies reader, dest
    ensures reader.Valid() && Tail(reader.Rest(), data, Left(n))
    ensures Halfway(dest[..], h, p, data, |data| - Left(n))
    ensures Outside(old(dest[..]), dest[..], h, MaxCompressedLength(|data|))
  {
    hide Emits, Pow2, VarintBytes, Concat, Fresh, FreshBlocks, LiteralSize, PlainSize;
    var numToRead := if n < BLOCK_SIZE then n else BLOCK_SIZE;
    ghost var k, limit, before := |data| - n, MaxCompressedLength(|data|), dest[..];
    var block := ReadBlock(reader, numToRead);
    assert block == BlockAt(data, k);
    var table := GetHashTable(numToRead);
    p := CompressFragment(hash, block, dest, p0, table, data[..k]);
    BlockDone(before, dest[..], h, p0, p, data, k, block);
    OutsideSlices(before, dest[..], p0, p0 + Reach(numToRead), h, limit);
  }

  /** Bytes left after one block. */
  function Left(n: nat): (left: nat)
    ensures n > 0 ==> left < n
  {
    if n < BLOCK_SIZE then 0 else n - BLOCK_SIZE
  }

  lemma PlainStep(n: nat, m: nat)
    requires n % BLOCK_SIZE == 0 && 0 < m <= BLOCK_SIZE
    ensures PlainSize(n + m) == PlainSize(n) + LiteralSize(m)
    ensures m == BLOCK_SIZE ==> (n + m) % BLOCK_SIZE == 0
  {
    hide LiteralSize;
    if m < BLOCK_SIZE { ModUnique(n + m, BLOCK_SIZE, n / BLOCK_SIZE, m); } else { ModUnique(n + m, BLOCK_SIZE, n / BLOCK_SIZE + 1, 0); }
    PlainUnfold(n + m);
  }

  lemma PlainUnfold(n: nat)
    requires n > 0
    ensures var last := if n % BLOCK_SIZE == 0 then BLOCK_SIZE else n % BLOCK_SIZE;
            last <= n && PlainSize(n) == PlainSize(n - last) + LiteralSize(last)
  {
    hide LiteralSize;
  }

  /** Compress into a flat array: the length header, then block after block. The code
      decodes to the data, and the array is never touched past MaxCompressedLength. */
  method Compress(hash: HashFunction, reader: Source, dest: array<Byte>) returns (written: nat)
    requires GoodHash(hash) && reader.Valid() && |reader.Rest()| < WORD32
    requires MaxCompressedLength(|reader.Rest()|) <= dest.Length
    modifies reader, dest
    ensures reader.Rest() == []
    ensures var n := old(|reader.Rest()|); written <= 32 + n + n / 6 && dest[32 + n + n / 6..] == old(dest[32 + n + n / 6..])
    ensures Compressed(dest[..written], old(reader.Rest()))
    ensures FreshBlocks(old(reader.Rest())) ==> written == |VarintBytes(old(|reader.Rest()|))| + PlainSize(old(|reader.Rest()|))
  {
    hide Emits, Pow2, VarintBytes, Concat, Halfway, FreshBlocks, PlainSize, Compressed;
    ghost var data := reader.Rest();
    var n := reader.Available();
    HeaderRoundTrip(n, []);
    written := Encode32(dest, 0, n);
    var h := written;
    ghost var limit, header := MaxCompressedLength(n), dest[..];
    HalfwayStart(dest[..], h, data);
    written := CompressBlocks(hash, reader, dest, h, n, data);
    SlicesOutside(header, dest[..], h, limit);
    HalfwayEnd(dest[..], h, written, data);
    assert header[limit..] == header[h..][limit - h..] == old(dest[h..])[limit - h..];
  }

  /** Block after block, once the header has been written. */
  method CompressBlocks(hash: HashFunction, reader: Source, dest: array<Byte>, h: nat, n0: nat, ghost data: seq<Byte>) returns (p: nat)
    requires GoodHash(hash) && reader.Valid() && reader.Rest() == data && n0 == |data|
    requires Halfway(dest[..], h, h, data, 0) && MaxCompressedLength(|data|) <= dest.Length
    modifies reader, dest
    ensures reader.Rest() == [] && Halfway(dest[..], h, p, data, |data|)
    ensures Outside(old(dest[..]), dest[..], h, MaxCompressedLength(|data|))
  {
    hide *;
    ghost var start := dest[..];
    OutsideSame(start, h, MaxCompressedLength(|data|));
    TailEnds(reader.Rest(), data);
    var n := n0;
    p := h;
    while n > 0
      invariant 0 <= n <= |data| && reader.Valid() && Tail(reader.Rest(), data, n)
      invariant Halfway(dest[..], h, p, data, |data| - n)
      invariant Outside(start, dest[..], h, MaxCompressedLength(|data|))
    {
      ghost var before := dest[..];
      p := CompressBlock(hash, reader, dest, h, p, n, data);
      OutsideTwice(start, before, dest[..], h, MaxCompressedLength(|data|));
      n := Left(n);
    }
    TailEnds(reader.Rest(), data);
  }
}
