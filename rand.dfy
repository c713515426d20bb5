/**
 * The integer pseudo-random generators of the math utilities:
 *  - `RC4`, which despite its name is the Mersenne Twister MT19937
 *    (624-word table, M = 397, matrix 0x9908b0df, seeding multiplier
 *    0x6c078965 and the standard tempering masks);
 *  - `LC`, the Park-Miller "minimal standard" generator computed with
 *    Schrage's factorisation, with the input XOR mask of ran0;
 *  - `Rand`, which picks one of the two from its constructor arguments.
 *
 * The TypeScript works on JavaScript numbers through `Int32Array`, `|`, `^`,
 * `>>>` and `imul`; every one of those is a 32-bit two's-complement
 * operation, so the table words are `bv32` here and the conversions
 * from an arbitrary integer are written out (`Bits`, `Signed`).
 */
module Prng {

  const TWO32: int := 0x1_0000_0000
  const INT32_MAX: int := 0x7fff_ffff

  // ---------------------------------------------------------------------------
  // JavaScript's 32-bit conversions

  /** The 32 bits that ECMAScript's ToInt32 / ToUint32 keep of an integer, as a word. */
  function Bits(x: int): bv32 {
    (x % TWO32) as bv32
  }

  /** An unsigned 32-bit value read as a signed (two's-complement) integer. */
  function Signed(u: int): (r: int)
    requires 0 <= u < TWO32
    ensures -0x8000_0000 <= r <= INT32_MAX
    ensures r % TWO32 == u
    ensures u < 0x8000_0000 <==> r >= 0
  {
    if u < 0x8000_0000 then u else u - TWO32
  }

  function Pow2(n: nat): (p: nat)
    ensures p >= 1
  {
    if n == 0 then 1 else 2 * Pow2(n - 1)
  }

  lemma Pow2Step4(n: nat)
    ensures Pow2(n + 4) == 16 * Pow2(n)
  {
    assert Pow2(n + 4) == 2 * Pow2(n + 3);
    assert Pow2(n + 3) == 2 * Pow2(n + 2);
    assert Pow2(n + 2) == 2 * Pow2(n + 1);
  }

  lemma Pow2Of31And32()
    ensures Pow2(31) == 0x8000_0000 && Pow2(32) == TWO32
  {
    Pow2Step4(0); Pow2Step4(4); Pow2Step4(8); Pow2Step4(12);
    Pow2Step4(16); Pow2Step4(20); Pow2Step4(24); Pow2Step4(27); Pow2Step4(28);
  }

  /**
   * The exclusive or of two naturals, bit by bit from the lowest. On the 32-bit operands JavaScript's
   * `^` works on, this is that operator on the unsigned words.
   */
  function Xor(a: nat, b: nat): nat
    decreases a + b
  {
    if a == 0 && b == 0 then 0 else (a + b) % 2 + 2 * Xor(a / 2, b / 2)
  }

  /** The defining step holds at zero too. */
  lemma XorUnfold(a: nat, b: nat)
    ensures Xor(a, b) == (a + b) % 2 + 2 * Xor(a / 2, b / 2)
  {
  }

  /** Operands below a power of two give a result below it. */
  lemma {:induction false} XorBound(a: nat, b: nat, k: nat)
    requires a < Pow2(k) && b < Pow2(k)
    ensures Xor(a, b) < Pow2(k)
    decreases k
  {
    if k > 0 && !(a == 0 && b == 0) {
      assert Pow2(k) == 2 * Pow2(k - 1);
      XorBound(a / 2, b / 2, k - 1);
    }
  }

  /** If y lies in [0, m) and differs from x by a multiple of m, it is x mod m. */
  lemma ModUnique(x: int, q: int, y: int, m: int)
    requires 0 < m && 0 <= y < m && x == q * m + y
    ensures x % m == y
  {
    var d := x / m - q;
    assert m * d == y - x % m;
    NonzeroMultiple(m, d);
  }

  /** A non-zero multiple of m is at least m away from zero. */
  lemma NonzeroMultiple(m: int, d: int)
    requires m > 0
    ensures d > 0 ==> m * d >= m
    ensures d < 0 ==> m * d <= -m
  {
    if d > 0 {
      PositiveMultiple(m, d);
    } else if d < 0 {
      PositiveMultiple(m, -d);
      assert m * d == -(m * -d);
    }
  }

  lemma {:induction false} PositiveMultiple(m: int, d: int)
    requires m > 0 && d > 0
    ensures m * d >= m
    decreases d
  {
    if d > 1 {
      PositiveMultiple(m, d - 1);
      assert m * d == m * (d - 1) + m;
    }
  }

  /** XOR with the same b twice gives a back. */
  lemma {:induction false} XorTwice(a: nat, b: nat)
    ensures Xor(Xor(a, b), b) == a
    decreases a + b
  {
    if !(a == 0 && b == 0) {
      var y := Xor(a / 2, b / 2);
      var x := Xor(a, b);
      XorUnfold(a, b);
      LowBit(x, (a + b) % 2, y);
      XorUnfold(x, b);
      XorTwice(a / 2, b / 2);
      ParityBack(a, b, x);
      assert Xor(x, b) == a % 2 + 2 * (a / 2);
    }
  }

  /** The low bit and the rest of bit + 2 * rest. */
  lemma LowBit(x: nat, bit: nat, rest: nat)
    requires bit < 2 && x == bit + 2 * rest
    ensures x % 2 == bit && x / 2 == rest
  {
  }

  /** Adding b twice leaves the parity of a. */
  lemma ParityBack(a: nat, b: nat, x: nat)
    requires x % 2 == (a + b) % 2
    ensures (x + b) % 2 == a % 2
  {
    assert x + b == (x - (a + b)) + a + 2 * b;
  }

  // ---------------------------------------------------------------------------
  // LC: Park-Miller with Schrage's factorisation

  const LC_A: int := 16807
  const LC_Q: int := 127773
  const LC_R: int := 2836
  const LC_MASK: nat := 123459876
  /** RANDOM_AQR, the modulus 2^31 - 1 (= A * Q + R). */
  const LC_M: int := INT32_MAX

  /** XOR with the mask keeps a word a word, and keeps the sign bit clear when it was clear. */
  lemma MaskBounds(x: nat)
    requires x < TWO32
    ensures Xor(x, LC_MASK) < TWO32
    ensures x < 0x8000_0000 ==> Xor(x, LC_MASK) < 0x8000_0000
  {
    Pow2Of31And32();
    XorBound(x, LC_MASK, 32);
    if x < 0x8000_0000 {
      XorBound(x, LC_MASK, 31);
    }
  }

  /** `this.seed ^= RANDOM_MASK`: the XOR acts on ToInt32 of the seed and yields a signed 32-bit integer. */
  function Masked(seed: int): (s: int)
    ensures -0x8000_0000 <= s <= INT32_MAX
    ensures 0 <= seed <= INT32_MAX ==> s >= 0
  {
    MaskBounds(seed % TWO32);
    Signed(Xor(seed % TWO32, LC_MASK))
  }

  /** A seed whose masked value is the given signed 32-bit s: masking is its own inverse. */
  function Unmasked(s: int): (seed: int)
    requires -0x8000_0000 <= s <= INT32_MAX
    ensures Masked(seed) == s
  {
    var u := s % TWO32;
    assert u == if s >= 0 then s else s + TWO32;
    MaskBounds(u);
    var x := Xor(u, LC_MASK);
    UnmaskedStep(u, x);
    Signed(x)
  }

  lemma UnmaskedStep(u: nat, x: nat)
    requires u < TWO32 && x < TWO32 && x == Xor(u, LC_MASK)
    ensures Xor(Signed(x) % TWO32, LC_MASK) == u
  {
    XorTwice(u, LC_MASK);
    assert Signed(x) % TWO32 == x;
  }

  /**
   * Schrage's identity: A * s - floor(s / Q) * M equals A * (s mod Q) - R * floor(s / Q),
   * which lies strictly between -M and M for a non-negative 31-bit s.
   */
  lemma SchrageStep(s: int)
    requires -0x8000_0000 <= s <= INT32_MAX
    ensures var t := LC_A * s - (s / LC_Q) * LC_M;
            && t == LC_A * (s % LC_Q) - LC_R * (s / LC_Q)
            && -LC_M < t < TWO32
            && (s >= 0 ==> t < LC_M)
            && (s >= 0 && t >= 0 ==> t == (LC_A * s) % LC_M)
            && (s >= 0 && t < 0 ==> t + LC_M == (LC_A * s) % LC_M)
  {
    var q, r := s / LC_Q, s % LC_Q;
    assert s == LC_Q * q + r;
    assert -16808 <= q <= 16807;
    var t := LC_A * s - q * LC_M;
    assert t == LC_A * r - LC_R * q;
    if s >= 0 {
      assert 0 <= q;
      if t >= 0 {
        ModUnique(LC_A * s, q, t, LC_M);
      } else {
        ModUnique(LC_A * s, q - 1, t + LC_M, LC_M);
      }
    }
  }

  /** Schrage's product on a masked seed, with the final `if (seed < 0) seed += INT32_MAX`. */
  function Schrage(s: int): (r: int)
    requires -0x8000_0000 <= s <= INT32_MAX
    ensures 0 <= r < TWO32
    ensures s >= 0 ==> r < LC_M && r == (LC_A * s) % LC_M
  {
    var k := s / LC_Q;  // Math.floor; Dafny's division by a positive divisor rounds down too
    var t := LC_A * s - k * LC_M;
    SchrageStep(s);
    if t < 0 then t + LC_M else t
  }

  /** One step of `LC.next`. */
  function LcStep(seed: int): (r: int)
    ensures 0 <= r < TWO32
    ensures 0 <= seed <= INT32_MAX ==> r < LC_M
  {
    Schrage(Masked(seed))
  }

  /** For a seed in [0, INT32_MAX] a step is the Park-Miller step A * (seed ^ MASK) mod (2^31 - 1). */
  lemma LcStepIsParkMiller(seed: int)
    requires 0 <= seed <= INT32_MAX
    ensures LcStep(seed) == (LC_A * Masked(seed)) % LC_M
  {
  }

  /** The seed after `n` calls of `LC.next`. */
  function LcIterate(seed: int, n: nat): int
    decreases n
  {
    if n == 0 then seed else LcStep(LcIterate(seed, n - 1))
  }

  lemma LcIterateNext(seed: int, n: nat)
    ensures LcIterate(seed, n + 1) == LcStep(LcIterate(seed, n))
  {
  }

  /** The range `next` documents for its result, [0, MAX_INT32]. */
  predicate InLcRange(x: int) {
    0 <= x <= INT32_MAX
  }

  lemma LcStepInRange(seed: int)
    requires InLcRange(seed)
    ensures InLcRange(LcStep(seed))
  {
  }

  /** Starting from a seed in [0, INT32_MAX], every later seed, and so every output, stays in that range. */
  lemma {:induction false} LcIterateInRange(seed: int, n: nat)
    requires InLcRange(seed)
    ensures InLcRange(LcIterate(seed, n))
    decreases n
  {
    if n > 0 {
      LcIterateInRange(seed, n - 1);
      LcStepInRange(LcIterate(seed, n - 1));
    }
  }

  /**
   * Outside that range the documented bound [0, MAX_INT32] fails: the seed whose masked value
   * is -2147480812 (its remainder mod Q is Q - 1 and its quotient -16808) steps to 2195131492.
   */
  lemma LcNegativeSeedLeavesRange()
    ensures LcStep(Unmasked(-2147480812)) == 2195131492
    ensures LcStep(Unmasked(-2147480812)) > INT32_MAX
  {
    assert -2147480812 / LC_Q == -16808;
  }

  class LC {
    var seed: int

    constructor (seed: int)
      ensures this.seed == seed
    {
      this.seed := seed;
    }

    /** `next`: the new seed is returned; see LcStep for its range. */
    method Next() returns (r: int)
      modifies this
      ensures seed == LcStep(old(seed)) && r == seed
    {
      var s := Masked(seed);
      var k := s / LC_Q;
      var t := LC_A * s - k * LC_M;
      if t < 0 {
        t := t + LC_M;
      }
      seed := t;
      r := seed;
    }

    /** `discard`: nothing for a count <= 0, otherwise exactly `count` calls of `next`. */
    method Discard(count: int)
      modifies this
      ensures seed == LcIterate(old(seed), if count <= 0 then 0 else count)
    {
      if count <= 0 {
        return;
      }
      var c := count;
      ghost var done: nat := 0;
      while c != 0
        invariant 0 <= c <= count && done == count - c
        invariant seed == LcIterate(old(seed), done)
        decreases c
      {
        c := c - 1;
        LcIterateNext(old(seed), done);
        var _ := Next();
        done := done + 1;
      }
    }

    method GetState() returns (state: int)
      ensures state == seed
    {
      state := seed;
    }

    method SetState(state: int)
      modifies this
      ensures seed == state
    {
      seed := state;
    }
  }

  // ---------------------------------------------------------------------------
  // RC4 = MT19937

  /** ARRAY_SIZE, M and A of rand.ts. */
  const N: nat := 624
  const MT_M: nat := 397
  const MATRIX_A: bv32 := 0x9908b0df

  /** One seeding step: `imul(prev ^ (prev >>> 30), 0x6c078965) + i`, kept to 32 bits by `| 0`. */
  function SeedWord(prev: bv32, i: nat): bv32
    requires i < N
  {
    (prev ^ (prev >> 30)) * 0x6c078965 + (i as bv32)
  }

  /** The first n words of the table the constructor fills from x0. */
  function SeedPrefix(x0: bv32, n: nat): (t: seq<bv32>)
    requires 1 <= n <= N
    ensures |t| == n && t[0] == x0
    decreases n
  {
    if n == 1 then [x0] else var t := SeedPrefix(x0, n - 1); t + [SeedWord(t[n - 2], n - 1)]
  }

  /** Growing a prefix by one word appends the next word of the recurrence. */
  lemma SeedPrefixSnoc(x0: bv32, n: nat, p: seq<bv32>, w: bv32)
    requires 1 <= n < N && p == SeedPrefix(x0, n)
    requires w == SeedWord(p[n - 1], n)
    ensures SeedPrefix(x0, n + 1) == p + [w]
  {
  }

  lemma TakeSnoc(a: seq<bv32>, i: nat, p: seq<bv32>, v: bv32)
    requires i < |a| && a[..i] == p && a[i] == v
    ensures a[..i + 1] == p + [v]
  {
    assert a[..i + 1] == a[..i] + [a[i]];
  }

  /** The constructor's table: word 0 is `seed | 0`, every later word follows from its predecessor. */
  function SeedTable(seed: int): seq<bv32> {
    SeedPrefix(Bits(seed), N)
  }

  /** Word i of a prefix is word i of every longer prefix. */
  lemma {:induction false} SeedPrefixAt(x0: bv32, n: nat, i: nat)
    requires i < n <= N
    ensures SeedPrefix(x0, n)[i] == SeedPrefix(x0, i + 1)[i]
    decreases n
  {
    if n > i + 1 {
      SeedPrefixAt(x0, n - 1, i);
      var t := SeedPrefix(x0, n - 1);
      assert SeedPrefix(x0, n) == t + [SeedWord(t[n - 2], n - 1)];
    }
  }

  /** A table grown from x0 satisfies the MT19937 initialisation recurrence at every position. */
  lemma PrefixRecurrence(x0: bv32, n: nat, i: nat)
    requires 1 <= i < n <= N
    ensures SeedPrefix(x0, n)[i] == SeedWord(SeedPrefix(x0, n)[i - 1], i)
  {
    SeedPrefixAt(x0, n, i);
    SeedPrefixAt(x0, n, i - 1);
    var p := SeedPrefix(x0, i);
    assert SeedPrefix(x0, i + 1) == p + [SeedWord(p[i - 1], i)];
  }

  /** The seeded table: word 0 is `seed | 0` and every later word follows the recurrence. */
  lemma SeedTableRecurrence(seed: int, i: nat)
    requires 1 <= i < N
    ensures |SeedTable(seed)| == N
    ensures SeedTable(seed)[0] == Bits(seed)
    ensures SeedTable(seed)[i] == SeedWord(SeedTable(seed)[i - 1], i)
  {
    PrefixRecurrence(Bits(seed), N, i);
  }

  /** The twist of one word: upper bit of `hi`, lower 31 bits of `lo`, shifted and combined with `far`. */
  function Mix(hi: bv32, lo: bv32, far: bv32): bv32 {
    var y := (hi & 0x8000_0000) | (lo & 0x7fff_ffff);
    far ^ (y >> 1) ^ (if y & 1 != 0 then MATRIX_A else 0)
  }

  /**
   * Word j of the regenerated table, by the MT19937 recurrence: it mixes old word j with the word after
   * it and the word M ahead of it, where a position that the regeneration has already passed (word 0
   * for the last word, word j - (N - M) for j >= N - M) contributes its new value.
   */
  function TwistWord(s: seq<bv32>, j: nat): bv32
    requires |s| == N && j < N
    decreases j
  {
    Mix(s[j], if j + 1 < N then s[j + 1] else TwistWord(s, 0),
        if j < N - MT_M then s[j + MT_M] else TwistWord(s, j - (N - MT_M)))
  }

  /**
   * The first n words of the regenerated table in the order the loops of refreshData produce them: word k
   * mixes old words k and k + 1 with old word k + M below N - M, and with the new word k - (N - M) above.
   */
  function TwistPrefix(s: seq<bv32>, n: nat): (p: seq<bv32>)
    requires |s| == N && n <= N - 1
    ensures |p| == n
    decreases n
  {
    if n == 0 then []
    else
      var p := TwistPrefix(s, n - 1);
      var k := n - 1;
      p + [Mix(s[k], s[k + 1], if k < N - MT_M then s[k + MT_M] else p[k - (N - MT_M)])]
  }

  /** Growing the prefix by one word appends word k of the regeneration. */
  lemma TwistPrefixSnoc(s: seq<bv32>, k: nat, p: seq<bv32>, far: bv32, w: bv32)
    requires |s| == N && k < N - 1 && p == TwistPrefix(s, k)
    requires far == if k < N - MT_M then s[k + MT_M] else p[k - (N - MT_M)]
    requires w == Mix(s[k], s[k + 1], far)
    ensures TwistPrefix(s, k + 1) == p + [w]
  {
  }

  /** The loops' words are the reference words of the twist. */
  lemma {:induction false} TwistPrefixAt(s: seq<bv32>, n: nat, j: nat)
    requires |s| == N && j < n <= N - 1
    ensures TwistPrefix(s, n)[j] == TwistWord(s, j)
    decreases n
  {
    var p := TwistPrefix(s, n - 1);
    assert TwistPrefix(s, n) == p + [TwistPrefix(s, n)[n - 1]];
    if j < n - 1 {
      TwistPrefixAt(s, n - 1, j);
    } else if j >= N - MT_M {
      TwistPrefixAt(s, n - 1, j - (N - MT_M));
    }
  }

  /** A slice past an updated position is unchanged by the update. */
  lemma DropPastUpdate(a: seq<bv32>, s: seq<bv32>, k: nat, w: bv32)
    requires k < |a| == |s| && a[k..] == s[k..]
    ensures a[k := w][k + 1..] == s[k + 1..]
  {
    assert a[k := w][k + 1..] == a[k..][1..];
  }

  /** The whole regeneration of the table. */
  function Twist(s: seq<bv32>): (t: seq<bv32>)
    requires |s| == N
    ensures |t| == N
    ensures forall j :: 0 <= j < N ==> t[j] == TwistWord(s, j)
  {
    seq(N, j requires 0 <= j < N => TwistWord(s, j))
  }

  /** The last step of the regeneration completes the table. */
  lemma TwistLastWord(s: seq<bv32>, t: seq<bv32>, n: nat)
    requires |s| == N && |t| == N && n == N - 1
    requires t[..n] == TwistPrefix(s, n)
    requires t[N - 1] == s[N - 1]
    ensures t[N - 1 := Mix(t[N - 1], t[0], t[MT_M - 1])] == Twist(s)
  {
    forall j | 0 <= j < n
      ensures t[j] == TwistWord(s, j)
    {
      assert t[j] == t[..n][j];
      TwistPrefixAt(s, n, j);
    }
    assert TwistWord(s, N - 1) == Mix(s[N - 1], TwistWord(s, 0), TwistWord(s, MT_M - 1));
  }

  /** The tempering of `value`, without the final `>>> 0`. */
  function Temper(v: bv32): bv32 {
    var a := v ^ (v >> 11);
    var b := a ^ ((a << 7) & 0x9d2c5680);
    var c := b ^ ((b << 15) & 0xefc60000);
    c ^ (c >> 18)
  }

  /** The generator's state: the table and the read position. */
  datatype MtState = MtState(table: seq<bv32>, index: int)

  /** A 624-word table and a read position; any position from 624 on means the table is used up. */
  ghost predicate MtValid(st: MtState) {
    |st.table| == N && 0 <= st.index
  }

  /** The state change of `next`: regenerate when the table is used up, then advance past the word read. */
  function Advance(st: MtState): (r: MtState)
    requires MtValid(st)
    ensures MtValid(r) && r.index >= 1
    ensures st.index < N ==> r == MtState(st.table, st.index + 1)
    ensures st.index >= N ==> r == MtState(Twist(st.table), 1)
  {
    var t := if st.index >= N then MtState(Twist(st.table), 0) else st;
    MtState(t.table, t.index + 1)
  }

  /** The word `next` reads: the current one, or word 0 of the regenerated table at the end. */
  function Current(st: MtState): bv32
    requires MtValid(st)
  {
    if st.index >= N then Twist(st.table)[0] else st.table[st.index]
  }

  /** The result of `next`, before the conversion to an unsigned number. */
  function Output(st: MtState): bv32
    requires MtValid(st)
  {
    Temper(Current(st))
  }

  /** The state after n calls of `next`. */
  function NextN(st: MtState, n: nat): (r: MtState)
    requires MtValid(st)
    ensures MtValid(r)
    decreases n
  {
    if n == 0 then st else NextN(Advance(st), n - 1)
  }

  /** The outputs of n calls of `next`, in order. */
  function Outputs(st: MtState, n: nat): (out: seq<bv32>)
    requires MtValid(st)
    ensures |out| == n
    decreases n
  {
    if n == 0 then [] else [Output(st)] + Outputs(Advance(st), n - 1)
  }

  /** While the table lasts, n calls only advance the index. */
  lemma {:induction false} NextNWithinTable(st: MtState, n: nat)
    requires MtValid(st) && st.index + n <= N
    ensures NextN(st, n) == MtState(st.table, st.index + n)
    decreases n
  {
    if n > 0 {
      NextNWithinTable(Advance(st), n - 1);
    }
  }

  /** Calls compose: a + b calls are a calls followed by b calls. */
  lemma {:induction false} NextNAdd(st: MtState, a: nat, b: nat)
    requires MtValid(st)
    ensures NextN(st, a + b) == NextN(NextN(st, a), b)
    decreases a
  {
    if a > 0 {
      NextNAdd(Advance(st), a - 1, b);
    }
  }

  /** At or past the end of the table, r >= 1 calls behave as r calls on the regenerated table read from 0. */
  lemma NextNAtEnd(table: seq<bv32>, i: int, r: nat)
    requires |table| == N && i >= N && r >= 1
    ensures NextN(MtState(table, i), r) == NextN(MtState(Twist(table), 0), r)
  {
    assert Advance(MtState(table, i)) == Advance(MtState(Twist(table), 0));
  }

  /** The skip `discard` makes when the count runs past the end of the table. */
  lemma DiscardRound(st: MtState, c: nat)
    requires MtValid(st) && st.index < N && c + st.index > N
    ensures NextN(st, c) == NextN(MtState(Twist(st.table), 0), c - (N - st.index))
  {
    var skip := N - st.index;
    NextNAdd(st, skip, c - skip);
    NextNWithinTable(st, skip);
    NextNAtEnd(st.table, N, c - skip);
  }

  /** The read position stays within [0, 624]: n calls from a position at most 624 end at most at 624. */
  lemma {:induction false} NextNIndexBound(st: MtState, n: nat)
    requires MtValid(st) && st.index <= N
    ensures NextN(st, n).index <= N
    decreases n
  {
    if n > 0 {
      NextNIndexBound(Advance(st), n - 1);
    }
  }

  /** Discarding n outputs and then reading m gives outputs n .. n+m-1 of the undisturbed stream. */
  lemma {:induction false} OutputsSplit(st: MtState, n: nat, m: nat)
    requires MtValid(st)
    ensures Outputs(st, n + m) == Outputs(st, n) + Outputs(NextN(st, n), m)
    decreases n
  {
    if n > 0 {
      OutputsSplit(Advance(st), n - 1, m);
    }
  }

  class RC4 {
    var data: array<bv32>
    var index: int  // from 0; 624 and above mean the table is used up

    ghost predicate Valid()
      reads this
    {
      data.Length == N && 0 <= index
    }

    ghost function State(): MtState
      reads this, data
    {
      MtState(data[..], index)
    }

    /** Seeds the table and sets the index to 624, so that the first `next` regenerates. */
    constructor (seed: int)
      ensures Valid() && fresh(data) && index == N
      ensures State() == MtState(SeedTable(seed), N)
    {
      var d := RC4.SeededTable(seed);
      data := d;
      index := N;
    }

    /** The constructor's table: `seed | 0`, then each word from its predecessor. */
    static method SeededTable(seed: int) returns (d: array<bv32>)
      ensures fresh(d) && d.Length == N
      ensures d[..] == SeedTable(seed)
    {
      d := new bv32[N];
      var previous := Bits(seed);
      d[0] := previous;
      var i := 1;
      while i < N
        invariant 1 <= i <= N
        invariant d[..i] == SeedPrefix(Bits(seed), i)
        invariant previous == d[i - 1]
      {
        ghost var p := SeedPrefix(Bits(seed), i);
        previous := SeedWord(previous, i);
        SeedPrefixSnoc(Bits(seed), i, p, previous);
        d[i] := previous;
        TakeSnoc(d[..], i, p, previous);
        i := i + 1;
      }
      assert d[..] == d[..N];
    }

    /** `next`: regenerate exactly when index >= 624, then return value(data[index]) and advance the index. */
    method Next() returns (r: nat)
      requires Valid()
      modifies this, data
      ensures Valid() && data == old(data)
      ensures State() == Advance(old(State()))
      ensures old(index) <= N ==> index <= N
      ensures r == Output(old(State())) as nat
    {
      if index >= N {
        RefreshData(data);
        index := 0;
      }
      var v := data[index];
      index := index + 1;
      r := Value(v);
    }

    /** `discard`: for count > 0 the same table and index as `count` calls of `next`; nothing otherwise. */
    method Discard(count: int)
      requires Valid()
      modifies this, data
      ensures Valid() && data == old(data)
      ensures State() == NextN(old(State()), if count <= 0 then 0 else count)
      ensures old(index) <= N ==> index <= N
    {
      if count <= 0 {
        return;
      }
      ghost var target := NextN(State(), count);
      if index <= N {
        NextNIndexBound(State(), count);
      }
      var c := count;
      if index >= N {
        ghost var t := data[..];
        NextNAtEnd(t, index, c);
        RefreshData(data);
        index := 0;
        assert State() == MtState(Twist(t), 0);
      }
      while c + index > N
        invariant Valid() && data == old(data)
        invariant c >= 1 && index < N
        invariant NextN(State(), c) == target
        decreases c
      {
        ghost var st := State();
        DiscardRound(st, c);
        c := c - (N - index);
        RefreshData(data);
        index := 0;
        assert State() == MtState(Twist(st.table), 0);
      }
      ghost var st := State();
      NextNWithinTable(st, c);
      index := index + c;
      assert State() == MtState(st.table, st.index + c);
    }

    /** `getState`: the live table object itself, not a copy. */
    method GetState() returns (table: array<bv32>, i: int)
      ensures table == data && i == index
    {
      table, i := data, index;
    }

    /** `setState`: adopts the given table object and index. */
    method SetState(table: array<bv32>, i: int)
      requires table.Length == N && 0 <= i
      modifies this
      ensures Valid() && data == table && index == i
    {
      data := table;
      index := i;
    }

    /** `value`: the tempered word, returned as an unsigned 32-bit integer (`>>> 0`). */
    static function Value(v: bv32): (r: nat)
      ensures r < TWO32
    {
      Temper(v) as nat
    }

    /** `refreshData`: the three loops compute the reference twist of the table in place. */
    static method RefreshData(d: array<bv32>)
      requires d.Length == N
      modifies d
      ensures d[..] == Twist(old(d[..]))
    {
      ghost var s := d[..];
      TwistLower(d, s);
      TwistUpper(d, s);
      ghost var t := d[..];
      assert t[N - 1] == t[N - 1..][0];
      TwistLastWord(s, t, N - 1);
      d[N - 1] := Mix(d[N - 1], d[0], d[MT_M - 1]);
      assert d[..] == t[N - 1 := Mix(t[N - 1], t[0], t[MT_M - 1])];
    }

    /** The first loop: words below N - M mix with the old word M ahead. */
    static method TwistLower(d: array<bv32>, ghost s: seq<bv32>)
      requires d.Length == N && d[..] == s
      modifies d
      ensures d[..N - MT_M] == TwistPrefix(s, N - MT_M)
      ensures d[N - MT_M..] == s[N - MT_M..]
    {
      var k := 0;
      while k < N - MT_M
        invariant 0 <= k <= N - MT_M
        invariant d[..k] == TwistPrefix(s, k)
        invariant d[k..] == s[k..]
      {
        ghost var p := TwistPrefix(s, k);
        ghost var before := d[..];
        assert d[k] == s[k] && d[k + 1] == s[k + 1] && d[k + MT_M] == s[k + MT_M] by {
          assert d[k..][0] == d[k] && d[k..][1] == d[k + 1] && d[k..][MT_M] == d[k + MT_M];
        }
        d[k] := Mix(d[k], d[k + 1], d[k + MT_M]);
        TwistPrefixSnoc(s, k, p, s[k + MT_M], d[k]);
        TakeSnoc(d[..], k, p, d[k]);
        DropPastUpdate(before, s, k, d[k]);
        k := k + 1;
      }
    }

    /** The second loop: words from N - M to N - 2 mix with a word this loop or the first one renewed. */
    static method TwistUpper(d: array<bv32>, ghost s: seq<bv32>)
      requires d.Length == N && |s| == N
      requires d[..N - MT_M] == TwistPrefix(s, N - MT_M)
      requires d[N - MT_M..] == s[N - MT_M..]
      modifies d
      ensures d[..N - 1] == TwistPrefix(s, N - 1)
      ensures d[N - 1..] == s[N - 1..]
    {
      var k := N - MT_M;
      while k < N - 1
        invariant N - MT_M <= k <= N - 1
        invariant d[..k] == TwistPrefix(s, k)
        invariant d[k..] == s[k..]
      {
        ghost var p := TwistPrefix(s, k);
        ghost var before := d[..];
        assert d[k] == s[k] && d[k + 1] == s[k + 1] && d[k - (N - MT_M)] == p[k - (N - MT_M)] by {
          assert d[k..][0] == d[k] && d[k..][1] == d[k + 1] && d[..k][k - (N - MT_M)] == d[k - (N - MT_M)];
        }
        d[k] := Mix(d[k], d[k + 1], d[k - (N - MT_M)]);
        TwistPrefixSnoc(s, k, p, p[k - (N - MT_M)], d[k]);
        TakeSnoc(d[..], k, p, d[k]);
        DropPastUpdate(before, s, k, d[k]);
        k := k + 1;
      }
    }
  }

  /** Restoring a snapshot taken with getState immediately is faithful: nothing changes. */
  method RestoreAtOnce(g: RC4)
    requires g.Valid()
    modifies g
    ensures g.Valid() && g.State() == old(g.State())
  {
    var table, i := g.GetState();
    g.SetState(table, i);
  }

  /**
   * A snapshot is not a copy: it shares the live table, so when the next call
   * regenerates the table the snapshot's table holds Twist of the words it was taken
   * from, and restoring it later restores that regenerated table.
   */
  method SnapshotSharesTable(g: RC4) returns (table: array<bv32>, i: int)
    requires g.Valid() && g.index == N
    modifies g, g.data
    ensures table == g.data && i == N
    ensures table[..] == Twist(old(g.data[..]))
    ensures table[0] == Mix(old(g.data[0]), old(g.data[1]), old(g.data[MT_M]))
  {
    table, i := g.GetState();
    ghost var before := table[..];
    var _ := g.Next();
  }

  // ---------------------------------------------------------------------------
  // Rand: delegation chosen once, in the constructor

  class Rand {
    const lc: LC?
    const mt: RC4?
    ghost const Repr: set<object>

    ghost predicate Valid()
      reads this, mt
    {
      && (lc == null) != (mt == null)
      && (lc != null ==> Repr == {lc})
      && (mt != null ==> mt.Valid() && Repr == {mt, mt.data})
    }

    /** Type 1 selects LC; every other type selects the MT19937 generator, seeded with `seed`. */
    constructor (seed: int, kind: int)
      ensures Valid() && fresh(Repr)
      ensures (lc != null) == (kind == 1)
      ensures lc != null ==> lc.seed == seed
      ensures mt != null ==> mt.State() == MtState(SeedTable(seed), N)
    {
      if kind == 1 {
        var g := new LC(seed);
        lc, mt := g, null;
        Repr := {g};
      } else {
        var g := new RC4(seed);
        lc, mt := null, g;
        Repr := {g, g.data};
      }
    }

    method Next() returns (r: int)
      requires Valid()
      modifies Repr
      ensures Valid()
      ensures lc != null ==> lc.seed == LcStep(old(lc.seed)) && r == lc.seed
      ensures mt != null ==> mt.State() == Advance(old(mt.State())) && r == Output(old(mt.State())) as int
      ensures mt != null && old(mt.index) <= N ==> mt.index <= N
    {
      if lc != null {
        r := lc.Next();
      } else {
        var v := mt.Next();
        r := v;
      }
    }

    method Discard(count: int)
      requires Valid()
      modifies Repr
      ensures Valid()
      ensures lc != null ==> lc.seed == LcIterate(old(lc.seed), if count <= 0 then 0 else count)
      ensures mt != null ==> mt.State() == NextN(old(mt.State()), if count <= 0 then 0 else count)
      ensures mt != null && old(mt.index) <= N ==> mt.index <= N
    {
      if lc != null {
        lc.Discard(count);
      } else {
        mt.Discard(count);
      }
    }
  }
}
