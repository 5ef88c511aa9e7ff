/**
 The loops of hash.c over 32-bit unsigned words. A string is the bytes of a C string without
 its terminator; char is signed, as it is for the compilers the repository targets, and a
 char is widened before it is added.
 */
module Checksum {

  const MOD_ADLER := 65521
  const WORD := 0x1_0000_0000

  type Byte = c: int | 0 < c < 256 witness 1
  type CString = seq<Byte>

  /** What a uint32_t holds after v was assigned to it. */
  function Word(v: int): (w: nat)
    ensures w < WORD
  {
    v % WORD
  }

  lemma WordOfSmall(v: nat)
    requires v < WORD
    ensures Word(v) == v
  {
  }

  function Signed(c: Byte): int { if c < 128 then c else c - 256 }

  predicate Ascii(s: CString) { forall i | 0 <= i < |s| :: s[i] < 128 }

  // ---- The checksums of RFC 1950 ----

  function ByteSum(s: CString): nat
  {
    if s == [] then 0 else s[0] + ByteSum(s[1..])
  }

  /** The first byte counts |s| times, the last one once. */
  function WeightedSum(s: CString): nat
  {
    if s == [] then 0 else |s| * s[0] + WeightedSum(s[1..])
  }

  datatype Sums = Sums(a: nat, b: nat)

  const START := Sums(1, 0)

  /** Sections 2.2 and 8.2 of RFC 1950: s1 is 1 plus the sum of the bytes, s2 the sum of all s1
      values, both modulo 65521, and the checksum is s2 * 65536 + s1. */
  function Adler32Of(s: CString): nat
  {
    var r := Reduce(Plain(START, s));
    r.b * 65536 + r.a
  }

  /** p with the plain and the weighted sum of s added. */
  function Plain(p: Sums, s: CString): Sums { Sums(p.a + ByteSum(s), p.b + |s| * p.a + WeightedSum(s)) }

  function Reduce(p: Sums): (q: Sums)
    ensures Reduced(q)
  {
    Sums(p.a % MOD_ADLER, p.b % MOD_ADLER)
  }

  /** Both halves stay below the modulus. */
  predicate Reduced(p: Sums) { p.a < MOD_ADLER && p.b < MOD_ADLER }

  lemma {:induction false} ByteSumAppend(s: CString, t: CString)
    ensures ByteSum(s + t) == ByteSum(s) + ByteSum(t)
  {
    if s == [] {
      assert s + t == t;
    } else {
      assert (s + t)[1..] == s[1..] + t;
      ByteSumAppend(s[1..], t);
    }
  }

  lemma {:induction false} WeightedSumAppend(s: CString, t: CString)
    ensures WeightedSum(s + t) == WeightedSum(s) + |t| * ByteSum(s) + WeightedSum(t)
  {
    if s == [] {
      assert s + t == t;
    } else {
      assert (s + t)[1..] == s[1..] + t;
      WeightedSumAppend(s[1..], t);
      Distribute(|s|, |t|, s[0], ByteSum(s[1..]));
    }
  }

  lemma Distribute(m: nat, n: nat, x: nat, y: nat)
    ensures (m + n) * x == m * x + n * x && n * (x + y) == n * x + n * y
  {
  }

  /** The sum of the s1 values after each byte. */
  function RunningSums(s: CString): nat
  {
    if s == [] then 0 else RunningSums(s[..|s| - 1]) + 1 + ByteSum(s)
  }

  /** The closed form of s2 is the sum of all s1 values. */
  lemma {:induction false} RunningSumsClosedForm(s: CString)
    ensures RunningSums(s) == |s| + WeightedSum(s)
  {
    if s != [] {
      var u, c := s[..|s| - 1], s[|s| - 1];
      assert s == u + [c];
      RunningSumsClosedForm(u);
      PlainStep(Sums(0, 0), u, c);
    }
  }

  // ---- The loop of adler32_hash ----

  function Add(p: Sums, c: Byte): (q: Sums)
    ensures Reduced(q)
  {
    var a := Word(p.a + Signed(c)) % MOD_ADLER;
    Sums(a, Word(a + p.b) % MOD_ADLER)
  }

  function AddAll(p: Sums, s: CString): Sums
  {
    if s == [] then p else Add(AddAll(p, s[..|s| - 1]), s[|s| - 1])
  }

  lemma {:induction false} AddAllReduced(p: Sums, s: CString)
    requires Reduced(p)
    ensures Reduced(AddAll(p, s))
  {
  }

  lemma {:induction false} AddAllAppend(p: Sums, s: CString, t: CString)
    ensures AddAll(p, s + t) == AddAll(AddAll(p, s), t)
  {
    if t == [] {
      assert s + t == s;
    } else {
      assert (s + t)[..|s + t| - 1] == s + t[..|t| - 1];
      AddAllAppend(p, s, t[..|t| - 1]);
    }
  }

  /** The addition to b never wraps, and the one to a wraps exactly if a byte of 128 or more
      takes it below zero. */
  lemma WrapsIff(p: Sums, c: Byte)
    requires Reduced(p)
    ensures Word(p.a + Signed(c)) == p.a + Signed(c) <==> c < 128 || p.a + c >= 256
    ensures Word(Add(p, c).a + p.b) == Add(p, c).a + p.b
  {
  }

  lemma ModStep(x: int, y: int)
    ensures (x % MOD_ADLER + y) % MOD_ADLER == (x + y) % MOD_ADLER
  {
    var q := x / MOD_ADLER;
    assert x % MOD_ADLER + y == x + y - q * MOD_ADLER;
    ModShift(x + y, -q);
  }

  lemma ModShift(x: int, k: int)
    ensures (x + k * MOD_ADLER) % MOD_ADLER == x % MOD_ADLER
  {
    var m := x + k * MOD_ADLER;
    assert m - MOD_ADLER * (x / MOD_ADLER + k) == x % MOD_ADLER;
  }

  /** From any state, bytes below 128 add their plain and their weighted sum. */
  lemma {:induction false} AsciiClosedForm(p: Sums, t: CString)
    requires Reduced(p) && Ascii(t)
    ensures AddAll(p, t) == Reduce(Plain(p, t))
  {
    if t == [] {
      assert Plain(p, t) == p;
    } else {
      var u, c := t[..|t| - 1], t[|t| - 1];
      assert t == u + [c];
      AsciiClosedForm(p, u);
      PlainStep(p, u, c);
      AsciiStep(Plain(p, u), c);
    }
  }

  lemma PlainStep(p: Sums, u: CString, c: Byte)
    ensures Plain(p, u + [c]) == var q := Plain(p, u); Sums(q.a + c, q.b + q.a + c)
  {
    ByteSumAppend(u, [c]);
    WeightedSumAppend(u, [c]);
    assert (|u| + 1) * p.a == |u| * p.a + p.a;
  }

  lemma AsciiStep(q: Sums, c: Byte)
    requires c < 128
    ensures Add(Reduce(q), c) == Reduce(Sums(q.a + c, q.b + q.a + c))
  {
    AddsWithoutWrap(Reduce(q), c);
    ModStep(q.a, c);
    ModSum(q.a + c, q.b);
  }

  lemma AddsWithoutWrap(p: Sums, c: Byte)
    requires Reduced(p) && c < 128
    ensures Add(p, c) == var a := (p.a + c) % MOD_ADLER; Sums(a, (a + p.b) % MOD_ADLER)
  {
    WordOfSmall(p.a + c);
    WordOfSmall((p.a + c) % MOD_ADLER + p.b);
  }

  lemma ModSum(x: int, y: int)
    ensures (x % MOD_ADLER + y % MOD_ADLER) % MOD_ADLER == (x + y) % MOD_ADLER
  {
    ModStep(x, y % MOD_ADLER);
    ModStep(y, x);
  }

  // ---- Bytes of 128 or more ----

  /** How many bytes of s are negative as a char. */
  function High(s: CString): nat
  {
    if s == [] then 0 else High(s[..|s| - 1]) + if s[|s| - 1] < 128 then 0 else 1
  }

  lemma {:induction false} NoneHighIffAscii(s: CString)
    ensures High(s) == 0 <==> Ascii(s)
  {
    if s != [] {
      NoneHighIffAscii(s[..|s| - 1]);
      assert Ascii(s) <==> Ascii(s[..|s| - 1]) && s[|s| - 1] < 128;
    }
  }

  /** By how much the sum of a loses against the sum of the bytes: by 256 for each negative
      char, except that 2 to the power of 32, which a wrap adds, is 225 modulo 65521. */
  function Drift(p: Sums, s: CString): nat
  {
    if s == [] then 0
    else
      var q, c := AddAll(p, s[..|s| - 1]), s[|s| - 1];
      Drift(p, s[..|s| - 1]) + Loss(q, c)
  }

  /** By how much the sum of b loses: by all that a has lost, after each byte. */
  function DriftSum(p: Sums, s: CString): nat
  {
    if s == [] then 0 else DriftSum(p, s[..|s| - 1]) + Drift(p, s)
  }

  /** For all bytes, the two halves are those of the closed form less what is lost. */
  lemma {:induction false} DriftLaw(p: Sums, s: CString)
    requires Reduced(p)
    ensures AddAll(p, s).a == (Plain(p, s).a - Drift(p, s)) % MOD_ADLER
    ensures AddAll(p, s).b == (Plain(p, s).b - DriftSum(p, s)) % MOD_ADLER
  {
    if s == [] {
      assert Plain(p, s) == p;
    } else {
      var u, c := s[..|s| - 1], s[|s| - 1];
      assert s == u + [c];
      DriftLaw(p, u);
      AddAllReduced(p, u);
      PlainStep(p, u, c);
      DriftStepsWith(p, u, c);
      DriftRound(AddAll(p, u), c, Plain(p, u).a - Drift(p, u), Plain(p, u).b - DriftSum(p, u));
    }
  }

  lemma DriftStepsWith(p: Sums, u: CString, c: Byte)
    ensures AddAll(p, u + [c]) == Add(AddAll(p, u), c)
    ensures Drift(p, u + [c]) == Drift(p, u) + Loss(AddAll(p, u), c)
    ensures DriftSum(p, u + [c]) == DriftSum(p, u) + Drift(p, u + [c])
  {
    var s := u + [c];
    assert s[..|s| - 1] == u && s[|s| - 1] == c;
  }

  /** What byte c costs the sum of a. */
  function Loss(q: Sums, c: Byte): nat { if c < 128 then 0 else if q.a + c >= 256 then 256 else 256 - 225 }

  lemma DriftRound(q: Sums, c: Byte, x: int, y: int)
    requires Reduced(q) && q.a == x % MOD_ADLER && q.b == y % MOD_ADLER
    ensures Add(q, c).a == (x + c - Loss(q, c)) % MOD_ADLER
    ensures Add(q, c).b == (x + c - Loss(q, c) + y) % MOD_ADLER
  {
    DriftStep(x, q, c);
    SecondSum(q, c, x + c - Loss(q, c), y);
  }

  lemma SecondSum(q: Sums, c: Byte, x: int, y: int)
    requires Reduced(q) && Add(q, c).a == x % MOD_ADLER && q.b == y % MOD_ADLER
    ensures Add(q, c).b == (x + y) % MOD_ADLER
  {
    WrapsIff(q, c);
    ModSum(x, y);
  }

  /** How many of the bytes take a below zero. */
  function Wraps(p: Sums, s: CString): nat
  {
    if s == [] then 0
    else
      var q, c := AddAll(p, s[..|s| - 1]), s[|s| - 1];
      Wraps(p, s[..|s| - 1]) + if c >= 128 && q.a + c < 256 then 1 else 0
  }

  lemma {:induction false} DriftCounts(p: Sums, s: CString)
    ensures Drift(p, s) == 256 * High(s) - 225 * Wraps(p, s) && Wraps(p, s) <= High(s)
  {
    if s != [] {
      DriftCounts(p, s[..|s| - 1]);
    }
  }

  lemma DriftStep(x: int, q: Sums, c: Byte)
    requires Reduced(q) && q.a == x % MOD_ADLER
    ensures Add(q, c).a == (x + c - Loss(q, c)) % MOD_ADLER
  {
    if c < 128 || q.a + c >= 256 {
      DriftNoWrap(x, c);
    } else {
      DriftWrap(x, c);
    }
  }

  lemma DriftNoWrap(x: int, c: Byte)
    requires c < 128 || x % MOD_ADLER + c >= 256
    ensures Word(x % MOD_ADLER + Signed(c)) % MOD_ADLER == (x + Signed(c)) % MOD_ADLER
  {
    assert Word(x % MOD_ADLER + Signed(c)) == x % MOD_ADLER + Signed(c);
    ModStep(x, Signed(c));
  }

  lemma DriftWrap(x: int, c: Byte)
    requires c >= 128 && x % MOD_ADLER + c < 256
    ensures Word(x % MOD_ADLER + Signed(c)) % MOD_ADLER == (x + c - 31) % MOD_ADLER
  {
    assert Word(x % MOD_ADLER + c - 256) == x % MOD_ADLER + c - 256 + WORD;
    ModStep(x, c - 256 + WORD);
    ModShift(x + c - 31, 65551);
  }

  // ---- Packing the halves ----

  /** The bitwise or of two words. */
  function BitOr(x: nat, y: nat): nat
    decreases x + y
  {
    if x == 0 && y == 0 then 0
    else 2 * BitOr(x / 2, y / 2) + if x % 2 == 1 || y % 2 == 1 then 1 else 0
  }

  function Pow2(k: nat): (p: nat)
    ensures p > 0
  {
    if k == 0 then 1 else 2 * Pow2(k - 1)
  }

  /** The or of words without a common bit is their sum. */
  lemma {:induction false} BitOrIsSum(b: nat, k: nat, a: nat)
    requires a < Pow2(k)
    ensures BitOr(b * Pow2(k), a) == b * Pow2(k) + a
  {
    if k == 0 {
      BitOrZero(b);
    } else {
      var h := b * Pow2(k - 1);
      assert b * Pow2(k) == 2 * h;
      BitOrIsSum(b, k - 1, a / 2);
      BitOrDoubles(h, a);
    }
  }

  lemma BitOrDoubles(h: nat, a: nat)
    requires BitOr(h, a / 2) == h + a / 2
    ensures BitOr(2 * h, a) == 2 * h + a
  {
    assert (2 * h) / 2 == h && (2 * h) % 2 == 0;
  }

  lemma {:induction false} BitOrZero(x: nat)
    ensures BitOr(x, 0) == x
  {
    if x != 0 {
      BitOrZero(x / 2);
    }
  }

  /** (b << 16) | a */
  function Packed(p: Sums): nat { BitOr(Word(p.b * 65536), p.a) }

  lemma FourMoreBits(k: nat)
    ensures Pow2(k + 4) == 16 * Pow2(k)
  {
    assert Pow2(k + 1) == 2 * Pow2(k) && Pow2(k + 2) == 2 * Pow2(k + 1) && Pow2(k + 3) == 2 * Pow2(k + 2);
  }

  lemma Pow2Of16(k: nat)
    requires k == 16
    ensures Pow2(k) == 65536
  {
    FourMoreBits(k - 16);
    FourMoreBits(k - 12);
    FourMoreBits(k - 8);
    FourMoreBits(k - 4);
  }

  /** The halves do not overlap, so that both can be read off the result. */
  lemma PackedHalves(p: Sums)
    requires Reduced(p)
    ensures Packed(p) == p.b * 65536 + p.a < WORD
    ensures Packed(p) / 65536 == p.b && Packed(p) % 65536 == p.a
  {
    PackWith(p.b, p.a, 16);
  }

  lemma PackWith(b: nat, a: nat, k: nat)
    requires k == 16 && a < 65536
    ensures BitOr(b * 65536, a) == b * 65536 + a
  {
    Pow2Of16(k);
    BitOrIsSum(b, k, a);
  }

  // ---- The checksum ----

  function Adler32Hash(s: CString): nat { Packed(AddAll(START, s)) }

  lemma AsciiIsRfc1950(s: CString)
    requires Ascii(s)
    ensures Adler32Hash(s) == Adler32Of(s)
  {
    AsciiClosedForm(START, s);
    PackedHalves(AddAll(START, s));
  }

  /** The hash is the Adler-32 checksum exactly if what either half loses is a multiple of the
      modulus. */
  lemma IsRfc1950Iff(s: CString)
    ensures Adler32Hash(s) == Adler32Of(s) <==>
            Drift(START, s) % MOD_ADLER == 0 && DriftSum(START, s) % MOD_ADLER == 0
  {
    DriftLaw(START, s);
    HalvesAgree(AddAll(START, s), Plain(START, s), Drift(START, s), DriftSum(START, s));
    IsRfc1950IffHalves(s, AddAll(START, s), Reduce(Plain(START, s)));
  }

  lemma IsRfc1950IffHalves(s: CString, p: Sums, r: Sums)
    requires p == AddAll(START, s) && r == Reduce(Plain(START, s))
    ensures Adler32Hash(s) == Adler32Of(s) <==> p == r
  {
    AddAllReduced(START, s);
    PackedHalves(p);
    SameWord(p, r);
  }

  lemma SameWord(p: Sums, r: Sums)
    requires Reduced(p) && Reduced(r)
    ensures p.b * 65536 + p.a == r.b * 65536 + r.a <==> p == r
  {
  }

  lemma HalvesAgree(p: Sums, q: Sums, da: int, db: int)
    requires p.a == (q.a - da) % MOD_ADLER && p.b == (q.b - db) % MOD_ADLER
    ensures p == Reduce(q) <==> da % MOD_ADLER == 0 && db % MOD_ADLER == 0
  {
    SameResidue(q.a, da);
    SameResidue(q.b, db);
  }

  lemma SameResidue(x: int, d: int)
    ensures (x - d) % MOD_ADLER == x % MOD_ADLER <==> d % MOD_ADLER == 0
  {
    if d % MOD_ADLER == 0 {
      ModShift(x, -(d / MOD_ADLER));
    }
    if (x - d) % MOD_ADLER == x % MOD_ADLER {
      ModShift(0, x / MOD_ADLER - (x - d) / MOD_ADLER);
    }
  }

  /** For fewer than 466 bytes of 128 or more, it is exactly if there are none. */
  lemma IsRfc1950IffAscii(s: CString)
    requires High(s) < 466
    ensures Adler32Hash(s) == Adler32Of(s) <==> Ascii(s)
  {
    if Ascii(s) {
      AsciiIsRfc1950(s);
    } else {
      NoneHighIffAscii(s);
      DriftCounts(START, s);
      DriftShows(High(s), Wraps(START, s));
      IsRfc1950Iff(s);
    }
  }

  lemma DriftShows(high: nat, wraps: nat)
    requires 0 < high < 466 && wraps <= high
    ensures (256 * high - 225 * wraps) % MOD_ADLER != 0
  {
    FirstMultiple(high, wraps);
  }

  /** 466 bytes, of which 239 wrap, are the first to lose a multiple of the modulus. */
  lemma FirstMultiple(high: nat, wraps: nat)
    ensures 256 * high - 225 * wraps == MOD_ADLER ==> high >= 466
  {
    var v, k := 256 * high - 225 * wraps, 57076 + 196 * wraps - 223 * high;
    assert high == 196 * v + 225 * (k - 57076);
  }

  /** A single byte is enough to show it. */
  lemma HighByteDiffers()
    ensures Adler32Hash([128]) != Adler32Of([128])
  {
    assert High([128]) == 1;
    assert [128][0] >= 128;
    IsRfc1950IffAscii([128]);
  }

  /** The bytes 127 and 129, n times. */
  function Pairs(n: nat): CString
  {
    if n == 0 then [] else Pairs(n - 1) + [127] + [129]
  }

  lemma {:induction false} PairsThroughLoop(n: nat)
    ensures AddAll(START, Pairs(n)) == Sums(1, (129 * n) % MOD_ADLER)
  {
    if n > 0 {
      PairsThroughLoop(n - 1);
      AddOneByte(START, Pairs(n - 1), 127);
      AddOneByte(START, Pairs(n - 1) + [127], 129);
      Add127(129 * (n - 1));
      Add129(129 * (n - 1) + 128);
    }
  }

  lemma Add127(y: nat)
    ensures Add(Sums(1, y % MOD_ADLER), 127) == Sums(128, (y + 128) % MOD_ADLER)
  {
    AddsWithoutWrap(Sums(1, y % MOD_ADLER), 127);
    ModStep(y, 128);
  }

  lemma Add129(y: nat)
    ensures Add(Sums(128, y % MOD_ADLER), 129) == Sums(1, (y + 1) % MOD_ADLER)
  {
    var p := Sums(128, y % MOD_ADLER);
    WrapsIff(p, 129);
    ModStep(y, 1);
  }

  lemma AddOneByte(p: Sums, s: CString, c: Byte)
    ensures AddAll(p, s + [c]) == Add(AddAll(p, s), c)
  {
    var t := s + [c];
    assert t[..|t| - 1] == s && t[|t| - 1] == c;
  }

  lemma {:induction false} PairsPlain(n: nat)
    ensures Plain(START, Pairs(n)) == Sums(1 + 256 * n, 385 * n + 256 * (n * (n - 1)))
  {
    if n == 0 {
      assert Pairs(n) == [];
    } else {
      PairsPlain(n - 1);
      PlainStep(START, Pairs(n - 1), 127);
      PlainStep(START, Pairs(n - 1) + [127], 129);
      NextProduct(n - 1);
    }
  }

  lemma NextProduct(m: nat)
    ensures (m + 1) * m == m * (m - 1) + 2 * m
  {
  }

  lemma PairsReduce(n: nat)
    requires n == MOD_ADLER
    ensures Reduce(Sums(1 + 256 * n, 385 * n + 256 * (n * (n - 1)))) == Sums(1, 0)
    ensures (129 * n) % MOD_ADLER == 0
  {
  }

  /** Some bound is needed: 65521 times 127 and 129 has its checksum, though half of it is not
      ASCII. */
  lemma ManyHighBytesMatch(n: nat)
    requires n == MOD_ADLER
    ensures Adler32Hash(Pairs(n)) == Adler32Of(Pairs(n)) && !Ascii(Pairs(n))
  {
    PairsThroughLoop(n);
    PairsPlain(n);
    PairsReduce(n);
    PackedHalves(Sums(1, 0));
    assert Pairs(n)[|Pairs(n)| - 1] == 129;
  }

  /** The checksum of a concatenation, from those of its parts and the length of the second. */
  function Combined(h1: nat, h2: nat, n: nat): nat
  {
    var r := CombinedSums(Sums(h1 % 65536, h1 / 65536), Sums(h2 % 65536, h2 / 65536), n);
    r.b * 65536 + r.a
  }

  function CombinedSums(p: Sums, q: Sums, n: nat): (r: Sums)
    ensures Reduced(r)
  {
    Sums((p.a + q.a + MOD_ADLER - 1) % MOD_ADLER, (p.b + q.b + n * (p.a + MOD_ADLER - 1)) % MOD_ADLER)
  }

  lemma ConcatenationLaw(s: CString, t: CString)
    requires Ascii(t)
    ensures Adler32Hash(s + t) == Combined(Adler32Hash(s), Adler32Hash(t), |t|)
  {
    var p := AddAll(START, s);
    AddAllReduced(START, s);
    AddAllAppend(START, s, t);
    AsciiClosedForm(p, t);
    AsciiClosedForm(START, t);
    CombineFromStart(p, t);
    PackedHalves(p);
    PackedHalves(AddAll(START, t));
    PackedHalves(AddAll(p, t));
  }

  lemma CombineFromStart(p: Sums, t: CString)
    ensures Reduce(Plain(p, t)) == CombinedSums(p, Reduce(Plain(START, t)), |t|)
  {
    var n, sum, weighted, k := |t|, ByteSum(t), WeightedSum(t), |t| * (p.a + MOD_ADLER - 1);
    ModStep(1 + sum, p.a + MOD_ADLER - 1);
    ModShift(p.a + sum, 1);
    ModStep(n + weighted, p.b + k);
    assert k == n * p.a + n * MOD_ADLER - n;
    ModShift(p.b + n * p.a + weighted, n);
  }

  method Adler32(str: CString) returns (h: nat)
    ensures h == Adler32Hash(str) < WORD
    ensures Ascii(str) ==> h == Adler32Of(str)
  {
    var a: nat, b: nat := 1, 0;
    var i := 0;
    while i < |str|
      invariant i <= |str| && Reduced(Sums(a, b)) && Sums(a, b) == AddAll(START, str[..i])
    {
      assert str[..i + 1][..i] == str[..i];
      a := Word(a + Signed(str[i])) % MOD_ADLER;
      b := Word(a + b) % MOD_ADLER;
      i := i + 1;
    }
    assert str[..i] == str;
    PackedHalves(Sums(a, b));
    h := BitOr(Word(b * 65536), a);
    if Ascii(str) {
      AsciiIsRfc1950(str);
    }
  }

  // ---- djb_hash ----

  /** One round: hash * 33 + c, as a shift and an addition. */
  function Round(h: nat, c: Byte): nat { Word(Word(Word(h * 32) + h) + Signed(c)) }

  function Rounds(h: nat, s: CString): (r: nat)
    ensures h < WORD ==> r < WORD
  {
    if s == [] then h else Round(Rounds(h, s[..|s| - 1]), s[|s| - 1])
  }

  function Djb(s: CString): nat { Rounds(5381, s) }

  lemma RoundIsLinear(h: nat, c: Byte)
    ensures Round(h, c) == Word(33 * h + Signed(c))
  {
    var q := (h * 32) / WORD;
    assert Word(h * 32) == h * 32 - q * WORD;
    WordShift(33 * h, -q);
    var r := (33 * h) / WORD;
    WordShift(33 * h + Signed(c), -r);
  }

  lemma WordShift(x: int, k: int)
    ensures Word(x + k * WORD) == Word(x)
  {
    var m := x + k * WORD;
    assert m - WORD * (x / WORD + k) == x % WORD;
  }

  lemma Congruent(x: int, y: int) returns (d: int)
    requires Word(x) == Word(y)
    ensures x - y == d * WORD
  {
    d := x / WORD - y / WORD;
  }

  /** 33 has an inverse modulo 2 to the power of 32, 1041204193. */
  lemma Inverse33(e: int, d: int)
    requires 33 * e == d * WORD && -WORD < e < WORD
    ensures e == 0
  {
    var k := 1041204193 * d - 8 * e;
    assert e == k * WORD;
  }

  lemma RoundIsInjective(h: nat, k: nat, c: Byte)
    requires h < WORD && k < WORD && Round(h, c) == Round(k, c)
    ensures h == k
  {
    RoundIsLinear(h, c);
    RoundIsLinear(k, c);
    var d := Congruent(33 * h + Signed(c), 33 * k + Signed(c));
    Inverse33(h - k, d);
  }

  lemma RoundShows(h: nat, c: Byte, c': Byte)
    requires c != c'
    ensures Round(h, c) != Round(h, c')
  {
    RoundIsLinear(h, c);
    RoundIsLinear(h, c');
    if Round(h, c) == Round(h, c') {
      var d := Congruent(33 * h + Signed(c), 33 * h + Signed(c'));
    }
  }

  function Pow33(n: nat): nat { if n == 0 then 1 else 33 * Pow33(n - 1) }

  /** The sum of s[i] * 33^(|s| - 1 - i) over the chars of s. */
  function HashSum(s: CString): int
  {
    if s == [] then 0 else Signed(s[0]) * Pow33(|s| - 1) + HashSum(s[1..])
  }

  lemma {:induction false} HashSumAppend(u: CString, c: Byte)
    ensures HashSum(u + [c]) == 33 * HashSum(u) + Signed(c)
  {
    var s := u + [c];
    if u == [] {
      assert s[1..] == [] && s[0] == c;
      assert Pow33(|s| - 1) == 1;
    } else {
      assert s[1..] == u[1..] + [c];
      HashSumAppend(u[1..], c);
      Times33(Signed(u[0]), Pow33(|u| - 1));
    }
  }

  lemma Times33(x: int, y: int)
    ensures x * (33 * y) == 33 * (x * y)
  {
  }

  lemma RoundOfWord(x: int, c: Byte)
    ensures Round(Word(x), c) == Word(33 * x + Signed(c))
  {
    RoundIsLinear(Word(x), c);
    assert Word(x) == x - x / WORD * WORD;
    WordShift(33 * x + Signed(c), -33 * (x / WORD));
  }

  /** The rounds evaluate a polynomial at 33, modulo 2 to the power of 32. */
  lemma {:induction false} RoundsClosedForm(h: nat, s: CString)
    requires h < WORD
    ensures Rounds(h, s) == Word(h * Pow33(|s|) + HashSum(s))
  {
    if s == [] {
      WordOfSmall(h);
    } else {
      var u, c := s[..|s| - 1], s[|s| - 1];
      assert s == u + [c];
      RoundsClosedForm(h, u);
      HashSumAppend(u, c);
      Times33(h, Pow33(|u|));
      RoundOfWord(h * Pow33(|u|) + HashSum(u), c);
    }
  }

  lemma DjbOfA(s: CString)
    requires s == [97]
    ensures Djb(s) == 177670
  {
    OneRound(5381, 97);
  }

  lemma {:induction false} RoundsAppend(h: nat, s: CString, t: CString)
    ensures Rounds(h, s + t) == Rounds(Rounds(h, s), t)
  {
    if t == [] {
      assert s + t == s;
    } else {
      assert (s + t)[..|s + t| - 1] == s + t[..|t| - 1];
      RoundsAppend(h, s, t[..|t| - 1]);
    }
  }

  lemma {:induction false} RoundsAreInjective(h: nat, k: nat, t: CString)
    requires h < WORD && k < WORD && Rounds(h, t) == Rounds(k, t)
    ensures h == k
  {
    if t != [] {
      var u := t[..|t| - 1];
      RoundIsInjective(Rounds(h, u), Rounds(k, u), t[|t| - 1]);
      RoundsAreInjective(h, k, u);
    }
  }

  /** A common suffix neither makes nor breaks a collision. */
  lemma CommonSuffix(s: CString, s': CString, t: CString)
    ensures Djb(s + t) == Djb(s' + t) <==> Djb(s) == Djb(s')
  {
    RoundsAppend(5381, s, t);
    RoundsAppend(5381, s', t);
    if Djb(s + t) == Djb(s' + t) {
      RoundsAreInjective(Djb(s), Djb(s'), t);
    }
  }

  /** Strings that differ in one byte only never collide. */
  lemma OneByteShows(s: CString, c: Byte, c': Byte, t: CString)
    requires c != c'
    ensures Djb(s + [c] + t) != Djb(s + [c'] + t)
  {
    RoundsAppend(5381, s, [c]);
    RoundsAppend(5381, s, [c']);
    OneRound(Djb(s), c);
    OneRound(Djb(s), c');
    RoundShows(Djb(s), c, c');
    CommonSuffix(s + [c], s + [c'], t);
  }

  lemma OneRound(h: nat, c: Byte)
    ensures Rounds(h, [c]) == Round(h, c)
  {
    assert [c][..0] == [];
  }

  /** The sum that the rounds make of a string from the seed on, modulo 2 to the power of 32. */
  lemma DjbClosedForm(s: CString, h: nat)
    requires h == Djb(s)
    ensures h == Word(5381 * Pow33(|s|) + HashSum(s))
  {
    RoundsClosedForm(5381, s);
  }

  method DjbHash(str: CString) returns (hash: nat)
    ensures hash == Djb(str)
    ensures hash == Word(5381 * Pow33(|str|) + HashSum(str))
  {
    hash := 5381;
    var i := 0;
    while i < |str|
      invariant i <= |str| && hash == Rounds(5381, str[..i])
    {
      assert str[..i + 1][..i] == str[..i];
      hash := Word(Word(Word(hash * 32) + hash) + Signed(str[i]));
      i := i + 1;
    }
    assert str[..i] == str;
    DjbClosedForm(str, hash);
  }
}
