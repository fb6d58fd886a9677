/** Capacity constants of the integer prototype templates and the index
    arithmetic that locates a prototype inside its proto set, a prototype in a
    proto-pruner word, and a class in a class-pruner word of 2-bit fields.
    Ids are non-negative, so C's `/` and `%` agree with Dafny's here.  A
    pruner word is an unsigned 32-bit value, modelled as a `nat` below 2^32. */
module IntProto {

  const MAX_PROTO_INDEX: nat := 24
  const BITS_PER_WERD: nat := 8 * 4
  const MAX_NUM_CONFIGS: nat := 32
  const MAX_NUM_PROTOS: nat := 512
  const PROTOS_PER_PROTO_SET: nat := 64
  const MAX_NUM_PROTO_SETS: nat := MAX_NUM_PROTOS / PROTOS_PER_PROTO_SET
  const NUM_PP_PARAMS: nat := 3
  const NUM_PP_BUCKETS: nat := 64
  const NUM_CP_BUCKETS: nat := 24
  const CLASSES_PER_CP: nat := 32
  const NUM_BITS_PER_CLASS: nat := 2
  const CLASSES_PER_CP_WERD: nat := CLASSES_PER_CP / NUM_BITS_PER_CLASS
  const PROTOS_PER_PP_WERD: nat := BITS_PER_WERD
  const BITS_PER_CP_VECTOR: nat := CLASSES_PER_CP * NUM_BITS_PER_CLASS
  const WERDS_PER_CP_VECTOR: nat := BITS_PER_CP_VECTOR / BITS_PER_WERD
  const WERDS_PER_PP_VECTOR: nat := (PROTOS_PER_PROTO_SET + BITS_PER_WERD - 1) / BITS_PER_WERD
  const WERDS_PER_PP: nat := NUM_PP_PARAMS * NUM_PP_BUCKETS * WERDS_PER_PP_VECTOR
  const WERDS_PER_CP: nat := NUM_CP_BUCKETS * NUM_CP_BUCKETS * NUM_CP_BUCKETS * WERDS_PER_CP_VECTOR
  const WERDS_PER_CONFIG_VEC: nat := (MAX_NUM_CONFIGS + BITS_PER_WERD - 1) / BITS_PER_WERD

  /** Number of class pruners needed for `maxNumClasses` classes (a ceiling). */
  function MaxNumClassPruners(maxNumClasses: nat): nat {
    (maxNumClasses + CLASSES_PER_CP - 1) / CLASSES_PER_CP
  }

  /** The derived constants, with 32-bit words. */
  lemma DerivedConstants()
    ensures MAX_NUM_PROTO_SETS == 8
    ensures WERDS_PER_PP_VECTOR == 2
    ensures WERDS_PER_CP_VECTOR == 2
    ensures WERDS_PER_CONFIG_VEC == 1
    ensures CLASSES_PER_CP_WERD == 16
    ensures WERDS_PER_PP == 384
    ensures WERDS_PER_CP == 27648
  {
  }

  // ---------------------------------------------------------------------------
  // Powers of two and bits

  function Pow2(n: nat): (p: nat)
    ensures p >= 1
  {
    if n == 0 then 1 else 2 * Pow2(n - 1)
  }

  /** Bit `j` of `w` is set. */
  predicate Bit(w: nat, j: nat) {
    (w / Pow2(j)) % 2 == 1
  }

  lemma {:induction false} Pow2Add(a: nat, b: nat)
    ensures Pow2(a + b) == Pow2(a) * Pow2(b)
  {
    if b > 0 {
      Pow2Add(a, b - 1);
      assert Pow2(a + b) == 2 * Pow2(a + b - 1);
    }
  }

  lemma {:induction false} Pow2Monotone(a: nat, b: nat)
    requires a <= b
    ensures Pow2(a) <= Pow2(b)
  {
    if a < b {
      Pow2Monotone(a, b - 1);
    }
  }

  lemma MulAtLeast(a: int, d: int)
    requires a >= 1 && d > 0
    ensures a * d >= d
  {
  }

  /** Quotient and remainder are unique. */
  lemma DivUnique(x: int, d: int, q: int, r: int)
    requires d > 0 && 0 <= r < d && x == q * d + r
    ensures x / d == q && x % d == r
  {
    var q0, r0 := x / d, x % d;
    assert x == q0 * d + r0;
    assert (q0 - q) * d == r - r0;
    if q0 > q {
      MulAtLeast(q0 - q, d);
    } else if q0 < q {
      MulAtLeast(q - q0, d);
    }
  }

  lemma MulDivCancel(x: nat, d: nat)
    requires d > 0
    ensures (x * d) / d == x
  {
    DivUnique(x * d, d, x, 0);
  }

  lemma SmallDiv(x: nat, d: nat)
    requires x < d
    ensures x / d == 0
  {
    DivUnique(x, d, 0, x);
  }

  /** No bit of `v * 2^k` lies below `k`. */
  lemma LowBitsClear(v: nat, k: nat, j: nat)
    requires j < k
    ensures !Bit(v * Pow2(k), j)
  {
    ShiftedAbove(v, k, j);
    EvenQuotient(v * Pow2(k), v * Pow2(k - j - 1), Pow2(j));
  }

  lemma EvenQuotient(w: nat, h: nat, d: nat)
    requires d > 0 && w == (2 * h) * d
    ensures (w / d) % 2 == 0
  {
    MulDivCancel(2 * h, d);
  }

  /** `v * 2^k` is an even multiple of `2^j` when `j < k`. */
  lemma ShiftedAbove(v: nat, k: nat, j: nat)
    requires j < k
    ensures v * Pow2(k) == (2 * (v * Pow2(k - j - 1))) * Pow2(j)
  {
    var pj, h := Pow2(j), Pow2(k - j - 1);
    Pow2Add(j, k - j);
    assert Pow2(k - j) == 2 * h;
    assert Pow2(k) == pj * (2 * h);
    MulRearrange(v, pj, h);
  }

  lemma MulRearrange(v: nat, p: nat, h: nat)
    ensures v * (p * (2 * h)) == (2 * (v * h)) * p
  {
  }

  /** No bit of `v * 2^k` lies at or above `k + m` when `v < 2^m`. */
  lemma HighBitsClear(v: nat, m: nat, k: nat, j: nat)
    requires v < Pow2(m)
    requires k + m <= j
    ensures !Bit(v * Pow2(k), j)
  {
    var pk, pm := Pow2(k), Pow2(m);
    Pow2Add(k, m);
    Pow2Monotone(k + m, j);
    MulStrict(v, pm, pk);
    assert v * pk < pk * pm;
    SmallDiv(v * pk, Pow2(j));
  }

  lemma MulStrict(v: nat, m: nat, p: nat)
    requires v < m && p > 0
    ensures v * p < p * m
  {
  }

  /** Bit `k` of `v * 2^k` is the lowest bit of `v`. */
  lemma ShiftedLowBit(v: nat, k: nat)
    ensures Bit(v * Pow2(k), k) <==> v % 2 == 1
  {
    MulDivCancel(v, Pow2(k));
  }

  /** Bit `k + 1` of `v * 2^k` is the second bit of `v`. */
  lemma ShiftedSecondBit(v: nat, k: nat)
    ensures Bit(v * Pow2(k), k + 1) <==> (v / 2) % 2 == 1
  {
    var pk := Pow2(k);
    assert Pow2(k + 1) == 2 * pk;
    var hi, lo := v / 2, v % 2;
    SplitLowBit(v, pk);
    assert v * pk == hi * (2 * pk) + lo * pk;
    assert lo * pk < 2 * pk;
    DivAdd(hi, 2 * pk, lo * pk);
  }

  lemma SplitLowBit(v: nat, p: nat)
    ensures v * p == (v / 2) * (2 * p) + (v % 2) * p
  {
    assert v == (v / 2) * 2 + v % 2;
  }

  lemma DivAdd(q: nat, d: nat, r: nat)
    requires r < d
    ensures (q * d + r) / d == q
  {
    DivUnique(q * d + r, d, q, r);
  }

  // ---------------------------------------------------------------------------
  // Proto sets

  function SetForProto(p: nat): nat { p / PROTOS_PER_PROTO_SET }

  function IndexForProto(p: nat): nat { p % PROTOS_PER_PROTO_SET }

  /** `MaxNumIntProtosIn`: capacity of a class with `numProtoSets` sets. */
  function MaxNumIntProtosIn(numProtoSets: nat): (n: nat)
    ensures n % PROTOS_PER_PROTO_SET == 0
    ensures n / PROTOS_PER_PROTO_SET == numProtoSets
  {
    numProtoSets * PROTOS_PER_PROTO_SET
  }

  /** A proto id splits into its set and its index inside the set, and back. */
  lemma ProtoIdDecomposition(p: nat)
    requires p < MAX_NUM_PROTOS
    ensures SetForProto(p) < MAX_NUM_PROTO_SETS
    ensures IndexForProto(p) < PROTOS_PER_PROTO_SET
    ensures SetForProto(p) * PROTOS_PER_PROTO_SET + IndexForProto(p) == p
  {
  }

  /** Distinct (set, index) pairs name distinct proto ids. */
  lemma ProtoIdRoundTrip(s: nat, i: nat)
    requires i < PROTOS_PER_PROTO_SET
    ensures SetForProto(s * PROTOS_PER_PROTO_SET + i) == s
    ensures IndexForProto(s * PROTOS_PER_PROTO_SET + i) == i
  {
    DivAdd(s, PROTOS_PER_PROTO_SET, i);
  }

  /** A proto id is within a class's capacity exactly when its set is one the
      class has. */
  lemma ProtoWithinCapacity(p: nat, numProtoSets: nat)
    ensures p < MaxNumIntProtosIn(numProtoSets) <==> SetForProto(p) < numProtoSets
  {
  }

  // ---------------------------------------------------------------------------
  // Proto pruner

  function PPrunerWordIndexFor(i: nat): nat {
    (i % PROTOS_PER_PROTO_SET) / PROTOS_PER_PP_WERD
  }

  function PPrunerBitIndexFor(i: nat): nat {
    i % PROTOS_PER_PP_WERD
  }

  function PPrunerMaskFor(i: nat): nat {
    Pow2(PPrunerBitIndexFor(i))
  }

  /** The word and bit of a proto in its set's pruner vector locate its index. */
  lemma PPrunerPosition(i: nat)
    ensures PPrunerWordIndexFor(i) < WERDS_PER_PP_VECTOR
    ensures PPrunerBitIndexFor(i) < BITS_PER_WERD
    ensures PPrunerWordIndexFor(i) * BITS_PER_WERD + PPrunerBitIndexFor(i) == IndexForProto(i)
  {
    var r := i % 64;
    ModOfMod(i, 2, 32);
    assert r == (r / 32) * 32 + r % 32;
  }

  /** Reducing modulo a multiple of `b` first does not change the remainder
      modulo `b`. */
  lemma ModOfMod(i: nat, a: nat, b: nat)
    requires a > 0 && b > 0
    ensures (i % (a * b)) % b == i % b
    ensures (i % (a * b)) / b < a
  {
    var q, r := i / (a * b), i % (a * b);
    var r1, r2 := r / b, r % b;
    assert i == q * (a * b) + r;
    assert r == r1 * b + r2;
    RegroupMul(q, a, b, r1);
    DivUnique(i, b, q * a + r1, r2);
    if r1 >= a {
      MulMono(a, r1, b);
    }
  }

  lemma RegroupMul(q: int, a: int, b: int, r1: int)
    ensures q * (a * b) + r1 * b == (q * a + r1) * b
  {
  }

  lemma MulMono(a: nat, r1: nat, b: nat)
    requires a <= r1
    ensures a * b <= r1 * b
  {
  }

  /** Different protos of one set never share a pruner position. */
  lemma PPrunerPositionsDistinct(i1: nat, i2: nat)
    requires SetForProto(i1) == SetForProto(i2) && i1 != i2
    ensures PPrunerWordIndexFor(i1) != PPrunerWordIndexFor(i2)
         || PPrunerBitIndexFor(i1) != PPrunerBitIndexFor(i2)
  {
    PPrunerPosition(i1);
    PPrunerPosition(i2);
    ProtoIdDecompositionAny(i1);
    ProtoIdDecompositionAny(i2);
  }

  lemma ProtoIdDecompositionAny(p: nat)
    ensures SetForProto(p) * PROTOS_PER_PROTO_SET + IndexForProto(p) == p
  {
  }

  /** The proto-pruner mask has exactly one bit set, at the proto's bit index,
      and fits in an unsigned 32-bit word. */
  lemma PPrunerMaskSingleBit(i: nat)
    ensures PPrunerMaskFor(i) < Pow2(BITS_PER_WERD)
    ensures forall j: nat :: Bit(PPrunerMaskFor(i), j) <==> j == PPrunerBitIndexFor(i)
  {
    var b := PPrunerBitIndexFor(i);
    assert b < BITS_PER_WERD;
    forall j: nat ensures Bit(PPrunerMaskFor(i), j) <==> j == b {
      Pow2Bit(b, j);
    }
    assert Pow2(b + 1) == 2 * Pow2(b);
    Pow2Monotone(b + 1, BITS_PER_WERD);
  }

  /** `2^b` has bit `b` set and no other. */
  lemma Pow2Bit(b: nat, j: nat)
    ensures Bit(Pow2(b), j) <==> j == b
  {
    if j < b {
      ShiftedAbove(1, b, j);
      EvenQuotient(Pow2(b), Pow2(b - j - 1), Pow2(j));
    } else if j == b {
      MulDivCancel(1, Pow2(b));
    } else {
      Pow2Monotone(b + 1, j);
      SmallDiv(Pow2(b), Pow2(j));
    }
  }

  // ---------------------------------------------------------------------------
  // Class pruner

  function CPrunerIdFor(i: nat): nat { i / CLASSES_PER_CP }

  function CPrunerWordIndexFor(i: nat): nat {
    (i % CLASSES_PER_CP) / CLASSES_PER_CP_WERD
  }

  function CPrunerBitIndexFor(i: nat): nat {
    (i % CLASSES_PER_CP) % CLASSES_PER_CP_WERD
  }

  /** The field value `level + 1` shifted into the class's 2-bit field. */
  function CPrunerMaskFor(level: nat, i: nat): nat {
    (level + 1) * Pow2(CPrunerBitIndexFor(i) * NUM_BITS_PER_CLASS)
  }

  /** `MaxNumClassesIn`: classes covered by `numClassPruners` pruners. */
  function MaxNumClassesIn(numClassPruners: nat): (n: nat)
    ensures n % CLASSES_PER_CP == 0
    ensures n / CLASSES_PER_CP == numClassPruners
  {
    numClassPruners * CLASSES_PER_CP
  }

  /** `LegalClassId`, with the largest class id as a parameter. */
  predicate LegalClassId(c: int, maxClassId: int) {
    c > 0 && c <= maxClassId
  }

  /** The legal class ids up to `maxClassId`. */
  ghost function LegalIds(maxClassId: nat): set<int> {
    set c: int | 0 <= c <= maxClassId && LegalClassId(c, maxClassId)
  }

  /** There are exactly `maxClassId` legal class ids, id zero is never one
      of them, and the largest id is. */
  lemma {:induction false} LegalIdsCount(maxClassId: nat)
    ensures |LegalIds(maxClassId)| == maxClassId
    ensures !LegalClassId(0, maxClassId)
    ensures maxClassId > 0 ==> LegalClassId(maxClassId, maxClassId)
    ensures forall c :: LegalClassId(c, maxClassId) <==> c in LegalIds(maxClassId)
  {
    if maxClassId > 0 {
      LegalIdsCount(maxClassId - 1);
      assert LegalIds(maxClassId) == LegalIds(maxClassId - 1) + {maxClassId};
    } else {
      assert LegalIds(0) == {};
    }
  }

  /** Word and field of a class in its pruner locate it within the pruner. */
  lemma CPrunerPosition(i: nat)
    ensures CPrunerWordIndexFor(i) < WERDS_PER_CP_VECTOR
    ensures CPrunerBitIndexFor(i) < CLASSES_PER_CP_WERD
    ensures CPrunerWordIndexFor(i) * CLASSES_PER_CP_WERD + CPrunerBitIndexFor(i) == i % CLASSES_PER_CP
    ensures CPrunerIdFor(i) * CLASSES_PER_CP + i % CLASSES_PER_CP == i
  {
  }

  /** Every class index below the class limit has a pruner. */
  lemma CPrunerIdInRange(i: nat, maxNumClasses: nat)
    requires i < maxNumClasses
    ensures CPrunerIdFor(i) < MaxNumClassPruners(maxNumClasses)
  {
    var n := MaxNumClassPruners(maxNumClasses);
    assert maxNumClasses + 31 == n * 32 + (maxNumClasses + 31) % 32;
    assert i / 32 * 32 <= i;
  }

  /** The pruners cover the classes: a class index fits exactly when its pruner exists. */
  lemma ClassWithinCapacity(i: nat, numClassPruners: nat)
    ensures i < MaxNumClassesIn(numClassPruners) <==> CPrunerIdFor(i) < numClassPruners
  {
  }

  /** For a level 0..2 the mask is non-zero, fits a 32-bit word and sets no bit
      outside the class's field, bits `2b` and `2b + 1`. */
  lemma CPrunerMaskInField(level: nat, i: nat)
    requires level <= 2
    ensures CPrunerMaskFor(level, i) != 0
    ensures CPrunerMaskFor(level, i) < Pow2(BITS_PER_WERD)
    ensures forall j: nat :: Bit(CPrunerMaskFor(level, i), j) ==>
      j == 2 * CPrunerBitIndexFor(i) || j == 2 * CPrunerBitIndexFor(i) + 1
  {
    var k := CPrunerBitIndexFor(i) * NUM_BITS_PER_CLASS;
    forall j: nat | Bit(CPrunerMaskFor(level, i), j)
      ensures j == k || j == k + 1
    {
      FieldBit(level + 1, k, j);
    }
    FieldFits(level + 1, k);
  }

  /** A value below 4 shifted left by `k` has bits only at `k` and `k + 1`. */
  lemma FieldBit(v: nat, k: nat, j: nat)
    requires v < 4
    requires Bit(v * Pow2(k), j)
    ensures j == k || j == k + 1
  {
    assert Pow2(2) == 4;
    if j < k {
      LowBitsClear(v, k, j);
    } else if j >= k + 2 {
      HighBitsClear(v, 2, k, j);
    }
  }

  /** A non-zero value below 4 shifted left by at most 30 is a non-zero
      32-bit word. */
  lemma FieldFits(v: nat, k: nat)
    requires 0 < v < 4 && k + 2 <= BITS_PER_WERD
    ensures 0 < v * Pow2(k) < Pow2(BITS_PER_WERD)
  {
    var p := Pow2(k);
    assert Pow2(k + 1) == 2 * p;
    assert Pow2(k + 2) == 4 * p;
    MulStrict(v, 4, p);
    MulAtLeast(v, p);
    Pow2Monotone(k + 2, BITS_PER_WERD);
  }

  /** The field read back from the mask is `level + 1`. */
  lemma CPrunerMaskFieldValue(level: nat, i: nat)
    requires level <= 2
    ensures var b := 2 * CPrunerBitIndexFor(i);
      (if Bit(CPrunerMaskFor(level, i), b) then 1 else 0)
      + (if Bit(CPrunerMaskFor(level, i), b + 1) then 2 else 0) == level + 1
  {
    var k := CPrunerBitIndexFor(i) * NUM_BITS_PER_CLASS;
    ShiftedLowBit(level + 1, k);
    ShiftedSecondBit(level + 1, k);
  }

  /** Two classes sharing a pruner word but not a field have masks with no
      bit in common. */
  lemma CPrunerMasksDisjoint(l1: nat, i1: nat, l2: nat, i2: nat)
    requires l1 <= 2 && l2 <= 2
    requires CPrunerBitIndexFor(i1) != CPrunerBitIndexFor(i2)
    ensures forall j: nat :: !(Bit(CPrunerMaskFor(l1, i1), j) && Bit(CPrunerMaskFor(l2, i2), j))
  {
    CPrunerMaskInField(l1, i1);
    CPrunerMaskInField(l2, i2);
  }
}
