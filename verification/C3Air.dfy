/**
 * The threshold-and-time constraint system over a prime field.  A field element is its canonical
 * representative and a constraint is an integer expression that must vanish modulo the prime, which
 * may be any prime above 2^33 that fits in 64 bits.
 */
module C3Air {
  import opened Primitives

  const THRESHOLD: nat := 900
  const RANGE_BITS: nat := 32
  const RANGE_LIMIT: nat := 0x1_0000_0000
  const MIN_FRI_TRACE_ROWS: nat := 16

  const READING: nat := 0
  const TIMESTAMP: nat := 1
  const DIFF: nat := 2
  const DELTA: nat := 3
  const IS_REAL: nat := 4
  const ENABLED: nat := 5
  const REAL_COUNT: nat := 6
  const READING_BITS: nat := 7
  const DIFF_BITS: nat := 39
  const DELTA_BITS: nat := 71
  const WIDTH: nat := 103

  ghost predicate Prime(p: nat)
  {
    p > 1 && forall d: nat :: 1 < d < p ==> p % d != 0
  }

  ghost predicate FieldOk(p: nat)
  {
    2 * RANGE_LIMIT < p <= U64_LIMIT && Prime(p)
  }

  /** The constraint `e = 0` in the field. */
  predicate Zero(p: nat, e: int)
    requires p > 0
  {
    e % p == 0
  }

  // ----- bit decompositions

  function Recompose(bits: seq<int>): int
  {
    if bits == [] then 0 else Recompose(bits[..|bits| - 1]) + bits[|bits| - 1] * Pow2(|bits| - 1)
  }

  function Bits(v: nat, n: nat): (bits: seq<int>)
    ensures |bits| == n
    decreases n, v
  {
    if n == 0 then [] else Bits(v, n - 1) + [v / Pow2(n - 1) % 2]
  }

  predicate IsBits(bits: seq<int>)
  {
    forall k: nat :: k < |bits| ==> bits[k] == 0 || bits[k] == 1
  }

  lemma {:induction false} BitsAreBits(v: nat, n: nat)
    ensures IsBits(Bits(v, n))
    decreases n
  {
    if n != 0 { BitsAreBits(v, n - 1); }
  }

  lemma {:induction false} HighBit(v: nat, q: nat)
    requires q > 0
    ensures v % (2 * q) == v % q + v / q % 2 * q
  {
    var a, b := v / q, v % q;
    assert v == q * a + b;
    var c, d := a / 2, a % 2;
    assert v == (2 * q) * c + (q * d + b);
    DivisionIsUnique(v, 2 * q, c, q * d + b);
  }

  lemma {:induction false} DivisionIsUnique(v: nat, m: nat, c: nat, r: nat)
    requires m > 0 && v == m * c + r && r < m
    ensures v % m == r && v / m == c
  {
    var e := v / m;
    assert v == m * e + v % m;
    if e < c {
      assert m * e + m == m * (e + 1);
      MulMonotone(e + 1, c, m);
    }
    if c < e {
      assert m * c + m == m * (c + 1);
      MulMonotone(c + 1, e, m);
    }
  }

  /** The low `n` bits recompose to the value modulo `2^n`. */
  lemma {:induction false} BitsRecompose(v: nat, n: nat)
    ensures Recompose(Bits(v, n)) == v % Pow2(n)
    decreases n
  {
    if n != 0 {
      BitsRecompose(v, n - 1);
      HighBit(v, Pow2(n - 1));
      assert Bits(v, n)[..n - 1] == Bits(v, n - 1);
    }
  }

  lemma {:induction false} RecomposeBound(bits: seq<int>)
    requires IsBits(bits)
    ensures 0 <= Recompose(bits) < Pow2(|bits|)
  {
    if bits != [] { RecomposeBound(bits[..|bits| - 1]); }
  }

  // ----- field arithmetic on representatives

  lemma {:induction false} SmallZero(p: nat, e: int)
    requires e < p && 0 < e + p
    ensures Zero(p, e) <==> e == 0
  {
    if e > 0 {
      assert e % p == e;
    } else if e < 0 {
      assert e % p == (e + p) % p;
    }
  }

  lemma {:induction false} MultipleIsZero(p: nat, k: int)
    requires p > 0
    ensures Zero(p, p * k)
  {
    var e := p * k;
    var d, m := e / p, e % p;
    assert e == p * d + m;
    assert p * (k - d) == m;
    MultipleIsLarge(p, k - d);
  }

  lemma {:induction false} MultipleIsLarge(p: nat, t: int)
    ensures t >= 1 ==> p * t >= p
    ensures t <= -1 ==> p * t + p <= 0
  {
    if t >= 1 { MulMonotone(1, t, p); }
    if t <= -1 { MulMonotone(1, -t, p); }
  }

  /** The remainder of the prime divides out as well. */
  lemma {:induction false} RemainderProduct(p: nat, a: nat, b: int)
    requires 0 < a && p > 0 && Zero(p, a * b)
    ensures Zero(p, p % a * b)
  {
    var q, r, k := p / a, p % a, (a * b) / p;
    assert p == q * a + r && a * b == p * k;
    assert r * b == p * b - q * (a * b) by {
      assert r == p - q * a;
      assert (p - q * a) * b == p * b - (q * a) * b && (q * a) * b == q * (a * b);
    }
    assert q * (a * b) == p * (q * k);
    assert r * b == p * (b - q * k);
    MultipleIsZero(p, b - q * k);
  }

  /** A prime that divides a product but not its first factor divides the second. */
  lemma {:induction false} NoZeroDivisors(p: nat, a: nat, b: int)
    requires Prime(p) && 0 < a < p && Zero(p, a * b)
    ensures Zero(p, b)
    decreases a
  {
    if a > 1 {
      RemainderProduct(p, a, b);
      NoZeroDivisors(p, p % a, b);
    }
  }

  lemma {:induction false} BitConstraint(p: nat, x: int)
    requires FieldOk(p) && 0 <= x < p
    ensures Zero(p, x * (x - 1)) <==> x == 0 || x == 1
  {
    SmallZero(p, x - 1);
    if x == 0 || x == 1 { assert x * (x - 1) == 0; }
    if x > 1 && Zero(p, x * (x - 1)) { NoZeroDivisors(p, x, x - 1); }
  }

  // ----- the constraints

  function RangeSlice(row: seq<int>, start: nat): seq<int>
    requires start + RANGE_BITS <= |row|
  {
    row[start..start + RANGE_BITS]
  }

  /** `value` is recomposed from 32 bit columns. */
  ghost predicate InRange(p: nat, row: seq<int>, value: int, start: nat)
    requires p > 0 && start + RANGE_BITS <= |row|
  {
    && (forall k: nat :: k < RANGE_BITS ==> Zero(p, RangeSlice(row, start)[k] * (RangeSlice(row, start)[k] - 1)))
    && Zero(p, value - Recompose(RangeSlice(row, start)))
  }

  ghost predicate RowOk(p: nat, row: seq<int>, threshold: int)
    requires p > 0 && |row| == WIDTH
  {
    && Zero(p, row[IS_REAL] * (row[IS_REAL] - 1)) && Zero(p, row[ENABLED] * (row[ENABLED] - 1))
    && Zero(p, row[IS_REAL] * (row[READING] + row[DIFF] - threshold))
    && InRange(p, row, row[READING], READING_BITS) && InRange(p, row, row[DIFF], DIFF_BITS)
         && InRange(p, row, row[DELTA], DELTA_BITS)
  }

  ghost predicate FirstOk(p: nat, row: seq<int>)
    requires p > 0 && |row| == WIDTH
  {
    Zero(p, row[IS_REAL] - 1) && Zero(p, row[REAL_COUNT] - 1)
  }

  ghost predicate StepOk(p: nat, row: seq<int>, next: seq<int>)
    requires p > 0 && |row| == |next| == WIDTH
  {
    && Zero(p, next[IS_REAL] * (row[IS_REAL] - 1))
    && Zero(p, row[ENABLED] - row[IS_REAL] * next[IS_REAL])
    && Zero(p, next[REAL_COUNT] - (row[REAL_COUNT] + next[IS_REAL]))
    && Zero(p, row[ENABLED] * (next[TIMESTAMP] - (row[TIMESTAMP] + row[DELTA] + 1)))
  }

  ghost predicate LastOk(p: nat, row: seq<int>, events: int)
    requires p > 0 && |row| == WIDTH
  {
    Zero(p, row[ENABLED]) && Zero(p, row[REAL_COUNT] - events)
  }

  predicate AllZero(p: nat, constraints: seq<int>)
    requires p > 0
  {
    forall k: nat :: k < |constraints| ==> Zero(p, constraints[k])
  }

  lemma {:induction false} AllZeroConcat(p: nat, a: seq<int>, b: seq<int>)
    requires p > 0
    ensures AllZero(p, a + b) <==> AllZero(p, a) && AllZero(p, b)
  {
    assert forall k: nat :: k < |a| ==> (a + b)[k] == a[k];
    assert forall k: nat :: k < |b| ==> (a + b)[|a| + k] == b[k];
  }

  /** `assert_range`: a bit constraint per limb, then the recomposition. */
  method AssertRange(p: nat, row: seq<int>, value: int, start: nat) returns (constraints: seq<int>)
    requires p > 0 && start + RANGE_BITS <= |row|
    ensures AllZero(p, constraints) <==> InRange(p, row, value, start)
  {
    constraints := [];
    var recomposed := 0;
    ghost var bits := RangeSlice(row, start);
    for bit := 0 to RANGE_BITS
      invariant recomposed == Recompose(bits[..bit])
      invariant |constraints| == bit && forall k: nat :: k < bit ==> constraints[k] == bits[k] * (bits[k] - 1)
    {
      assert bits[..bit + 1][..bit] == bits[..bit];
      var limb := row[start + bit];
      constraints := constraints + [limb * (limb - 1)];
      recomposed := recomposed + limb * Pow2(bit);
    }
    assert bits[..RANGE_BITS] == bits;
    AllZeroConcat(p, constraints, [value - recomposed]);
    assert AllZero(p, [value - recomposed]) <==> Zero(p, [value - recomposed][0]);
    constraints := constraints + [value - recomposed];
  }

  /** `C3Air::eval` on a window of two rows; the flags are the builder's row selectors. */
  method Eval(p: nat, row: seq<int>, next: seq<int>, threshold: int, events: int, first: bool, transition: bool,
              last: bool)
      returns (constraints: seq<int>)
    requires p > 0 && |row| == |next| == WIDTH
    ensures AllZero(p, constraints) <==>
      && RowOk(p, row, threshold) && (first ==> FirstOk(p, row)) && (transition ==> StepOk(p, row, next))
           && (last ==> LastOk(p, row, events))
  {
    var flags := [row[IS_REAL] * (row[IS_REAL] - 1), row[ENABLED] * (row[ENABLED] - 1),
                  row[IS_REAL] * (row[READING] + row[DIFF] - threshold)];
    ThreeZero(p, flags[0], flags[1], flags[2]);
    var reading := AssertRange(p, row, row[READING], READING_BITS);
    var diff := AssertRange(p, row, row[DIFF], DIFF_BITS);
    var delta := AssertRange(p, row, row[DELTA], DELTA_BITS);
    AllZeroConcat(p, flags, reading);
    AllZeroConcat(p, flags + reading, diff);
    AllZeroConcat(p, flags + reading + diff, delta);
    constraints := flags + reading + diff + delta;
    assert AllZero(p, constraints) <==> RowOk(p, row, threshold);
    var selected := EvalSelected(p, row, next, events, first, transition, last);
    AllZeroConcat(p, constraints, selected);
    constraints := constraints + selected;
  }

  lemma {:induction false} ThreeZero(p: nat, a: int, b: int, c: int)
    requires p > 0
    ensures AllZero(p, [a, b, c]) <==> Zero(p, a) && Zero(p, b) && Zero(p, c)
    ensures AllZero(p, [a, b]) <==> Zero(p, a) && Zero(p, b)
  {
    assert [a, b, c][0] == a && [a, b, c][1] == b && [a, b, c][2] == c && [a, b][0] == a && [a, b][1] == b;
  }

  method EvalSelected(p: nat, row: seq<int>, next: seq<int>, events: int, first: bool, transition: bool, last: bool)
      returns (constraints: seq<int>)
    requires p > 0 && |row| == |next| == WIDTH
    ensures AllZero(p, constraints) <==>
      (first ==> FirstOk(p, row)) && (transition ==> StepOk(p, row, next)) && (last ==> LastOk(p, row, events))
  {
    var starts := if first then [row[IS_REAL] - 1, row[REAL_COUNT] - 1] else [];
    var steps :=
      if transition then
        [next[IS_REAL] * (row[IS_REAL] - 1), row[ENABLED] - row[IS_REAL] * next[IS_REAL],
         next[REAL_COUNT] - (row[REAL_COUNT] + next[IS_REAL])]
        + [row[ENABLED] * (next[TIMESTAMP] - (row[TIMESTAMP] + row[DELTA] + 1))]
      else [];
    var ends := if last then [row[ENABLED], row[REAL_COUNT] - events] else [];
    if first { ThreeZero(p, starts[0], starts[1], 0); }
    if last { ThreeZero(p, ends[0], ends[1], 0); }
    if transition {
      ThreeZero(p, steps[0], steps[1], steps[2]);
      ThreeZero(p, steps[3], steps[3], 0);
      AllZeroConcat(p, steps[..3], steps[3..]);
      assert steps[3..] == [steps[3]];
      assert steps[..3] == [steps[0], steps[1], steps[2]];
      assert AllZero(p, steps[3..]) <==> Zero(p, steps[3..][0]);
    }
    AllZeroConcat(p, starts, steps);
    AllZeroConcat(p, starts + steps, ends);
    constraints := starts + steps + ends;
  }

  // ----- traces

  ghost predicate IsTrace(p: nat, trace: seq<seq<int>>)
  {
    && trace != []
    && forall r: nat :: r < |trace| ==> |trace[r]| == WIDTH && forall c: nat :: c < WIDTH ==> 0 <= trace[r][c] < p
  }

  /** The public values are the threshold and the number of events. */
  ghost predicate Satisfies(p: nat, trace: seq<seq<int>>, threshold: int, events: int)
    requires p > 0 && IsTrace(p, trace)
  {
    && (forall r: nat :: r < |trace| ==> RowOk(p, trace[r], threshold))
    && FirstOk(p, trace[0]) && LastOk(p, trace[|trace| - 1], events)
    && forall r: nat :: r + 1 < |trace| ==> StepOk(p, trace[r], trace[r + 1])
  }

  // ----- soundness

  lemma {:induction false} RangeMeans(p: nat, row: seq<int>, value: int, start: nat)
    requires FieldOk(p) && start + RANGE_BITS <= |row| && 0 <= value < p
    requires forall c: nat :: c < |row| ==> 0 <= row[c] < p
    requires InRange(p, row, value, start)
    ensures value < RANGE_LIMIT
  {
    var bits := RangeSlice(row, start);
    forall k: nat | k < |bits|
      ensures bits[k] == 0 || bits[k] == 1
    {
      BitConstraint(p, bits[k]);
    }
    RecomposeBound(bits);
    WordSizes();
    SmallZero(p, value - Recompose(bits));
  }

  /** What one satisfied row means in integers. */
  lemma {:induction false} RowMeans(p: nat, row: seq<int>, threshold: nat)
    requires FieldOk(p) && |row| == WIDTH && threshold < p && (forall c: nat :: c < WIDTH ==> 0 <= row[c] < p)
    requires RowOk(p, row, threshold)
    ensures row[IS_REAL] == 0 || row[IS_REAL] == 1
    ensures row[ENABLED] == 0 || row[ENABLED] == 1
    ensures 0 <= row[DELTA] < RANGE_LIMIT
    ensures row[IS_REAL] == 1 ==> row[READING] + row[DIFF] == threshold
  {
    BitConstraint(p, row[IS_REAL]);
    BitConstraint(p, row[ENABLED]);
    RangeMeans(p, row, row[READING], READING_BITS);
    RangeMeans(p, row, row[DIFF], DIFF_BITS);
    RangeMeans(p, row, row[DELTA], DELTA_BITS);
    SmallZero(p, row[READING] + row[DIFF] - threshold);
  }

  lemma {:induction false} StepMeans(p: nat, row: seq<int>, next: seq<int>, threshold: nat)
    requires FieldOk(p) && |row| == |next| == WIDTH && threshold < p
    requires forall c: nat :: c < WIDTH ==> 0 <= row[c] < p && 0 <= next[c] < p
    requires RowOk(p, row, threshold) && RowOk(p, next, threshold) && StepOk(p, row, next)
    ensures next[IS_REAL] == 1 ==> row[IS_REAL] == 1
    ensures row[ENABLED] == if next[IS_REAL] == 1 then 1 else 0
    ensures Zero(p, next[REAL_COUNT] - (row[REAL_COUNT] + next[IS_REAL]))
    ensures next[IS_REAL] == 1 ==> Zero(p, next[TIMESTAMP] - (row[TIMESTAMP] + row[DELTA] + 1))
  {
    RowMeans(p, row, threshold);
    RowMeans(p, next, threshold);
    SmallZero(p, next[IS_REAL] * (row[IS_REAL] - 1));
    SmallZero(p, row[ENABLED] - row[IS_REAL] * next[IS_REAL]);
  }

  lemma {:induction false} ZeroSum(p: nat, a: int, b: int)
    requires p > 0 && Zero(p, a) && Zero(p, b)
    ensures Zero(p, a + b)
  {
    assert a == p * (a / p) && b == p * (b / p);
    assert a + b == p * (a / p + b / p);
    MultipleIsZero(p, a / p + b / p);
  }

  /** The number of real rows among the first `n`. */
  function Reals(trace: seq<seq<int>>, n: nat): int
    requires n <= |trace| && forall r: nat :: r < |trace| ==> |trace[r]| == WIDTH
  {
    if n == 0 then 0 else Reals(trace, n - 1) + trace[n - 1][IS_REAL]
  }

  /** Real rows are a nonempty prefix. */
  lemma {:induction false} RealsArePrefix(p: nat, trace: seq<seq<int>>, threshold: nat, events: int, n: nat)
    requires FieldOk(p) && IsTrace(p, trace) && threshold < p && Satisfies(p, trace, threshold, events)
        && 1 <= n <= |trace|
    ensures 1 <= Reals(trace, n) <= n
    ensures forall r: nat :: r < n ==> trace[r][IS_REAL] == if r < Reals(trace, n) then 1 else 0
  {
    if n == 1 {
      RowMeans(p, trace[0], threshold);
      SmallZero(p, trace[0][IS_REAL] - 1);
      assert Reals(trace, 0) == 0;
    } else {
      RealsArePrefix(p, trace, threshold, events, n - 1);
      RowMeans(p, trace[n - 1], threshold);
      assert StepOk(p, trace[n - 2], trace[n - 2 + 1]);
      StepMeans(p, trace[n - 2], trace[n - 1], threshold);
    }
  }

  lemma {:induction false} CountColumn(p: nat, trace: seq<seq<int>>, threshold: nat, events: int, r: nat)
    requires FieldOk(p) && IsTrace(p, trace) && threshold < p && Satisfies(p, trace, threshold, events) && r < |trace|
    ensures Zero(p, trace[r][REAL_COUNT] - Reals(trace, r + 1))
  {
    if r == 0 {
      RealsArePrefix(p, trace, threshold, events, 1);
    } else {
      CountColumn(p, trace, threshold, events, r - 1);
      assert StepOk(p, trace[r - 1], trace[r - 1 + 1]);
      var step := trace[r][REAL_COUNT] - (trace[r - 1][REAL_COUNT] + trace[r][IS_REAL]);
      ZeroSum(p, step, trace[r - 1][REAL_COUNT] - Reals(trace, r));
    }
  }

  /** Time since the first row: each row adds its delta column plus one. */
  function Offset(trace: seq<seq<int>>, r: nat): int
    requires r <= |trace| && forall k: nat :: k < |trace| ==> |trace[k]| == WIDTH
  {
    if r == 0 then 0 else Offset(trace, r - 1) + trace[r - 1][DELTA] + 1
  }

  lemma {:induction false} NextTimestamp(p: nat, next: int, timestamp: int, delta: int, start: int, offset: int)
    requires p > 0 && Zero(p, next - (timestamp + delta + 1)) && Zero(p, timestamp - (start + offset))
    ensures Zero(p, next - (start + (offset + delta + 1)))
  {
    ZeroSum(p, next - (timestamp + delta + 1), timestamp - (start + offset));
  }

  /** Row `r` follows the row before it by that row's delta plus one. */
  ghost predicate Follows(p: nat, trace: seq<seq<int>>, r: nat)
    requires p > 0 && IsTrace(p, trace) && 0 < r < |trace|
  {
    && 0 <= trace[r - 1][DELTA] < RANGE_LIMIT
    && Zero(p, trace[r][TIMESTAMP] - (trace[r - 1][TIMESTAMP] + trace[r - 1][DELTA] + 1))
  }

  lemma {:induction false} RealRowFollows(p: nat, trace: seq<seq<int>>, threshold: nat, events: int, r: nat)
    requires FieldOk(p) && IsTrace(p, trace) && threshold < p && Satisfies(p, trace, threshold, events)
    requires 0 < r < |trace| && trace[r][IS_REAL] == 1
    ensures Follows(p, trace, r)
  {
    RowMeans(p, trace[r - 1], threshold);
    assert StepOk(p, trace[r - 1], trace[r - 1 + 1]);
    StepMeans(p, trace[r - 1], trace[r], threshold);
  }

  lemma {:induction false} TimestampColumn(p: nat, trace: seq<seq<int>>, r: nat)
    requires p > 0 && IsTrace(p, trace) && r < |trace|
    requires forall k: nat :: 0 < k <= r ==> Follows(p, trace, k)
    ensures TimeOk(p, trace, r) && 0 <= Offset(trace, r) <= r * RANGE_LIMIT
  {
    if r == 0 {
      SmallZero(p, 0);
    } else {
      TimestampColumn(p, trace, r - 1);
      assert Follows(p, trace, r);
      NextTimestamp(p, trace[r][TIMESTAMP], trace[r - 1][TIMESTAMP], trace[r - 1][DELTA], trace[0][TIMESTAMP],
                    Offset(trace, r - 1));
    }
  }

  /** A lot's readings and timestamps. */
  datatype Lot = Lot(readings: seq<U64>, timestamps: seq<U64>)

  /** What `validate_c3` demands of the first `events` rows of a lot. */
  ghost predicate ValidLot(lot: Lot, events: nat)
  {
    && 0 < events <= |lot.readings| && events <= |lot.timestamps|
    && (forall i: nat :: i < events ==> lot.readings[i] <= THRESHOLD)
    && (forall i: nat :: 0 < i < events ==> 1 <= lot.timestamps[i] as int - lot.timestamps[i - 1] as int <= RANGE_LIMIT)
  }

  /** The lot's entries are the trace's integer readings and offsets. */
  ghost predicate ReadOff(trace: seq<seq<int>>, lot: Lot, events: nat)
    requires events <= |trace| && forall k: nat :: k < |trace| ==> |trace[k]| == WIDTH
  {
    && |lot.readings| == |lot.timestamps| == events
    && forall r: nat :: r < events ==> lot.readings[r] == trace[r][READING] && lot.timestamps[r] == Offset(trace, r)
  }

  /** The timestamp column is the first timestamp plus the offset, in the field. */
  ghost predicate TimeOk(p: nat, trace: seq<seq<int>>, r: nat)
    requires p > 0 && IsTrace(p, trace) && r < |trace|
  {
    Zero(p, trace[r][TIMESTAMP] - (trace[0][TIMESTAMP] + Offset(trace, r)))
  }

  /** The integer facts of a real row. */
  ghost predicate RealRowOk(trace: seq<seq<int>>, r: nat)
    requires r < |trace| && forall k: nat :: k < |trace| ==> |trace[k]| == WIDTH
  {
    0 <= trace[r][READING] <= THRESHOLD && 0 <= trace[r][DELTA] < RANGE_LIMIT && 0 <= Offset(trace, r) < U64_LIMIT
  }

  ghost function LotAt(trace: seq<seq<int>>, r: nat): (U64, U64)
    requires r < |trace| && forall k: nat :: k < |trace| ==> |trace[k]| == WIDTH
  {
    if RealRowOk(trace, r) then (trace[r][READING], Offset(trace, r)) else (0, 0)
  }

  /** The lot read off the real rows. */
  ghost function LotOf(trace: seq<seq<int>>, events: nat): Lot
    requires events <= |trace| && forall k: nat :: k < |trace| ==> |trace[k]| == WIDTH
  {
    Lot(seq(events, r requires 0 <= r < events => LotAt(trace, r).0),
        seq(events, r requires 0 <= r < events => LotAt(trace, r).1))
  }

  lemma {:induction false} LotIsValid(trace: seq<seq<int>>, events: nat)
    requires 1 <= events <= |trace| && forall k: nat :: k < |trace| ==> |trace[k]| == WIDTH
    requires forall r: nat :: r < events ==> RealRowOk(trace, r)
    ensures ValidLot(LotOf(trace, events), events) && ReadOff(trace, LotOf(trace, events), events)
  {
    var lot := LotOf(trace, events);
    forall r: nat | r < events
      ensures lot.readings[r] == trace[r][READING] <= THRESHOLD && lot.timestamps[r] == Offset(trace, r)
      ensures r > 0 ==> 1 <= lot.timestamps[r] as int - lot.timestamps[r - 1] as int <= RANGE_LIMIT
    {
      assert RealRowOk(trace, r);
      if r > 0 { assert RealRowOk(trace, r - 1); }
    }
  }

  lemma {:induction false} RealRowsAreEvents(p: nat, trace: seq<seq<int>>, events: nat)
    requires FieldOk(p) && IsTrace(p, trace) && events < p && |trace| < p && Satisfies(p, trace, THRESHOLD, events)
    ensures 1 <= events == Reals(trace, |trace|) <= |trace|
    ensures forall r: nat :: r < |trace| ==> trace[r][IS_REAL] == if r < events then 1 else 0
  {
    var n := |trace|;
    RealsArePrefix(p, trace, THRESHOLD, events, n);
    CountColumn(p, trace, THRESHOLD, events, n - 1);
    EventsAreReals(p, trace[n - 1][REAL_COUNT], Reals(trace, n), events);
  }

  lemma {:induction false} RealRowMeans(p: nat, trace: seq<seq<int>>, events: nat, r: nat)
    requires FieldOk(p) && IsTrace(p, trace) && |trace| * RANGE_LIMIT < p && Satisfies(p, trace, THRESHOLD, events)
    requires r < |trace| && forall k: nat :: k <= r ==> trace[k][IS_REAL] == 1
    ensures RealRowOk(trace, r) && TimeOk(p, trace, r)
  {
    RowMeans(p, trace[r], THRESHOLD);
    forall k: nat | 0 < k <= r
      ensures Follows(p, trace, k)
    {
      RealRowFollows(p, trace, THRESHOLD, events, k);
    }
    TimestampColumn(p, trace, r);
  }

  /**
   * Soundness: a satisfying trace has exactly `events` real rows, as a prefix, and its integer readings
   * and time offsets form a lot that `validate_c3` accepts.
   */
  lemma {:induction false} Sound(p: nat, trace: seq<seq<int>>, events: nat)
    requires FieldOk(p) && IsTrace(p, trace) && events < p && |trace| * RANGE_LIMIT < p
    requires Satisfies(p, trace, THRESHOLD, events)
    ensures 1 <= events <= |trace|
    ensures forall r: nat :: r < |trace| ==> trace[r][IS_REAL] == if r < events then 1 else 0
    ensures ValidLot(LotOf(trace, events), events) && ReadOff(trace, LotOf(trace, events), events)
    ensures forall r: nat :: r < events ==> TimeOk(p, trace, r)
  {
    RealRowsAreEvents(p, trace, events);
    forall r: nat | r < events
      ensures RealRowOk(trace, r) && TimeOk(p, trace, r)
    {
      RealRowMeans(p, trace, events, r);
    }
    LotIsValid(trace, events);
  }

  lemma {:induction false} EventsAreReals(p: nat, count: int, reals: int, events: int)
    requires p > 0 && 0 <= reals < p && 0 <= events < p && Zero(p, count - reals) && Zero(p, count - events)
    ensures events == reals
  {
    assert count - reals == p * ((count - reals) / p);
    MultipleIsZero(p, -((count - reals) / p));
    ZeroSum(p, -(count - reals), count - events);
    SmallZero(p, reals - events);
  }

  // ----- validation and the honest trace

  /** `validate_c3`. */
  method ValidateC3(lot: Lot, events: nat) returns (ok: bool)
    ensures ok ==> ValidLot(lot, events)
    ensures !ok ==> !ValidLot(lot, events)
  {
    if events == 0 || |lot.readings| < events || |lot.timestamps| < events { return false; }
    for i := 0 to events
      invariant forall k: nat :: k < i ==> lot.readings[k] <= THRESHOLD
      invariant forall k: nat :: 0 < k < i || (k == i && 0 < k < events) ==>
        1 <= lot.timestamps[k] as int - lot.timestamps[k - 1] as int <= RANGE_LIMIT
    {
      if lot.readings[i] > THRESHOLD || lot.readings[i] > RANGE_LIMIT - 1 { return false; }
      if i > 0 && lot.timestamps[i] <= lot.timestamps[i - 1] { return false; }
      if i + 1 < events {
        var delta: int := lot.timestamps[i + 1] as int - lot.timestamps[i + 1 - 1] as int;
        if delta - 1 < 0 || delta - 1 > RANGE_LIMIT - 1 { return false; }
      }
    }
    return true;
  }

  /** The least power of two that is not below `n`. */
  function PowerAtLeast(n: nat): (w: nat)
    ensures w >= n && w > 0 && (n > 0 ==> w < 2 * n)
  {
    if n <= 1 then 1 else 2 * PowerAtLeast((n + 1) / 2)
  }

  function Rows(events: nat): (rows: nat)
    ensures rows >= events && rows > 0
  {
    if PowerAtLeast(events) < MIN_FRI_TRACE_ROWS then MIN_FRI_TRACE_ROWS else PowerAtLeast(events)
  }

  ghost predicate IsPowerOfTwo(n: nat)
  {
    exists k: nat :: n == Pow2(k)
  }

  lemma {:induction false} PowerAtLeastExactly(n: nat, k: nat)
    ensures IsPowerOfTwo(PowerAtLeast(n))
    ensures Pow2(k) >= n ==> Pow2(k) >= PowerAtLeast(n)
  {
    if n <= 1 {
      assert 1 == Pow2(0);
    } else {
      PowerAtLeastExactly((n + 1) / 2, if k > 0 then k - 1 else 0);
      var j: nat :| PowerAtLeast((n + 1) / 2) == Pow2(j);
      assert PowerAtLeast(n) == Pow2(j + 1);
    }
  }

  /** The height of the trace is the least power of two that holds the events and the proof system's minimum. */
  lemma {:induction false} RowsExactly(events: nat, k: nat)
    ensures IsPowerOfTwo(Rows(events)) && Rows(events) >= MIN_FRI_TRACE_ROWS
    ensures Pow2(k) >= events && Pow2(k) >= MIN_FRI_TRACE_ROWS ==> Pow2(k) >= Rows(events)
  {
    PowerAtLeastExactly(events, k);
    MinimumIsPower();
  }

  lemma {:induction false} MinimumIsPower()
    ensures IsPowerOfTwo(MIN_FRI_TRACE_ROWS)
  {
    assert Pow2(0) == 1 && Pow2(1) == 2 && Pow2(2) == 4 && Pow2(3) == 8 && Pow2(4) == 16;
  }

  function DeltaOf(lot: Lot, events: nat, r: nat): nat
    requires ValidLot(lot, events)
  {
    if r + 1 < events then lot.timestamps[r + 1] - lot.timestamps[r + 1 - 1] - 1 else 0
  }

  /** Row `r` of the honest trace; rows past the events repeat the last one. */
  ghost function HonestRow(p: nat, lot: Lot, events: nat, r: nat): (row: seq<int>)
    requires p > 0 && ValidLot(lot, events)
    ensures |row| == WIDTH
  {
    var src := if r < events then r else events - 1;
    HonestHead(p, lot, events, r)
    + Bits(lot.readings[src], RANGE_BITS) + Bits(THRESHOLD - lot.readings[src], RANGE_BITS)
        + Bits(DeltaOf(lot, events, r), RANGE_BITS)
  }

  ghost function HonestHead(p: nat, lot: Lot, events: nat, r: nat): (head: seq<int>)
    requires p > 0 && ValidLot(lot, events)
    ensures |head| == READING_BITS
  {
    var src := if r < events then r else events - 1;
    var reading := lot.readings[src];
    [reading % p, lot.timestamps[src] % p, (THRESHOLD - reading) % p, DeltaOf(lot, events, r) % p,
     if r < events then 1 else 0, if r + 1 < events then 1 else 0, (src + 1) % p]
  }

  ghost function HonestTrace(p: nat, lot: Lot, events: nat): seq<seq<int>>
    requires p > 0 && ValidLot(lot, events)
  {
    seq(Rows(events), r requires 0 <= r < Rows(events) => HonestRow(p, lot, events, r))
  }

  /** `fill_bits`. */
  method FillBits(values: array<int>, start: nat, value: nat)
    requires start + RANGE_BITS <= values.Length
    modifies values
    ensures forall k: nat :: k < values.Length ==>
      values[k] == if start <= k < start + RANGE_BITS then Bits(value, RANGE_BITS)[k - start] else old(values[k])
  {
    for bit := 0 to RANGE_BITS
      invariant forall k: nat :: k < values.Length ==>
        values[k] == if start <= k < start + bit then Bits(value, RANGE_BITS)[k - start] else old(values[k])
    {
      BitAt(value, RANGE_BITS, bit);
      values[start + bit] := if value / Pow2(bit) % 2 == 1 then 1 else 0;
    }
  }

  lemma {:induction false} BitAt(v: nat, n: nat, k: nat)
    requires k < n
    ensures Bits(v, n)[k] == v / Pow2(k) % 2
    decreases n
  {
    if k < n - 1 { BitAt(v, n - 1, k); }
  }

  /** The rows of a trace, one after another. */
  function RowMajor(trace: seq<seq<int>>): (values: seq<int>)
    requires forall r: nat :: r < |trace| ==> |trace[r]| == WIDTH
    ensures |values| == |trace| * WIDTH
  {
    if trace == [] then [] else RowMajor(trace[..|trace| - 1]) + trace[|trace| - 1]
  }

  /** Row `r` of the flat matrix is row `r` of the trace. */
  lemma {:induction false} RowMajorHoldsRows(trace: seq<seq<int>>, r: nat)
    requires r < |trace| && forall k: nat :: k < |trace| ==> |trace[k]| == WIDTH
    ensures RowMajor(trace)[r * WIDTH..(r + 1) * WIDTH] == trace[r]
  {
    if r < |trace| - 1 { RowMajorHoldsRows(trace[..|trace| - 1], r); }
  }

  lemma {:induction false} RowMajorSnoc(trace: seq<seq<int>>, r: nat)
    requires r < |trace| && forall k: nat :: k < |trace| ==> |trace[k]| == WIDTH
    ensures RowMajor(trace[..r + 1]) == RowMajor(trace[..r]) + trace[r]
  {
    assert trace[..r + 1][..r] == trace[..r];
  }

  /** `c3_trace`: the row-major matrix, filled one row at a time. */
  method C3Trace(p: nat, lot: Lot, events: nat) returns (values: array<int>)
    requires p > 0 && ValidLot(lot, events)
    ensures fresh(values) && values[..] == RowMajor(HonestTrace(p, lot, events))
  {
    hide Rows;
    hide HonestRow;
    var rows := Rows(events);
    ghost var trace := HonestTrace(p, lot, events);
    values := new int[rows * WIDTH](_ => 0);
    for r := 0 to rows
      invariant values[..r * WIDTH] == RowMajor(trace[..r])
    {
      RowMajorSnoc(trace, r);
      FillRow(p, lot, events, values, r);
    }
    assert values[..rows * WIDTH] == values[..] && trace[..rows] == trace;
  }

  method FillHead(p: nat, lot: Lot, events: nat, values: array<int>, r: nat, base: nat)
    requires p > 0 && ValidLot(lot, events) && base + READING_BITS <= values.Length
    modifies values
    ensures values[base..base + READING_BITS] == HonestHead(p, lot, events, r)
    ensures forall k: nat :: k < values.Length && (k < base || k >= base + READING_BITS) ==> values[k] == old(values[k])
  {
    var src := if r < events - 1 then r else events - 1;
    var reading := lot.readings[src];
    var diff: nat := THRESHOLD - reading;
    var delta: nat := 0;
    if r + 1 < events { delta := lot.timestamps[r + 1] - lot.timestamps[r + 1 - 1] - 1; }
    values[base + READING], values[base + TIMESTAMP] := reading % p, lot.timestamps[src] % p;
    values[base + DIFF], values[base + DELTA] := diff % p, delta % p;
    values[base + IS_REAL], values[base + ENABLED] := if r < events then 1 else 0, if r + 1 < events then 1 else 0;
    values[base + REAL_COUNT] := (src + 1) % p;
  }

  lemma {:induction false} FourParts(values: seq<int>, base: nat)
    requires base + WIDTH <= |values|
    ensures values[base..base + WIDTH]
         == values[base..base + READING_BITS] + RangeSlice(values, base + READING_BITS)
             + RangeSlice(values, base + DIFF_BITS)
            + RangeSlice(values, base + DELTA_BITS)
  {
  }

  method FillRow(p: nat, lot: Lot, events: nat, values: array<int>, r: nat)
    requires p > 0 && ValidLot(lot, events) && (r + 1) * WIDTH <= values.Length
    modifies values
    ensures values[..(r + 1) * WIDTH] == old(values[..r * WIDTH]) + HonestRow(p, lot, events, r)
  {
    hide Bits;
    hide HonestHead;
    hide DeltaOf;
    ghost var before := values[..r * WIDTH];
    var base, src := r * WIDTH, if r < events then r else events - 1;
    var reading, diff := lot.readings[src], THRESHOLD - lot.readings[src];
    FillHead(p, lot, events, values, r, base);
    FillRanges(values, base, reading, diff, DeltaOf(lot, events, r));
    FourParts(values[..], base);
    assert values[..base] == before;
    assert values[..base + WIDTH] == values[..base] + values[base..base + WIDTH];
  }

  method FillRanges(values: array<int>, base: nat, reading: nat, diff: nat, delta: nat)
    requires base + WIDTH <= values.Length
    modifies values
    ensures RangeSlice(values[..], base + READING_BITS) == Bits(reading, RANGE_BITS)
    ensures RangeSlice(values[..], base + DIFF_BITS) == Bits(diff, RANGE_BITS)
    ensures RangeSlice(values[..], base + DELTA_BITS) == Bits(delta, RANGE_BITS)
    ensures values[base..base + READING_BITS] == old(values[base..base + READING_BITS])
    ensures forall k: nat :: k < values.Length && (k < base + READING_BITS || k >= base + WIDTH) ==>
        values[k] == old(values[k])
  {
    FillBits(values, base + READING_BITS, reading);
    FillBits(values, base + DIFF_BITS, diff);
    FillBits(values, base + DELTA_BITS, delta);
  }

  // ----- completeness

  lemma {:induction false} SmallMod(p: nat, x: nat)
    requires x < p
    ensures x % p == x
  {
  }

  lemma {:induction false} Reduces(p: nat, x: int)
    requires p > 0
    ensures Zero(p, x - x % p) && Zero(p, x % p - x)
  {
    assert x - x % p == p * (x / p) && x % p - x == p * -(x / p);
    MultipleIsZero(p, x / p);
    MultipleIsZero(p, -(x / p));
  }

  /** Adding before or after reduction is the same in the field. */
  lemma {:induction false} ReducedSum(p: nat, x: int, y: int, d: int)
    requires p > 0 && x == y + d
    ensures Zero(p, x % p - (y % p + d))
  {
    Reduces(p, x);
    Reduces(p, y);
    ZeroSum(p, x % p - x, y - y % p);
  }

  lemma {:induction false} HonestRange(p: nat, row: seq<int>, v: nat, start: nat)
    requires FieldOk(p) && v < RANGE_LIMIT && start + RANGE_BITS <= |row|
        && RangeSlice(row, start) == Bits(v, RANGE_BITS)
    ensures InRange(p, row, v, start)
  {
    WordSizes();
    BitsAreBits(v, RANGE_BITS);
    BitsRecompose(v, RANGE_BITS);
    SmallMod(Pow2(RANGE_BITS), v);
    SmallZero(p, 0);
    var bits := Bits(v, RANGE_BITS);
    forall k: nat | k < RANGE_BITS
      ensures Zero(p, bits[k] * (bits[k] - 1))
    {
      BitConstraint(p, bits[k]);
    }
  }

  lemma {:induction false} Pieces(head: seq<int>, a: seq<int>, b: seq<int>, c: seq<int>)
    requires |head| == READING_BITS && |a| == |b| == |c| == RANGE_BITS
    ensures var row := head + a + b + c;
      && RangeSlice(row, READING_BITS) == a && RangeSlice(row, DIFF_BITS) == b && RangeSlice(row, DELTA_BITS) == c
      && forall k: nat :: k < READING_BITS ==> row[k] == head[k]
  {
  }

  /** The bit columns of an honest row. */
  lemma {:induction false} HonestBits(p: nat, lot: Lot, events: nat, r: nat)
    requires p > 0 && ValidLot(lot, events)
    ensures var row, src := HonestRow(p, lot, events, r), if r < events then r else events - 1;
      && RangeSlice(row, READING_BITS) == Bits(lot.readings[src], RANGE_BITS)
      && RangeSlice(row, DIFF_BITS) == Bits(THRESHOLD - lot.readings[src], RANGE_BITS)
      && RangeSlice(row, DELTA_BITS) == Bits(DeltaOf(lot, events, r), RANGE_BITS)
      && forall k: nat :: k < READING_BITS ==> row[k] == HonestHead(p, lot, events, r)[k]
  {
    var src := if r < events then r else events - 1;
    Pieces(HonestHead(p, lot, events, r), Bits(lot.readings[src], RANGE_BITS),
           Bits(THRESHOLD - lot.readings[src], RANGE_BITS),
           Bits(DeltaOf(lot, events, r), RANGE_BITS));
  }

  /** The other columns, by name. */
  lemma {:induction false} HonestColumns(p: nat, lot: Lot, events: nat, r: nat)
    requires FieldOk(p) && ValidLot(lot, events)
    ensures var row, src := HonestRow(p, lot, events, r), if r < events then r else events - 1;
      && row[READING] == lot.readings[src] && row[TIMESTAMP] == lot.timestamps[src] % p
           && row[DIFF] == THRESHOLD - lot.readings[src]
      && row[DELTA] == DeltaOf(lot, events, r) < RANGE_LIMIT
      && row[IS_REAL] == (if r < events then 1 else 0) && row[ENABLED] == (if r + 1 < events then 1 else 0)
      && row[REAL_COUNT] == (src + 1) % p
  {
    hide Bits;
    var src := if r < events then r else events - 1;
    HonestBits(p, lot, events, r);
    SmallMod(p, lot.readings[src]);
    SmallMod(p, THRESHOLD - lot.readings[src]);
    SmallMod(p, DeltaOf(lot, events, r));
  }

  lemma {:induction false} HonestRowOk(p: nat, lot: Lot, events: nat, r: nat)
    requires FieldOk(p) && ValidLot(lot, events)
    ensures RowOk(p, HonestRow(p, lot, events, r), THRESHOLD)
  {
    hide HonestRow;
    hide HonestHead;
    hide Bits;
    HonestColumns(p, lot, events, r);
    HonestBits(p, lot, events, r);
    var row := HonestRow(p, lot, events, r);
    BitConstraint(p, row[IS_REAL]);
    BitConstraint(p, row[ENABLED]);
    SmallZero(p, 0);
    assert row[READING] + row[DIFF] - THRESHOLD == 0;
    HonestRange(p, row, row[READING], READING_BITS);
    HonestRange(p, row, row[DIFF], DIFF_BITS);
    HonestRange(p, row, row[DELTA], DELTA_BITS);
  }

  lemma {:induction false} HonestStepOk(p: nat, lot: Lot, events: nat, r: nat)
    requires FieldOk(p) && ValidLot(lot, events)
    ensures StepOk(p, HonestRow(p, lot, events, r), HonestRow(p, lot, events, r + 1))
  {
    hide HonestRow;
    HonestColumns(p, lot, events, r);
    HonestColumns(p, lot, events, r + 1);
    SmallZero(p, 0);
    var src, next := if r < events then r else events - 1, if r + 1 < events then r + 1 else events - 1;
    ReducedSum(p, next + 1, src + 1, if r + 1 < events then 1 else 0);
    if r + 1 < events {
      var delta := DeltaOf(lot, events, r);
      ReducedSum(p, lot.timestamps[r + 1], lot.timestamps[r], delta + 1);
    }
  }

  lemma {:induction false} HonestEnds(p: nat, lot: Lot, events: nat)
    requires FieldOk(p) && ValidLot(lot, events)
    ensures FirstOk(p, HonestRow(p, lot, events, 0))
        && LastOk(p, HonestRow(p, lot, events, Rows(events) - 1), events % p)
  {
    HonestColumns(p, lot, events, 0);
    SmallMod(p, 1);
    SmallZero(p, 0);
    LastHonestRow(p, lot, events, Rows(events) - 1);
  }

  lemma {:induction false} LastHonestRow(p: nat, lot: Lot, events: nat, r: nat)
    requires FieldOk(p) && ValidLot(lot, events) && r + 1 >= events
    ensures LastOk(p, HonestRow(p, lot, events, r), events % p)
  {
    HonestColumns(p, lot, events, r);
    SmallZero(p, 0);
  }

  lemma {:induction false} HonestEntry(p: nat, lot: Lot, events: nat, r: nat, c: nat)
    requires FieldOk(p) && ValidLot(lot, events) && c < WIDTH
    ensures 0 <= HonestRow(p, lot, events, r)[c] < p
  {
    hide HonestRow;
    hide HonestHead;
    hide Bits;
    hide DeltaOf;
    var src := if r < events then r else events - 1;
    HonestBits(p, lot, events, r);
    var row := HonestRow(p, lot, events, r);
    if c < READING_BITS {
      HeadEntry(p, lot, events, r, c);
    } else if c < DIFF_BITS {
      BitEntry(p, lot.readings[src], c - READING_BITS);
      assert row[c] == RangeSlice(row, READING_BITS)[c - READING_BITS];
    } else if c < DELTA_BITS {
      BitEntry(p, THRESHOLD - lot.readings[src], c - DIFF_BITS);
      assert row[c] == RangeSlice(row, DIFF_BITS)[c - DIFF_BITS];
    } else {
      BitEntry(p, DeltaOf(lot, events, r), c - DELTA_BITS);
      assert row[c] == RangeSlice(row, DELTA_BITS)[c - DELTA_BITS];
    }
  }

  lemma {:induction false} BitEntry(p: nat, v: nat, k: int)
    requires p > 1
    ensures 0 <= k < RANGE_BITS ==> 0 <= Bits(v, RANGE_BITS)[k] < p
  {
    BitsAreBits(v, RANGE_BITS);
  }

  lemma {:induction false} HeadEntry(p: nat, lot: Lot, events: nat, r: nat, c: nat)
    requires p > 1 && ValidLot(lot, events)
    ensures c < READING_BITS ==> 0 <= HonestHead(p, lot, events, r)[c] < p
  {
  }

  lemma {:induction false} HonestIsTrace(p: nat, lot: Lot, events: nat)
    requires FieldOk(p) && ValidLot(lot, events)
    ensures IsTrace(p, HonestTrace(p, lot, events))
  {
    var trace := HonestTrace(p, lot, events);
    forall r: nat, c: nat | r < |trace| && c < WIDTH
      ensures 0 <= trace[r][c] < p
    {
      HonestEntry(p, lot, events, r, c);
    }
  }

  /**
   * Completeness: whenever `validate_c3` accepts, the built trace satisfies every constraint, padding
   * rows included.
   */
  lemma {:induction false} Complete(p: nat, lot: Lot, events: nat)
    requires FieldOk(p) && ValidLot(lot, events)
    ensures IsTrace(p, HonestTrace(p, lot, events)) && Satisfies(p, HonestTrace(p, lot, events), THRESHOLD, events % p)
  {
    hide RowOk;
    hide StepOk;
    HonestIsTrace(p, lot, events);
    HonestRowsOk(p, lot, events);
    HonestStepsOk(p, lot, events);
    HonestEnds(p, lot, events);
  }

  lemma {:induction false} HonestRowsOk(p: nat, lot: Lot, events: nat)
    requires FieldOk(p) && ValidLot(lot, events)
    ensures var trace := HonestTrace(p, lot, events); forall r: nat :: r < |trace| ==> RowOk(p, trace[r], THRESHOLD)
  {
    hide RowOk;
    var trace := HonestTrace(p, lot, events);
    forall r: nat | r < |trace|
      ensures RowOk(p, trace[r], THRESHOLD)
    {
      HonestRowOk(p, lot, events, r);
    }
  }

  lemma {:induction false} HonestStepsOk(p: nat, lot: Lot, events: nat)
    requires FieldOk(p) && ValidLot(lot, events)
    ensures var trace := HonestTrace(p, lot, events);
      forall r: nat :: r + 1 < |trace| ==> StepOk(p, trace[r], trace[r + 1])
  {
    hide StepOk;
    var trace := HonestTrace(p, lot, events);
    forall r: nat | r + 1 < |trace|
      ensures StepOk(p, trace[r], trace[r + 1])
    {
      HonestStepOk(p, lot, events, r);
    }
  }
}
