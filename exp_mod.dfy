/**
  * The software fallback behind the `mbedtls_mpi_exp_mod` hook: z = x^y mod m by left-to-right
  * square-and-multiply over MbedTLS multi-precision integers (MPIs).
  *
  * An MPI is modelled by its integer value. The library primitives the fallback calls
  * (`mbedtls_mpi_lset`, `_copy`, `_mul_mpi`, `_mod_mpi`) are not part of this model: each returns a
  * status code, zero meaning success, and the codes they return are supplied by an oracle
  * `faults`, where the k-th fallible primitive call of a run returns `Status(faults, k)`.
  * `mbedtls_mpi_mod_mpi` also refuses a negative or zero modulus with the library's own codes.
  * The calls the fallback makes, and the life of its scratch `base`, are recorded in a ghost trace.
  */
module ExpMod {

  /** MbedTLS's `MBEDTLS_ERR_MPI_NEGATIVE_VALUE`: `mod_mpi` was given a negative modulus. */
  const ERR_MPI_NEGATIVE_VALUE: int := -0x000A
  /** MbedTLS's `MBEDTLS_ERR_MPI_DIVISION_BY_ZERO`: `mod_mpi` was given a zero modulus. */
  const ERR_MPI_DIVISION_BY_ZERO: int := -0x000C

  /** `Result<(), MbedtlsError>`: an error carries the library's status code. */
  datatype Outcome = Ok | Err(code: int)

  /** What the C trampoline returns for an outcome (`map_or_else(|e| e.code(), |_| 0)`). */
  function StatusCode(o: Outcome): (rc: int)
    ensures o == Ok ==> rc == 0
    ensures o.Err? ==> rc == o.code
  {
    match o
    case Ok => 0
    case Err(c) => c
  }

  /** How the C caller reads a status: zero is success, anything else is that error. */
  function OutcomeOf(rc: int): (o: Outcome)
    ensures o == Ok <==> rc == 0
  {
    if rc == 0 then Ok else Err(rc)
  }

  /** The C status loses nothing for outcomes whose error codes are non-zero, as the library's are. */
  lemma StatusCodeRoundTrip(o: Outcome)
    requires o.Err? ==> o.code != 0
    ensures OutcomeOf(StatusCode(o)) == o
  {
  }

  // ---------------------------------------------------------------------------------------------
  // Arithmetic of the reference definition

  function Abs(n: int): nat
  {
    if n < 0 then -n else n
  }

  /** The reference definition: b raised to e, computed by repeated multiplication. */
  function Pow(b: int, e: nat): int
    decreases e
  {
    if e == 0 then 1 else b * Pow(b, e - 1)
  }

  function Pow2(i: nat): (p: nat)
    ensures p >= 1
  {
    if i == 0 then 1 else 2 * Pow2(i - 1)
  }

  /** n shifted right by i bits. */
  function Shr(n: nat, i: nat): nat
    decreases i
  {
    if i == 0 then n else Shr(n / 2, i - 1)
  }

  /** `mbedtls_mpi_bitlen` of a magnitude: the number of its significant bits, so bit r-1 is the top set bit. */
  function BitLen(n: nat): (r: nat)
    ensures Shr(n, r) == 0
    ensures r > 0 ==> Shr(n, r - 1) == 1
    ensures r == 0 <==> n == 0
  {
    if n == 0 then 0 else 1 + BitLen(n / 2)
  }

  /** `mbedtls_mpi_get_bit` of a magnitude: bit i. */
  function GetBit(n: nat, i: nat): (b: nat)
    ensures b <= 1
  {
    Shr(n, i) % 2
  }

  /** A non-zero multiple of a positive d is at least d away from zero. */
  lemma MultipleAwayFromZero(k: int, d: int)
    requires d > 0
    ensures k >= 1 ==> k * d >= d
    ensures k <= -1 ==> k * d <= -d
  {
    if k >= 1 {
      assert k * d == d + (k - 1) * d;
    } else if k <= -1 {
      assert k * d == -d - (-k - 1) * d;
    }
  }

  lemma DivModUnique(n: int, d: int, q: int, r: int)
    requires d > 0 && n == q * d + r && 0 <= r < d
    ensures n / d == q && n % d == r
  {
    var q', r' := n / d, n % d;
    var k := q - q';
    assert n == q' * d + r';
    assert k * d == q * d - q' * d;
    MultipleAwayFromZero(k, d);
  }

  lemma ModMod(a: int, m: int)
    requires m > 0
    ensures (a % m) % m == a % m
  {
  }

  lemma MulModLeft(a: int, b: int, m: int)
    requires m > 0
    ensures (a * b) % m == ((a % m) * b) % m
  {
    var qa, ra := a / m, a % m;
    var t := ra * b;
    assert a == qa * m + ra;
    assert a * b == (qa * b) * m + t;
    assert t == (t / m) * m + t % m;
    assert a * b == (qa * b + t / m) * m + t % m;
    DivModUnique(a * b, m, qa * b + t / m, t % m);
  }

  lemma MulMod(a: int, b: int, m: int)
    requires m > 0
    ensures (a * b) % m == ((a % m) * (b % m)) % m
  {
    MulModLeft(a, b, m);
    MulModLeft(b, a % m, m);
    assert (a % m) * b == b * (a % m);
    assert (b % m) * (a % m) == (a % m) * (b % m);
  }

  lemma {:induction false} PowAdd(b: int, e1: nat, e2: nat)
    ensures Pow(b, e1 + e2) == Pow(b, e1) * Pow(b, e2)
    decreases e1
  {
    if e1 > 0 {
      PowAdd(b, e1 - 1, e2);
      assert Pow(b, e1 + e2) == b * Pow(b, e1 - 1 + e2);
    }
  }

  lemma {:induction false} ShrSucc(n: nat, i: nat)
    ensures Shr(n, i + 1) == Shr(n, i) / 2
    decreases i
  {
    if i > 0 {
      ShrSucc(n / 2, i - 1);
    }
  }

  /** Reading one more bit: the exponent prefix down to bit i is twice the prefix above it, plus bit i. */
  lemma PrefixStep(n: nat, i: nat)
    ensures Shr(n, i) == 2 * Shr(n, i + 1) + GetBit(n, i)
  {
    ShrSucc(n, i);
  }

  /** Halving and then dividing by a is dividing by 2a. */
  lemma HalveThenDivide(n: nat, a: int)
    requires a > 0
    ensures (n / 2) / a == n / (2 * a)
  {
    var h, r1 := n / 2, n % 2;
    var q, r2 := h / a, h % a;
    assert n == 2 * h + r1;
    assert h == q * a + r2;
    assert 2 * (q * a) == q * (2 * a);
    DivModUnique(n, 2 * a, q, 2 * r2 + r1);
  }

  /** The shift is the division by 2^i that `get_bit` is documented by. */
  lemma {:induction false} ShrIsDivision(n: nat, i: nat)
    ensures Shr(n, i) == n / Pow2(i) && GetBit(n, i) == (n / Pow2(i)) % 2
    decreases i
  {
    if i > 0 {
      ShrIsDivision(n / 2, i - 1);
      HalveThenDivide(n, Pow2(i - 1));
    }
  }

  /** Multiplication respects congruence modulo m. */
  lemma MulCongruent(a: int, b: int, c: int, d: int, m: int)
    requires m > 0 && a % m == c % m && b % m == d % m
    ensures (a * b) % m == (c * d) % m
  {
    MulMod(a, b, m);
    MulMod(c, d, m);
  }

  /** Squaring a value congruent to x^q gives x^(2q), reduced. */
  lemma SquareStep(x: int, q: nat, m: int, z: int)
    requires m > 0 && z % m == Pow(x, q) % m
    ensures (z * z) % m == Pow(x, 2 * q) % m
  {
    var p := Pow(x, q);
    MulCongruent(z, z, p, p, m);
    PowAdd(x, q, q);
  }

  /** Multiplying the reduced x^e by the base x gives x^(e+1), reduced. */
  lemma MultiplyStep(x: int, e: nat, m: int, s: int)
    requires m > 0 && s == Pow(x, e) % m
    ensures (s * x) % m == Pow(x, e + 1) % m
  {
    var p := Pow(x, e);
    ModMod(p, m);
    MulCongruent(s, x, p, x, m);
    assert Pow(x, e + 1) == x * p;
    assert p * x == x * p;
  }

  /** One iteration in terms of the exponent prefix q read so far and the next bit b. */
  lemma SquareMultiply(x: int, q: nat, b: nat, m: int, z: int)
    requires m > 0 && b <= 1 && z % m == Pow(x, q) % m
    ensures var s := (z * z) % m;
            (if b == 1 then (s * x) % m else s) == Pow(x, 2 * q + b) % m
  {
    SquareStep(x, q, m, z);
    if b == 1 {
      MultiplyStep(x, 2 * q, m, (z * z) % m);
    }
  }

  /**
    * The loop invariant of the fallback, carried over one iteration: if z is x raised to the bits
    * of Y above bit i (exactly 1 before the first iteration), then squaring and, for a set bit i,
    * multiplying by x, each followed by a reduction, leaves x raised to the bits down to bit i.
    */
  lemma InvariantStep(x: int, Y: nat, m: int, i: nat, bits: nat, z: int)
    requires m > 0 && i < bits && Shr(Y, bits) == 0
    requires z == (if i + 1 == bits then 1 else Pow(x, Shr(Y, i + 1)) % m)
    ensures var s := (z * z) % m;
            (if GetBit(Y, i) == 1 then (s * x) % m else s) == Pow(x, Shr(Y, i)) % m
  {
    var q := Shr(Y, i + 1);
    var b := GetBit(Y, i);
    assert z % m == Pow(x, q) % m by {
      if i + 1 == bits {
      } else {
        ModMod(Pow(x, q), m);
      }
    }
    SquareMultiply(x, q, b, m, z);
    PrefixStep(Y, i);
  }

  // ---------------------------------------------------------------------------------------------
  // The library oracle and the trace of library calls

  /** The status the library returns to the k-th fallible primitive call; calls past the end succeed. */
  function Status(faults: seq<int>, k: nat): int
  {
    if k < |faults| then faults[k] else 0
  }

  /** `mbedtls_mpi_mod_mpi`'s status: a negative or zero modulus is refused before anything else. */
  function ReduceStatus(faults: seq<int>, k: nat, m: int): (rc: int)
    ensures m <= 0 ==> rc != 0
    ensures m > 0 ==> rc == Status(faults, k)
  {
    if m < 0 then ERR_MPI_NEGATIVE_VALUE
    else if m == 0 then ERR_MPI_DIVISION_BY_ZERO
    else Status(faults, k)
  }

  /** The oracle reports no failure at all. */
  predicate NoFaults(faults: seq<int>)
  {
    forall k :: 0 <= k < |faults| ==> faults[k] == 0
  }

  /** The fallible primitives, by what they do in the fallback. */
  datatype Op =
    | SetOne    // mbedtls_mpi_lset(z, 1)
    | CopyBase  // mbedtls_mpi_copy(&base, x)
    | Square    // mbedtls_mpi_mul_mpi(z, z, z)
    | MulBase   // mbedtls_mpi_mul_mpi(z, z, &base)
    | Reduce    // mbedtls_mpi_mod_mpi(z, z, m)

  /** The status the library gives primitive `o` when it is the k-th fallible call of a run. */
  function OpStatus(o: Op, k: nat, faults: seq<int>, m: int): int
  {
    if o == Reduce then ReduceStatus(faults, k, m) else Status(faults, k)
  }

  // ---------------------------------------------------------------------------------------------
  // The schedule: the fallible primitives the fallback calls, in order, while none fails

  /** The loop body for bit i: square and reduce, then multiply by `base` and reduce when the bit is set. */
  function Round(Y: nat, i: nat): seq<Op>
  {
    [Square, Reduce] + (if GetBit(Y, i) == 1 then [MulBase, Reduce] else [])
  }

  /** The loop bodies for bits n-1 down to 0, highest bit first. */
  function Rounds(Y: nat, n: nat): seq<Op>
  {
    if n == 0 then [] else Round(Y, n - 1) + Rounds(Y, n - 1)
  }

  /** `lset`, `copy`, then one round per bit of the exponent's magnitude `Y`, which has `bits` bits. */
  function Schedule(Y: nat, bits: nat): seq<Op>
  {
    [SetOne, CopyBase] + Rounds(Y, bits)
  }

  /** Running `ops` from oracle index k until one fails: `Ok` if none does, else the first failing status. */
  function FirstFailure(ops: seq<Op>, faults: seq<int>, m: int, k: nat): Outcome
    decreases |ops|
  {
    if |ops| == 0 then Ok
    else if OpStatus(ops[0], k, faults, m) != 0 then Err(OpStatus(ops[0], k, faults, m))
    else FirstFailure(ops[1..], faults, m, k + 1)
  }

  /** `FirstFailure` is `Ok` exactly when every call succeeds. */
  lemma {:induction false} FirstFailureOk(ops: seq<Op>, faults: seq<int>, m: int, k: nat)
    ensures FirstFailure(ops, faults, m, k) == Ok <==>
            forall j :: 0 <= j < |ops| ==> OpStatus(ops[j], k + j, faults, m) == 0
    decreases |ops|
  {
    if |ops| > 0 {
      var tail := ops[1..];
      FirstFailureOk(tail, faults, m, k + 1);
      assert forall j :: 1 <= j < |ops| ==> ops[j] == tail[j - 1] && k + j == (k + 1) + (j - 1);
      assert OpStatus(ops[0], k + 0, faults, m) == OpStatus(ops[0], k, faults, m);
    }
  }

  /** When call j is the earliest to fail, `FirstFailure` is its status. */
  lemma {:induction false} FirstFailureAt(ops: seq<Op>, faults: seq<int>, m: int, k: nat, j: nat)
    requires j < |ops| && OpStatus(ops[j], k + j, faults, m) != 0
    requires forall i :: 0 <= i < j ==> OpStatus(ops[i], k + i, faults, m) == 0
    ensures FirstFailure(ops, faults, m, k) == Err(OpStatus(ops[j], k + j, faults, m))
    decreases j
  {
    if j > 0 {
      var tail := ops[1..];
      assert OpStatus(ops[0], k + 0, faults, m) == 0;
      forall i | 0 <= i < j - 1
        ensures OpStatus(tail[i], k + 1 + i, faults, m) == 0
      {
        assert tail[i] == ops[i + 1];
      }
      assert tail[j - 1] == ops[j];
      FirstFailureAt(tail, faults, m, k + 1, j - 1);
    }
  }

  /** Running `a` then `b` stops in `a` if a call of `a` fails, and otherwise goes on into `b`. */
  lemma {:induction false} FirstFailureAppend(a: seq<Op>, b: seq<Op>, faults: seq<int>, m: int, k: nat)
    ensures FirstFailure(a + b, faults, m, k) ==
            if FirstFailure(a, faults, m, k) == Ok then FirstFailure(b, faults, m, k + |a|)
            else FirstFailure(a, faults, m, k)
    decreases |a|
  {
    if |a| == 0 {
      assert a + b == b;
    } else {
      assert (a + b)[0] == a[0] && (a + b)[1..] == a[1..] + b;
      FirstFailureAppend(a[1..], b, faults, m, k + 1);
    }
  }

  // ---------------------------------------------------------------------------------------------
  // The trace of library calls

  /** One call into the library: a fallible primitive with its oracle index and status, or an infallible one. */
  datatype Call =
    | Prim(op: Op, k: nat, rc: int)
    | InitBase          // mbedtls_mpi_init(&base)
    | QueryBitLen       // mbedtls_mpi_bitlen(y)
    | QueryBit(pos: nat) // mbedtls_mpi_get_bit(y, pos)
    | FreeBase          // mbedtls_mpi_free(&base)

  predicate Failed(c: Call)
  {
    c.Prim? && c.rc != 0
  }

  function Expected(c: Call, faults: seq<int>, m: int): int
    requires c.Prim?
  {
    OpStatus(c.op, c.k, faults, m)
  }

  /** The fallible primitives of a trace, in the order they were called. */
  function PrimOps(t: seq<Call>): seq<Op>
  {
    if |t| == 0 then []
    else PrimOps(t[..|t| - 1]) + (if t[|t| - 1].Prim? then [t[|t| - 1].op] else [])
  }

  lemma PrimOpsAppend(t: seq<Call>, c: Call)
    ensures PrimOps(t + [c]) == PrimOps(t) + (if c.Prim? then [c.op] else [])
  {
    assert (t + [c])[..|t|] == t;
  }

  /** The fallible primitive calls of a trace, in the order they were made. */
  function Prims(t: seq<Call>): seq<Call>
  {
    if |t| == 0 then []
    else Prims(t[..|t| - 1]) + (if t[|t| - 1].Prim? then [t[|t| - 1]] else [])
  }

  lemma PrimsAppend(t: seq<Call>, c: Call)
    ensures Prims(t + [c]) == Prims(t) + (if c.Prim? then [c] else [])
    ensures |Prims(t + [c])| == |PrimOps(t + [c])| <== |Prims(t)| == |PrimOps(t)|
  {
    assert (t + [c])[..|t|] == t;
  }

  /** Every primitive reports what the oracle gives it for its index. */
  ghost predicate Honours(t: seq<Call>, faults: seq<int>, m: int)
  {
    forall j :: 0 <= j < |t| && t[j].Prim? ==> t[j].rc == Expected(t[j], faults, m)
  }

  /** Each primitive's oracle index is its position among the primitives of the trace: the oracle is consumed in order, each entry once. */
  ghost predicate Numbered(t: seq<Call>)
  {
    forall p :: 0 <= p < |Prims(t)| ==> Prims(t)[p].Prim? && Prims(t)[p].k == p
  }

  /** `base` is initialised at most once, so no second `init` drops limbs a `copy` put there. */
  ghost predicate InitialisedOnce(t: seq<Call>)
  {
    forall i, j :: 0 <= i < j < |t| && t[i] == InitBase ==> t[j] != InitBase
  }

  /** A run that initialises `base` again after copying x into it, leaking the copy, is no clean exit. */
  lemma ReinitialisedBaseRejected(faults: seq<int>, m: int)
    ensures !CleanExit([Prim(SetOne, 0, 0), InitBase, Prim(CopyBase, 1, 0), InitBase, QueryBitLen, FreeBase],
                       Ok, faults, m)
  {
    var t := [Prim(SetOne, 0, 0), InitBase, Prim(CopyBase, 1, 0), InitBase, QueryBitLen, FreeBase];
    assert t[1] == InitBase && t[3] == InitBase;
  }

  /** `base` is freed if and only if it was initialised, exactly once, as the very last call. */
  ghost predicate FreedOnceAtEnd(t: seq<Call>)
  {
    (InitBase in t <==> FreeBase in t) &&
    (FreeBase in t ==> t[|t| - 1] == FreeBase && FreeBase !in t[..|t| - 1])
  }

  /** `base` is read or written only after it was initialised. */
  ghost predicate BaseUsedWhileLive(t: seq<Call>)
  {
    forall j :: 0 <= j < |t| && t[j].Prim? && (t[j].op == CopyBase || t[j].op == MulBase) ==>
      InitBase in t[..j]
  }

  /** After a failing primitive nothing but the release of `base` follows. */
  ghost predicate HaltsOnFailure(t: seq<Call>)
  {
    forall j, i :: 0 <= j < i < |t| && Failed(t[j]) ==> t[i] == FreeBase
  }

  /**
    * What one run of the fallback promises about its conversation with the library: it starts with
    * `lset`, initialises `base` exactly when `lset` succeeded, frees it exactly once at the end,
    * stops at the first failure, and returns `Ok` when nothing failed and otherwise the failing
    * status unchanged.
    */
  ghost predicate CleanExit(t: seq<Call>, res: Outcome, faults: seq<int>, m: int)
  {
    |t| > 0 && t[0] == Prim(SetOne, 0, Status(faults, 0)) &&
    (InitBase in t <==> Status(faults, 0) == 0) &&
    Honours(t, faults, m) && Numbered(t) &&
    InitialisedOnce(t) && FreedOnceAtEnd(t) && BaseUsedWhileLive(t) && HaltsOnFailure(t) &&
    (res == Ok <==> forall j :: 0 <= j < |t| ==> !Failed(t[j])) &&
    (forall j :: 0 <= j < |t| && Failed(t[j]) ==> res == Err(t[j].rc))
  }

  /** The trace so far of a run that is still going: `base` is live, k primitives were called, and none failed. */
  ghost predicate Running(t: seq<Call>, faults: seq<int>, m: int, k: nat)
  {
    |t| > 0 && t[0] == Prim(SetOne, 0, 0) && Status(faults, 0) == 0 &&
    InitBase in t && FreeBase !in t && InitialisedOnce(t) &&
    Honours(t, faults, m) && Numbered(t) && BaseUsedWhileLive(t) &&
    (forall j :: 0 <= j < |t| ==> !Failed(t[j])) &&
    k == |PrimOps(t)| && k == |Prims(t)| && FirstFailure(PrimOps(t), faults, m, 0) == Ok
  }

  // Each trace property, carried over one more call

  lemma HonoursAppend(t: seq<Call>, c: Call, faults: seq<int>, m: int)
    requires Honours(t, faults, m) && (c.Prim? ==> c.rc == Expected(c, faults, m))
    ensures Honours(t + [c], faults, m)
  {
    assert forall j :: 0 <= j < |t| ==> (t + [c])[j] == t[j];
  }

  lemma NumberedAppend(t: seq<Call>, c: Call)
    requires Numbered(t) && (c.Prim? ==> c.k == |Prims(t)|)
    ensures Numbered(t + [c])
  {
    PrimsAppend(t, c);
  }

  lemma InitialisedOnceAppend(t: seq<Call>, c: Call)
    requires InitialisedOnce(t) && c != InitBase
    ensures InitialisedOnce(t + [c])
  {
    assert forall j :: 0 <= j < |t| ==> (t + [c])[j] == t[j];
  }

  lemma BaseUsedAppend(t: seq<Call>, c: Call)
    requires BaseUsedWhileLive(t)
    requires c.Prim? && (c.op == CopyBase || c.op == MulBase) ==> InitBase in t
    ensures BaseUsedWhileLive(t + [c])
  {
    var t' := t + [c];
    assert t'[..|t|] == t;
    forall j | 0 <= j < |t'| && t'[j].Prim? && (t'[j].op == CopyBase || t'[j].op == MulBase)
      ensures InitBase in t'[..j]
    {
      if j < |t| {
        assert t'[..j] == t[..j];
      }
    }
  }

  /** A call other than `init` and `free` appended to a trace keeps the properties every trace shares. */
  lemma CallAppend(t: seq<Call>, c: Call, faults: seq<int>, m: int)
    requires Honours(t, faults, m) && Numbered(t) && InitialisedOnce(t) && BaseUsedWhileLive(t)
    requires |Prims(t)| == |PrimOps(t)|
    requires c.Prim? ==> c.k == |Prims(t)| && c.rc == Expected(c, faults, m)
    requires c.Prim? && (c.op == CopyBase || c.op == MulBase) ==> InitBase in t
    requires c != InitBase
    ensures Honours(t + [c], faults, m) && Numbered(t + [c]) && InitialisedOnce(t + [c])
    ensures BaseUsedWhileLive(t + [c])
    ensures Prims(t + [c]) == Prims(t) + (if c.Prim? then [c] else [])
    ensures PrimOps(t + [c]) == PrimOps(t) + (if c.Prim? then [c.op] else [])
    ensures |Prims(t + [c])| == |PrimOps(t + [c])|
  {
    HonoursAppend(t, c, faults, m);
    NumberedAppend(t, c);
    InitialisedOnceAppend(t, c);
    BaseUsedAppend(t, c);
    PrimsAppend(t, c);
    PrimOpsAppend(t, c);
  }

  lemma RunningStep(t: seq<Call>, c: Call, faults: seq<int>, m: int, k: nat)
    requires Running(t, faults, m, k)
    requires c.Prim? ==> c.k == k && c.rc == Expected(c, faults, m) && c.rc == 0 && c.op != SetOne
    requires c != InitBase && c != FreeBase
    ensures Running(t + [c], faults, m, if c.Prim? then k + 1 else k)
    ensures PrimOps(t + [c]) == PrimOps(t) + (if c.Prim? then [c.op] else [])
  {
    var t' := t + [c];
    CallAppend(t, c, faults, m);
    assert t'[..|t|] == t;
    if c.Prim? {
      FirstFailureAppend(PrimOps(t), [c.op], faults, m, 0);
      assert [c.op][1..] == [];
      assert OpStatus(c.op, k, faults, m) == 0;
      assert FirstFailure([c.op], faults, m, k) == Ok;
      assert PrimOps(t') == PrimOps(t) + [c.op] && 0 + |PrimOps(t)| == k;
    } else {
      assert PrimOps(t') == PrimOps(t);
    }
  }

  /** Freeing `base` after the last call of a trace in which `base` is live, and nothing failed except perhaps that last call. */
  lemma FreeAppend(t: seq<Call>, faults: seq<int>, m: int)
    requires |t| > 0 && Honours(t, faults, m) && Numbered(t) && InitialisedOnce(t) && BaseUsedWhileLive(t)
    requires InitBase in t && FreeBase !in t
    requires forall j :: 0 <= j < |t| - 1 ==> !Failed(t[j])
    ensures Honours(t + [FreeBase], faults, m) && Numbered(t + [FreeBase])
    ensures InitialisedOnce(t + [FreeBase]) && FreedOnceAtEnd(t + [FreeBase])
    ensures BaseUsedWhileLive(t + [FreeBase]) && HaltsOnFailure(t + [FreeBase])
    ensures PrimOps(t + [FreeBase]) == PrimOps(t)
  {
    var t' := t + [FreeBase];
    HonoursAppend(t, FreeBase, faults, m);
    NumberedAppend(t, FreeBase);
    InitialisedOnceAppend(t, FreeBase);
    BaseUsedAppend(t, FreeBase);
    PrimOpsAppend(t, FreeBase);
    assert t'[..|t'| - 1] == t;
    assert FreedOnceAtEnd(t') by {
      assert t'[|t'| - 1] == FreeBase;
      assert InitBase in t' && FreeBase in t';
    }
    forall j, i | 0 <= j < i < |t'| && Failed(t'[j])
      ensures t'[i] == FreeBase
    {
      assert t'[j] == t[j];
      assert j == |t| - 1;
    }
  }

  lemma FailingExit(t: seq<Call>, c: Call, rest: seq<Op>, faults: seq<int>, m: int, k: nat)
    requires Running(t, faults, m, k)
    requires c.Prim? && c.k == k && c.rc == Expected(c, faults, m) && c.rc != 0 && c.op != SetOne
    requires c.op == CopyBase || c.op == MulBase ==> InitBase in t
    ensures CleanExit(t + [c, FreeBase], Err(c.rc), faults, m)
    ensures PrimOps(t + [c, FreeBase]) == PrimOps(t) + [c.op]
    ensures FirstFailure(PrimOps(t) + [c.op] + rest, faults, m, 0) == Err(c.rc)
  {
    var t1 := t + [c];
    var t' := t + [c, FreeBase];
    CallAppend(t, c, faults, m);
    assert forall j :: 0 <= j < |t| ==> t1[j] == t[j];
    assert t1[0] == t[0] && t1[|t|] == c;
    FreeAppend(t1, faults, m);
    assert t' == t1 + [FreeBase];
    assert forall j :: 0 <= j < |t1| ==> t'[j] == t1[j];
    assert t'[|t|] == c && t'[|t|+1] == FreeBase;
    assert PrimOps(t) + [c.op] + rest == PrimOps(t) + ([c.op] + rest);
    FirstFailureAppend(PrimOps(t), [c.op] + rest, faults, m, 0);
  }

  lemma SuccessExit(t: seq<Call>, faults: seq<int>, m: int, k: nat)
    requires Running(t, faults, m, k)
    ensures CleanExit(t + [FreeBase], Ok, faults, m)
    ensures PrimOps(t + [FreeBase]) == PrimOps(t)
  {
    FreeAppend(t, faults, m);
    assert forall j :: 0 <= j < |t| ==> (t + [FreeBase])[j] == t[j];
  }

  /** A running fallback whose primitives so far are the schedule `S` up to the still `pending` part. */
  ghost predicate OnSchedule(t: seq<Call>, pending: seq<Op>, S: seq<Op>, faults: seq<int>, m: int, k: nat)
  {
    Running(t, faults, m, k) && S == PrimOps(t) + pending
  }

  /** A finished run against schedule `S`: a clean exit whose outcome is the first failure of `S`, having called a prefix of `S` (all of it on success). */
  ghost predicate Finished(t: seq<Call>, res: Outcome, S: seq<Op>, faults: seq<int>, m: int)
  {
    CleanExit(t, res, faults, m) && res == FirstFailure(S, faults, m, 0) &&
    PrimOps(t) <= S && (res == Ok ==> PrimOps(t) == S)
  }

  /** The next scheduled primitive succeeds: the run goes on with the rest of the schedule. */
  lemma Proceed(t: seq<Call>, c: Call, rest: seq<Op>, pending: seq<Op>, S: seq<Op>,
                faults: seq<int>, m: int, k: nat)
    requires OnSchedule(t, pending, S, faults, m, k)
    requires c.Prim? && pending == [c.op] + rest && c.k == k && c.rc == Expected(c, faults, m)
    requires c.rc == 0 && c.op != SetOne
    ensures OnSchedule(t + [c], rest, S, faults, m, k + 1)
  {
    RunningStep(t, c, faults, m, k);
    assert PrimOps(t) + pending == (PrimOps(t) + [c.op]) + rest;
  }

  /** A query of the exponent leaves the schedule where it was. */
  lemma Query(t: seq<Call>, c: Call, pending: seq<Op>, S: seq<Op>, faults: seq<int>, m: int, k: nat)
    requires OnSchedule(t, pending, S, faults, m, k)
    requires c == QueryBitLen || c.QueryBit?
    ensures OnSchedule(t + [c], pending, S, faults, m, k)
  {
    RunningStep(t, c, faults, m, k);
  }

  /** The next scheduled primitive fails: freeing `base` finishes the run with that status. */
  lemma Abort(t: seq<Call>, c: Call, rest: seq<Op>, pending: seq<Op>, S: seq<Op>,
              faults: seq<int>, m: int, k: nat)
    requires OnSchedule(t, pending, S, faults, m, k)
    requires c.Prim? && pending == [c.op] + rest && c.k == k && c.rc == Expected(c, faults, m)
    requires c.rc != 0 && c.op != SetOne
    requires c.op == CopyBase || c.op == MulBase ==> InitBase in t
    ensures Finished(t + [c, FreeBase], Err(c.rc), S, faults, m)
  {
    FailingExit(t, c, rest, faults, m, k);
    assert S == (PrimOps(t) + [c.op]) + rest;
  }

  /** The schedule is used up: freeing `base` finishes the run with `Ok`. */
  lemma Complete(t: seq<Call>, S: seq<Op>, faults: seq<int>, m: int, k: nat)
    requires OnSchedule(t, [], S, faults, m, k)
    ensures Finished(t + [FreeBase], Ok, S, faults, m)
  {
    SuccessExit(t, faults, m, k);
    assert S == PrimOps(t);
  }

  /** `lset` fails: the run is over after that one call, with its status. */
  lemma StartFails(Y: nat, bits: nat, faults: seq<int>, m: int)
    requires Status(faults, 0) != 0
    ensures Finished([Prim(SetOne, 0, Status(faults, 0))], Err(Status(faults, 0)), Schedule(Y, bits), faults, m)
  {
    var t := [Prim(SetOne, 0, Status(faults, 0))];
    assert t[..0] == [];
    assert Prims(t) == t && PrimOps(t) == [SetOne];
  }

  /** `lset` succeeds and `base` is initialised: the copy and the rounds are still pending. */
  lemma Started(Y: nat, bits: nat, faults: seq<int>, m: int)
    requires Status(faults, 0) == 0
    ensures OnSchedule([Prim(SetOne, 0, 0), InitBase], [CopyBase] + Rounds(Y, bits), Schedule(Y, bits), faults, m, 1)
  {
    StartTrace(faults, m);
    assert [SetOne] + ([CopyBase] + Rounds(Y, bits)) == Schedule(Y, bits);
  }

  /** The trace of a successful `lset` followed by `init(&base)` is that of a running fallback. */
  lemma StartTrace(faults: seq<int>, m: int)
    requires Status(faults, 0) == 0
    ensures Running([Prim(SetOne, 0, 0), InitBase], faults, m, 1)
    ensures PrimOps([Prim(SetOne, 0, 0), InitBase]) == [SetOne]
  {
    var t := [Prim(SetOne, 0, 0)];
    var t' := [Prim(SetOne, 0, 0), InitBase];
    assert t[..0] == [];
    assert Prims(t) == t && PrimOps(t) == [SetOne];
    PrimOpsAppend(t, InitBase);
    PrimsAppend(t, InitBase);
    assert t + [InitBase] == t';
    assert Prims(t') == t && PrimOps(t') == [SetOne];
    assert Honours(t', faults, m) by {
      assert Expected(t'[0], faults, m) == 0;
    }
    assert Numbered(t');
    assert InitialisedOnce(t') by {
      assert t'[0] != InitBase;
    }
    assert BaseUsedWhileLive(t') by {
      assert !t'[0].Prim? || t'[0].op == SetOne;
    }
    assert FirstFailure([SetOne], faults, m, 0) == Ok by {
      assert [SetOne][1..] == [];
    }
  }

  /** Without faults from the oracle, a schedule fails only at a reduction by a modulus that is not positive. */
  lemma {:induction false} NoFaultsNoFailure(ops: seq<Op>, faults: seq<int>, m: int, k: nat)
    requires NoFaults(faults) && (m > 0 || Reduce !in ops)
    ensures FirstFailure(ops, faults, m, k) == Ok
    decreases |ops|
  {
    if |ops| > 0 {
      assert OpStatus(ops[0], k, faults, m) == 0;
      assert Reduce in ops[1..] ==> Reduce in ops;
      NoFaultsNoFailure(ops[1..], faults, m, k + 1);
    }
  }

  /** A failure is never reported with the success status 0. */
  lemma {:induction false} FailureIsNonzero(ops: seq<Op>, faults: seq<int>, m: int, k: nat)
    ensures FirstFailure(ops, faults, m, k).Err? ==> FirstFailure(ops, faults, m, k).code != 0
    decreases |ops|
  {
    if |ops| > 0 && OpStatus(ops[0], k, faults, m) == 0 {
      FailureIsNonzero(ops[1..], faults, m, k + 1);
    }
  }

  /** What a finished run of the fallback's schedule for exponent y says about its outcome. */
  lemma Conclude(t: seq<Call>, res: Outcome, y: int, faults: seq<int>, m: int)
    requires Finished(t, res, Schedule(Abs(y), BitLen(Abs(y))), faults, m)
    ensures NoFaults(faults) && (y == 0 || m > 0) ==> res == Ok
    ensures res.Err? ==> res.code != 0
  {
    var S := Schedule(Abs(y), BitLen(Abs(y)));
    FailureIsNonzero(S, faults, m, 0);
    if NoFaults(faults) && (y == 0 || m > 0) {
      if y == 0 {
        assert S == [SetOne, CopyBase];
      }
      NoFaultsNoFailure(S, faults, m, 0);
    }
  }

  // ---------------------------------------------------------------------------------------------
  // The fallback

  /**
    * The step the loop takes twice, `mbedtls_mpi_mul_mpi(z, z, f)` then `mbedtls_mpi_mod_mpi(z, z, m)`:
    * squaring has f = z (op `Square`), the multiply by the base has f = base (op `MulBase`). The
    * first failing call ends the step with its status, and the caller then frees `base`. The
    * step's two primitives are the next two of the schedule.
    */
  method MulReduce(z: int, f: int, m: int, faults: seq<int>, k: nat, op: Op,
                   ghost t: seq<Call>, ghost rest: seq<Op>, ghost S: seq<Op>)
    returns (rc: int, zOut: int, kOut: nat, ghost tOut: seq<Call>)
    requires op == Square || op == MulBase
    requires OnSchedule(t, [op, Reduce] + rest, S, faults, m, k)
    ensures rc == 0 ==> m > 0 && zOut == (z * f) % m && kOut == k + 2
    ensures rc == 0 ==> OnSchedule(tOut, rest, S, faults, m, kOut)
    ensures rc != 0 ==> Finished(tOut + [FreeBase], Err(rc), S, faults, m)
  {
    rc := Status(faults, k);                    // mbedtls_mpi_mul_mpi(z, z, f)
    var c := Prim(op, k, rc);
    assert [op, Reduce] + rest == [op] + ([Reduce] + rest);
    if rc != 0 {
      Abort(t, c, [Reduce] + rest, [op, Reduce] + rest, S, faults, m, k);
      assert t + [c] + [FreeBase] == t + [c, FreeBase];
      return rc, z, k, t + [c];
    }
    Proceed(t, c, [Reduce] + rest, [op, Reduce] + rest, S, faults, m, k);
    tOut, kOut, zOut := t + [c], k + 1, z * f;

    rc := ReduceStatus(faults, kOut, m);        // mbedtls_mpi_mod_mpi(z, z, m)
    c := Prim(Reduce, kOut, rc);
    if rc != 0 {
      Abort(tOut, c, rest, [Reduce] + rest, S, faults, m, kOut);
      assert tOut + [c] + [FreeBase] == tOut + [c, FreeBase];
      return rc, zOut, kOut, tOut + [c];
    }
    Proceed(tOut, c, rest, [Reduce] + rest, S, faults, m, kOut);
    tOut, kOut, zOut := tOut + [c], kOut + 1, zOut % m;
  }

  /**
    * One pass of the loop body for bit i (`for i in (0..bits).rev()`): square and reduce, ask for
    * bit i of the exponent, and when it is set multiply by `base` and reduce. A failure ends the
    * pass with its status, and the caller then frees `base`.
    */
  method LoopBody(z: int, base: int, Y: nat, i: nat, m: int, faults: seq<int>, k: nat,
                  ghost t: seq<Call>, ghost S: seq<Op>)
    returns (rc: int, zOut: int, kOut: nat, ghost tOut: seq<Call>)
    requires OnSchedule(t, Round(Y, i) + Rounds(Y, i), S, faults, m, k)
    ensures rc == 0 ==> m > 0 && OnSchedule(tOut, Rounds(Y, i), S, faults, m, kOut)
    ensures rc == 0 ==>
      zOut == (if GetBit(Y, i) == 1 then (((z * z) % m) * base) % m else (z * z) % m)
    ensures rc != 0 ==> Finished(tOut + [FreeBase], Err(rc), S, faults, m)
  {
    ghost var tail := (if GetBit(Y, i) == 1 then [MulBase, Reduce] else []) + Rounds(Y, i);
    assert Round(Y, i) + Rounds(Y, i) == [Square, Reduce] + tail;
    rc, zOut, kOut, tOut := MulReduce(z, z, m, faults, k, Square, t, tail, S);  // z = z * z mod m
    if rc != 0 {
      return;
    }
    Query(tOut, QueryBit(i), tail, S, faults, m, kOut);
    tOut := tOut + [QueryBit(i)];
    if GetBit(Y, i) == 1 {                      // mbedtls_mpi_get_bit(y, i) == 1
      rc, zOut, kOut, tOut := MulReduce(zOut, base, m, faults, kOut, MulBase, tOut, Rounds(Y, i), S);
    }
  }

  /**
    * The start of the fallback, before the loop: `mbedtls_mpi_lset(z, 1)`, then `base` is
    * initialised and `mbedtls_mpi_copy(&base, x)` fills it. A failing `lset` returns at once,
    * leaving z as it was; a failing copy frees `base` and returns.
    */
  method Prologue(z0: int, x: int, Y: nat, m: int, faults: seq<int>)
    returns (rc: int, z: int, base: int, k: nat, ghost trace: seq<Call>)
    ensures rc != 0 ==> z == (if Status(faults, 0) != 0 then z0 else 1)
    ensures rc != 0 ==> Finished(trace, Err(rc), Schedule(Y, BitLen(Y)), faults, m)
    ensures rc == 0 ==> z == 1 && base == x
    ensures rc == 0 ==> OnSchedule(trace, Rounds(Y, BitLen(Y)), Schedule(Y, BitLen(Y)), faults, m, k)
  {
    ghost var S := Schedule(Y, BitLen(Y));
    k := 0;
    rc := Status(faults, k);                    // mbedtls_mpi_lset(z, 1)
    trace := [Prim(SetOne, k, rc)];
    k := k + 1;
    if rc != 0 {
      StartFails(Y, BitLen(Y), faults, m);
      return rc, z0, 0, k, trace;
    }
    z := 1;

    base := 0;                                  // core::mem::zeroed(); mbedtls_mpi_init(&mut base)
    Started(Y, BitLen(Y), faults, m);
    trace := trace + [InitBase];
    ghost var pending := [CopyBase] + Rounds(Y, BitLen(Y));
    rc := Status(faults, k);                    // mbedtls_mpi_copy(&mut base, x)
    var c := Prim(CopyBase, k, rc);
    if rc != 0 {
      Abort(trace, c, Rounds(Y, BitLen(Y)), pending, S, faults, m, k);
      trace := trace + [c, FreeBase];           // mbedtls_mpi_free(&mut base)
      return;
    }
    Proceed(trace, c, Rounds(Y, BitLen(Y)), pending, S, faults, m, k);
    trace, k := trace + [c], k + 1;
    base := x;
  }

  /**
    * `FallbackMpiExpMod::exp_mod`. The MPI `z` is passed in as `z0` and its new value returned, as
    * the Rust `&mut` parameter does; `x`, `y`, `m` are the values behind the shared references,
    * taken as distinct from `z` (see `AliasedFallbackExpMod` for a call where z and x are one MPI).
    * `prec_rr` is ignored by the fallback.
    */
  method FallbackExpMod(z0: int, x: int, y: int, m: int, faults: seq<int>)
    returns (res: Outcome, z: int, ghost trace: seq<Call>)
    ensures res == Ok && y == 0 ==> z == 1
    ensures res == Ok && y != 0 ==> m > 0 && z == Pow(x, Abs(y)) % m
    ensures NoFaults(faults) && (y == 0 || m > 0) ==> res == Ok
    ensures res.Err? ==> res.code != 0
    ensures res == FirstFailure(Schedule(Abs(y), BitLen(Abs(y))), faults, m, 0)
    ensures PrimOps(trace) <= Schedule(Abs(y), BitLen(Abs(y)))
    ensures res == Ok ==> PrimOps(trace) == Schedule(Abs(y), BitLen(Abs(y)))
    ensures CleanExit(trace, res, faults, m)
  {
    var Y := Abs(y);
    ghost var S := Schedule(Y, BitLen(Y));
    var rc, base, k;
    rc, z, base, k, trace := Prologue(z0, x, Y, m, faults);
    if rc != 0 {
      Conclude(trace, Err(rc), y, faults, m);
      return Err(rc), z, trace;
    }
    ghost var pending := Rounds(Y, BitLen(Y));

    var bits := BitLen(Y);                      // mbedtls_mpi_bitlen(y)
    Query(trace, QueryBitLen, pending, S, faults, m, k);
    trace := trace + [QueryBitLen];

    for i: nat := bits downto 0
      invariant OnSchedule(trace, pending, S, faults, m, k) && pending == Rounds(Y, i)
      invariant base == x
      invariant i == bits ==> z == 1
      invariant i < bits ==> m > 0 && z == Pow(x, Shr(Y, i)) % m
    {
      ghost var zPrev := z;
      var zNext;
      rc, zNext, k, trace := LoopBody(z, base, Y, i, m, faults, k, trace, S);
      if rc != 0 {
        trace := trace + [FreeBase];            // mbedtls_mpi_free(&mut base)
        Conclude(trace, Err(rc), y, faults, m);
        return Err(rc), zNext, trace;
      }
      z, pending := zNext, Rounds(Y, i);
      InvariantStep(x, Y, m, i, bits, zPrev);
    }

    Complete(trace, S, faults, m, k);
    trace := trace + [FreeBase];                // mbedtls_mpi_free(&mut base)
    res := Ok;
    Conclude(trace, res, y, faults, m);
  }

  /** One raised to any power is one. */
  lemma {:induction false} PowOne(e: nat)
    ensures Pow(1, e) == 1
    decreases e
  {
    if e > 0 {
      PowOne(e - 1);
    }
  }

  /**
    * `FallbackMpiExpMod::exp_mod` as written, called with z and x naming one MPI, as in an in-place
    * `exp_mod(&T, &T, ...)`: `lset(z, 1)` overwrites the shared MPI before `copy(&base, x)` reads it,
    * so the base is 1 instead of x. The run is that of the fallback on the base 1 with z starting
    * at x, and a successful result is 1 reduced, whatever x was.
    */
  method AliasedFallbackExpMod(x: int, y: int, m: int, faults: seq<int>)
    returns (res: Outcome, z: int, ghost trace: seq<Call>)
    ensures res == Ok && y == 0 ==> z == 1
    ensures res == Ok && y != 0 ==> m > 0 && z == 1 % m
    ensures NoFaults(faults) && (y == 0 || m > 0) ==> res == Ok
    ensures res == FirstFailure(Schedule(Abs(y), BitLen(Abs(y))), faults, m, 0)
    ensures CleanExit(trace, res, faults, m)
  {
    res, z, trace := FallbackExpMod(x, 1, y, m, faults);
    PowOne(Abs(y));
  }

  /**
    * The in-place call 2^3 mod 5 with nothing failing: the shared MPI ends as 1, where the
    * fallback on distinct arguments gives 3.
    */
  method AliasedCallLosesBase() returns (aliased: int, intended: int)
    ensures aliased == 1 && intended == 3 && Pow(2, 3) % 5 == 3
  {
    var res; ghost var trace;
    res, aliased, trace := AliasedFallbackExpMod(2, 3, 5, []);
    res, intended, trace := FallbackExpMod(2, 2, 3, 5, []);
  }
}
