# esp-mbedtls hook layer, modelled in Dafny

`esp-mbedtls-sys` links MbedTLS on ESP32 chips and lets Rust code replace some of MbedTLS's
platform functions at run time. This project models that hook layer:

- **Modular exponentiation.** MbedTLS calls `mbedtls_mpi_exp_mod` (z = x^y mod m).
  - A process-wide slot may hold an accelerator capability, which then handles the call.
  - Otherwise a software fallback does the work, by left-to-right square-and-multiply over the
    library's multi-precision integers (MPIs).
- **Time.** MbedTLS calls `time`, `mbedtls_ms_time` and `mbedtls_platform_gmtime_r`.
  - Each has a slot of its own. An empty slot gives the default: 0, or a null pointer.
  - The ESP backend answers all three from the chip's RTC.
  - `register` installs the backend and returns a guard. Dropping the guard removes it again.
- **Direct entry points.** A second set of the same three time entry points (time.rs) calls a
  platform `DRIVER` directly, with the same pointer checks.

The modules follow the source files:

| module | file | contents |
|---|---|---|
| `Ffi` | (shared) | `i32`/`i64`/`u64` as newtypes, `Option`, and `Ref<T>`, the object a C pointer points at (`Ref?<T>` is the nullable pointer) |
| `ExpMod` | hook/exp_mod.rs | the fallback `FallbackExpMod`, proved against `Pow` and against its call schedule, and the library's status codes |
| `Hooks` | hook/exp_mod.rs, hook/time.rs | `HookRegistry`, one object holding the four slots, with the `hook_*` setters and the C entry points |
| `EspTime` | time/esp.rs | `EspTimeBackend` (the RTC cell and the three clock operations), the `struct tm` mapping, `register` and `EspTimeGuard` |
| `DriverTime` | time.rs | the entry points over the abstract `DRIVER` |
| `Scenarios` | all | whole sequences: register, read, drop, hook and unhook |

How the model stands in for the source:

- An MPI is an `int`. `bitlen` and `get_bit` act on its magnitude, as MbedTLS's do.
- Each fallible library call returns a status code taken from an oracle sequence `faults`. Entries
  past the end mean success. `mbedtls_mpi_mod_mpi` also refuses a negative modulus
  (`MBEDTLS_ERR_MPI_NEGATIVE_VALUE`, -0x000A) and a zero modulus
  (`MBEDTLS_ERR_MPI_DIVISION_BY_ZERO`, -0x000C).
- A ghost trace records every library call the fallback makes. The predicate `CleanExit` states
  what the trace obeys:
  - the first call is `lset`;
  - the scratch `base` is initialised once, exactly when `lset` succeeded;
  - `base` is never touched before it is initialised;
  - `base` is freed exactly once, as the very last call;
  - nothing else is called after a failure;
  - the k-th fallible call made consumes oracle entry k, each entry once;
  - the result is `Ok` exactly when nothing failed, and otherwise the first failing status,
    unchanged.
- The fallible calls the fallback makes while nothing fails are fixed by the exponent alone. This
  is the schedule `Schedule(|y|, bitlen(|y|))`:
  - `lset`, then `copy`;
  - then, for each bit i from the top down to 0: `mul_mpi(z, z, z)` and `mod_mpi`, followed, when
    bit i is set, by `mul_mpi(z, z, &base)` and `mod_mpi`.

  `FirstFailure` runs a schedule against the oracle and stops at the first call that fails. The
  fallback's outcome is `FirstFailure` of its schedule, and the calls it makes are a prefix of the
  schedule, all of it on success.
- A capability reference (`&'static dyn Trait`) is the `object` it points at.
- Calling a capability is foreign code. Its effect is a function parameter `invoke`, which stands
  for the vtable entry.
- Readings of the RTC's microsecond counter, and of `DRIVER`, are input values.
- `OffsetDateTime::from_unix_timestamp` is a parameter `calendar`. It may fail, and returns a
  calendar date and time within the `time` crate's ranges.

## Where the code and the documented intent differ

The model follows the code in each case.

- **Zero exponent.** If `bitlen(y) == 0`, the loop never runs and z stays exactly 1 (hook/exp_mod.rs:114, 135). It is not reduced to `1 mod m`, so with m = 1 the result is 1, not 0. `ExpMod.FallbackExpMod` states this. `Scenarios.ZeroExponentUnreduced` shows it for m = 1.
- **No null checks in the exp_mod trampoline.** `mbedtls_mpi_exp_mod` dereferences z, x, y and m without checking for null (hook/exp_mod.rs:179). In the model:
  - z is a non-null `Ref<int>`;
  - x, y and m are the values behind their pointers;
  - only `prec_rr` may be null.
- **The guard clears unconditionally.** `EspTimeGuard::drop` empties the three time slots whatever they hold (time/esp.rs:106-112). That includes a capability someone else installed after `register` (`Scenarios.DropClearsLaterHook`). No compare-and-clear is modelled.
- **z aliasing x.** `lset(z, 1)` runs before `copy(&base, x)` (hook/exp_mod.rs:114, 122). An in-place call, with z and x pointing at one MPI as in `exp_mod(&T, &T, …)`, therefore copies the base from the value 1, and for y ≠ 0 the result is 1 mod m whatever x was. See "## Findings".
- **Two `MbedtlsTm` definitions.** time.rs declares its own `MbedtlsTm`, with the same nine `i32` fields in the same order as hook/time.rs. Both are the one datatype `Hooks.MbedtlsTm`.

## Model

| member | source | states |
|---|---|---|
| ExpMod.StatusCode | esp-mbedtls-sys/src/hook/exp_mod.rs:184 | `Ok` becomes status 0 and `Err(e)` becomes e's code |
| ExpMod.OutcomeOf | esp-mbedtls-sys/src/hook/exp_mod.rs:184 | a C status is read back as `Ok` exactly when it is 0 |
| ExpMod.StatusCodeRoundTrip | esp-mbedtls-sys/src/hook/exp_mod.rs:184 | an outcome whose error code is non-zero survives the trip to a C status and back |
| ExpMod.BitLen | esp-mbedtls-sys/src/hook/exp_mod.rs:129 | `bitlen(n)` is the position of the highest set bit plus one: n shifted right by that many bits is 0, by one fewer it is 1, and it is 0 exactly for n = 0 |
| ExpMod.GetBit | esp-mbedtls-sys/src/hook/exp_mod.rs:149 | each bit is 0 or 1 |
| ExpMod.ShrIsDivision | esp-mbedtls-sys/src/hook/exp_mod.rs:149 | bit i of n is `(n / 2^i) % 2`, and n shifted right by i is `n / 2^i` |
| ExpMod.PrefixStep | esp-mbedtls-sys/src/hook/exp_mod.rs:135-149 | the exponent's top bits down to i are twice its top bits down to i+1, plus bit i |
| ExpMod.ReduceStatus | esp-mbedtls-sys/src/hook/exp_mod.rs:142-146 | `mod_mpi` always fails for a modulus m <= 0, and otherwise returns the library's status |
| ExpMod.SquareMultiply | esp-mbedtls-sys/src/hook/exp_mod.rs:137-159 | squaring mod m, then multiplying by x mod m when bit b is set, turns x^q mod m into x^(2q+b) mod m |
| ExpMod.InvariantStep | esp-mbedtls-sys/src/hook/exp_mod.rs:135-160 | one loop iteration turns z = x^(y's bits above i) mod m (1 before the first iteration) into x^(y's bits from i up) mod m |
| ExpMod.ReinitialisedBaseRejected | esp-mbedtls-sys/src/hook/exp_mod.rs:120-126 | a run that initialises `base` a second time after `copy`, leaking the copied value, is not a clean exit |
| ExpMod.RunningStep | esp-mbedtls-sys/src/hook/exp_mod.rs:137-159 | a successful primitive or query keeps the invariant of a running fallback: `base` live and not freed, nothing failed, the oracle consumed in order |
| ExpMod.FailingExit | esp-mbedtls-sys/src/hook/exp_mod.rs:122-126 | a failing primitive followed by freeing `base` is a clean exit that returns that failure's status |
| ExpMod.SuccessExit | esp-mbedtls-sys/src/hook/exp_mod.rs:163-164 | freeing `base` at the end of a run in which nothing failed is a clean exit with `Ok` |
| ExpMod.FirstFailureOk | esp-mbedtls-sys/src/hook/exp_mod.rs:114-160 | running a schedule succeeds exactly when every call on it returns status 0 |
| ExpMod.FirstFailureAt | esp-mbedtls-sys/src/hook/exp_mod.rs:114-160 | when call j is the earliest to fail, the outcome is call j's status |
| ExpMod.FirstFailureAppend | esp-mbedtls-sys/src/hook/exp_mod.rs:114-160 | running two stretches in turn stops in the first at its failure, and otherwise goes on into the second with the oracle index moved past the first |
| ExpMod.NoFaultsNoFailure | esp-mbedtls-sys/src/hook/exp_mod.rs:142-158 | with no oracle faults, a schedule can fail only at a reduction by a modulus m <= 0 |
| ExpMod.FailureIsNonzero | esp-mbedtls-sys/src/hook/exp_mod.rs:115-158 | a failure is never reported with status 0 |
| ExpMod.StartFails | esp-mbedtls-sys/src/hook/exp_mod.rs:114-117 | a failing `lset` ends the run after that one call, with its status, which is the first failure of the schedule |
| ExpMod.Started | esp-mbedtls-sys/src/hook/exp_mod.rs:114-121 | a successful `lset` followed by `init(&base)` leaves `copy` and all the rounds pending, with oracle entry 1 next |
| ExpMod.Proceed | esp-mbedtls-sys/src/hook/exp_mod.rs:122-159 | a scheduled primitive that succeeds takes exactly that call off the pending schedule and keeps the run going |
| ExpMod.Query | esp-mbedtls-sys/src/hook/exp_mod.rs:129-149 | `bitlen` and `get_bit` consume no oracle entry and leave the pending schedule as it was |
| ExpMod.Abort | esp-mbedtls-sys/src/hook/exp_mod.rs:123-158 | a scheduled primitive that fails, followed by freeing `base`, finishes the run with that status, which is the schedule's first failure |
| ExpMod.Complete | esp-mbedtls-sys/src/hook/exp_mod.rs:163-164 | once the schedule is used up, freeing `base` finishes the run with `Ok`, having made every scheduled call |
| ExpMod.Conclude | esp-mbedtls-sys/src/hook/exp_mod.rs:112-165 | a finished run of the fallback's schedule succeeds without oracle faults whenever y = 0 or m > 0, and never fails with status 0 |
| ExpMod.Prologue | esp-mbedtls-sys/src/hook/exp_mod.rs:113-126 | after `lset` and `copy`: a failure of either finishes the run with its status (z untouched if `lset` failed, 1 if `copy` did); otherwise z = 1, the base is x and exactly the rounds are pending |
| ExpMod.MulReduce | esp-mbedtls-sys/src/hook/exp_mod.rs:137-146 | `mul_mpi` then `mod_mpi`: on success m > 0, z becomes z·f mod m and both calls leave the pending schedule; on failure the run finishes with that status |
| ExpMod.LoopBody | esp-mbedtls-sys/src/hook/exp_mod.rs:136-160 | one round for bit i: on success z becomes z² mod m, then times the base mod m when bit i is set, and the round leaves the pending schedule; on failure the run finishes with that status |
| ExpMod.FallbackExpMod | esp-mbedtls-sys/src/hook/exp_mod.rs:112-165 | after success z = x^abs(y) mod m (m > 0), or exactly 1 when y = 0; without library faults it succeeds whenever y = 0 or m > 0; an error carries a non-zero code; the outcome is `FirstFailure` of the call schedule for y; the primitives called are a prefix of that schedule, all of it on success; the ghost trace obeys `CleanExit` |
| ExpMod.AliasedFallbackExpMod | esp-mbedtls-sys/src/hook/exp_mod.rs:113-126 | called with z and x naming one MPI, a successful run leaves exactly 1 (1 mod m when y ≠ 0) whatever x was; its outcome and trace are those of the fallback |
| ExpMod.AliasedCallLosesBase | esp-mbedtls-sys/src/hook/exp_mod.rs:114-122 | 2^3 mod 5 computed in place gives 1, where distinct arguments give 3 |
| Hooks.HookRegistry.constructor | esp-mbedtls-sys/src/hook/time.rs:162-169 | all time slots start empty, and so does the exp_mod slot (hook/exp_mod.rs:83-84) |
| Hooks.HookRegistry.HookExpMod | esp-mbedtls-sys/src/hook/exp_mod.rs:56-66 | the exp_mod slot becomes the argument, overwriting what was there (`None` clears it); the time slots are unchanged |
| Hooks.HookRegistry.HookGmtimeR | esp-mbedtls-sys/src/hook/time.rs:98-109 | only the gmtime_r slot changes, and it becomes the argument |
| Hooks.HookRegistry.HookMsTime | esp-mbedtls-sys/src/hook/time.rs:119-130 | only the ms_time slot changes, and it becomes the argument |
| Hooks.HookRegistry.HookTime | esp-mbedtls-sys/src/hook/time.rs:140-151 | only the time slot changes, and it becomes the argument |
| Hooks.HookRegistry.MpiExpMod | esp-mbedtls-sys/src/hook/exp_mod.rs:171-185 | with a capability installed, its outcome becomes the C status and z is what it left; with none, the fallback runs: its result holds, the C status is the first failure of the fallback's call schedule for y, the calls made are a prefix of that schedule, and the trace is a clean exit |
| Hooks.HookRegistry.PlatformGmtimeR | esp-mbedtls-sys/src/hook/time.rs:176-202 | a null `tt` or `tm_buf`, or an empty slot, gives null without calling any capability and leaves the buffer as it was; otherwise the capability fills the buffer and the result is `tm_buf` on success and null on failure |
| Hooks.HookRegistry.MsTime | esp-mbedtls-sys/src/hook/time.rs:209-217 | the installed capability's reading, or 0 when the slot is empty |
| Hooks.HookRegistry.Time | esp-mbedtls-sys/src/hook/time.rs:222-238 | the installed capability's reading, or 0 when the slot is empty, and that same value is stored in `*timer` when `timer` is not null |
| EspTime.MonthNumber | esp-mbedtls-sys/src/time/esp.rs:60 | January..December are numbered 1..12 |
| EspTime.MonthOf | esp-mbedtls-sys/src/time/esp.rs:60 | each number 1..12 names the month with that number |
| EspTime.DaysFromSunday | esp-mbedtls-sys/src/time/esp.rs:62 | a weekday is 0..6 days after Sunday, and 0 exactly for Sunday |
| EspTime.WeekdayOf | esp-mbedtls-sys/src/time/esp.rs:62 | each number 0..6 names the weekday that many days after Sunday |
| EspTime.TmOf | esp-mbedtls-sys/src/time/esp.rs:56-64 | the `struct tm` written for a date has month in 0..11, weekday in 0..6, day of year in 0..365 and DST unknown (-1) |
| EspTime.DateTimeOf | esp-mbedtls-sys/src/time/esp.rs:56-64 | a `struct tm` that reads back gives year = tm_year + 1900, month number = tm_mon + 1, ordinal = tm_yday + 1 and weekday = tm_wday days after Sunday |
| EspTime.TmRoundTrip | esp-mbedtls-sys/src/time/esp.rs:56-64 | every date written into a `struct tm` reads back as that same date: the offsets lose nothing |
| EspTime.TmDecodeRoundTrip | esp-mbedtls-sys/src/time/esp.rs:56-64 | every `struct tm` that reads back as a date is exactly the one written for that date |
| EspTime.EspTimeBackend.constructor | esp-mbedtls-sys/src/time/esp.rs:22-24 | `ESP_TIME` starts with no RTC |
| EspTime.EspTimeBackend.Time | esp-mbedtls-sys/src/time/esp.rs:27-40 | with an RTC, the largest whole number of seconds not above the microsecond reading; without one, 0 |
| EspTime.EspTimeBackend.MsTime | esp-mbedtls-sys/src/time/esp.rs:42-47 | with an RTC, the largest whole number of milliseconds not above the microsecond reading; without one, 0 |
| EspTime.MsTimeAgreesWithTime | esp-mbedtls-sys/src/time/esp.rs:37-44 | for the same reading, the millisecond clock divided by 1000 is the second clock |
| EspTime.EspTimeBackend.GmtimeR | esp-mbedtls-sys/src/time/esp.rs:49-67 | it succeeds exactly when the calendar accepts the timestamp; on failure the buffer is untouched; on success the buffer is the `struct tm` of that date |
| EspTime.EspTimeBackend.Register | esp-mbedtls-sys/src/time/esp.rs:85-97 | the RTC is stored, all three time slots hold `ESP_TIME`, the exp_mod slot is unchanged, and a fresh guard for this backend is returned |
| EspTime.EspTimeGuard.Drop | esp-mbedtls-sys/src/time/esp.rs:105-118 | all three time slots become empty whatever they held, the RTC is cleared, and the exp_mod slot is unchanged |
| DriverTime.MsTime | esp-mbedtls-sys/src/time.rs:44-46 | the driver's millisecond reading, unchanged |
| DriverTime.Time | esp-mbedtls-sys/src/time.rs:54-60 | the driver's reading, also stored in `*timer` when `timer` is not null |
| DriverTime.PlatformGmtimeR | esp-mbedtls-sys/src/time.rs:68-80 | a null `tt` or `tm_buf` gives null without calling the driver; otherwise the driver fills the buffer and the result is `tm_buf` exactly on success and null exactly on failure |
| Scenarios.RegisterReadDrop | esp-mbedtls-sys/src/time/esp.rs:85-118 | after `register`, `time` returns and stores floor(us / 10^6) and `mbedtls_ms_time` returns floor(us / 1000); the two agree; after the drop both entry points and the backend itself give 0 |
| Scenarios.DropClearsLaterHook | esp-mbedtls-sys/src/time/esp.rs:106-112 | a time capability installed after `register` is still removed by the drop |
| Scenarios.TimeLifecycleKeepsExpMod | esp-mbedtls-sys/src/time/esp.rs:90-112 | registering and dropping the time backend leaves an installed exp_mod accelerator in place |
| Scenarios.HookedExpModError | esp-mbedtls-sys/src/hook/exp_mod.rs:178-184 | an installed accelerator's error code reaches the C caller unchanged |
| Scenarios.UnhookedExpModUsesFallback | esp-mbedtls-sys/src/hook/exp_mod.rs:178-182 | after `hook_exp_mod(None)` the fallback computes 3^5 mod 7 = 5 with status 0 |
| Scenarios.ZeroExponentUnreduced | esp-mbedtls-sys/src/hook/exp_mod.rs:114-135 | with y = 0 and m = 1 the fallback succeeds with z = 1, although 3^0 mod 1 = 0 |
| Scenarios.CopyFailureReported | esp-mbedtls-sys/src/hook/exp_mod.rs:122-126 | with the slot empty, a failing `copy` (oracle entry 1, status -0x0010) is the status the C caller gets |
| Scenarios.ZeroModulusRefused | esp-mbedtls-sys/src/hook/exp_mod.rs:142-146 | a zero modulus makes the first reduction fail with `MBEDTLS_ERR_MPI_DIVISION_BY_ZERO` |
| Scenarios.GmtimeThroughEsp | esp-mbedtls-sys/src/hook/time.rs:176-202 | after `register`, `mbedtls_platform_gmtime_r` returns `tm_buf` exactly when the calendar accepts the timestamp, and the buffer then holds the `struct tm` that reads back as the calendar's date, the same one the backend writes when called directly; otherwise null and the buffer untouched; after the drop, null |

## Left out

- `critical_section::with` and the `Mutex<Cell<…>>` around each slot and around the RTC are left out: they only serialise access. Each slot is a plain field with atomic reads and writes, and concurrent callers are not modelled.
- MbedTLS's MPI internals (limbs, sign handling, allocation) are not modelled. An MPI is its value, and each primitive's only fallibility is the oracle's status and `mod_mpi`'s modulus checks.
- `OffsetDateTime::from_unix_timestamp` and the `time` crate's calendar arithmetic are foreign code, given as the `calendar` parameter. No civil-date algorithm is modelled.
- `Rtc::current_time_us` is a hardware read, given as the input `us`. `DRIVER`'s readings are inputs too.
- The `Deref` forwarding impls (hook/exp_mod.rs:31-46, hook/time.rs:42-88) are left out: a forwarder behaves exactly like its target, and the model calls the target directly.
- `debug!` logging, `#[no_mangle]`, and the `cfg` features that choose between the hooked and the direct entry points are left out. Neither affects the modelled behaviour.
- The `TimeGuard` and `DRIVER` names that time.rs takes from its driver module do not exist in time/esp.rs, so `DRIVER` is an abstract backend.
- Hooks.HookRegistry.MpiExpMod: the model records no write an accelerator might make through `prec_rr`. It takes z as distinct from x, y and m. The raw pointers may in fact alias, which makes the `&mut` and `&` references undefined behaviour in Rust. The case z = x, as compiled code behaves, is `ExpMod.AliasedFallbackExpMod` (see "## Findings"). z aliasing y or m is not modelled.
- Status codes and the oracle's entries are `int`, not `c_int`. Every code the library returns fits a `c_int`, and the fallback and the trampoline pass codes through without any width conversion, so the wider type loses no behaviour.
- ExpMod.FallbackExpMod: after a failed primitive, z is returned as it stood before that call. MbedTLS leaves z's contents unspecified in that case.
- gen/sysroot/include/inttypes.h contains only `printf`/`scanf` format macros and is not part of this model.

## Findings

| source | as written | input that shows it | evidently intended | confidence | as-written member | corrected member |
|---|---|---|---|---|---|---|
| esp-mbedtls-sys/src/hook/exp_mod.rs:114-122 | `lset(z, 1)` runs before `copy(&base, x)`, so when z and x are one MPI the base is copied from the value 1 | the in-place call `mbedtls_mpi_exp_mod(&T, &T, &E, &N, …)` with T = 2, E = 3, N = 5 and no library failure ends with T = 1 | z = x^y mod m for x as it was on entry, here 3, as for distinct arguments | medium, not executed | ExpMod.AliasedFallbackExpMod (with the counterexample ExpMod.AliasedCallLosesBase) | ExpMod.FallbackExpMod |
