/**
  * Whole-system sequences over fresh hook slots: registering the ESP backend and reading the
  * clocks through the C entry points, dropping its guard, and the exp_mod entry point with and
  * without an installed accelerator.
  */
module Scenarios {
  import opened Ffi
  import opened Hooks
  import opened EspTime
  import ExpMod

  /** Some exp_mod accelerator (a capability object other than the ESP backend). */
  class Accelerator {
    constructor ()
    {
    }
  }

  /**
    * `register`, then `time(timer)` and `mbedtls_ms_time` answer from the RTC reading `us`; after
    * the guard is dropped both fall back to 0 and the backend itself reads 0 too.
    */
  method RegisterReadDrop(rtc: object, us: Uint64)
    returns (secs: Int64, stored: Int64, ms: Int64, secsAfter: Int64, msAfter: Int64, direct: Int64)
    ensures secs as int == us as int / 1_000_000 && stored == secs
    ensures ms as int == us as int / 1_000 && ms as int / 1_000 == secs as int
    ensures secsAfter == 0 && msAfter == 0 && direct == 0
  {
    var registry := new HookRegistry();
    var esp := new EspTimeBackend();
    var guard := esp.Register(registry, rtc);
    var s, m := esp.Time(us), esp.MsTime(us);
    ExpMod.DivModUnique(us as int, 1_000_000, s as int, us as int - s as int * 1_000_000);
    ExpMod.DivModUnique(us as int, 1_000, m as int, us as int - m as int * 1_000);
    MsTimeAgreesWithTime(esp, us);
    var timer := new Ref<Int64>(-1);
    secs := registry.Time(timer, (o: object) => if o == esp then s else 0);
    stored := timer.val;
    ms := registry.MsTime((o: object) => if o == esp then m else 0);
    guard.Drop();
    secsAfter := registry.Time(null, (o: object) => s);
    msAfter := registry.MsTime((o: object) => m);
    direct := esp.Time(us);
  }

  /**
    * A time capability installed after `register` is removed by the guard as well: the drop
    * empties the slots whatever they hold.
    */
  method DropClearsLaterHook(rtc: object, other: object)
    returns (before: Option<object>, after: Option<object>)
    ensures before == Some(other) && after == None
  {
    var registry := new HookRegistry();
    var esp := new EspTimeBackend();
    var guard := esp.Register(registry, rtc);
    registry.HookTime(Some(other));
    before := registry.time;
    guard.Drop();
    after := registry.time;
  }

  /** Registering and dropping the time backend leaves an installed exp_mod accelerator alone. */
  method TimeLifecycleKeepsExpMod(rtc: object) returns (kept: bool)
    ensures kept
  {
    var registry := new HookRegistry();
    var accel := new Accelerator();
    registry.HookExpMod(Some(accel));
    var esp := new EspTimeBackend();
    var guard := esp.Register(registry, rtc);
    guard.Drop();
    kept := registry.expMod == Some(accel);
  }

  /**
    * `register`, then `mbedtls_platform_gmtime_r(&t, &buf)` reaches the ESP backend's `gmtime_r`:
    * when the calendar accepts t the result is `&buf`, which then holds the `struct tm` that reads
    * back as the calendar's date, exactly what the backend writes when called directly; when the
    * calendar refuses t the result is null and the buffer is untouched. After the guard is
    * dropped the entry point returns null.
    */
  method GmtimeThroughEsp(rtc: object, t: Int64, calendar: Int64 -> Option<CivilDateTime>)
    returns (filled: bool, tm: MbedtlsTm, direct: MbedtlsTm, afterDrop: bool)
    ensures filled <==> calendar(t).Some?
    ensures filled ==> tm == TmOf(calendar(t).value) && DateTimeOf(tm) == calendar(t)
    ensures !filled ==> tm == MbedtlsTm(0, 0, 0, 0, 0, 0, 0, 0, 0)
    ensures tm == direct
    ensures !afterDrop
  {
    var registry := new HookRegistry();
    var esp := new EspTimeBackend();
    var guard := esp.Register(registry, rtc);
    var tt := new Ref<Int64>(t);
    var buf := new Ref<MbedtlsTm>(MbedtlsTm(0, 0, 0, 0, 0, 0, 0, 0, 0));
    var r; ghost var consulted;
    r, consulted := registry.PlatformGmtimeR(
      tt, buf,
      (o: object, u: Int64, b: MbedtlsTm) =>
        if o == esp && calendar(u).Some? then (true, TmOf(calendar(u).value)) else (false, b));
    filled, tm := r == buf, buf.val;
    if filled {
      TmRoundTrip(calendar(t).value);
    }

    var buf2 := new Ref<MbedtlsTm>(MbedtlsTm(0, 0, 0, 0, 0, 0, 0, 0, 0));
    var ok := esp.GmtimeR(t, buf2, calendar);
    direct := buf2.val;

    guard.Drop();
    r, consulted := registry.PlatformGmtimeR(tt, buf, (o: object, u: Int64, b: MbedtlsTm) => (true, b));
    afterDrop := r != null;
  }

  /** With an accelerator installed its error code reaches the C caller verbatim. */
  method HookedExpModError(code: int, z0: int, x: int, y: int, m: int) returns (rc: int, z: int)
    ensures rc == code && z == z0
  {
    var registry := new HookRegistry();
    var accel := new Accelerator();
    registry.HookExpMod(Some(accel));
    var zr := new Ref<int>(z0);
    ghost var viaFallback, trace;
    rc, viaFallback, trace := registry.MpiExpMod(
      zr, x, y, m, null,
      (o: object, a: ExpModArgs) => ExpModEffect(ExpMod.Err(code), a.z), []);
    z := zr.val;
  }

  /**
    * Unhooking (`hook_exp_mod(None)`) sends the call to the fallback, which computes
    * 3^5 mod 7 = 5 without consulting the removed accelerator.
    */
  method UnhookedExpModUsesFallback() returns (rc: int, z: int)
    ensures rc == 0 && z == 5
  {
    var registry := new HookRegistry();
    var accel := new Accelerator();
    registry.HookExpMod(Some(accel));
    registry.HookExpMod(None);
    var zr := new Ref<int>(0);
    ghost var viaFallback, trace;
    rc, viaFallback, trace := registry.MpiExpMod(
      zr, 3, 5, 7, null,
      (o: object, a: ExpModArgs) => ExpModEffect(ExpMod.Err(-1), 0), []);
    assert ExpMod.Pow(3, 5) == 243;
    z := zr.val;
  }

  /**
    * With a zero exponent the fallback leaves z at exactly 1, even for the modulus 1, where
    * 3^0 mod 1 would be 0.
    */
  method ZeroExponentUnreduced() returns (rc: int, z: int)
    ensures rc == 0 && z == 1 && ExpMod.Pow(3, 0) % 1 == 0
  {
    var res; ghost var trace;
    res, z, trace := ExpMod.FallbackExpMod(7, 3, 0, 1, []);
    rc := ExpMod.StatusCode(res);
  }

  /**
    * Without an accelerator, a failing `mbedtls_mpi_copy` (the second fallible call, status
    * -0x0010) is what the C caller gets, the calls stopping there.
    */
  method CopyFailureReported() returns (rc: int)
    ensures rc == -0x0010
  {
    var registry := new HookRegistry();
    var zr := new Ref<int>(0);
    ghost var viaFallback, trace;
    rc, viaFallback, trace := registry.MpiExpMod(
      zr, 2, 3, 5, null,
      (o: object, a: ExpModArgs) => ExpModEffect(ExpMod.Ok, 0), [0, -0x0010]);
  }

  /** A zero modulus is refused by the first reduction with `MBEDTLS_ERR_MPI_DIVISION_BY_ZERO`. */
  method ZeroModulusRefused() returns (rc: int)
    ensures rc == ExpMod.ERR_MPI_DIVISION_BY_ZERO
  {
    var res; var z; ghost var trace;
    res, z, trace := ExpMod.FallbackExpMod(0, 2, 3, 0, []);
    rc := ExpMod.StatusCode(res);
  }
}
