/**
  * The time entry points of time.rs, which call a platform backend `DRIVER` directly instead of
  * going through a hook slot.
  *
  * `DRIVER` is an abstract backend: what its `ms_time` and `time` report is an input reading, and
  * its `gmtime_r` is a function parameter giving its verdict and the buffer it leaves behind.
  * time.rs declares its own `MbedtlsTm` with the same nine `i32` fields as hook/time.rs; the
  * model uses the one type for both.
  */
module DriverTime {
  import opened Ffi
  import opened Hooks

  /** `mbedtls_ms_time`: the driver's millisecond reading, passed through unchanged. */
  function MsTime(driverMs: Int64): (t: Int64)
    ensures t == driverMs
  {
    driverMs
  }

  /** `time`: the driver's second reading, also stored through `timer` when it is not null. */
  method Time(timer: Ref?<Int64>, driverSecs: Int64) returns (t: Int64)
    modifies timer
    ensures t == driverSecs
    ensures timer != null ==> timer.val == t
  {
    var currentTime := driverSecs;
    if timer != null {
      timer.val := currentTime;
    }
    t := currentTime;
  }

  /**
    * `mbedtls_platform_gmtime_r`: null for a null argument, without calling the driver; otherwise
    * the driver fills `*tm_buf` and the result is `tm_buf` exactly when it reports success.
    * `consulted` says whether the driver was called.
    */
  method PlatformGmtimeR(tt: Ref?<Int64>, tmBuf: Ref?<MbedtlsTm>,
                         gmtime: (Int64, MbedtlsTm) -> (bool, MbedtlsTm))
    returns (r: Ref?<MbedtlsTm>, ghost consulted: bool)
    modifies tmBuf
    ensures consulted <==> tt != null && tmBuf != null
    ensures !consulted ==> r == null
    ensures !consulted && tmBuf != null ==> tmBuf.val == old(tmBuf.val)
    ensures consulted ==>
      var e := gmtime(old(tt.val), old(tmBuf.val));
      tmBuf.val == e.1 && (r == tmBuf <==> e.0) && (r == null <==> !e.0)
  {
    if tt == null || tmBuf == null {
      return null, false;
    }
    var e := gmtime(tt.val, tmBuf.val);
    tmBuf.val := e.1;
    r := if e.0 then tmBuf else null;
    consulted := true;
  }
}
