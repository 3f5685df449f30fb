/**
  * The hook slots and the C entry points MbedTLS calls.
  *
  * Each process-wide slot (`EXP_MOD` in hook/exp_mod.rs, `TIME`, `MS_TIME`, `GMTIME_R` in
  * hook/time.rs) becomes a field of one `HookRegistry` object. A slot holds at most one capability
  * reference (`&'static dyn Trait`), modelled as the `object` it points at. Calling the trait
  * method of an installed capability is foreign code: its effect is given by an `invoke` function
  * parameter, which is the capability's vtable entry as seen from the trampoline.
  */
module Hooks {
  import opened Ffi
  import ExpMod

  /** `MbedtlsTm`: POSIX `struct tm`, nine `i32` fields in this order. */
  datatype MbedtlsTm = MbedtlsTm(
    sec: Int32, min: Int32, hour: Int32, mday: Int32, mon: Int32,
    year: Int32, wday: Int32, yday: Int32, isdst: Int32)

  /** The arguments an exp_mod capability receives: the values behind z, x, y, m, and behind `prec_rr` when it is not null. */
  datatype ExpModArgs = ExpModArgs(z: int, x: int, y: int, m: int, precRr: Option<int>)

  /** What a call of an exp_mod capability does: its result and the value it leaves in z. */
  datatype ExpModEffect = ExpModEffect(res: ExpMod.Outcome, z: int)

  class HookRegistry {
    var expMod: Option<object>
    var time: Option<object>
    var msTime: Option<object>
    var gmtimeR: Option<object>

    /** All four statics start out empty (`Mutex::new(Cell::new(None))`). */
    constructor ()
      ensures expMod == None && time == None && msTime == None && gmtimeR == None
    {
      expMod, time, msTime, gmtimeR := None, None, None, None;
    }

    /** `hook_exp_mod`: store `h` in the exp_mod slot, replacing whatever was there; `None` removes it. */
    method HookExpMod(h: Option<object>)
      modifies this
      ensures expMod == h
      ensures time == old(time) && msTime == old(msTime) && gmtimeR == old(gmtimeR)
    {
      expMod := h;
    }

    /** `hook_gmtime_r`: store `h` in the gmtime_r slot only. */
    method HookGmtimeR(h: Option<object>)
      modifies this
      ensures gmtimeR == h
      ensures expMod == old(expMod) && time == old(time) && msTime == old(msTime)
    {
      gmtimeR := h;
    }

    /** `hook_ms_time`: store `h` in the ms_time slot only. */
    method HookMsTime(h: Option<object>)
      modifies this
      ensures msTime == h
      ensures expMod == old(expMod) && time == old(time) && gmtimeR == old(gmtimeR)
    {
      msTime := h;
    }

    /** `hook_time`: store `h` in the time slot only. */
    method HookTime(h: Option<object>)
      modifies this
      ensures time == h
      ensures expMod == old(expMod) && msTime == old(msTime) && gmtimeR == old(gmtimeR)
    {
      time := h;
    }

    /**
      * `mbedtls_mpi_exp_mod`: hand the call to the installed capability, or to the software
      * fallback when the slot is empty, and turn the outcome into a C status. The pointers are
      * dereferenced without a null check, so `z` is a non-null reference here and x, y, m are the
      * values behind their pointers; `faults` is the library's oracle for the fallback.
      */
    method MpiExpMod(z: Ref<int>, x: int, y: int, m: int, precRr: Ref?<int>,
                     invoke: (object, ExpModArgs) -> ExpModEffect, faults: seq<int>)
      returns (rc: int, ghost viaFallback: bool, ghost trace: seq<ExpMod.Call>)
      modifies z
      ensures viaFallback <==> expMod.None?
      ensures expMod.Some? ==>
        var e := invoke(expMod.value, ExpModArgs(old(z.val), x, y, m,
                                                 old(if precRr == null then None else Some(precRr.val))));
        rc == ExpMod.StatusCode(e.res) && z.val == e.z
      ensures expMod.None? && rc == 0 && y == 0 ==> z.val == 1
      ensures expMod.None? && rc == 0 && y != 0 ==> m > 0 && z.val == ExpMod.Pow(x, ExpMod.Abs(y)) % m
      ensures expMod.None? && ExpMod.NoFaults(faults) && (y == 0 || m > 0) ==> rc == 0
      ensures expMod.None? ==>
        rc == ExpMod.StatusCode(ExpMod.FirstFailure(ExpMod.Schedule(ExpMod.Abs(y), ExpMod.BitLen(ExpMod.Abs(y))), faults, m, 0))
      ensures expMod.None? ==> ExpMod.PrimOps(trace) <= ExpMod.Schedule(ExpMod.Abs(y), ExpMod.BitLen(ExpMod.Abs(y)))
      ensures expMod.None? ==> ExpMod.CleanExit(trace, ExpMod.OutcomeOf(rc), faults, m)
    {
      var cap := expMod;
      var res: ExpMod.Outcome;
      if cap.Some? {
        var prec := if precRr == null then None else Some(precRr.val);
        var e := invoke(cap.value, ExpModArgs(z.val, x, y, m, prec));
        res := e.res;
        z.val := e.z;
        viaFallback, trace := false, [];
      } else {
        var zNew;
        res, zNew, trace := ExpMod.FallbackExpMod(z.val, x, y, m, faults);
        z.val := zNew;
        viaFallback := true;
        ExpMod.StatusCodeRoundTrip(res);
      }
      rc := ExpMod.StatusCode(res);
    }

    /**
      * `mbedtls_platform_gmtime_r`: null for a null argument, without looking at the slot; null when
      * no capability is installed; otherwise the capability fills `*tm_buf` and the result is
      * `tm_buf` exactly when it reports success. `consulted` says whether the capability was called.
      */
    method PlatformGmtimeR(tt: Ref?<Int64>, tmBuf: Ref?<MbedtlsTm>,
                           invoke: (object, Int64, MbedtlsTm) -> (bool, MbedtlsTm))
      returns (r: Ref?<MbedtlsTm>, ghost consulted: bool)
      modifies tmBuf
      ensures consulted <==> tt != null && tmBuf != null && gmtimeR.Some?
      ensures !consulted ==> r == null
      ensures !consulted && tmBuf != null ==> tmBuf.val == old(tmBuf.val)
      ensures consulted ==>
        var e := invoke(gmtimeR.value, old(tt.val), old(tmBuf.val));
        tmBuf.val == e.1 && r == (if e.0 then tmBuf else null)
    {
      if tt == null || tmBuf == null {
        return null, false;
      }
      var t := tt.val;
      var cap := gmtimeR;
      if cap.Some? {
        var e := invoke(cap.value, t, tmBuf.val);
        tmBuf.val := e.1;
        r := if e.0 then tmBuf else null;
        consulted := true;
      } else {
        r, consulted := null, false;
      }
    }

    /** `mbedtls_ms_time`: the installed capability's reading, or 0 when none is installed. */
    function MsTime(invoke: object -> Int64): (t: Int64)
      reads this
      ensures msTime.None? ==> t == 0
      ensures msTime.Some? ==> t == invoke(msTime.value)
    {
      match msTime
      case Some(cap) => invoke(cap)
      case None => 0
    }

    /** `time`: the installed capability's reading, or 0, also stored through `timer` when it is not null. */
    method Time(timer: Ref?<Int64>, invoke: object -> Int64) returns (t: Int64)
      modifies timer
      ensures time.None? ==> t == 0
      ensures time.Some? ==> t == invoke(time.value)
      ensures timer != null ==> timer.val == t
    {
      var cap := time;
      t := if cap.Some? then invoke(cap.value) else 0;
      if timer != null {
        timer.val := t;
      }
    }
  }
}
