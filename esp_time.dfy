/**
  * The ESP time backend (time/esp.rs): `ESP_TIME` answers the three time capabilities from the
  * RTC it was registered with, and `register` / the guard's drop install and remove it.
  *
  * The RTC reference is an `object`; its microsecond counter (`current_time_us`) is an input
  * reading. `OffsetDateTime::from_unix_timestamp` of the `time` crate is foreign code: it is the
  * parameter `calendar`, a possibly failing map from a timestamp to a calendar date and time.
  */
module EspTime {
  import opened Ffi
  import opened Hooks

  /** `time::Month`. */
  datatype Month =
    | January | February | March | April | May | June
    | July | August | September | October | November | December

  /** `u8::from(month)`: January is 1, December is 12. */
  function MonthNumber(mo: Month): (n: int)
    ensures 1 <= n <= 12
  {
    match mo
    case January => 1   case February => 2   case March => 3
    case April => 4     case May => 5        case June => 6
    case July => 7      case August => 8     case September => 9
    case October => 10  case November => 11  case December => 12
  }

  /** The month with a given number, the inverse of `MonthNumber`. */
  function MonthOf(n: int): (mo: Month)
    requires 1 <= n <= 12
    ensures MonthNumber(mo) == n
  {
    if n == 1 then January else if n == 2 then February else if n == 3 then March
    else if n == 4 then April else if n == 5 then May else if n == 6 then June
    else if n == 7 then July else if n == 8 then August else if n == 9 then September
    else if n == 10 then October else if n == 11 then November else December
  }

  /** `time::Weekday`. */
  datatype Weekday = Monday | Tuesday | Wednesday | Thursday | Friday | Saturday | Sunday

  /** `Weekday::number_days_from_sunday`: Sunday is 0, Saturday is 6. */
  function DaysFromSunday(w: Weekday): (n: int)
    ensures 0 <= n <= 6
    ensures n == 0 <==> w == Sunday
  {
    match w
    case Sunday => 0    case Monday => 1  case Tuesday => 2  case Wednesday => 3
    case Thursday => 4  case Friday => 5  case Saturday => 6
  }

  /** The weekday a number of days after Sunday, the inverse of `DaysFromSunday`. */
  function WeekdayOf(n: int): (w: Weekday)
    requires 0 <= n <= 6
    ensures DaysFromSunday(w) == n
  {
    if n == 0 then Sunday else if n == 1 then Monday else if n == 2 then Tuesday
    else if n == 3 then Wednesday else if n == 4 then Thursday else if n == 5 then Friday
    else Saturday
  }

  /** The parts of an `OffsetDateTime` that `gmtime_r` reads (`day` is the day of the month, `ordinal` the day of the year, from 1). */
  datatype DateTime = DateTime(
    year: int, month: Month, day: int, ordinal: int, weekday: Weekday,
    hour: int, minute: int, second: int)

  /** The ranges the `time` crate guarantees for these parts (its years are at most six digits). */
  predicate InRange(d: DateTime)
  {
    -999_999 <= d.year <= 999_999 && 1 <= d.day <= 31 && 1 <= d.ordinal <= 366 &&
    0 <= d.hour <= 23 && 0 <= d.minute <= 59 && 0 <= d.second <= 59
  }

  type CivilDateTime = d: DateTime | InRange(d)
    witness DateTime(1970, January, 1, 1, Thursday, 0, 0, 0)

  /** The `struct tm` that `gmtime_r` writes for a date and time. */
  function TmOf(d: CivilDateTime): (tm: MbedtlsTm)
    ensures 0 <= tm.mon <= 11 && 0 <= tm.wday <= 6 && 0 <= tm.yday <= 365
    ensures tm.isdst == -1
  {
    MbedtlsTm(d.second as Int32, d.minute as Int32, d.hour as Int32, d.day as Int32,
              (MonthNumber(d.month) - 1) as Int32, (d.year - 1900) as Int32,
              DaysFromSunday(d.weekday) as Int32, (d.ordinal - 1) as Int32, -1)
  }

  /** Reading a `struct tm` back: the date and time it stands for, if its fields are in range and DST is unknown. */
  function DateTimeOf(tm: MbedtlsTm): (r: Option<CivilDateTime>)
    ensures r.Some? ==> r.value.year == tm.year as int + 1900
    ensures r.Some? ==> MonthNumber(r.value.month) == tm.mon as int + 1
    ensures r.Some? ==> r.value.ordinal == tm.yday as int + 1
    ensures r.Some? ==> DaysFromSunday(r.value.weekday) == tm.wday as int
  {
    if tm.isdst == -1 && 0 <= tm.mon <= 11 && 0 <= tm.wday <= 6 && 0 <= tm.yday <= 365 &&
       1 <= tm.mday <= 31 && 0 <= tm.hour <= 23 && 0 <= tm.min <= 59 && 0 <= tm.sec <= 59 &&
       -999_999 <= tm.year as int + 1900 <= 999_999
    then
      Some(DateTime(tm.year as int + 1900, MonthOf(tm.mon as int + 1), tm.mday as int,
                    tm.yday as int + 1, WeekdayOf(tm.wday as int),
                    tm.hour as int, tm.min as int, tm.sec as int))
    else None
  }

  /** The field mapping loses nothing: a written `struct tm` reads back as the date it was written from. */
  lemma TmRoundTrip(d: CivilDateTime)
    ensures DateTimeOf(TmOf(d)) == Some(d)
  {
  }

  /** And every `struct tm` that reads back as some date is the one written for it. */
  lemma TmDecodeRoundTrip(tm: MbedtlsTm)
    requires DateTimeOf(tm).Some?
    ensures TmOf(DateTimeOf(tm).value) == tm
  {
  }

  /** `EspTimeBackend`: the static `ESP_TIME` and the RTC it reads, if one is registered. */
  class EspTimeBackend {
    var rtc: Option<object>

    /** `ESP_TIME` starts with no RTC. */
    constructor ()
      ensures rtc == None
    {
      rtc := None;
    }

    /** `MbedtlsTime::time`: whole seconds of the RTC's microsecond reading `us`, or 0 without an RTC. */
    function Time(us: Uint64): (t: Int64)
      reads this
      ensures rtc.None? ==> t == 0
      ensures rtc.Some? ==> t as int * 1_000_000 <= us as int < (t as int + 1) * 1_000_000
    {
      if rtc.Some? then (us / 1_000_000) as Int64 else 0
    }

    /** `MbedtlsMsTime::ms_time`: whole milliseconds of the RTC's reading `us`, or 0 without an RTC. */
    function MsTime(us: Uint64): (t: Int64)
      reads this
      ensures rtc.None? ==> t == 0
      ensures rtc.Some? ==> t as int * 1_000 <= us as int < (t as int + 1) * 1_000
    {
      if rtc.Some? then (us / 1_000) as Int64 else 0
    }

    /**
      * `MbedtlsGmtimeR::gmtime_r`: convert `time` with the calendar; on failure report it and leave
      * the buffer alone, otherwise fill the nine fields one by one and report success.
      */
    method GmtimeR(time: Int64, tmBuf: Ref<MbedtlsTm>, calendar: Int64 -> Option<CivilDateTime>)
      returns (ok: bool)
      modifies tmBuf
      ensures ok <==> calendar(time).Some?
      ensures !ok ==> tmBuf.val == old(tmBuf.val)
      ensures ok ==> tmBuf.val == TmOf(calendar(time).value)
    {
      var dt := calendar(time);
      if dt.None? {
        return false;
      }
      var d := dt.value;
      tmBuf.val := tmBuf.val.(sec := d.second as Int32);
      tmBuf.val := tmBuf.val.(min := d.minute as Int32);
      tmBuf.val := tmBuf.val.(hour := d.hour as Int32);
      tmBuf.val := tmBuf.val.(mday := d.day as Int32);
      tmBuf.val := tmBuf.val.(mon := (MonthNumber(d.month) - 1) as Int32);
      tmBuf.val := tmBuf.val.(year := (d.year - 1900) as Int32);
      tmBuf.val := tmBuf.val.(wday := DaysFromSunday(d.weekday) as Int32);
      tmBuf.val := tmBuf.val.(yday := (d.ordinal - 1) as Int32);
      tmBuf.val := tmBuf.val.(isdst := -1);
      ok := true;
    }

    /**
      * `register`: remember the RTC, then install `ESP_TIME` as the time, ms_time and gmtime_r
      * capability of `registry`, and hand out the guard that undoes it.
      */
    method Register(registry: HookRegistry, r: object) returns (guard: EspTimeGuard)
      modifies this, registry
      ensures rtc == Some(r)
      ensures registry.time == Some(this) && registry.msTime == Some(this) && registry.gmtimeR == Some(this)
      ensures registry.expMod == old(registry.expMod)
      ensures fresh(guard) && guard.backend == this && guard.registry == registry
    {
      rtc := Some(r);
      registry.HookTime(Some(this));
      registry.HookMsTime(Some(this));
      registry.HookGmtimeR(Some(this));
      guard := new EspTimeGuard(this, registry);
    }
  }

  /** `EspTimeGuard`: the registration of `ESP_TIME`, ended by dropping it. */
  class EspTimeGuard {
    const backend: EspTimeBackend
    const registry: HookRegistry

    constructor (backend: EspTimeBackend, registry: HookRegistry)
      ensures this.backend == backend && this.registry == registry
    {
      this.backend := backend;
      this.registry := registry;
    }

    /**
      * `Drop::drop`: empty the three time slots and forget the RTC, whatever the slots hold by
      * now, even a capability someone else installed after `register`.
      */
    method Drop()
      modifies backend, registry
      ensures registry.time == None && registry.msTime == None && registry.gmtimeR == None
      ensures registry.expMod == old(registry.expMod)
      ensures backend.rtc == None
    {
      registry.HookTime(None);
      registry.HookMsTime(None);
      registry.HookGmtimeR(None);
      backend.rtc := None;
    }
  }

  /** For one reading of the RTC, the millisecond clock and the second clock agree. */
  lemma MsTimeAgreesWithTime(b: EspTimeBackend, us: Uint64)
    ensures b.MsTime(us) as int / 1_000 == b.Time(us) as int
  {
  }
}
