/** The gate's time window, in the uint64 arithmetic the source checks it with. */
module Clock {
  import opened Replay
  import opened Word

  const MAX_LIFETIME: uint64 := 300

  datatype TimeVerdict = InTime | BadLifetime | ClockSkew | Expired

  function NowSeconds(now: int64): uint64 {
    Max(now, 0)
  }

  function CheckTime(issuedAt: uint64, expiry: uint64, now: int64): TimeVerdict {
    var nowSec := NowSeconds(now);
    if expiry < issuedAt || Sub(expiry, issuedAt) > MAX_LIFETIME then BadLifetime
    else if issuedAt > Add(nowSec, SKEW) then ClockSkew
    else if nowSec > Add(expiry, SKEW) then Expired
    else InTime
  }

  /** The same checks over the integers, where nothing can wrap. */
  function CheckTimeExactly(issuedAt: int, expiry: int, now: int): TimeVerdict {
    if !(0 <= expiry - issuedAt <= 300) then BadLifetime
    else if issuedAt > Max(now, 0) + 60 then ClockSkew
    else if Max(now, 0) > expiry + 60 then Expired
    else InTime
  }

  /** No wire value and no clock reading makes a check wrap: expiry + skew is only reached once expiry is near now. */
  lemma TimeChecksNeverWrap(issuedAt: uint64, expiry: uint64, now: int64)
    ensures CheckTime(issuedAt, expiry, now) == CheckTimeExactly(issuedAt, expiry, now)
  {
    assert expiry >= issuedAt ==> Sub(expiry, issuedAt) == expiry - issuedAt;
    assert Add(NowSeconds(now), SKEW) == NowSeconds(now) + SKEW;
  }

  /** An intent that passes at two instants passes at every instant between them. */
  lemma WindowIsAnInterval(issuedAt: uint64, expiry: uint64, first: int64, between: int64, last: int64)
    requires first <= between <= last
    requires CheckTime(issuedAt, expiry, first).InTime? && CheckTime(issuedAt, expiry, last).InTime?
    ensures CheckTime(issuedAt, expiry, between).InTime?
  {
    TimeChecksNeverWrap(issuedAt, expiry, first);
    TimeChecksNeverWrap(issuedAt, expiry, between);
    TimeChecksNeverWrap(issuedAt, expiry, last);
  }
}
