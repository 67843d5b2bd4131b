/**
 The arithmetic of packages/qcom-time-daemon/src/qcom-time-daemon.c: when the AP clock counts as a
 clock, which ATS_USER offset a handshake sends, and what the modem's uptime counter says about
 its past.  All values are unsigned 64-bit milliseconds and every subtraction is the machine's.
 */
module AtsClock {
  import opened Words
  import opened AtsRecordText

  /** `ap_clock_is_usable` */
  predicate ApClockIsUsable(wall: u64, saved: Option<Record>) {
    && wall >= AP_CLOCK_SANITY_FLOOR_MS
    && !(saved.Some? && saved.value.wall >= AP_CLOCK_SANITY_FLOOR_MS && wall < saved.value.wall)
  }

  datatype Source = Network | Restored | ApClock

  /** The offset `send_ats_user_transaction` derives, and where it comes from; None when it refuses to send one. */
  function DeriveOffset(tod: Option<u64>, rtc: Option<u64>, wall: u64, saved: Option<Record>): Option<(Source, u64)> {
    if tod.Some? && rtc.Some? && tod.value > 0 && tod.value >= rtc.value then
      Some((Network, Sub64(tod.value, rtc.value)))
    else if !ApClockIsUsable(wall, saved) then
      if saved.Some? && saved.value.base == ATS_USER then Some((Restored, saved.value.offset)) else None
    else
      var gps := Sub64(wall, GPS_EPOCH_OFFSET_MS);
      if rtc.Some? && gps >= rtc.value then Some((ApClock, Sub64(gps, rtc.value))) else Some((ApClock, gps))
  }

  /** TOD and RTC both read, TOD set and not behind RTC. */
  predicate NetworkKnows(tod: Option<u64>, rtc: Option<u64>) {
    match (tod, rtc)
    case (Some(t), Some(r)) => 0 < t && r <= t
    case _ => false
  }

  /** From 2020 on, and not before the time on record if that is from 2020 on: a reboot moves no clock backwards. */
  predicate ClockRanOn(wall: u64, saved: Option<Record>) {
    && 1_577_836_800_000 <= wall
    && (saved.Some? && 1_577_836_800_000 <= saved.value.wall ==> saved.value.wall <= wall)
  }

  /** Where an offset may come from: the network, else the AP's clock if it ran on, else the record. */
  predicate IsChosen(source: Source, tod: Option<u64>, rtc: Option<u64>, wall: u64, saved: Option<Record>) {
    match source
    case Network => NetworkKnows(tod, rtc)
    case ApClock => !NetworkKnows(tod, rtc) && ClockRanOn(wall, saved)
    case Restored => !NetworkKnows(tod, rtc) && !ClockRanOn(wall, saved) && saved.Some? && saved.value.base == 2
  }

  /** An offset comes from a source exactly if that is where it may come from, and there is none exactly if there is no source. */
  lemma SourceIsChosen(tod: Option<u64>, rtc: Option<u64>, wall: u64, saved: Option<Record>)
    ensures var d := DeriveOffset(tod, rtc, wall, saved);
            && (forall source :: (d.Some? && d.value.0 == source) <==> IsChosen(source, tod, rtc, wall, saved))
            && (d.None? <==> forall source :: !IsChosen(source, tod, rtc, wall, saved))
  {
    var d := DeriveOffset(tod, rtc, wall, saved);
    forall source ensures (d.Some? && d.value.0 == source) <==> IsChosen(source, tod, rtc, wall, saved) {
    }
    assert d.Some? ==> IsChosen(d.value.0, tod, rtc, wall, saved);
  }

  /** When the values of a handshake were taken, on one time axis: TOD and RTC by the modem, the wall clock by the AP. */
  datatype Instants = Instants(tod: int, rtc: int, wall: int)

  /** What a clock or counter that advances a millisecond per millisecond shows at t, having shown value at an instant. */
  function Running(value: int, instant: int, t: int): int {
    value + (t - instant)
  }

  /** How far, at t, the modem's counter plus an offset is ahead of a clock; all three have been read at some instant. */
  function Ahead(counter: int, counterAt: int, offset: int, clock: int, clockAt: int, t: int): int {
    Running(counter, counterAt, t) + offset - Running(clock, clockAt, t)
  }

  ghost predicate NeverAhead(counter: int, counterAt: int, offset: int, clock: int, clockAt: int) {
    forall t :: Ahead(counter, counterAt, offset, clock, clockAt, t) <= 0
  }

  ghost predicate NeverBehind(counter: int, counterAt: int, offset: int, clock: int, clockAt: int) {
    forall t :: Ahead(counter, counterAt, offset, clock, clockAt, t) >= 0
  }

  ghost predicate AlwaysAhead(counter: int, counterAt: int, offset: int, clock: int, clockAt: int, ms: int) {
    forall t :: Ahead(counter, counterAt, offset, clock, clockAt, t) == ms
  }

  lemma ErrorKeeps(counter: int, counterAt: int, offset: int, clock: int, clockAt: int, ms: int)
    requires AlwaysAhead(counter, counterAt, offset, clock, clockAt, ms)
    ensures ms <= 0 ==> NeverAhead(counter, counterAt, offset, clock, clockAt)
    ensures ms >= 0 ==> NeverBehind(counter, counterAt, offset, clock, clockAt)
  {
  }

  /** What an offset is worth, by where it comes from. */
  ghost predicate IsSound(source: Source, offset: u64, tod: Option<u64>, rtc: Option<u64>, wall: u64, saved: Option<Record>,
                          at: Instants)
  {
    match source
    case Network =>
      tod.Some? && rtc.Some? && AlwaysAhead(rtc.value, at.rtc, offset, tod.value, at.tod, at.tod - at.rtc)
    case Restored =>
      saved.Some? && offset == saved.value.offset
    case ApClock =>
      var gps := wall - 315_964_800_000;
      && 0 < gps && 0 <= offset <= gps
      && (if rtc.Some? && rtc.value <= gps
          then AlwaysAhead(rtc.value, at.rtc, offset, gps, at.wall, at.wall - at.rtc)
          else forall counter :: AlwaysAhead(counter, at.wall, offset, gps, at.wall, counter))
  }

  /**
   No subtraction on the way wraps, and the error of the offset is known exactly, now and at every later instant.
   With a network TOD, the counter plus the offset lags behind TOD by the time between the two readings; with the AP
   clock it is ahead of GPS time by the time between the RTC reading and the wall-clock reading, or, without a usable
   RTC reading, by the whole uptime of the modem.
   */
  lemma DerivedOffsetIsSound(tod: Option<u64>, rtc: Option<u64>, wall: u64, saved: Option<Record>, at: Instants)
    ensures var d := DeriveOffset(tod, rtc, wall, saved);
            d.Some? ==> IsSound(d.value.0, d.value.1, tod, rtc, wall, saved, at)
  {
    NoneWraps(tod, rtc, wall, saved);
    var d := DeriveOffset(tod, rtc, wall, saved);
    hide DeriveOffset, ApClockIsUsable;
    if d.Some? {
      var (source, offset) := d.value;
      if source.Network? {
        ErrorIs(rtc.value, at.rtc, offset, tod.value, at.tod);
      } else if source.ApClock? {
        ApClockError(rtc, wall, offset, at);
      }
    }
  }

  /** What is derived, without the machine's subtraction. */
  lemma NoneWraps(tod: Option<u64>, rtc: Option<u64>, wall: u64, saved: Option<Record>)
    ensures var d := DeriveOffset(tod, rtc, wall, saved);
            var gps := wall - GPS_EPOCH_OFFSET_MS;
            d.Some? ==>
              match d.value.0
              case Network => tod.Some? && rtc.Some? && d.value.1 == tod.value - rtc.value
              case Restored => saved.Some? && d.value.1 == saved.value.offset
              case ApClock => gps > 0 && d.value.1 == if rtc.Some? && rtc.value <= gps then gps - rtc.value else gps
  {
    assert AP_CLOCK_SANITY_FLOOR_MS > GPS_EPOCH_OFFSET_MS;
    if wall >= GPS_EPOCH_OFFSET_MS {
      SubIsDifference(wall, GPS_EPOCH_OFFSET_MS);
      if rtc.Some? && rtc.value <= wall - GPS_EPOCH_OFFSET_MS {
        SubIsDifference(wall - GPS_EPOCH_OFFSET_MS, rtc.value);
      }
    }
    if tod.Some? && rtc.Some? && tod.value >= rtc.value {
      SubIsDifference(tod.value, rtc.value);
    }
    hide Sub64, AP_CLOCK_SANITY_FLOOR_MS, GPS_EPOCH_OFFSET_MS;
  }

  lemma SubIsDifference(a: u64, b: u64)
    requires a >= b
    ensures Sub64(a, b) == a - b
  {
  }

  lemma ErrorIs(counter: int, counterAt: int, offset: int, clock: int, clockAt: int)
    ensures AlwaysAhead(counter, counterAt, offset, clock, clockAt, counter - counterAt + offset - clock + clockAt)
  {
  }

  lemma ApClockError(rtc: Option<u64>, wall: u64, offset: int, at: Instants)
    requires var gps := wall - GPS_EPOCH_OFFSET_MS;
             offset == if rtc.Some? && rtc.value <= gps then gps - rtc.value else gps
    ensures var gps := wall - GPS_EPOCH_OFFSET_MS;
            if rtc.Some? && rtc.value <= gps
            then AlwaysAhead(rtc.value, at.rtc, offset, gps, at.wall, at.wall - at.rtc)
            else forall counter :: AlwaysAhead(counter, at.wall, offset, gps, at.wall, counter)
  {
    hide AlwaysAhead, GPS_EPOCH_OFFSET_MS;
    var gps := wall - GPS_EPOCH_OFFSET_MS;
    if rtc.Some? && rtc.value <= gps {
      ErrorIs(rtc.value, at.rtc, offset, gps, at.wall);
    } else {
      forall counter ensures AlwaysAhead(counter, at.wall, offset, gps, at.wall, counter) {
        ErrorIs(counter, at.wall, offset, gps, at.wall);
      }
    }
  }

  /** The counter plus the offset shows TOD, then and ever after, exactly if no time passed between the readings. */
  lemma NetworkOffsetIsExactWhen(tod: u64, rtc: u64, wall: u64, saved: Option<Record>, at: Instants)
    requires tod > 0 && tod >= rtc
    ensures var d := DeriveOffset(Some(tod), Some(rtc), wall, saved);
            && d.Some? && d.value.0 == Network
            && ((forall t :: t >= at.rtc ==> Ahead(rtc, at.rtc, d.value.1, tod, at.tod, t) == 0) <==> at.rtc == at.tod)
  {
    var d := DeriveOffset(Some(tod), Some(rtc), wall, saved);
    assert Ahead(rtc, at.rtc, d.value.1, tod, at.tod, at.rtc) == at.tod - at.rtc;
  }

  /** Likewise for the AP clock: RTC and wall clock read at one instant, or no uptime to be ahead by. */
  lemma ApClockOffsetIsExactWhen(tod: Option<u64>, rtc: Option<u64>, wall: u64, saved: Option<Record>, counter: u64, at: Instants)
    requires DeriveOffset(tod, rtc, wall, saved).Some? && DeriveOffset(tod, rtc, wall, saved).value.0 == ApClock
    requires rtc.Some? ==> counter == rtc.value
    requires rtc.None? ==> at.rtc == at.wall
    ensures var offset, gps := DeriveOffset(tod, rtc, wall, saved).value.1, wall - GPS_EPOCH_OFFSET_MS;
            (forall t :: t >= at.wall ==> Ahead(counter, at.rtc, offset, gps, at.wall, t) == 0)
            <==> if rtc.Some? && rtc.value <= gps then at.rtc == at.wall else Running(counter, at.rtc, at.wall) == 0
  {
    var offset, gps := DeriveOffset(tod, rtc, wall, saved).value.1, wall - GPS_EPOCH_OFFSET_MS;
    assert Ahead(counter, at.rtc, offset, gps, at.wall, at.wall)
           == if rtc.Some? && rtc.value <= gps then at.wall - at.rtc else Running(counter, at.rtc, at.wall);
  }

  /** A clock that ran on since the record was written is always preferred to the record. */
  lemma RunningClockIsPreferred(wall: u64, saved: Record, tod: Option<u64>, rtc: Option<u64>)
    requires wall >= AP_CLOCK_SANITY_FLOOR_MS && wall >= saved.wall
    ensures DeriveOffset(tod, rtc, wall, Some(saved)).Some?
         && DeriveOffset(tod, rtc, wall, Some(saved)).value.0 != Restored
  {
  }

  /** The persisted relation is the signed difference of the clocks whenever that fits. */
  lemma DeltaIsSignedDifference(wall: u64, rtc: u64)
    ensures -TWO_63 <= wall - rtc < TWO_63 ==> AsSigned64(Sub64(wall, rtc)) == wall - rtc
  {
    if wall < rtc {
      assert Sub64(wall, rtc) == wall - rtc + TWO_64;
    }
  }

  // ----- the boot verdict -----

  datatype Verdict = Unknown | Restarted(lost: u64) | Survived(elapsed: u64)

  /** `ats_state_log_boot_verdict` */
  function BootVerdict(saved: Option<Record>, rtcNow: u64): Verdict {
    if saved.None? || saved.value.rtc == 0 then Unknown
    else if rtcNow < saved.value.rtc then Restarted(Sub64(saved.value.rtc, rtcNow))
    else Survived(Sub64(rtcNow, saved.value.rtc))
  }

  /** RESTARTED exactly if the counter is below a reading on record, with what it lost; UNKNOWN exactly if there is none. */
  lemma VerdictIs(saved: Option<Record>, rtcNow: u64)
    ensures var v := BootVerdict(saved, rtcNow);
            && (v.Unknown? <==> saved.None? || saved.value.rtc == 0)
            && (v.Restarted? <==> saved.Some? && rtcNow < saved.value.rtc)
            && (v.Restarted? ==> v.lost + rtcNow == saved.value.rtc)
            && (v.Survived? ==> saved.value.rtc + v.elapsed == rtcNow)
  {
    if saved.Some? {
      if rtcNow < saved.value.rtc {
        SubIsDifference(saved.value.rtc, rtcNow);
      } else {
        SubIsDifference(rtcNow, saved.value.rtc);
      }
    }
  }

  /** A reading of the uptime counter, with the modem boot it was taken in. */
  datatype Reading = Reading(boot: nat, uptime: nat)

  /** No earlier than: a later boot, or the same boot and at least the uptime. */
  predicate NotAfter(a: Reading, b: Reading) {
    a.boot < b.boot || (a.boot == b.boot && a.uptime <= b.uptime)
  }

  /**
   A counter that only grows within a boot: RESTARTED is never a false alarm, and without a restart
   the verdict is SURVIVED with exactly the modem time that passed.
   */
  lemma VerdictIsRight(saved: Record, before: Reading, now: Reading)
    requires saved.rtc != 0 && before.uptime == saved.rtc && now.uptime < TWO_64
    requires NotAfter(before, now)
    ensures BootVerdict(Some(saved), now.uptime).Restarted? ==> before.boot < now.boot
    ensures before.boot == now.boot ==>
              BootVerdict(Some(saved), now.uptime) == Survived(now.uptime - before.uptime)
    ensures now.uptime < before.uptime ==> BootVerdict(Some(saved), now.uptime) == Restarted(before.uptime - now.uptime)
  {
    VerdictIs(Some(saved), now.uptime);
  }

  /** SURVIVED is wrong exactly after a restart that is longer ago than the stored uptime. */
  lemma SurvivedIsWrongWhen(saved: Record, before: Reading, now: Reading)
    requires saved.rtc != 0 && before.uptime == saved.rtc && now.uptime < TWO_64
    requires NotAfter(before, now)
    ensures BootVerdict(Some(saved), now.uptime).Survived? && before.boot != now.boot
       <==> before.boot < now.boot && now.uptime >= before.uptime
  {
  }
}
