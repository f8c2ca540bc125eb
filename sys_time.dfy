// The tick time base (utility/cos_systime.c): a 16-bit tick counter that a
// timer interrupt increments, and the conversions the scheduler uses. The file
// has one implementation for the RX63N board (a hardware timer ticking every
// 1000 microseconds) and one for openCM9.04, where the scheduler reads
// millis() instead and these functions are stand-ins.

module SysTime {
  import opened CosTypes

  /** The two platform blocks of cos_systime.c. */
  datatype Platform = Rx63n | OpenCm

  /** COS_PLATFORM as configured in cos_configure.h. */
  const ACTIVE_PLATFORM: Platform := OpenCm

  /** MICROSEC_PER_TICK of the RX63N block. */
  const MICROSEC_PER_TICK: uint16 := 1000

  /** The static `systemTimeInTicks` of the RX63N block. */
  class SystemTime {
    var ticks: uint16

    constructor ()
      ensures ticks == 0
    {
      ticks := 0;
    }

    /** INT_Excep_CMT0_CMI0: one timer tick; the counter wraps from 65535 to 0. */
    method TimerInterrupt()
      modifies this
      ensures ticks == (old(ticks) + 1) % 0x1_0000
      ensures old(ticks) < 0xFFFF ==> ticks == old(ticks) + 1
    {
      ticks := (ticks + 1) % 0x1_0000;
    }

    /** _gettime_Ticks: the tick counter on RX63N; the openCM stand-in always answers 0. */
    function GetTimeTicks(p: Platform): (t: uint16)
      reads this
      ensures p == Rx63n ==> t == ticks
      ensures p == OpenCm ==> t == 0
    {
      if p == Rx63n then ticks else 0
    }
  }

  /** _microSecPerTick: a tick is one millisecond on both platforms. */
  function MicroSecPerTick(p: Platform): (us: uint16)
    ensures us == 1000
  {
    if p == Rx63n then MICROSEC_PER_TICK else 1000
  }

  /**
   * _milliSecToTicks. RX63N computes milliSec*1000/MICROSEC_PER_TICK in 32
   * bits and clamps a result below 1 up to 1; openCM returns its argument.
   */
  function MilliSecToTicks(p: Platform, milliSec: uint16): (t: uint16)
    ensures milliSec >= 1 ==> t * MicroSecPerTick(p) == milliSec * 1000
    ensures p == Rx63n ==> t >= 1
    ensures milliSec == 0 && p == Rx63n ==> t == 1
    ensures milliSec == 0 && p == OpenCm ==> t == 0
  {
    if p == Rx63n then
      var t_ms: uint32 := (milliSec * 1000) / MICROSEC_PER_TICK;
      var clamped: uint32 := if t_ms < 1 then 1 else t_ms;
      ToUint16(clamped)
    else
      milliSec
  }

  /** `(uint16_t)(now - last)`: the ticks that passed since `last`, modulo 2^16. */
  function ElapsedTicks(now: uint16, last: uint16): (d: uint16)
    ensures (last + d) % 0x1_0000 == now
  {
    ToUint16(now - last)
  }

  /**
   * The wrap-around of the 16-bit tick counter does no harm: whenever fewer
   * than 2^16 ticks passed between two readings, their difference is the
   * true number of ticks that passed.
   */
  lemma {:induction false} ElapsedAcrossWrap(start: nat, passed: nat)
    requires passed < 0x1_0000
    ensures ElapsedTicks(ToUint16(start + passed), ToUint16(start)) == passed
  {
    var q := start / 0x1_0000;
    var r := start % 0x1_0000;
    assert start == q * 0x1_0000 + r;
    if r + passed < 0x1_0000 {
      assert ToUint16(start + passed) == r + passed by {
        assert start + passed == q * 0x1_0000 + (r + passed);
      }
    } else {
      assert ToUint16(start + passed) == r + passed - 0x1_0000 by {
        assert start + passed == (q + 1) * 0x1_0000 + (r + passed - 0x1_0000);
      }
    }
  }
}
