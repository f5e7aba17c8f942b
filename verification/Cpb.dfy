/** The coded picture buffer of a hypothetical reference decoder, seen from outside: bits of
    each access unit arrive one per unit of time over an interval and leave at the removal
    time. Nothing here mentions how a rate controller computes those times. */
module Cpb {

  /** All times are in bit times: the time one bit takes to arrive at the buffer's bit rate. */
  datatype AccessUnit = AccessUnit(arrival: real, final: real, removal: real, bits: nat)

  /** Bits of `au` that have entered the buffer by time `t`. */
  function ArrivedBits(au: AccessUnit, t: real): real {
    if t <= au.arrival then 0.0
    else if t >= au.final then au.bits as real
    else t - au.arrival
  }

  /** Bits in the buffer at time `t`: everything that has arrived and was not removed before `t`. */
  function Fullness(aus: seq<AccessUnit>, t: real): real {
    if aus == [] then 0.0
    else (if t <= aus[0].removal then ArrivedBits(aus[0], t) else 0.0) + Fullness(aus[1..], t)
  }

  /** Access units arrive one after the other, none before `start`, each at the bit rate. */
  ghost predicate Serial(aus: seq<AccessUnit>, start: real) {
    aus == []
    || (&& start <= aus[0].arrival
        && aus[0].final == aus[0].arrival + aus[0].bits as real
        && Serial(aus[1..], aus[0].final))
  }

  /** `arrival` is the earliest time, not before `previous`, from which the bits wait at most `stay` for their
      removal: the channel pauses only as long as the buffer could not hold what would arrive. */
  ghost predicate IsEarliestArrival(arrival: real, previous: real, removal: real, stay: real) {
    && CanArrive(arrival, previous, removal, stay)
    && forall t :: CanArrive(t, previous, removal, stay) ==> arrival <= t
  }

  predicate CanArrive(t: real, previous: real, removal: real, stay: real) {
    previous <= t && removal - t <= stay
  }

  /** Every access unit has arrived completely when it is due for removal. */
  ghost predicate NeverUnderflows(aus: seq<AccessUnit>) {
    forall k :: 0 <= k < |aus| ==> aus[k].final <= aus[k].removal
  }

  /** At no instant does the buffer hold more than `capacity` bits. */
  ghost predicate NeverOverflows(aus: seq<AccessUnit>, capacity: real) {
    forall t: real :: Fullness(aus, t) <= capacity
  }

  /** Each access unit, from its first bit to its removal, spans at most the whole buffer. */
  ghost predicate FitsEach(aus: seq<AccessUnit>, capacity: real) {
    forall k :: 0 <= k < |aus| ==> aus[k].removal - aus[k].arrival <= capacity
  }

  /** What can have arrived by `t` is bounded by the time since the first arrival. */
  lemma {:induction false} ArrivalIsRateLimited(aus: seq<AccessUnit>, start: real, t: real)
    requires Serial(aus, start)
    ensures 0.0 <= Fullness(aus, t) <= if t <= start then 0.0 else t - start
  {
    if aus != [] {
      ArrivalIsRateLimited(aus[1..], aus[0].final, t);
    }
  }

  /** The content is the sum over the access units, none of which counts negatively. */
  lemma {:induction false} FullnessOfParts(a: seq<AccessUnit>, b: seq<AccessUnit>, t: real)
    ensures Fullness(a + b, t) == Fullness(a, t) + Fullness(b, t)
    ensures 0.0 <= Fullness(a, t)
  {
    if a == [] {
      assert a + b == b;
    } else {
      FullnessOfParts(a[1..], b, t);
      assert (a + b)[1..] == a[1..] + b;
    }
  }

  /** The link between a per-frame bound and the content of the buffer at every instant. */
  lemma {:induction false} FullnessWithinCapacity(aus: seq<AccessUnit>, start: real, capacity: real)
    requires capacity >= 0.0
    requires Serial(aus, start)
    requires FitsEach(aus, capacity)
    ensures NeverOverflows(aus, capacity)
  {
    forall t: real ensures Fullness(aus, t) <= capacity {
      if aus != [] {
        if t <= aus[0].removal {
          ArrivalIsRateLimited(aus, aus[0].arrival, t);
        } else {
          FullnessWithinCapacity(aus[1..], aus[0].final, capacity);
        }
      }
    }
  }
}
