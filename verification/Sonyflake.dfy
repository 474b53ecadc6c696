/** The id generator: 40 bits of 10 ms ticks, 16 bits of machine id, 8 bits of sequence. */
module Sonyflakes {
  import opened Basics

  const TICK_LIMIT: nat := 0x100_0000_0000 // 2^40

  /** (tick << 24) | (machine << 8) | sequence in 64 bits. */
  function Compose(tick: nat, machine: nat, sequence: nat): (r: nat)
    requires machine < 0x1_0000 && sequence < 0x100
  {
    tick * 0x100_0000 % U64 + machine * 0x100 + sequence
  }

  /** The three fields of an id can be read back as long as the tick fits 40 bits. */
  lemma ComposeDecodes(tick: nat, machine: nat, sequence: nat)
    requires machine < 0x1_0000 && sequence < 0x100
    ensures var id := Compose(tick, machine, sequence);
            && id < U64 && id / 0x100 % 0x1_0000 == machine && id % 0x100 == sequence
            && (id / 0x100_0000 == tick <==> tick < TICK_LIMIT)
  {
    TopBits(tick);
    Fields(tick % TICK_LIMIT, machine, sequence);
  }

  /** The shift drops what does not fit 40 bits. */
  lemma TopBits(tick: nat)
    ensures tick * 0x100_0000 % U64 == tick % TICK_LIMIT * 0x100_0000
  {
    var q, t := tick / TICK_LIMIT, tick % TICK_LIMIT;
    assert tick * 0x100_0000 == q * U64 + t * 0x100_0000;
  }

  lemma Fields(tick: nat, machine: nat, sequence: nat)
    requires tick < TICK_LIMIT && machine < 0x1_0000 && sequence < 0x100
    ensures var id := tick * 0x100_0000 + machine * 0x100 + sequence;
            id < U64 && id % 0x100 == sequence && id / 0x100 == tick * 0x1_0000 + machine
            && id / 0x100 % 0x1_0000 == machine && id / 0x100_0000 == tick
  {
  }

  /** Later in tick or sequence means larger, up to the 40-bit limit. */
  lemma ComposeIncreases(t1: nat, s1: nat, t2: nat, s2: nat, machine: nat)
    requires machine < 0x1_0000 && s1 < 0x100 && s2 < 0x100 && t1 < TICK_LIMIT && t2 < TICK_LIMIT
    ensures Compose(t1, machine, s1) < Compose(t2, machine, s2) <==> Later(t1, s1, t2, s2)
  {
    assert t1 * 0x100_0000 % U64 == t1 * 0x100_0000;
    assert t2 * 0x100_0000 % U64 == t2 * 0x100_0000;
  }

  predicate Later(t1: nat, s1: nat, t2: nat, s2: nat) {
    t1 < t2 || (t1 == t2 && s1 < s2)
  }

  /** Generators with different machine ids never produce the same id. */
  lemma MachinesNeverCollide(t1: nat, m1: nat, s1: nat, t2: nat, m2: nat, s2: nat)
    requires m1 < 0x1_0000 && s1 < 0x100 && m2 < 0x1_0000 && s2 < 0x100
    requires Compose(t1, m1, s1) == Compose(t2, m2, s2)
    ensures m1 == m2 && s1 == s2
  {
    ComposeDecodes(t1, m1, s1);
    ComposeDecodes(t2, m2, s2);
  }

  /** The steady clock in milliseconds since the epoch, by the number of the reading: it never goes
      back, and it passes every time some day. */
  type Clock = nat -> nat

  ghost predicate Steady(clock: Clock) {
    forall i, j :: i <= j ==> clock(i) <= clock(j)
  }

  ghost predicate Reaches(clock: Clock, t: nat) {
    exists k: nat :: clock(k) >= t
  }

  ghost predicate Passes(clock: Clock) {
    forall t: nat :: Reaches(clock, t)
  }

  class Sonyflake {
    const clock: Clock
    var readings: nat
    var machineId: nat
    var lastTick: nat
    var sequence: nat

    ghost predicate Valid()
      reads this
    {
      && Steady(clock) && Passes(clock)
      && machineId < 0x1_0000 && sequence < 0x100
      && lastTick <= clock(readings) / 10
    }

    constructor (clock: Clock, machineId: nat)
      requires Steady(clock) && Passes(clock) && machineId < 0x1_0000
      ensures Valid() && this.machineId == machineId && lastTick == 0 && sequence == 0
    {
      this.clock, this.machineId := clock, machineId;
      readings, lastTick, sequence := 0, 0, 0;
    }

    method GetCurrentTime() returns (now: nat)
      requires Valid()
      modifies this`readings
      ensures Valid() && readings == old(readings) + 1 && now == clock(readings) && now >= clock(old(readings))
    {
      readings := readings + 1;
      now := clock(readings);
    }

    /** Reads the clock until it has reached `next`. */
    method WaitNextTick(next: nat) returns (now: nat)
      requires Valid()
      modifies this`readings
      ensures Valid() && now == clock(readings) && now >= next && readings > old(readings)
      ensures forall k :: old(readings) < k < readings ==> clock(k) < next
    {
      assert Reaches(clock, next);
      ghost var k: nat :| clock(k) >= next;
      now := GetCurrentTime();
      while now < next
        invariant Valid() && now == clock(readings) && readings > old(readings)
        invariant forall j :: old(readings) < j < readings ==> clock(j) < next
        invariant now < next ==> readings < k
        decreases k - readings
      {
        now := GetCurrentTime();
      }
    }

    /** The tick of an id is that of the last clock reading. One reading is enough unless the 256 ids of
        a tick are used up: then the clock is read until the next tick. The sequence counts the ids of
        one tick from 0. */
    method NextId() returns (id: nat)
      requires Valid()
      modifies this`readings, this`lastTick, this`sequence
      ensures Valid() && id == Compose(lastTick, machineId, sequence)
      ensures Later(old(lastTick), old(sequence), lastTick, sequence)
      ensures lastTick == clock(readings) / 10
      ensures sequence == if lastTick == old(lastTick) then old(sequence) + 1 else 0
      ensures if clock(old(readings) + 1) / 10 == old(lastTick) && old(sequence) == 255 then
                forall k :: old(readings) + 1 < k < readings ==> clock(k) < 10 * (old(lastTick) + 1)
              else readings == old(readings) + 1
      ensures readings > old(readings)
    {
      var now := GetCurrentTime();
      var currentTick := now / 10;
      if currentTick == lastTick {
        sequence := (sequence + 1) % 0x100;
        if sequence == 0 {
          now := WaitNextTick((lastTick + 1) * 10);
          currentTick := now / 10;
        }
      } else {
        sequence := 0;
      }
      lastTick := currentTick;
      id := Compose(lastTick, machineId, sequence);
    }

    /** The clock has shown this tick at a reading after the first and up to the last of these. */
    ghost predicate ReadBetween(from: nat, to: nat, tick: nat) {
      exists k :: from < k <= to && clock(k) / 10 == tick
    }

    /** Over a whole run, as long as the ticks fit 40 bits, the ids strictly increase and
        each carries a tick that the clock has shown during the run. */
    method Generate(n: nat) returns (ids: seq<nat>)
      requires Valid()
      modifies this`readings, this`lastTick, this`sequence
      ensures Valid() && |ids| == n
      ensures lastTick < TICK_LIMIT ==>
                && (forall i, j :: 0 <= i < j < n ==> ids[i] < ids[j])
                && (forall i :: 0 <= i < n ==> ids[i] > Compose(old(lastTick), machineId, old(sequence)))
      ensures forall i :: 0 <= i < n ==> ids[i] / 0x100 % 0x1_0000 == machineId
      ensures lastTick < TICK_LIMIT ==>
                forall i :: 0 <= i < n ==> ReadBetween(old(readings), readings, ids[i] / 0x100_0000)
    {
      ids := [];
      ghost var first := Compose(lastTick, machineId, sequence);
      for i := 0 to n
        invariant Valid() && |ids| == i
        invariant lastTick < TICK_LIMIT ==>
                    && (forall k :: 0 <= k < i ==> first < ids[k] <= Compose(lastTick, machineId, sequence))
                    && (forall k, l :: 0 <= k < l < i ==> ids[k] < ids[l])
        invariant first <= Compose(lastTick, machineId, sequence) || lastTick >= TICK_LIMIT
        invariant forall k :: 0 <= k < i ==> ids[k] / 0x100 % 0x1_0000 == machineId
        invariant old(readings) <= readings
        invariant lastTick < TICK_LIMIT ==>
                    forall k :: 0 <= k < i ==> ReadBetween(old(readings), readings, ids[k] / 0x100_0000)
      {
        ghost var t, s := lastTick, sequence;
        var id := NextId();
        if lastTick < TICK_LIMIT {
          ComposeIncreases(t, s, lastTick, sequence, machineId);
        }
        ComposeDecodes(lastTick, machineId, sequence);
        assert lastTick < TICK_LIMIT ==> ReadBetween(old(readings), readings, id / 0x100_0000);
        ids := ids + [id];
      }
    }
  }
}
