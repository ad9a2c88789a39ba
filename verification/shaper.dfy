/** The current shaper: a program of (value, duration) entries played back one
    entry at a time. Each `handle` call may emit one current value, which the
    firmware passes on to the load; here the emitted values form the output trace.
    The microsecond clock is a parameter. */
module Shaping {
  import opened Ints

  datatype Entry = Entry(value: real, durationMicros: uint64)

  /** The shaper's fields. `entries` is the fixed-capacity array of `maxEntries`
      slots, of which the first `nrEntries` form the program. */
  datatype Shaper = Shaper(
    entries: seq<Entry>,
    maxEntries: uint16,
    nrEntries: uint16,
    active: bool,
    currentIdx: uint16,
    lastChangeMicros: uint64)
  {
    /** The array has its capacity, the program fits in it, and while the shaper
        is active the current index names a program entry. */
    predicate Valid()
    {
      && |entries| == maxEntries as int
      && nrEntries <= maxEntries
      && (active ==> currentIdx < nrEntries)
    }
  }

  /** A new shaper: the array's initial contents are whatever the allocation held. */
  function Create(maxEntries: uint16, contents: seq<Entry>): (s: Shaper)
    requires |contents| == maxEntries as int
    ensures s.Valid() && !s.active && s.nrEntries == 0 && s.maxEntries == maxEntries
  {
    Shaper(contents, maxEntries, 0, false, 0, 0)
  }

  /** `isActive`: while it holds, a program entry is still pending. */
  function IsActive(s: Shaper): (a: bool)
    ensures a && s.Valid() ==> s.currentIdx < s.nrEntries
  {
    s.active
  }

  /** `now - since` on `uint64_t`: the difference modulo 2^64, which is the time
      from `since` to `now` when both are reads of a clock that counts in 64 bits. */
  function Elapsed(now: uint64, since: uint64): (e: nat)
    ensures e < Uint64Modulus
    ensures since <= now ==> e == now - since
    ensures now < since ==> e == Uint64Modulus - since + now
  {
    (now - since) % Uint64Modulus
  }

  /** The same difference taken modulo 2^32, as `unsigned long` arithmetic on a
      32-bit clock computes it. */
  function Elapsed32(now: uint32, since: uint32): (e: nat)
    ensures e < Uint32Modulus
    ensures since <= now ==> e == now - since
    ensures now < since ==> e == Uint32Modulus - since + now
  {
    (now - since) % Uint32Modulus
  }

  /** On the 32-bit clock, `d` microseconds after `since` (for `d` below 2^32) the
      difference is `d`, whether or not the clock wrapped in between. */
  lemma Elapsed32Exact(since: uint32, d: nat)
    requires d < Uint32Modulus
    ensures Elapsed32((since + d) % Uint32Modulus, since) == d
  {
    if since + d >= Uint32Modulus {
      DivModUnique(since + d, Uint32Modulus, 1, since + d - Uint32Modulus);
    }
  }

  /** The shaper after one call, and the values it passed to the load (none or one). */
  datatype Handled = Handled(next: Shaper, emitted: seq<real>)

  /** The body of `handle`, given how long the started entry has run. */
  function HandleAfter(s: Shaper, now: uint64, later: uint64, elapsed: nat): Handled
    requires s.Valid()
  {
    if !s.active then Handled(s, [])
    else if s.lastChangeMicros == 0 then
      Handled(s.(lastChangeMicros := later), [s.entries[s.currentIdx].value])
    else if elapsed >= s.entries[s.currentIdx].durationMicros as int then
      var idx := s.currentIdx + 1;
      if idx >= s.nrEntries then
        Handled(s.(currentIdx := idx, active := false), [0.0])
      else
        Handled(s.(currentIdx := idx, lastChangeMicros := now), [s.entries[idx].value])
    else
      Handled(s, [])
  }

  /** `handle`. `now` is the clock read at entry. `later` is the second read, which
      becomes the stamp when the current entry starts from a stamp of 0 ("not started
      yet"); an entry reached by advancing is stamped with `now`. The program and
      capacity never change, the shaper never switches itself on, and what it emits
      is the value of the entry it is now on, or 0.0 when it stops. */
  function Handle(s: Shaper, now: uint64, later: uint64): (h: Handled)
    requires s.Valid()
    ensures h.next.Valid()
    ensures h.next.entries == s.entries && h.next.maxEntries == s.maxEntries
    ensures h.next.nrEntries == s.nrEntries
    ensures h.next.active ==> s.active
    ensures !s.active ==> h == Handled(s, [])
    ensures s.active && !h.next.active ==> h.emitted == [0.0]
    ensures h.next.active ==>
              && s.currentIdx <= h.next.currentIdx <= s.currentIdx + 1
              && (h.emitted == [] || h.emitted == [s.entries[h.next.currentIdx].value])
  {
    HandleAfter(s, now, later, Elapsed(now, s.lastChangeMicros))
  }

  /** The shaper's states over its life: a new shaper is inactive, `pulse` activates
      it, and `handle` can only keep it active or switch it off. */
  lemma IsActiveLifecycle(maxEntries: uint16, contents: seq<Entry>, s: Shaper, current: real,
                          durationMicros: uint32, now: uint64, later: uint64)
    requires |contents| == maxEntries as int
    requires s.Valid() && s.maxEntries >= 1
    ensures !IsActive(Create(maxEntries, contents))
    ensures IsActive(Pulse(s, current, durationMicros).next)
    ensures IsActive(Handle(s, now, later).next) ==> IsActive(s)
  {
  }

  /** While the first-entry stamp is 0, `handle` emits the current entry's value and
      stays on it, stamping the second clock read. */
  lemma FirstEntrySentinel(s: Shaper, now: uint64, later: uint64)
    requires s.Valid() && s.active && s.lastChangeMicros == 0
    ensures var h := Handle(s, now, later);
            && h.emitted == [s.entries[s.currentIdx].value]
            && h.next == s.(lastChangeMicros := later)
  {
  }

  /** Once started, `handle` does nothing until the current entry's duration has
      elapsed, and then moves on: to the next entry, stamped `now`, or off with 0.0. */
  lemma AdvancesOnElapsedTime(s: Shaper, now: uint64, later: uint64)
    requires s.Valid() && s.active && s.lastChangeMicros != 0
    ensures var h := Handle(s, now, later);
            var due := Elapsed(now, s.lastChangeMicros) >= s.entries[s.currentIdx].durationMicros as int;
            && (!due ==> h == Handled(s, []))
            && (due && s.currentIdx as int + 1 < s.nrEntries as int ==>
                  h.next == s.(currentIdx := s.currentIdx + 1, lastChangeMicros := now)
                  && h.emitted == [s.entries[s.currentIdx + 1].value])
            && (due && s.currentIdx as int + 1 >= s.nrEntries as int ==>
                  !h.next.active && h.emitted == [0.0])
  {
  }

  datatype Tick = Tick(now: uint64, later: uint64)

  /** Successive `handle` calls, one per tick, with the emitted values concatenated. */
  function Run(s: Shaper, ticks: seq<Tick>): (r: Handled)
    requires s.Valid()
    ensures r.next.Valid()
    ensures |r.emitted| <= |ticks|
    decreases |ticks|
  {
    if ticks == [] then Handled(s, [])
    else
      var h := Handle(s, ticks[0].now, ticks[0].later);
      var rest := Run(h.next, ticks[1..]);
      Handled(rest.next, h.emitted + rest.emitted)
  }

  /** `x` is the value of a program entry at index `lo` or later. */
  predicate FromProgram(s: Shaper, x: real, lo: nat)
    requires s.Valid()
  {
    exists k | lo <= k < s.nrEntries as int :: s.entries[k].value == x
  }

  /** Over any run: an inactive shaper stays silent; an active one emits only values
      of its program from the current entry on, except that when it stops, the last
      value it emitted is 0.0. The program is never altered. */
  lemma {:induction false} RunTrace(s: Shaper, ticks: seq<Tick>)
    requires s.Valid()
    ensures var r := Run(s, ticks);
            && r.next.entries == s.entries && r.next.nrEntries == s.nrEntries
            && (r.next.active ==> s.active && s.currentIdx <= r.next.currentIdx)
            && (!s.active ==> r == Handled(s, []))
            && (r.next.active ==>
                  forall i | 0 <= i < |r.emitted| :: FromProgram(s, r.emitted[i], s.currentIdx as int))
            && (s.active && !r.next.active ==>
                  && r.emitted != [] && r.emitted[|r.emitted| - 1] == 0.0
                  && forall i | 0 <= i < |r.emitted| - 1 :: FromProgram(s, r.emitted[i], s.currentIdx as int))
    decreases |ticks|
  {
    if ticks != [] {
      var h := Handle(s, ticks[0].now, ticks[0].later);
      var rest := Run(h.next, ticks[1..]);
      var r := Run(s, ticks);
      RunTrace(h.next, ticks[1..]);
      assert r.emitted == h.emitted + rest.emitted;
      if h.next.active {
        assert h.emitted == [] || FromProgram(s, h.emitted[0], s.currentIdx as int) by {
          if h.emitted != [] {
            assert s.entries[h.next.currentIdx].value == h.emitted[0];
          }
        }
        forall i | 0 <= i < |rest.emitted| && FromProgram(h.next, rest.emitted[i], h.next.currentIdx as int)
          ensures FromProgram(s, rest.emitted[i], s.currentIdx as int)
        {
          var k :| h.next.currentIdx as int <= k < s.nrEntries as int && s.entries[k].value == rest.emitted[i];
        }
      } else if s.active {
        assert h.emitted == [0.0];
        assert rest == Handled(h.next, []);
        assert r.emitted == [0.0];
      }
    }
  }

  /** `pulse`'s return value and resulting state. */
  datatype Pulsed = Pulsed(next: Shaper, ok: bool)

  /** `pulse`, as written: it replaces the program by the one-entry program (0.0, 0)
      whatever its arguments, and starts it. */
  function Pulse(s: Shaper, current: real, durationMicros: uint32): (p: Pulsed)
    requires s.Valid() && s.maxEntries >= 1
    ensures p.ok && p.next.Valid() && p.next.active
    ensures p.next.currentIdx == 0 && p.next.nrEntries == 1 && p.next.lastChangeMicros == 0
    ensures p.next.maxEntries == s.maxEntries && p.next.entries[0] == Entry(0.0, 0)
    ensures forall k | 1 <= k < |s.entries| :: p.next.entries[k] == s.entries[k]
  {
    Pulsed(Shaper(s.entries[0 := Entry(0.0, 0)], s.maxEntries, 1, true, 0, 0), true)
  }

  /** The pulse does not depend on the requested current or duration. */
  lemma PulseIgnoresArguments(s: Shaper, c1: real, d1: uint32, c2: real, d2: uint32)
    requires s.Valid() && s.maxEntries >= 1
    ensures Pulse(s, c1, d1) == Pulse(s, c2, d2)
  {
  }

  /** After a pulse, the first `handle` emits 0.0; if the stamp it records is not 0,
      the second `handle` emits 0.0 again and switches the shaper off, whatever the
      clock says, because the stored duration is 0. */
  lemma PulseEndsOnSecondHandle(s: Shaper, current: real, durationMicros: uint32, t0: Tick, t1: Tick)
    requires s.Valid() && s.maxEntries >= 1 && t0.later != 0
    ensures var p := Pulse(s, current, durationMicros).next;
            var h0 := Handle(p, t0.now, t0.later);
            var h1 := Handle(h0.next, t1.now, t1.later);
            && h0.emitted == [0.0] && h0.next.active
            && h1.emitted == [0.0] && !h1.next.active
  {
  }

  /** Every value a pulsed shaper ever emits is 0.0, over any run. */
  lemma PulseOnlyEmitsZero(s: Shaper, current: real, durationMicros: uint32, ticks: seq<Tick>)
    requires s.Valid() && s.maxEntries >= 1
    ensures var r := Run(Pulse(s, current, durationMicros).next, ticks);
            forall i | 0 <= i < |r.emitted| :: r.emitted[i] == 0.0
  {
    var p := Pulse(s, current, durationMicros).next;
    var r := Run(p, ticks);
    RunTrace(p, ticks);
    forall i | 0 <= i < |r.emitted| && FromProgram(p, r.emitted[i], 0)
      ensures r.emitted[i] == 0.0
    {
    }
  }

  // ---------------------------------------------------------------------
  // The pulse, as evidently intended

  /** `pulse` storing its arguments as the single program entry. */
  function PulseIntended(s: Shaper, current: real, durationMicros: uint32): (p: Pulsed)
    requires s.Valid() && s.maxEntries >= 1
    ensures p.ok && p.next.Valid() && p.next.active
    ensures p.next.currentIdx == 0 && p.next.nrEntries == 1 && p.next.lastChangeMicros == 0
    ensures p.next.maxEntries == s.maxEntries
    ensures p.next.entries[0] == Entry(current, durationMicros as uint64)
    ensures forall k | 1 <= k < |s.entries| :: p.next.entries[k] == s.entries[k]
  {
    Pulsed(Shaper(s.entries[0 := Entry(current, durationMicros as uint64)], s.maxEntries, 1, true, 0, 0), true)
  }

  /** The intended pulse emits `current` on its first `handle`, then nothing until
      `durationMicros` have elapsed since that `handle`'s stamp, then 0.0 and stops. */
  lemma PulseIntendedProfile(s: Shaper, current: real, durationMicros: uint32, t0: Tick, now: uint64, later: uint64)
    requires s.Valid() && s.maxEntries >= 1 && t0.later != 0
    ensures var p := PulseIntended(s, current, durationMicros).next;
            var h0 := Handle(p, t0.now, t0.later);
            var h1 := Handle(h0.next, now, later);
            && h0.emitted == [current] && h0.next.active
            && (Elapsed(now, t0.later) < durationMicros as int ==> h1 == Handled(h0.next, []))
            && (Elapsed(now, t0.later) >= durationMicros as int ==> h1.emitted == [0.0] && !h1.next.active)
  {
  }

  /** Ticks every 200 microseconds from 200 to 1200, with both clock reads equal. */
  const PulseTicks: seq<Tick> :=
    [Tick(200, 200), Tick(400, 400), Tick(600, 600), Tick(800, 800), Tick(1000, 1000), Tick(1200, 1200)]

  /** A 2.0 pulse of 1000 microseconds: as written the load sees 0.0 twice; as intended
      it sees 2.0, then 0.0 once 1000 microseconds have passed. */
  lemma PulseScenario(s: Shaper)
    requires s.Valid() && s.maxEntries >= 1
    ensures Run(Pulse(s, 2.0, 1000).next, PulseTicks).emitted == [0.0, 0.0]
    ensures Run(PulseIntended(s, 2.0, 1000).next, PulseTicks).emitted == [2.0, 0.0]
    ensures !Run(PulseIntended(s, 2.0, 1000).next, PulseTicks).next.active
  {
  }

  // ---------------------------------------------------------------------
  // A 32-bit clock, as written and as evidently intended

  /** As written, with a 32-bit clock widened to 64 bits: if the clock wraps while an
      entry runs, the 64-bit difference is at least 2^64 - 2^32, so any entry shorter
      than 2^32 microseconds ends on the next `handle`. */
  lemma WrappedClockEndsEntryEarly(s: Shaper, now: uint32, later: uint64)
    requires s.Valid() && s.active && 0 != s.lastChangeMicros < Uint32Modulus
    requires now < s.lastChangeMicros
    requires s.entries[s.currentIdx].durationMicros < Uint32Modulus
    ensures var h := Handle(s, now, later);
            && h.emitted != []
            && (!h.next.active || h.next.currentIdx == s.currentIdx + 1)
  {
  }

  /** `handle` on a 32-bit clock with the difference taken modulo 2^32. */
  function HandleClock32(s: Shaper, now: uint32, later: uint32): (h: Handled)
    requires s.Valid() && s.lastChangeMicros < Uint32Modulus
    ensures h.next.Valid() && h.next.lastChangeMicros < Uint32Modulus
    ensures h.next.entries == s.entries && h.next.nrEntries == s.nrEntries
    ensures !s.active ==> h == Handled(s, [])
  {
    HandleAfter(s, now, later, Elapsed32(now, s.lastChangeMicros))
  }

  /** Until the clock wraps, the 32-bit `handle` behaves like `handle`. */
  lemma Clock32AgreesWithoutWrap(s: Shaper, now: uint32, later: uint32)
    requires s.Valid() && s.lastChangeMicros <= now
    ensures HandleClock32(s, now, later) == Handle(s, now, later)
  {
  }

  /** On the 32-bit clock, a started entry ends exactly when its duration has passed,
      for any duration below 2^32, across a wrap of the clock as well. */
  lemma Clock32WaitsFullDuration(s: Shaper, d: nat, later: uint32)
    requires s.Valid() && s.active && 0 != s.lastChangeMicros < Uint32Modulus
    requires d < Uint32Modulus
    ensures var now := (s.lastChangeMicros + d) % Uint32Modulus;
            var h := HandleClock32(s, now, later);
            && (d < s.entries[s.currentIdx].durationMicros as int ==> h == Handled(s, []))
            && (d >= s.entries[s.currentIdx].durationMicros as int ==>
                  h.emitted != [] && (!h.next.active || h.next.currentIdx == s.currentIdx + 1))
  {
    Elapsed32Exact(s.lastChangeMicros, d);
  }

  /** A 1000-microsecond pulse of 2.0 stamped at 0xFFFF_FF00, handled at 0x10 after the
      clock wrapped (272 microseconds later): as written it ends at once; on the 32-bit
      clock it keeps running. */
  lemma WrapScenario(s: Shaper)
    requires s.Valid() && s.maxEntries >= 1
    ensures var p := PulseIntended(s, 2.0, 1000).next.(lastChangeMicros := 0xFFFF_FF00);
            && Elapsed32(0x10, 0xFFFF_FF00) == 272
            && Handle(p, 0x10, 0x10) == Handled(p.(currentIdx := 1, active := false), [0.0])
            && HandleClock32(p, 0x10, 0x10) == Handled(p, [])
  {
  }
}
