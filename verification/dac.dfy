/** The R-2R digital-to-analog converter: an integer set-point is spread over
    a list of GPIO pins, pin `nr` carrying bit `nr` of the value. The pins live
    on the two 32-bit GPIO ports of the chip; each port is driven through a
    write-1-to-clear and a write-1-to-set register, so a set-point becomes four
    masks (set and clear for each port). Masks can be precomputed into presets. */
module Dac {
  import opened Ints

  /** A 32-bit GPIO word, represented by the set of positions of its 1-bits:
      `a | b` is `a + b`, `a & ~b` is `a - b`, `(uint32_t) 1 << b` is `{b}`
      and `a > 0` is `a != {}`. */
  type Word = s: set<nat> | forall b | b in s :: b < 32

  datatype Port = Port1 | Port2

  /** Pins 0..31 are on port 1, pins 32..63 on port 2. */
  function PortOf(pin: uint8): Port
  {
    if pin <= 31 then Port1 else Port2
  }

  /** The GPIO number of bit `b` of `port`'s word. */
  function PinAt(port: Port, b: nat): nat
  {
    if port == Port1 then b else b + 32
  }

  /** Every pin can be addressed by a shift of a 32-bit word on its port,
      and the pin count fits the `uint8_t` field that holds it. */
  predicate ValidPins(pins: seq<uint8>)
  {
    |pins| < 0x100 && forall nr | 0 <= nr < |pins| :: pins[nr] < 64
  }

  predicate Distinct(pins: seq<uint8>)
  {
    forall i, j | 0 <= i < j < |pins| :: pins[i] != pins[j]
  }

  /** The raw GPIO actions for one set-point. */
  datatype RawMasks = RawMasks(p1Set: Word, p1Clear: Word, p2Set: Word, p2Clear: Word)
  {
    /** The set mask (`level` true) or the clear mask (`level` false) of `port`. */
    function Of(port: Port, level: bool): Word
    {
      match (port, level)
      case (Port1, true) => p1Set
      case (Port1, false) => p1Clear
      case (Port2, true) => p2Set
      case (Port2, false) => p2Clear
    }
  }

  const NoMasks := RawMasks({}, {}, {}, {})

  /** One iteration of the pin loop: record `pin` in the set or the clear mask of its port. */
  function AddPin(m: RawMasks, pin: uint8, bitVal: bool): RawMasks
    requires pin < 64
  {
    if pin <= 31 then
      if bitVal then m.(p1Set := m.p1Set + {pin}) else m.(p1Clear := m.p1Clear + {pin})
    else
      if bitVal then m.(p2Set := m.p2Set + {pin - 32}) else m.(p2Clear := m.p2Clear + {pin - 32})
  }

  /** The pin loop from a given pin on: each pin consumes the low bit of `value`,
      which is then shifted right by one. */
  function PrepareFrom(pins: seq<uint8>, value: nat, m: RawMasks): RawMasks
    requires forall nr | 0 <= nr < |pins| :: pins[nr] < 64
    decreases |pins|
  {
    if pins == [] then m
    else PrepareFrom(pins[1..], value / 2, AddPin(m, pins[0], value % 2 == 1))
  }

  /** Some pin at bit `b` of `port` receives `level` from value `v`. */
  predicate Drives(pins: seq<uint8>, v: nat, port: Port, b: nat, level: bool)
  {
    exists nr | 0 <= nr < |pins| :: pins[nr] == PinAt(port, b) && Bit(v, nr) == level
  }

  /** `m` holds exactly the pins that `v` drives high (set masks) and low (clear masks). */
  predicate Encodes(pins: seq<uint8>, v: nat, m: RawMasks)
  {
    forall port: Port, level: bool, b: nat | b < 32 ::
      b in m.Of(port, level) <==> Drives(pins, v, port, b, level)
  }

  /** The bits of all pins configured on `port`. */
  function Configured(pins: seq<uint8>, port: Port): Word
  {
    set b: nat | b < 32 && PinAt(port, b) in pins
  }

  lemma AddPinBits(m: RawMasks, pin: uint8, bitVal: bool, port: Port, level: bool, b: nat)
    requires pin < 64 && b < 32
    ensures b in AddPin(m, pin, bitVal).Of(port, level)
        <==> b in m.Of(port, level) || (pin == PinAt(port, b) && bitVal == level)
  {
  }

  /** The first pin of the list reads bit 0; the others read the shifted value. */
  lemma DrivesCons(pins: seq<uint8>, v: nat, port: Port, b: nat, level: bool)
    requires |pins| > 0
    ensures Drives(pins, v, port, b, level)
        <==> (pins[0] == PinAt(port, b) && (v % 2 == 1) == level)
             || Drives(pins[1..], v / 2, port, b, level)
  {
    if Drives(pins, v, port, b, level) {
      var nr :| 0 <= nr < |pins| && pins[nr] == PinAt(port, b) && Bit(v, nr) == level;
      if nr > 0 {
        assert pins[1..][nr - 1] == pins[nr];
      }
    }
    if Drives(pins[1..], v / 2, port, b, level) {
      var nr :| 0 <= nr < |pins[1..]| && pins[1..][nr] == PinAt(port, b) && Bit(v / 2, nr) == level;
      assert pins[nr + 1] == PinAt(port, b) && Bit(v, nr + 1) == level;
    }
    if pins[0] == PinAt(port, b) && (v % 2 == 1) == level {
      assert Bit(v, 0) == level;
    }
  }

  /** The pin loop adds to each mask exactly the pins the value drives to that level. */
  lemma {:induction false} PrepareFromBits(pins: seq<uint8>, v: nat, m: RawMasks, port: Port, level: bool, b: nat)
    requires forall nr | 0 <= nr < |pins| :: pins[nr] < 64
    requires b < 32
    ensures b in PrepareFrom(pins, v, m).Of(port, level)
        <==> b in m.Of(port, level) || Drives(pins, v, port, b, level)
    decreases |pins|
  {
    if pins != [] {
      var m1 := AddPin(m, pins[0], v % 2 == 1);
      PrepareFromBits(pins[1..], v / 2, m1, port, level, b);
      AddPinBits(m, pins[0], v % 2 == 1, port, level, b);
      DrivesCons(pins, v, port, b, level);
    }
  }

  /** `prepareRaw`: the four masks for set-point `value`. Starting from four empty
      masks, every configured pin lands in the set mask of its port when its bit of
      `value` is 1 and in the clear mask otherwise; no other bit is ever touched. */
  function PrepareRaw(pins: seq<uint8>, value: uint16): (m: RawMasks)
    requires ValidPins(pins)
    ensures Encodes(pins, value, m)
  {
    var m := PrepareFrom(pins, value, NoMasks);
    assert Encodes(pins, value, m) by {
      forall port: Port, level: bool, b: nat | b < 32
        ensures b in m.Of(port, level) <==> Drives(pins, value, port, b, level)
      {
        PrepareFromBits(pins, value, NoMasks, port, level, b);
      }
    }
    m
  }

  /** Two mask sets that encode the same value are the same. */
  lemma EncodesUnique(pins: seq<uint8>, v: nat, m1: RawMasks, m2: RawMasks)
    requires Encodes(pins, v, m1) && Encodes(pins, v, m2)
    ensures m1 == m2
  {
    forall port: Port, level: bool
      ensures m1.Of(port, level) == m2.Of(port, level)
    {
      forall b | b in m1.Of(port, level) ensures b in m2.Of(port, level) {
      }
      forall b | b in m2.Of(port, level) ensures b in m1.Of(port, level) {
      }
    }
    assert m1.p1Set == m1.Of(Port1, true) && m1.p1Clear == m1.Of(Port1, false);
    assert m1.p2Set == m1.Of(Port2, true) && m1.p2Clear == m1.Of(Port2, false);
  }

  /** With distinct pins, pin `nr` is in the set mask of its port exactly when bit `nr`
      of the value is 1, and in the clear mask exactly when it is 0. */
  lemma PinLevels(pins: seq<uint8>, v: uint16, nr: nat)
    requires ValidPins(pins) && Distinct(pins)
    requires nr < |pins|
    ensures var pin := pins[nr];
            var off := if pin <= 31 then pin else pin - 32;
            && (off in PrepareRaw(pins, v).Of(PortOf(pin), true) <==> Bit(v, nr))
            && (off in PrepareRaw(pins, v).Of(PortOf(pin), false) <==> !Bit(v, nr))
  {
    var m := PrepareRaw(pins, v);
    var pin := pins[nr];
    var off := if pin <= 31 then pin else pin - 32;
    assert PinAt(PortOf(pin), off) == pin;
    assert off in m.Of(PortOf(pin), Bit(v, nr));
    assert forall k | 0 <= k < |pins| && pins[k] == pin :: k == nr;
    assert !Drives(pins, v, PortOf(pin), off, !Bit(v, nr));
  }

  /** With distinct pins the set and clear masks of a port are disjoint, and for any
      pins their union is exactly the bits of the pins configured on that port. */
  lemma PortPartition(pins: seq<uint8>, v: uint16, port: Port)
    requires ValidPins(pins)
    ensures PrepareRaw(pins, v).Of(port, true) + PrepareRaw(pins, v).Of(port, false)
            == Configured(pins, port)
    ensures Distinct(pins) ==> PrepareRaw(pins, v).Of(port, true) * PrepareRaw(pins, v).Of(port, false) == {}
  {
    var m := PrepareRaw(pins, v);
    forall b | b in Configured(pins, port)
      ensures b in m.Of(port, true) + m.Of(port, false)
    {
      var nr :| 0 <= nr < |pins| && pins[nr] == PinAt(port, b);
      assert Drives(pins, v, port, b, Bit(v, nr));
      assert b in m.Of(port, Bit(v, nr));
    }
    if Distinct(pins) {
      forall b | b in m.Of(port, true) ensures b !in m.Of(port, false) {
        var i :| 0 <= i < |pins| && pins[i] == PinAt(port, b) && Bit(v, i);
        assert forall j | 0 <= j < |pins| && pins[j] == PinAt(port, b) :: j == i;
        assert !Drives(pins, v, port, b, false);
      }
    }
  }

  /** Pins numbered at most 31 touch only the port-1 masks; pins from 32 on only the port-2 masks. */
  lemma PortSeparation(pins: seq<uint8>, v: uint16)
    requires ValidPins(pins)
    ensures (forall nr | 0 <= nr < |pins| :: pins[nr] <= 31) ==>
              PrepareRaw(pins, v).p2Set == {} && PrepareRaw(pins, v).p2Clear == {}
    ensures (forall nr | 0 <= nr < |pins| :: pins[nr] >= 32) ==>
              PrepareRaw(pins, v).p1Set == {} && PrepareRaw(pins, v).p1Clear == {}
  {
    var m := PrepareRaw(pins, v);
    if forall nr | 0 <= nr < |pins| :: pins[nr] <= 31 {
      forall level: bool, b: nat | b < 32 ensures b !in m.Of(Port2, level) {
        assert !Drives(pins, v, Port2, b, level);
      }
      assert m.p2Set == m.Of(Port2, true) && m.p2Clear == m.Of(Port2, false);
    }
    if forall nr | 0 <= nr < |pins| :: pins[nr] >= 32 {
      forall level: bool, b: nat | b < 32 ensures b !in m.Of(Port1, level) {
        assert !Drives(pins, v, Port1, b, level);
      }
      assert m.p1Set == m.Of(Port1, true) && m.p1Clear == m.Of(Port1, false);
    }
  }

  /** Values that agree on the bits the pins read produce the same masks. */
  lemma {:induction false} PrepareFromLowBits(pins: seq<uint8>, v: nat, w: nat, m: RawMasks)
    requires forall nr | 0 <= nr < |pins| :: pins[nr] < 64
    requires forall nr | 0 <= nr < |pins| :: Bit(v, nr) == Bit(w, nr)
    ensures PrepareFrom(pins, v, m) == PrepareFrom(pins, w, m)
    decreases |pins|
  {
    if pins != [] {
      assert Bit(v, 0) == Bit(w, 0);
      forall nr | 0 <= nr < |pins[1..]| ensures Bit(v / 2, nr) == Bit(w / 2, nr) {
        assert Bit(v, nr + 1) == Bit(w, nr + 1);
      }
      PrepareFromLowBits(pins[1..], v / 2, w / 2, AddPin(m, pins[0], v % 2 == 1));
    }
  }

  /** Only the low `nrPins` bits of the set-point matter. */
  lemma LowBitsOnly(pins: seq<uint8>, v: uint16)
    requires ValidPins(pins)
    ensures v % Pow2(|pins|) < 0x1_0000
    ensures PrepareRaw(pins, v) == PrepareRaw(pins, v % Pow2(|pins|))
  {
    var low := v % Pow2(|pins|);
    ModBelow(v, Pow2(|pins|));
    forall nr | 0 <= nr < |pins| ensures Bit(v, nr) == Bit(low, nr) {
      BitOfLowBits(v, |pins|, nr);
    }
    PrepareFromLowBits(pins, v, low, NoMasks);
  }

  // ---------------------------------------------------------------------
  // GPIO registers

  /** The four GPIO output registers the DAC writes. */
  datatype Register = OutW1tc | Out1W1tc | OutW1ts | Out1W1ts
  {
    predicate IsClear() { this == OutW1tc || this == Out1W1tc }
  }

  datatype Write = Write(reg: Register, mask: Word)

  /** The two GPIO output words. */
  datatype Gpio = Gpio(out: Word, out1: Word)

  /** Write-1-to-clear and write-1-to-set semantics of the output registers. */
  function Apply(g: Gpio, w: Write): Gpio
  {
    match w.reg
    case OutW1tc => g.(out := g.out - w.mask)
    case Out1W1tc => g.(out1 := g.out1 - w.mask)
    case OutW1ts => g.(out := g.out + w.mask)
    case Out1W1ts => g.(out1 := g.out1 + w.mask)
  }

  function ApplyAll(g: Gpio, ws: seq<Write>): Gpio
    decreases |ws|
  {
    if ws == [] then g else ApplyAll(Apply(g, ws[0]), ws[1..])
  }

  /** The output level of a pin. */
  predicate Level(g: Gpio, pin: uint8)
    requires pin < 64
  {
    if pin <= 31 then pin in g.out else pin - 32 in g.out1
  }

  /** `setRaw`: the register writes for four masks. A register is written only with
      a non-zero mask, and both clears come before both sets. */
  function SetRaw(m: RawMasks): (ws: seq<Write>)
    ensures |ws| <= 4
    ensures forall i | 0 <= i < |ws| :: ws[i].mask != {}
    ensures forall i, j | 0 <= i < j < |ws| :: ws[j].reg.IsClear() ==> ws[i].reg.IsClear()
    ensures forall i, j | 0 <= i < j < |ws| :: ws[i].reg != ws[j].reg
  {
    (if m.p1Clear != {} then [Write(OutW1tc, m.p1Clear)] else [])
    + (if m.p2Clear != {} then [Write(Out1W1tc, m.p2Clear)] else [])
    + (if m.p1Set != {} then [Write(OutW1ts, m.p1Set)] else [])
    + (if m.p2Set != {} then [Write(Out1W1ts, m.p2Set)] else [])
  }

  lemma ApplyAllAppend(g: Gpio, ws: seq<Write>, vs: seq<Write>)
    ensures ApplyAll(g, ws + vs) == ApplyAll(ApplyAll(g, ws), vs)
    decreases |ws|
  {
    if ws != [] {
      assert (ws + vs)[0] == ws[0];
      assert (ws + vs)[1..] == ws[1..] + vs;
      ApplyAllAppend(Apply(g, ws[0]), ws[1..], vs);
    } else {
      assert ws + vs == vs;
    }
  }

  /** Skipping the zero masks changes nothing: the writes clear then set each port word. */
  lemma ApplySetRaw(g: Gpio, m: RawMasks)
    ensures ApplyAll(g, SetRaw(m)) == Gpio((g.out - m.p1Clear) + m.p1Set, (g.out1 - m.p2Clear) + m.p2Set)
  {
    var c1 := if m.p1Clear != {} then [Write(OutW1tc, m.p1Clear)] else [];
    var c2 := if m.p2Clear != {} then [Write(Out1W1tc, m.p2Clear)] else [];
    var s1 := if m.p1Set != {} then [Write(OutW1ts, m.p1Set)] else [];
    var s2 := if m.p2Set != {} then [Write(Out1W1ts, m.p2Set)] else [];
    assert SetRaw(m) == c1 + c2 + s1 + s2;
    ApplyAllAppend(g, c1 + c2 + s1, s2);
    ApplyAllAppend(g, c1 + c2, s1);
    ApplyAllAppend(g, c1, c2);
  }

  // ---------------------------------------------------------------------
  // The DAC object

  /** A DAC: its pins, its number of presets and the flat preset array that
      holds four words (p1 set, p1 clear, p2 set, p2 clear) per preset. */
  datatype Dac = Dac(pins: seq<uint8>, nrPresets: uint16, presetRawValues: seq<Word>)
  {
    predicate Valid()
    {
      ValidPins(pins) && |presetRawValues| == 4 * nrPresets
    }
  }

  /** The constructor. The preset array is contents only when there are presets;
      `contents` stands for the indeterminate contents of the fresh array. */
  function Create(pins: seq<uint8>, nrPresets: uint16, contents: seq<Word>): (d: Dac)
    requires ValidPins(pins) && |contents| == 4 * nrPresets
    ensures d.Valid() && d.pins == pins && d.nrPresets == nrPresets
    ensures nrPresets == 0 ==> d.presetRawValues == []
  {
    Dac(pins, nrPresets, if nrPresets > 0 then contents else [])
  }

  /** `set`: the register writes that output `value`. */
  function Set(d: Dac, value: uint16): seq<Write>
    requires d.Valid()
  {
    SetRaw(PrepareRaw(d.pins, value))
  }

  /** The masks cached in slots `4 * preset .. 4 * preset + 3`. */
  function PresetMasks(d: Dac, preset: uint16): RawMasks
    requires d.Valid() && preset < d.nrPresets
  {
    var i := 4 * preset;
    RawMasks(d.presetRawValues[i], d.presetRawValues[i + 1], d.presetRawValues[i + 2], d.presetRawValues[i + 3])
  }

  /** `preparePreset`: out of range it changes nothing; otherwise it stores the masks
      of `value` in the four slots of `preset` and leaves every other slot as it was. */
  function PreparePreset(d: Dac, preset: uint16, value: uint16): (d': Dac)
    requires d.Valid()
    ensures d'.Valid() && d'.pins == d.pins && d'.nrPresets == d.nrPresets
    ensures preset >= d.nrPresets ==> d' == d
    ensures preset < d.nrPresets ==> Encodes(d.pins, value, PresetMasks(d', preset))
    ensures forall i | 0 <= i < |d.presetRawValues| && !(preset < d.nrPresets && 4 * preset <= i < 4 * preset + 4) ::
              d'.presetRawValues[i] == d.presetRawValues[i]
  {
    if preset >= d.nrPresets then d
    else
      var m := PrepareRaw(d.pins, value);
      var i := 4 * preset;
      var d' := d.(presetRawValues := d.presetRawValues[..i] + [m.p1Set, m.p1Clear, m.p2Set, m.p2Clear]
                                      + d.presetRawValues[i + 4..]);
      assert PresetMasks(d', preset) == m;
      d'
  }

  /** `setPreset`: the register writes of the cached masks; none when out of range. */
  function SetPreset(d: Dac, preset: uint16): seq<Write>
    requires d.Valid()
  {
    if preset >= d.nrPresets then [] else SetRaw(PresetMasks(d, preset))
  }

  /** A preset call out of range is a no-op: no state change, no register write.
      In particular every preset call is a no-op on a DAC without presets. */
  lemma PresetOutOfRange(d: Dac, preset: uint16, value: uint16, g: Gpio)
    requires d.Valid() && preset >= d.nrPresets
    ensures PreparePreset(d, preset, value) == d
    ensures SetPreset(d, preset) == []
    ensures ApplyAll(g, SetPreset(d, preset)) == g
  {
  }

  /** Preparing a preset and applying it issues the same writes as a direct `set`. */
  lemma PresetRoundTrip(d: Dac, preset: uint16, value: uint16)
    requires d.Valid() && preset < d.nrPresets
    ensures SetPreset(PreparePreset(d, preset, value), preset) == Set(d, value)
  {
    var d' := PreparePreset(d, preset, value);
    EncodesUnique(d.pins, value, PresetMasks(d', preset), PrepareRaw(d.pins, value));
  }

  /** Under write-1-to-clear / write-1-to-set semantics, after `set(value)` every
      configured pin outputs its bit of `value` and every other pin keeps its level. */
  lemma SetDrivesPins(d: Dac, value: uint16, g: Gpio)
    requires d.Valid() && Distinct(d.pins)
    ensures forall nr | 0 <= nr < |d.pins| :: Level(ApplyAll(g, Set(d, value)), d.pins[nr]) == Bit(value, nr)
    ensures forall pin: uint8 | pin < 64 && pin !in d.pins :: Level(ApplyAll(g, Set(d, value)), pin) == Level(g, pin)
  {
    var m := PrepareRaw(d.pins, value);
    var g' := ApplyAll(g, Set(d, value));
    ApplySetRaw(g, m);
    forall nr | 0 <= nr < |d.pins| ensures Level(g', d.pins[nr]) == Bit(value, nr) {
      PinLevels(d.pins, value, nr);
    }
    forall pin: uint8 | pin < 64 && pin !in d.pins ensures Level(g', pin) == Level(g, pin) {
      var off := if pin <= 31 then pin else pin - 32;
      assert PinAt(PortOf(pin), off) == pin;
      assert forall nr | 0 <= nr < |d.pins| :: d.pins[nr] != pin;
      assert !Drives(d.pins, value, PortOf(pin), off, true);
      assert !Drives(d.pins, value, PortOf(pin), off, false);
    }
  }
}
