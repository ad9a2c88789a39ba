/** The DAC as the firmware's bootstrap configures it: twelve pins, 8 presets. */
module Board {
  import opened Ints
  import opened Dac

  /** `DAC_PINS`, least significant bit first; `DAC_PIN_10` and `DAC_PIN_11` (GPIO 44 and 43)
      are not used (main.cpp:44, :49). */
  const DacPins: seq<uint8> := [48, 14, 35, 36, 37, 38, 39, 40, 41, 42, 2, 1]

  const NrPresets: uint16 := 8

  /** The wiring facts the board lemmas rely on. They are stated for any pin list
      with this wiring, so that the solver never evaluates the pin loop on the
      literal list. */
  predicate BoardWiring(pins: seq<uint8>)
  {
    && ValidPins(pins) && Distinct(pins) && |pins| == 12
    && Configured(pins, Port1) == {1, 2, 14}
    && Configured(pins, Port2) == {3, 4, 5, 6, 7, 8, 9, 10, 16}
  }

  /** The twelve pins are distinct, all below 64, three on port 1 and nine on port 2. */
  lemma DacPinsWiring()
    ensures BoardWiring(DacPins)
  {
    assert forall b: nat | b < 32 :: PinAt(Port1, b) in DacPins <==> b in {1, 2, 14};
    assert forall b: nat | b < 32 :: PinAt(Port2, b) in DacPins <==> b in {3, 4, 5, 6, 7, 8, 9, 10, 16};
  }

  /** A value whose bits read by the pins all equal `level` drives every configured pin to `level`. */
  lemma UniformMasks(pins: seq<uint8>, v: uint16, level: bool)
    requires ValidPins(pins)
    requires forall nr | 0 <= nr < |pins| :: Bit(v, nr) == level
    ensures forall port: Port :: PrepareRaw(pins, v).Of(port, level) == Configured(pins, port)
    ensures PrepareRaw(pins, v).Of(Port1, !level) == {} && PrepareRaw(pins, v).Of(Port2, !level) == {}
  {
    var m := PrepareRaw(pins, v);
    forall port: Port, b: nat | b < 32
      ensures b in m.Of(port, level) <==> PinAt(port, b) in pins
      ensures b !in m.Of(port, !level)
    {
      if PinAt(port, b) in pins {
        var nr :| 0 <= nr < |pins| && pins[nr] == PinAt(port, b);
        assert Bit(v, nr) == level;
      }
    }
  }

  /** Full scale, 0xFFF, drives every pin high: nothing to clear. */
  lemma FullScaleMasks(pins: seq<uint8>)
    requires BoardWiring(pins)
    ensures PrepareRaw(pins, 0xFFF) == RawMasks({1, 2, 14}, {}, {3, 4, 5, 6, 7, 8, 9, 10, 16}, {})
  {
    assert Pow2(12) - 1 == 0xFFF;
    forall nr | 0 <= nr < |pins| ensures Bit(0xFFF, nr) {
      BitOfAllOnes(12, nr);
    }
    UniformMasks(pins, 0xFFF, true);
    var m := PrepareRaw(pins, 0xFFF);
    assert m.p1Set == m.Of(Port1, true) && m.p2Set == m.Of(Port2, true);
    assert m.p1Clear == m.Of(Port1, false) && m.p2Clear == m.Of(Port2, false);
  }

  /** Zero drives every pin low: nothing to set. */
  lemma ZeroMasks(pins: seq<uint8>)
    requires BoardWiring(pins)
    ensures PrepareRaw(pins, 0) == RawMasks({}, {1, 2, 14}, {}, {3, 4, 5, 6, 7, 8, 9, 10, 16})
  {
    forall nr: nat ensures !Bit(0, nr) {
      BitOfZero(nr);
    }
    UniformMasks(pins, 0, false);
    var m := PrepareRaw(pins, 0);
    assert m.p1Set == m.Of(Port1, true) && m.p2Set == m.Of(Port2, true);
    assert m.p1Clear == m.Of(Port1, false) && m.p2Clear == m.Of(Port2, false);
  }

  /** The service sweep's downward loop starts at 4096, which has no bit among the
      twelve the pins read: it outputs the same as 0, clearing every pin. */
  lemma SweepOverflowIsZero(d: Dac)
    requires d.Valid() && BoardWiring(d.pins)
    ensures Set(d, 4096) == Set(d, 0)
    ensures Set(d, 4096) == [Write(OutW1tc, {1, 2, 14}), Write(Out1W1tc, {3, 4, 5, 6, 7, 8, 9, 10, 16})]
  {
    assert Pow2(12) == 4096;
    LowBitsOnly(d.pins, 4096);
    assert 4096 % Pow2(|d.pins|) == 0;
    ZeroMasks(d.pins);
  }

  /** The board's DAC holds 32 preset words; preset 7 is the last usable one, and
      preset 8 neither stores nor writes anything. */
  lemma BoardPresets(contents: seq<Word>, value: uint16)
    requires |contents| == 4 * NrPresets as int
    ensures ValidPins(DacPins)
    ensures var d := Create(DacPins, NrPresets, contents);
            && |d.presetRawValues| == 32
            && Encodes(DacPins, value, PresetMasks(PreparePreset(d, 7, value), 7))
            && PreparePreset(d, 8, value) == d && SetPreset(d, 8) == []
  {
    DacPinsWiring();
  }
}
