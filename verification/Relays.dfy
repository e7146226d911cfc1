/**
 The relay outputs and opto inputs of the device. Pins are active low, and the low nibble of
 PORTA runs backwards; the registers the host sees are in relay and input order.
 */
module Relays {

  /** PORTA as the host's output register. */
  function ReadOutputs(porta: bv8): bv8 {
    var up := !porta;
    (up & 0xF0) | ((up & 0x08) >> 3) | ((up & 0x04) >> 1) | ((up & 0x02) << 1) | ((up & 0x01) << 3)
  }

  /** The PORTA value for an output register. */
  function WriteOutputs(b: bv8): bv8 {
    !((b & 0xF0) | ((b & 0x08) >> 3) | ((b & 0x04) >> 1) | ((b & 0x02) << 1) | ((b & 0x01) << 3))
  }

  function WriteOutputsMasked(porta: bv8, b: bv8, mask: bv8): bv8 {
    WriteOutputs((ReadOutputs(porta) & !mask) | (b & mask))
  }

  /** The input pins of ports C and D as the host's input register. */
  function ReadInputs(pinc: bv8, pind: bv8): bv8 {
    (!pinc & 0xF0) | ((!pinc & 0x04) << 1) | ((!pinc & 0x08) >> 1) | ((!pind & 0x80) >> 6) | ((!pind & 0x20) >> 5)
  }

  /** The PORTA pin a bit message addresses. */
  function PinMask(b: nat): bv8
    requires b < 8
  {
    (1 as bv8) << (if b < 5 then 4 - b else b - 1)
  }

  function ClearPin(porta: bv8, b: nat): bv8
    requires b < 8
  {
    porta | PinMask(b)
  }

  function SetPin(porta: bv8, b: nat): bv8
    requires b < 8
  {
    porta & !PinMask(b)
  }

  function TogglePin(porta: bv8, b: nat): bv8
    requires b < 8
  {
    porta ^ PinMask(b)
  }

  /** Relay n of the output register, n from 1 to 8. */
  function Relay(n: nat): bv8
    requires 1 <= n <= 8
  {
    if n == 1 then 0x01
    else if n == 2 then 0x02
    else if n == 3 then 0x04
    else if n == 4 then 0x08
    else if n == 5 then 0x10
    else if n == 6 then 0x20
    else if n == 7 then 0x40
    else 0x80
  }

  /** The relay a bit message switches: bits 1 to 7 switch the relay of that number, bit 0 switches relay 5. */
  function RelayOfBit(b: nat): nat
    requires b < 8
  {
    if b == 0 then 5 else b
  }

  /** Register and port determine each other. */
  lemma OutputsRoundTrip(b: bv8, porta: bv8)
    ensures ReadOutputs(WriteOutputs(b)) == b
    ensures WriteOutputs(ReadOutputs(porta)) == porta
  {}

  lemma MaskedWrite(porta: bv8, b: bv8, mask: bv8)
    ensures ReadOutputs(WriteOutputsMasked(porta, b, mask)) == (ReadOutputs(porta) & !mask) | (b & mask)
  {
    OutputsRoundTrip((ReadOutputs(porta) & !mask) | (b & mask), porta);
  }

  /** A bit message reads back as switching one relay and leaving the other seven alone. */
  lemma BitWrite(porta: bv8, b: nat)
    requires b < 8
    ensures ReadOutputs(SetPin(porta, b)) == ReadOutputs(porta) | Relay(RelayOfBit(b))
    ensures ReadOutputs(ClearPin(porta, b)) == ReadOutputs(porta) & !Relay(RelayOfBit(b))
  {
    PinTable(b);
    SwitchPin(porta, PinMask(b), Relay(RelayOfBit(b)));
  }

  /** The pins bit messages address, and the relays behind them. */
  predicate Drives(pin: bv8, relay: bv8) {
    (pin == 0x08 && relay == 0x01) || (pin == 0x04 && relay == 0x02) || (pin == 0x02 && relay == 0x04)
    || (pin == 0x01 && relay == 0x08) || (pin == relay && (pin == 0x10 || pin == 0x20 || pin == 0x40))
  }

  lemma SwitchPin(porta: bv8, pin: bv8, relay: bv8)
    requires Drives(pin, relay)
    ensures ReadOutputs(porta & !pin) == ReadOutputs(porta) | relay
    ensures ReadOutputs(porta | pin) == ReadOutputs(porta) & !relay
  {}

  lemma PinTable(b: nat)
    requires b < 8
    ensures PinMask(b) == if b == 0 || b == 5 then 0x10 else if b == 1 then 0x08 else if b == 2 then 0x04
      else if b == 3 then 0x02 else if b == 4 then 0x01 else if b == 6 then 0x20 else 0x40
  {
    assert PinMask(0) == 0x10 && PinMask(1) == 0x08 && PinMask(2) == 0x04 && PinMask(3) == 0x02;
    assert PinMask(4) == 0x01 && PinMask(5) == 0x10 && PinMask(6) == 0x20 && PinMask(7) == 0x40;
  }

  /** A pulse turns one relay over and back, and leaves the port as it found it. */
  lemma PulseIsTransient(porta: bv8, b: nat)
    requires b < 8
    ensures TogglePin(TogglePin(porta, b), b) == porta
    ensures ReadOutputs(TogglePin(porta, b)) == ReadOutputs(porta) ^ Relay(RelayOfBit(b)) != ReadOutputs(porta)
  {
    PinTable(b);
    TurnPin(porta, PinMask(b), Relay(RelayOfBit(b)));
  }

  lemma TurnPin(porta: bv8, pin: bv8, relay: bv8)
    requires Drives(pin, relay)
    ensures ReadOutputs(porta ^ pin) == ReadOutputs(porta) ^ relay != ReadOutputs(porta)
  {}

  /** A bit message reaches relay b exactly when b is a relay number from 1 to 7: bit 0 strays to relay 5,
      and no bit message reaches relay 8. */
  lemma BitReachesItsRelay(porta: bv8, b: nat, n: nat)
    requires b < 8 && 1 <= n <= 8
    ensures (ReadOutputs(SetPin(porta, b)) & Relay(n) != 0 && ReadOutputs(ClearPin(porta, b)) & Relay(n) == 0)
      <==> n == RelayOfBit(b)
  {
    BitWrite(porta, b);
    RelaysAreDistinct(ReadOutputs(porta), RelayOfBit(b), n);
  }

  lemma RelaysAreDistinct(reg: bv8, k: nat, n: nat)
    requires 1 <= k <= 8 && 1 <= n <= 8
    ensures k == n ==> (reg | Relay(k)) & Relay(n) != 0 && (reg & !Relay(k)) & Relay(n) == 0
    ensures k != n ==> (reg | Relay(k)) & Relay(n) == reg & Relay(n) == (reg & !Relay(k)) & Relay(n)
  {}

  predicate On(reg: bv8, n: nat)
    requires 1 <= n <= 8
  {
    reg & Relay(n) != 0
  }

  predicate Single(bit: bv8) {
    bit != 0 && bit & (bit - 1) == 0
  }

  lemma RelaysAreSingle(k: nat, n: nat)
    requires 1 <= k <= 8 && 1 <= n <= 8
    ensures Single(Relay(k)) && Single(Relay(n)) && (Relay(k) == Relay(n) <==> k == n)
  {}

  /** Setting, clearing or turning over one bit does that to it and to no other. */
  lemma OneBitMoved(reg: bv8, a: bv8, b: bv8)
    requires Single(a) && Single(b)
    ensures (reg | a) & b != 0 <==> a == b || reg & b != 0
    ensures (reg & !a) & b != 0 <==> a != b && reg & b != 0
    ensures (reg ^ a) & b != 0 <==> (reg & b != 0) != (a == b)
  {}

  lemma MaskedBit(reg: bv8, v: bv8, mask: bv8, bit: bv8)
    requires Single(bit)
    ensures ((reg & !mask) | (v & mask)) & bit != 0 <==> if mask & bit != 0 then v & bit != 0 else reg & bit != 0
  {}

  /** The pin of PORTA that relay n hangs on. */
  function PortPin(n: nat): bv8
    requires 1 <= n <= 8
  {
    if n == 1 then 0x08
    else if n == 2 then 0x04
    else if n == 3 then 0x02
    else if n == 4 then 0x01
    else if n == 5 then 0x10
    else if n == 6 then 0x20
    else if n == 7 then 0x40
    else 0x80
  }

  /** A relay is driven while its pin is low. */
  predicate Driven(porta: bv8, n: nat)
    requires 1 <= n <= 8
  {
    porta & PortPin(n) == 0
  }

  /** Each place of the output register is one relay's pin, inverted. */
  lemma OutputWiring(porta: bv8, n: nat)
    requires 1 <= n <= 8
    ensures On(ReadOutputs(porta), n) <==> Driven(porta, n)
  {}

  /** Each place of the input register is one opto input, inverted. */
  lemma InputWiring(pinc: bv8, pind: bv8)
    ensures var reg := ReadInputs(pinc, pind);
      && (reg & 0x01 != 0 <==> pind & 0x20 == 0)
      && (reg & 0x02 != 0 <==> pind & 0x80 == 0)
      && (reg & 0x04 != 0 <==> pinc & 0x08 == 0)
      && (reg & 0x08 != 0 <==> pinc & 0x04 == 0)
      && (reg & 0x10 != 0 <==> pinc & 0x10 == 0)
      && (reg & 0x20 != 0 <==> pinc & 0x20 == 0)
      && (reg & 0x40 != 0 <==> pinc & 0x40 == 0)
      && (reg & 0x80 != 0 <==> pinc & 0x80 == 0)
  {}
}
