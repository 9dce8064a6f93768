/** Scanning the bus for batteries (`find_batteries`,
    battery_smart_lifepo4.py:176-190).

  For every slave address from 0x00 to 0xF7 the scan reads the eight-word
  model number at 0x1402 with `read_register_or_false`. A value equal to
  `False` (a failed read, or the number 0) means no battery. Otherwise it reads
  the serial number at 0x13f6 the same way and decodes both with `ascii`; if
  either decoding raises, the address gets a bad response. The model records
  what the scan prints for each address as an `Outcome`.
 */
module Discovery {
  import opened Base
  import opened Words
  import opened Rules
  import Schema
  import opened Reader
  import AsciiCodec

  /** The two probe definitions: eight raw words, no scaling. */
  const ModelProbe: Schema.Register := Schema.Register(0x1402, 8, "uint", Identical, "")
  const SerialProbe: Schema.Register := Schema.Register(0x13f6, 8, "uint", Identical, "")

  /** What the scan reports for one address. */
  datatype Outcome =
    | Battery(model: string, serial: string)   // "model: ..., serial: ..."
    | NoModel                                  // "unknown"
    | BadResponse                              // "bad response, skipping"

  /** Python's `v == False` on what a probe returns: an integer or `False`. */
  predicate EqualsFalse(v: Value)
    requires v.FalseValue? || v.IntValue?
  {
    v.FalseValue? || v.i == 0
  }

  /** `ascii(0, v)`: `hex()` takes an integer, and `False` counts as the
      integer 0. */
  function AsciiOf(v: Value): (r: Result<string>)
    ensures v.FalseValue? ==> r == Raised(OddLengthString)
    ensures v.IntValue? ==> r == AsciiCodec.Ascii(v.i)
    ensures !v.FalseValue? && !v.IntValue? ==> r == Raised(TypeError)
  {
    match v
    case IntValue(i) => AsciiCodec.Ascii(i)
    case FalseValue => AsciiCodec.AsciiSucceeds(0); AsciiCodec.Ascii(0)
    case _ => Raised(TypeError)
  }

  /** The number eight words stand for, when the reply holds all eight. */
  function ProbeNumber(reply: Option<seq<Word>>): Option<nat>
  {
    match reply
    case Some(raw) => if |raw| < 8 then None else Some(WordsValue(raw[..8]))
    case None => None
  }

  /** A raw probe read returns the number its eight words stand for, and
      `False` when the reply is missing or short. */
  lemma ProbeRead(t: Transport, slave: nat, reg: Schema.Register)
    requires reg == ModelProbe || reg == SerialProbe
    ensures var n := ProbeNumber(t(slave, reg.address, 8));
      ReadRegisterOrFalse(t, slave, reg) == if n.Some? then IntValue(n.value) else FalseValue
  {
  }

  /** One iteration of the scan, at slave address `slave`. */
  function Probe(t: Transport, slave: nat): (r: Outcome)
    ensures var model := ProbeNumber(t(slave, 0x1402, 8));
      r == NoModel <==> model.None? || model.value == 0
    ensures var model, serial := ProbeNumber(t(slave, 0x1402, 8)), ProbeNumber(t(slave, 0x13f6, 8));
      r.Battery? <==>
        (model.Some? && model.value != 0 && serial.Some?
         && AsciiCodec.Ascii(model.value).Ok? && AsciiCodec.Ascii(serial.value).Ok?)
    ensures var model, serial := ProbeNumber(t(slave, 0x1402, 8)), ProbeNumber(t(slave, 0x13f6, 8));
      r.Battery? ==>
        (model.Some? && serial.Some?
         && AsciiCodec.Ascii(model.value) == Ok(r.model)
         && AsciiCodec.Ascii(serial.value) == Ok(r.serial))
  {
    ProbeRead(t, slave, ModelProbe);
    ProbeRead(t, slave, SerialProbe);
    var model := ReadRegisterOrFalse(t, slave, ModelProbe);
    if EqualsFalse(model) then NoModel
    else
      var serial := ReadRegisterOrFalse(t, slave, SerialProbe);
      match (AsciiOf(model), AsciiOf(serial))
      case (Ok(m), Ok(s)) => Battery(m, s)
      case _ => BadResponse
  }

  /** A model number whose leading byte is below 0x10 has an odd number of
      hex digits, so `ascii` raises on it and the address is a bad response
      even though it answered. */
  lemma ProbeOddModel(t: Transport, slave: nat)
    requires ProbeNumber(t(slave, 0x1402, 8)).Some?
    requires var n := ProbeNumber(t(slave, 0x1402, 8)).value;
      n != 0 && AsciiCodec.BigEndianBytes(n)[0] < 0x10
    ensures Probe(t, slave) == BadResponse
  {
    AsciiCodec.AsciiOfNatural(ProbeNumber(t(slave, 0x1402, 8)).value);
  }

  /** The scan over slave addresses 0x00..0xF7, in order. */
  method FindBatteries(t: Transport) returns (found: seq<(nat, Outcome)>)
    ensures |found| == 0xF8
    ensures forall a :: 0 <= a < 0xF8 ==> found[a] == (a, Probe(t, a))
  {
    found := [];
    for slave := 0 to 0xF8
      invariant |found| == slave
      invariant forall a :: 0 <= a < slave ==> found[a] == (a, Probe(t, a))
    {
      found := found + [(slave, Probe(t, slave))];
    }
  }

  /** A battery that answers both probes with 7-bit text, NUL-padded to
      sixteen bytes, is reported with that model and serial. */
  lemma ProbeFindsBattery(t: Transport, slave: nat, model: string, pm: nat, serial: string, ps: nat)
    requires 1 <= |model| && 0x10 <= model[0] as int && |model| + pm == 16
    requires forall i :: 0 <= i < |model| ==> 0x01 <= model[i] as int < 0x80
    requires 1 <= |serial| && 0x10 <= serial[0] as int && |serial| + ps == 16
    requires forall i :: 0 <= i < |serial| ==> 0x01 <= serial[i] as int < 0x80
    requires t(slave, 0x1402, 8) == Some(AsciiCodec.Pack(AsciiCodec.Encode(model) + AsciiCodec.Zeros(pm)))
    requires t(slave, 0x13f6, 8) == Some(AsciiCodec.Pack(AsciiCodec.Encode(serial) + AsciiCodec.Zeros(ps)))
    ensures Probe(t, slave) == Battery(model, serial)
  {
    var rm := AsciiCodec.Pack(AsciiCodec.Encode(model) + AsciiCodec.Zeros(pm));
    var rs := AsciiCodec.Pack(AsciiCodec.Encode(serial) + AsciiCodec.Zeros(ps));
    assert rm[..8] == rm && rs[..8] == rs;
    AsciiCodec.AsciiRoundTrip(model, pm);
    AsciiCodec.AsciiRoundTrip(serial, ps);
    AsciiCodec.AsciiSucceeds(WordsValue(rm));
  }

  /** A bus where only slave 0x30 answers, with model "RBT100" and serial
      "2105001234": the scan reports that battery at 0x30 and nothing
      anywhere else. */
  lemma OneBatteryOnTheBus(t: Transport)
    requires t(0x30, 0x1402, 8) == Some(AsciiCodec.Pack(AsciiCodec.Encode("RBT100") + AsciiCodec.Zeros(10)))
    requires t(0x30, 0x13f6, 8) == Some(AsciiCodec.Pack(AsciiCodec.Encode("2105001234") + AsciiCodec.Zeros(6)))
    requires forall a :: a != 0x30 ==> t(a, 0x1402, 8).None?
    ensures forall a :: 0 <= a < 0xF8 ==>
      Probe(t, a) == if a == 0x30 then Battery("RBT100", "2105001234") else NoModel
  {
    ProbeFindsBattery(t, 0x30, "RBT100", 10, "2105001234", 6);
  }
}
