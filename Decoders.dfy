/**
 * The two vendor payload decoders (`processAdvLYWSD03MMC`,
 * `processAdvLYWSDCGQ`) and the decoder chosen for each sensor type.
 *
 * A decoder maps one raw service-data block to a field map. The source
 * stores temperature and humidity as `float64(raw) / divisor`; here they
 * stay the exact integer reading `raw` together with its divisor.
 */
module Decoders {
  import opened Bytes

  /** One value of the source's `Data` map. */
  datatype Value =
    | Int(n: int)                    // `int(b[k])`
    | Scaled(raw: int, divisor: nat) // `float64(raw) / divisor`

  /** The source's `Data`: field name to value. */
  type Data = map<string, Value>

  const Temperature: string := "temperature"
  const Humidity: string := "humidity"
  const BatteryPct: string := "battery_pct"

  /** Every field name a decoder can produce. */
  const FieldNames: set<string> := {Temperature, Humidity, BatteryPct}

  // LYWSD03MMC running the ATC custom firmware: a fixed 15-byte layout.
  const AtcFrameLength: nat := 15
  const AtcTemperatureOffset: nat := 6
  const AtcHumidityOffset: nat := 8
  const AtcBatteryOffset: nat := 12
  /** Temperature and humidity are in hundredths. */
  const AtcDivisor: nat := 100

  // LYWSDCGQ/01ZM: a sub-message selected by the byte at offset 13.
  const SubMessageOffset: nat := 13
  const BatterySubMessage: Byte := 0x01
  const ClimateSubMessage: Byte := 0x04
  const BatteryOffset: nat := 14
  /** The shortest block that holds a battery message. */
  const BatteryFrameLength: nat := 15
  const ClimateTemperatureOffset: nat := 14
  const ClimateHumidityOffset: nat := 16
  /** The shortest block that holds a climate message. */
  const ClimateFrameLength: nat := 18
  /** Temperature and humidity are in tenths. */
  const CgqDivisor: nat := 10

  /** Sensor models the configuration may name. */
  datatype SensorType = LYWSD03MMC | LYWSDCGQ

  // ---------------------------------------------------------------------
  // LYWSD03MMC

  /** `processAdvLYWSD03MMC`: only a block of exactly 15 bytes yields fields. */
  function DecodeLYWSD03MMC(b: seq<Byte>): (d: Data)
    ensures |b| != AtcFrameLength ==> d == map[]
    ensures |b| == AtcFrameLength ==> d.Keys == FieldNames
  {
    if |b| == AtcFrameLength then
      map[Temperature := Scaled(ToInt16(Uint16LE(b, AtcTemperatureOffset)), AtcDivisor),
          Humidity := Scaled(Uint16LE(b, AtcHumidityOffset), AtcDivisor),
          BatteryPct := Int(b[AtcBatteryOffset])]
    else
      map[]
  }

  /** What an ATC frame carries: signed temperature and unsigned humidity in hundredths, battery percent. */
  datatype AtcReading = AtcReading(temperature: int, humidity: int, battery: int)

  /** The ranges an int16, a uint16 and a byte can hold. */
  predicate ValidAtcReading(r: AtcReading) {
    && -HalfWord <= r.temperature < HalfWord
    && 0 <= r.humidity < WordModulus
    && 0 <= r.battery < 0x100
  }

  /** The field map a reading should decode to. */
  function AtcFields(r: AtcReading): Data {
    map[Temperature := Scaled(r.temperature, AtcDivisor),
        Humidity := Scaled(r.humidity, AtcDivisor),
        BatteryPct := Int(r.battery)]
  }

  /**
   * The firmware's side of the layout: write `r` into a 15-byte frame,
   * keeping every byte the decoder does not read.
   */
  function EncodeLYWSD03MMC(r: AtcReading, frame: seq<Byte>): (b: seq<Byte>)
    requires ValidAtcReading(r) && |frame| == AtcFrameLength
    ensures |b| == AtcFrameLength
    ensures forall i | 0 <= i < |b| && i !in {AtcTemperatureOffset, AtcTemperatureOffset + 1, AtcHumidityOffset, AtcHumidityOffset + 1, AtcBatteryOffset} ::
              b[i] == frame[i]
  {
    frame[..AtcTemperatureOffset] + PutUint16LE(Int16Bits(r.temperature))
      + PutUint16LE(r.humidity) + frame[AtcHumidityOffset + 2..AtcBatteryOffset]
      + [r.battery as Byte] + frame[AtcBatteryOffset + 1..]
  }

  /** Decoding an encoded reading gives back exactly that reading, whatever the other bytes hold. */
  lemma DecodeEncodeLYWSD03MMC(r: AtcReading, frame: seq<Byte>)
    requires ValidAtcReading(r) && |frame| == AtcFrameLength
    ensures DecodeLYWSD03MMC(EncodeLYWSD03MMC(r, frame)) == AtcFields(r)
  {
    var b := EncodeLYWSD03MMC(r, frame);
    assert b[6..8] == PutUint16LE(Int16Bits(r.temperature));
    assert b[8..10] == PutUint16LE(r.humidity);
    assert Uint16LE(b, 6) == Int16Bits(r.temperature);
    assert Uint16LE(b, 8) == r.humidity;
  }

  /**
   * Every 15-byte block decodes to the fields of some valid reading, and
   * re-encoding that reading into the block reproduces the block.
   */
  lemma EncodeDecodeLYWSD03MMC(b: seq<Byte>)
    requires |b| == AtcFrameLength
    ensures exists r :: ValidAtcReading(r) && DecodeLYWSD03MMC(b) == AtcFields(r)
                          && EncodeLYWSD03MMC(r, b) == b
  {
    var t := Uint16LE(b, AtcTemperatureOffset);
    var r := AtcReading(ToInt16(t), Uint16LE(b, AtcHumidityOffset), b[AtcBatteryOffset]);
    Int16BitsOfToInt16(t);
    PutUint16LEOfUint16LE(b, AtcTemperatureOffset);
    PutUint16LEOfUint16LE(b, AtcHumidityOffset);
    var e := EncodeLYWSD03MMC(r, b);
    assert e == b[..6] + b[6..8] + b[8..10] + b[10..12] + [b[12]] + b[13..];
    assert e == b;
  }

  /** The little-endian word 0x0947 at offset 6 is 23.75 degrees. */
  lemma DecodeLYWSD03MMCExample(b: seq<Byte>)
    requires |b| == AtcFrameLength && b[6] == 0x47 && b[7] == 0x09
    ensures DecodeLYWSD03MMC(b)[Temperature] == Scaled(2375, AtcDivisor)
  {
  }

  /** A word with the top bit set is a temperature below zero. */
  lemma DecodeLYWSD03MMCNegative(b: seq<Byte>)
    requires |b| == AtcFrameLength && b[7] >= 0x80
    ensures DecodeLYWSD03MMC(b)[Temperature].raw < 0
  {
  }

  // ---------------------------------------------------------------------
  // LYWSDCGQ/01ZM

  /**
   * The blocks `processAdvLYWSDCGQ` can index without going past their
   * length: it reads offset 13 always, offset 14 for a battery message and
   * offsets 14..17 for a climate message. Every block long enough for a
   * climate message is in the domain, and none too short for the
   * discriminator is.
   */
  predicate InCGQDomain(b: seq<Byte>): (ok: bool)
    ensures |b| >= ClimateFrameLength ==> ok
    ensures ok ==> |b| > SubMessageOffset
  {
    && |b| > SubMessageOffset
    && (b[SubMessageOffset] == BatterySubMessage ==> |b| >= BatteryFrameLength)
    && (b[SubMessageOffset] == ClimateSubMessage ==> |b| >= ClimateFrameLength)
  }

  /** `processAdvLYWSDCGQ` as written: dispatch on the sub-message byte, with no bounds check. */
  function DecodeLYWSDCGQ(b: seq<Byte>): (d: Data)
    requires InCGQDomain(b)
    ensures b[SubMessageOffset] == BatterySubMessage ==> d.Keys == {BatteryPct}
    ensures b[SubMessageOffset] == ClimateSubMessage ==> d.Keys == {Temperature, Humidity}
    ensures d == map[] <==> b[SubMessageOffset] !in {BatterySubMessage, ClimateSubMessage}
  {
    match b[SubMessageOffset]
    case 0x01 => map[BatteryPct := Int(b[BatteryOffset])]
    case 0x04 =>
      map[Temperature := Scaled(ToInt16(Uint16LE(b, ClimateTemperatureOffset)), CgqDivisor),
          Humidity := Scaled(Uint16LE(b, ClimateHumidityOffset), CgqDivisor)]
    case _ => map[]
  }

  /**
   * The intended behaviour: the same dispatch, but a block too short for
   * its sub-message decodes to no fields instead of an index panic.
   */
  function DecodeLYWSDCGQChecked(b: seq<Byte>): (d: Data)
    ensures InCGQDomain(b) ==> d == DecodeLYWSDCGQ(b)
    ensures !InCGQDomain(b) ==> d == map[]
  {
    if |b| <= SubMessageOffset then map[]
    else if b[SubMessageOffset] == BatterySubMessage then
      if |b| < BatteryFrameLength then map[] else map[BatteryPct := Int(b[BatteryOffset])]
    else if b[SubMessageOffset] == ClimateSubMessage then
      if |b| < ClimateFrameLength then map[]
      else map[Temperature := Scaled(ToInt16(Uint16LE(b, ClimateTemperatureOffset)), CgqDivisor),
               Humidity := Scaled(Uint16LE(b, ClimateHumidityOffset), CgqDivisor)]
    else map[]
  }

  /**
   * A climate message cut short (offset 13 says 0x04 but there are fewer
   * than 18 bytes) is outside the model's domain: the source slices
   * `b[14:16]` and `b[16:18]` past the block's length. The checked decoder
   * yields no fields.
   */
  lemma TruncatedClimateOutsideDomain(b: seq<Byte>)
    requires SubMessageOffset < |b| < ClimateFrameLength && b[SubMessageOffset] == ClimateSubMessage
    ensures !InCGQDomain(b) && DecodeLYWSDCGQChecked(b) == map[]
  {
  }

  /**
   * A block too short to hold the discriminator, or a battery message
   * without its battery byte, makes the source index past the end
   * (`b[13]`, `b[14]`). The checked decoder yields no fields.
   */
  lemma ShortBlockOutsideDomain(b: seq<Byte>)
    requires |b| <= SubMessageOffset || (|b| == SubMessageOffset + 1 && b[SubMessageOffset] == BatterySubMessage)
    ensures !InCGQDomain(b) && DecodeLYWSDCGQChecked(b) == map[]
  {
  }

  /** The two sub-messages an LYWSDCGQ/01ZM block can carry. */
  datatype CgqMessage =
    | BatteryMessage(pct: Byte)
    | ClimateMessage(temperature: int, humidity: int) // tenths

  predicate ValidCgqMessage(m: CgqMessage) {
    m.ClimateMessage? ==> -HalfWord <= m.temperature < HalfWord && 0 <= m.humidity < WordModulus
  }

  /** The field map a message should decode to. */
  function CgqFields(m: CgqMessage): Data {
    match m
    case BatteryMessage(pct) => map[BatteryPct := Int(pct)]
    case ClimateMessage(t, h) =>
      map[Temperature := Scaled(t, CgqDivisor), Humidity := Scaled(h, CgqDivisor)]
  }

  /** The shortest block that holds message `m`. */
  function CgqFrameLength(m: CgqMessage): nat {
    if m.BatteryMessage? then BatteryFrameLength else ClimateFrameLength
  }

  /** The sensor's side of the layout: write `m` at offset 13 of a frame long enough to hold it. */
  function EncodeLYWSDCGQ(m: CgqMessage, frame: seq<Byte>): (b: seq<Byte>)
    requires ValidCgqMessage(m) && |frame| >= CgqFrameLength(m)
    ensures |b| == |frame| && InCGQDomain(b)
    ensures forall i | 0 <= i < |b| && !(SubMessageOffset <= i < CgqFrameLength(m)) :: b[i] == frame[i]
  {
    match m
    case BatteryMessage(pct) =>
      frame[..SubMessageOffset] + [BatterySubMessage, pct] + frame[BatteryFrameLength..]
    case ClimateMessage(t, h) =>
      frame[..SubMessageOffset] + [ClimateSubMessage] + PutUint16LE(Int16Bits(t))
        + PutUint16LE(h) + frame[ClimateFrameLength..]
  }

  /** Decoding an encoded sub-message gives back exactly that message's fields. */
  lemma DecodeEncodeLYWSDCGQ(m: CgqMessage, frame: seq<Byte>)
    requires ValidCgqMessage(m) && |frame| >= CgqFrameLength(m)
    ensures DecodeLYWSDCGQ(EncodeLYWSDCGQ(m, frame)) == CgqFields(m)
  {
    var b := EncodeLYWSDCGQ(m, frame);
    if m.ClimateMessage? {
      assert b[14..16] == PutUint16LE(Int16Bits(m.temperature));
      assert b[16..18] == PutUint16LE(m.humidity);
      assert Uint16LE(b, 14) == Int16Bits(m.temperature);
      assert Uint16LE(b, 16) == m.humidity;
    }
  }

  /**
   * Every decodable block with a known sub-message decodes to the fields
   * of some valid message, and that message encodes back into the block.
   */
  lemma EncodeDecodeLYWSDCGQ(b: seq<Byte>)
    requires InCGQDomain(b) && b[SubMessageOffset] in {BatterySubMessage, ClimateSubMessage}
    ensures exists m :: ValidCgqMessage(m) && DecodeLYWSDCGQ(b) == CgqFields(m)
                          && EncodeLYWSDCGQ(m, b) == b
  {
    if b[SubMessageOffset] == BatterySubMessage {
      var m := BatteryMessage(b[14]);
      var e := EncodeLYWSDCGQ(m, b);
      assert e == b[..13] + [b[13], b[14]] + b[15..];
      assert e == b;
    } else {
      var t := Uint16LE(b, 14);
      var m := ClimateMessage(ToInt16(t), Uint16LE(b, 16));
      Int16BitsOfToInt16(t);
      PutUint16LEOfUint16LE(b, 14);
      PutUint16LEOfUint16LE(b, 16);
      var e := EncodeLYWSDCGQ(m, b);
      assert e == b[..13] + [b[13]] + b[14..16] + b[16..18] + b[18..];
      assert e == b;
    }
  }

  // ---------------------------------------------------------------------
  // Decoder registry

  /**
   * The decoder each sensor type is created with. Wherever the source's
   * LYWSDCGQ decoder does not panic, the checked one agrees with it.
   */
  function Decode(kind: SensorType, b: seq<Byte>): (d: Data)
    ensures d.Keys <= FieldNames
    ensures kind == LYWSD03MMC ==> d == DecodeLYWSD03MMC(b)
    ensures kind == LYWSDCGQ && InCGQDomain(b) ==> d == DecodeLYWSDCGQ(b)
  {
    match kind
    case LYWSD03MMC => DecodeLYWSD03MMC(b)
    case LYWSDCGQ => DecodeLYWSDCGQChecked(b)
  }
}
