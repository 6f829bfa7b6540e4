/**
 * Client code that exercises the contracts of the monitor the way the
 * running program does, showing that they pin down the observable
 * behaviour: what a tick writes after given advertisements.
 */
module Scenarios {
  import opened Wrappers
  import opened Bytes
  import opened Decoders
  import opened Accumulator
  import opened Monitor

  /**
   * A fresh sensor that stores one block and is flushed twice hands back
   * exactly the decoded fields the first time and nothing the second.
   */
  method FlushAfterProcess(kind: SensorType, b: seq<Byte>) returns (first: Data, second: Data)
    ensures first == Decode(kind, b)
    ensures second == map[]
  {
    var s := new Sensor("kitchen", kind);
    s.ProcessAdv(b);
    first := s.Flush();
    assert first == map[] + Decode(kind, b);
    second := s.Flush();
  }

  const Kitchen: SensorConfig := SensorConfig("AA:BB:CC:DD:EE:FF", "kitchen", LYWSD03MMCTag)
  const KitchenAddress: string := "aa:bb:cc:dd:ee:ff"

  /** 21.30 degrees (0x0852), 45.60 percent (0x11d0), battery 88, in an ATC frame. */
  const KitchenFrame: seq<Byte> := [0, 0, 0, 0, 0, 0, 0x52, 0x08, 0xd0, 0x11, 0, 0, 88, 0, 0]

  const KitchenFields: Data :=
    map[Temperature := Scaled(2130, AtcDivisor), Humidity := Scaled(4560, AtcDivisor), BatteryPct := Int(88)]

  lemma KitchenRegistry()
    ensures BuildRegistry([Kitchen]) == Success(map[KitchenAddress := SensorSpec("kitchen", LYWSD03MMC)])
  {
    assert ToLower(Kitchen.mac) == KitchenAddress;
    assert [Kitchen][..0] == [];
  }

  lemma KitchenDecodes()
    ensures MergeAll(map[], DecodeAll(LYWSD03MMC, [KitchenFrame])) == KitchenFields
  {
    assert DecodeLYWSD03MMC(KitchenFrame) == KitchenFields;
    assert DecodeAll(LYWSD03MMC, [KitchenFrame]) == [KitchenFields];
    assert [KitchenFields][..0] == [];
  }

  /** A visit of a single address is just that address. */
  lemma SingleVisit(order: seq<string>, addr: string)
    requires VisitsEach(order, {addr})
    ensures order == [addr]
  {
    assert addr in order;
  }

  /**
   * One LYWSD03MMC configured as "AA:BB:CC:DD:EE:FF" receives a frame
   * encoding 21.30 degrees, 45.60 percent humidity and battery 88; an
   * unknown address is ignored; the next tick writes exactly one record
   * with those fields, and the tick after that writes nothing.
   */
  method EndToEnd(now: int) returns (records: seq<Record>, later: seq<Record>)
    ensures records == [RecordFor("kitchen", KitchenFields, now)]
    ensures later == []
  {
    var outcome := Configure([Kitchen]);
    KitchenRegistry();
    assert outcome.Success? && outcome.value.Keys == {KitchenAddress};
    var sensors := outcome.value;

    var stranger := OnAdvertisement(sensors, "11:22:33:44:55:66", [[1, 2, 3]]);
    assert !stranger;

    var accepted := OnAdvertisement(sensors, KitchenAddress, [KitchenFrame]);
    KitchenDecodes();
    assert accepted && sensors[KitchenAddress].data == KitchenFields;

    ghost var order;
    records, order := Tick(sensors, false, now);
    SingleVisit(order, KitchenAddress);

    ghost var order';
    later, order' := Tick(sensors, false, now + 60);
    SingleVisit(order', KitchenAddress);
  }
}
