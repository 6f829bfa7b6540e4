/**
 * The wiring in `main`: building the sensor registry from the decoded
 * configuration, routing advertisements to sensors (`advFilter`,
 * `advHandler`) and the once-a-minute flush tick that turns each sensor's
 * stored fields into a record for the time-series store.
 */
module Monitor {
  import opened Wrappers
  import opened Bytes
  import opened Decoders
  import opened Accumulator

  // ---------------------------------------------------------------------
  // Configuration and the registry

  /** One `[[Sensors]]` entry of the already-decoded configuration. */
  datatype SensorConfig = SensorConfig(mac: string, name: string, typ: string)

  const LYWSD03MMCTag: string := "LYWSD03MMC"
  const LYWSDCGQTag: string := "LYWSDCGQ/01ZM"

  /** The configuration tag of each sensor type. */
  function TypeTag(kind: SensorType): string {
    match kind
    case LYWSD03MMC => LYWSD03MMCTag
    case LYWSDCGQ => LYWSDCGQTag
  }

  /** The `switch s.Type` in `main`: a tag selects a decoder, or is unknown. */
  function ParseSensorType(tag: string): (k: Option<SensorType>)
    ensures k.Some? ==> TypeTag(k.value) == tag
    ensures k.None? ==> forall kind: SensorType :: TypeTag(kind) != tag
  {
    if tag == LYWSD03MMCTag then Some(LYWSD03MMC)
    else if tag == LYWSDCGQTag then Some(LYWSDCGQ)
    else None
  }

  /** Each sensor type's own tag selects that type. */
  lemma ParseTypeTag(kind: SensorType)
    ensures ParseSensorType(TypeTag(kind)) == Some(kind)
  {
  }

  /** ASCII upper-case letters map to lower case; everything else is kept. */
  function LowerAscii(c: char): char {
    if 'A' <= c <= 'Z' then (c as int - 'A' as int + 'a' as int) as char else c
  }

  predicate NoUpperAscii(s: string) {
    forall i :: 0 <= i < |s| ==> !('A' <= s[i] <= 'Z')
  }

  /**
   * `strings.ToLower` on a MAC address: the result has no upper-case
   * letter and differs from the input only where the input had one.
   */
  function ToLower(s: string): (r: string)
    ensures |r| == |s| && NoUpperAscii(r)
    ensures forall i :: 0 <= i < |s| ==> r[i] == s[i] || ('A' <= s[i] <= 'Z' && r[i] as int == s[i] as int + 32)
  {
    seq(|s|, i requires 0 <= i < |s| => LowerAscii(s[i]))
  }

  /** Lower-casing an address that is already lower case changes nothing. */
  lemma ToLowerIdempotent(s: string)
    ensures ToLower(ToLower(s)) == ToLower(s)
  {
  }

  /** What the registry holds for one address: the display name and the decoder. */
  datatype SensorSpec = SensorSpec(name: string, kind: SensorType)

  /**
   * One pass of the setup loop of `main`: lower-case the entry's MAC and
   * store the sensor under it, replacing an earlier entry with the same
   * address; an unknown type tag stops start-up (`log.Fatalf`), and once
   * stopped nothing more happens.
   */
  function Register(reg: Result<map<string, SensorSpec>, string>, c: SensorConfig): (r: Result<map<string, SensorSpec>, string>)
    ensures reg.Failure? ==> r == reg
    ensures reg.Success? ==> (r.Success? <==> ParseSensorType(c.typ).Some?)
    ensures reg.Success? && r.Failure? ==> r.error == c.typ
  {
    match reg
    case Failure(e) => Failure(e)
    case Success(m) =>
      match ParseSensorType(c.typ)
      case None => Failure(c.typ)
      case Some(kind) => Success(m[ToLower(c.mac) := SensorSpec(c.name, kind)])
  }

  /** The setup loop of `main` over the configured entries, in order. */
  function BuildRegistry(confs: seq<SensorConfig>): (r: Result<map<string, SensorSpec>, string>)
    ensures r.Success? ==> |r.value| <= |confs|
  {
    if confs == [] then Success(map[])
    else Register(BuildRegistry(confs[..|confs| - 1]), confs[|confs| - 1])
  }

  /** No entry after position `i` has the same lower-cased address as entry `i`. */
  predicate LastWithAddress(confs: seq<SensorConfig>, i: nat)
    requires i < |confs|
  {
    forall j :: i < j < |confs| ==> ToLower(confs[j].mac) != ToLower(confs[i].mac)
  }

  /** Every entry before position `n` has a known type tag. */
  predicate KnownTags(confs: seq<SensorConfig>, n: nat)
    requires n <= |confs|
  {
    forall j :: 0 <= j < n ==> ParseSensorType(confs[j].typ).Some?
  }

  /** Start-up succeeds exactly when every entry has a known type tag. */
  lemma {:induction false} BuildRegistrySuccess(confs: seq<SensorConfig>)
    ensures BuildRegistry(confs).Success? <==> KnownTags(confs, |confs|)
  {
    if confs != [] {
      var n := |confs| - 1;
      BuildRegistrySuccess(confs[..n]);
      assert KnownTags(confs, |confs|) <==> KnownTags(confs[..n], n) && ParseSensorType(confs[n].typ).Some? by {
        assert forall j :: 0 <= j < n ==> confs[..n][j] == confs[j];
      }
    }
  }

  /** When start-up fails, it names the first entry whose type tag is unknown. */
  lemma {:induction false} BuildRegistryFirstUnknown(confs: seq<SensorConfig>)
    requires BuildRegistry(confs).Failure?
    ensures exists i :: 0 <= i < |confs| && KnownTags(confs, i) && ParseSensorType(confs[i].typ).None?
                          && BuildRegistry(confs).error == confs[i].typ
  {
    var n := |confs| - 1;
    var init := confs[..n];
    if BuildRegistry(init).Failure? {
      BuildRegistryFirstUnknown(init);
      var i :| 0 <= i < n && KnownTags(init, i) && ParseSensorType(init[i].typ).None?
               && BuildRegistry(init).error == init[i].typ;
      assert forall j :: 0 <= j <= i ==> init[j] == confs[j];
      assert KnownTags(confs, i);
    } else {
      BuildRegistrySuccess(init);
      assert forall j :: 0 <= j < n ==> init[j] == confs[j];
      assert KnownTags(confs, n);
    }
  }

  /** Once a prefix of the configuration has failed, the whole configuration fails the same way. */
  lemma {:induction false} BuildRegistryFailureSticks(confs: seq<SensorConfig>, n: nat)
    requires n <= |confs| && BuildRegistry(confs[..n]).Failure?
    ensures BuildRegistry(confs) == BuildRegistry(confs[..n])
    decreases |confs| - n
  {
    if n < |confs| {
      assert confs[..n + 1][..n] == confs[..n];
      BuildRegistryFailureSticks(confs, n + 1);
    } else {
      assert confs[..n] == confs;
    }
  }
  /** Each prefix of the configuration extends the previous one by one pass of the setup loop. */
  /** A successful pass adds exactly the entry's lower-cased address to the registry's addresses. */
  lemma RegisterKeys(reg: Result<map<string, SensorSpec>, string>, c: SensorConfig)
    requires Register(reg, c).Success?
    ensures reg.Success? && Register(reg, c).value.Keys == reg.value.Keys + {ToLower(c.mac)}
  {
  }

  /** Registering an entry with a known tag stores its name and type under its lower-cased address. */
  lemma RegisterKnown(m: map<string, SensorSpec>, c: SensorConfig, kind: SensorType)
    requires ParseSensorType(c.typ) == Some(kind)
    ensures Register(Success(m), c) == Success(m[ToLower(c.mac) := SensorSpec(c.name, kind)])
  {
  }

  lemma BuildRegistryPrefix(confs: seq<SensorConfig>, i: nat)
    requires i < |confs|
    ensures BuildRegistry(confs[..i + 1]) == Register(BuildRegistry(confs[..i]), confs[i])
  {
    assert confs[..i + 1][..i] == confs[..i];
  }

  /** A successful registry is the registry of all but the last entry, updated by the last entry. */
  lemma BuildRegistryStep(confs: seq<SensorConfig>)
    requires confs != [] && BuildRegistry(confs).Success?
    ensures BuildRegistry(confs[..|confs| - 1]).Success?
    ensures ParseSensorType(confs[|confs| - 1].typ).Some?
    ensures BuildRegistry(confs).value
              == BuildRegistry(confs[..|confs| - 1]).value[ToLower(confs[|confs| - 1].mac) :=
                   SensorSpec(confs[|confs| - 1].name, ParseSensorType(confs[|confs| - 1].typ).value)]
  {
    var n := |confs| - 1;
    assert BuildRegistry(confs) == Register(BuildRegistry(confs[..n]), confs[n]);
  }

  /** On success every address in the registry comes from some configured entry. */
  lemma {:induction false} BuildRegistryKeysSound(confs: seq<SensorConfig>)
    requires BuildRegistry(confs).Success?
    ensures forall a :: a in BuildRegistry(confs).value ==>
              exists i :: 0 <= i < |confs| && ToLower(confs[i].mac) == a
  {
    if confs != [] {
      var n := |confs| - 1;
      var init := confs[..n];
      BuildRegistryStep(confs);
      BuildRegistryKeysSound(init);
      forall a | a in BuildRegistry(confs).value
        ensures exists i :: 0 <= i < |confs| && ToLower(confs[i].mac) == a
      {
        if a != ToLower(confs[n].mac) {
          var i :| 0 <= i < n && ToLower(init[i].mac) == a;
          assert init[i] == confs[i];
        }
      }
    }
  }

  /** On success every configured entry's lower-cased address is in the registry. */
  lemma {:induction false} BuildRegistryKeysComplete(confs: seq<SensorConfig>)
    requires BuildRegistry(confs).Success?
    ensures forall i :: 0 <= i < |confs| ==> ToLower(confs[i].mac) in BuildRegistry(confs).value
  {
    if confs != [] {
      var n := |confs| - 1;
      var init := confs[..n];
      BuildRegistryStep(confs);
      BuildRegistryKeysComplete(init);
      forall i | 0 <= i < n
        ensures ToLower(confs[i].mac) in BuildRegistry(confs).value
      {
        assert init[i] == confs[i];
      }
    }
  }

  /**
   * On success each address holds the name and decoder of the last entry
   * with that address: a later duplicate replaces an earlier one.
   */
  lemma {:induction false} BuildRegistryLastWins(confs: seq<SensorConfig>, i: nat)
    requires BuildRegistry(confs).Success?
    requires i < |confs| && LastWithAddress(confs, i)
    ensures ParseSensorType(confs[i].typ).Some?
    ensures ToLower(confs[i].mac) in BuildRegistry(confs).value
    ensures BuildRegistry(confs).value[ToLower(confs[i].mac)]
              == SensorSpec(confs[i].name, ParseSensorType(confs[i].typ).value)
  {
    var n := |confs| - 1;
    var init := confs[..n];
    BuildRegistryStep(confs);
    if i < n {
      assert init[i] == confs[i];
      assert LastWithAddress(init, i) by {
        forall j | i < j < n ensures ToLower(init[j].mac) != ToLower(init[i].mac) {
          assert init[j] == confs[j];
        }
      }
      BuildRegistryLastWins(init, i);
    }
  }

  /** Every address in the registry is lower case. */
  lemma RegistryAddressesLowerCase(confs: seq<SensorConfig>)
    requires BuildRegistry(confs).Success?
    ensures forall a :: a in BuildRegistry(confs).value ==> NoUpperAscii(a)
  {
    BuildRegistryKeysSound(confs);
  }

  // ---------------------------------------------------------------------
  // Records

  /** The measurement every record is written under. */
  const Measurement: string := "environment"

  /** A point for the time-series store: measurement, tags, fields and time. */
  datatype Record = Record(measurement: string, tags: map<string, string>, fields: Data, time: int)

  /** The point built for sensor `name`, tagged with its name. */
  function RecordFor(name: string, fields: Data, now: int): (r: Record)
    ensures r.measurement == Measurement && r.tags.Keys == {"name"} && r.tags["name"] == name
    ensures r.fields == fields && r.time == now
  {
    Record(Measurement, map["name" := name], fields, now)
  }

  /**
   * What one tick writes, given each sensor's name and flushed fields in
   * the order the tick visited them: a record for every non-empty flush,
   * none in dry-run mode.
   */
  function Emit(drained: seq<(string, Data)>, dryRun: bool, now: int): (r: seq<Record>)
    ensures dryRun ==> r == []
    ensures forall i :: 0 <= i < |r| ==> r[i].measurement == Measurement && r[i].fields != map[]
  {
    if drained == [] then []
    else
      var last := drained[|drained| - 1];
      Emit(drained[..|drained| - 1], dryRun, now)
        + if !dryRun && |last.1| > 0 then [RecordFor(last.0, last.1, now)] else []
  }

  /** Emitting one more flushed sensor appends at most its own record. */
  lemma EmitSnoc(drained: seq<(string, Data)>, last: (string, Data), dryRun: bool, now: int)
    ensures Emit(drained + [last], dryRun, now)
              == Emit(drained, dryRun, now) + if !dryRun && |last.1| > 0 then [RecordFor(last.0, last.1, now)] else []
  {
    assert (drained + [last])[..|drained|] == drained;
  }

  /**
   * Every record a tick writes comes from a sensor whose flush was
   * non-empty, and none is written in dry-run mode.
   */
  lemma {:induction false} EmitOnlyNonEmpty(drained: seq<(string, Data)>, dryRun: bool, now: int, r: Record)
    requires r in Emit(drained, dryRun, now)
    ensures !dryRun && r.fields != map[] && r.measurement == Measurement
    ensures exists i :: 0 <= i < |drained| && drained[i].1 != map[] && r == RecordFor(drained[i].0, drained[i].1, now)
  {
    var n := |drained| - 1;
    var init := drained[..n];
    if r in Emit(init, dryRun, now) {
      EmitOnlyNonEmpty(init, dryRun, now, r);
      var i :| 0 <= i < n && init[i].1 != map[] && r == RecordFor(init[i].0, init[i].1, now);
      assert drained[i] == init[i];
    } else {
      assert r == RecordFor(drained[n].0, drained[n].1, now);
    }
  }

  /** Outside dry-run mode, every sensor whose flush was non-empty gets its record. */
  lemma {:induction false} EmitEveryNonEmpty(drained: seq<(string, Data)>, dryRun: bool, now: int, i: nat)
    requires !dryRun && i < |drained| && drained[i].1 != map[]
    ensures RecordFor(drained[i].0, drained[i].1, now) in Emit(drained, dryRun, now)
  {
    var n := |drained| - 1;
    if i < n {
      var init := drained[..n];
      assert init[i] == drained[i];
      EmitEveryNonEmpty(init, dryRun, now, i);
    } else {
      assert |drained[n].1| > 0;
    }
  }

  /** A tick writes at most one record per sensor. */
  lemma {:induction false} EmitAtMostOnePerSensor(drained: seq<(string, Data)>, dryRun: bool, now: int)
    ensures |Emit(drained, dryRun, now)| <= |drained|
  {
    if drained != [] {
      EmitAtMostOnePerSensor(drained[..|drained| - 1], dryRun, now);
    }
  }

  /** What the tick sees, visiting the addresses in `order`: each sensor's name and stored fields. */
  function Drained(order: seq<string>, specs: map<string, SensorSpec>, contents: map<string, Data>): seq<(string, Data)>
    requires forall a :: a in order ==> a in specs && a in contents
  {
    if order == [] then []
    else
      var a := order[|order| - 1];
      Drained(order[..|order| - 1], specs, contents) + [(specs[a].name, contents[a])]
  }

  lemma DrainedSnoc(order: seq<string>, a: string, specs: map<string, SensorSpec>, contents: map<string, Data>)
    requires forall b :: b in order ==> b in specs && b in contents
    requires a in specs && a in contents
    ensures Drained(order + [a], specs, contents) == Drained(order, specs, contents) + [(specs[a].name, contents[a])]
  {
    assert (order + [a])[..|order|] == order;
  }

  /** Visiting one more sensor appends at most that sensor's own record. */
  lemma EmitDrainedSnoc(order: seq<string>, a: string, specs: map<string, SensorSpec>, contents: map<string, Data>, dryRun: bool, now: int)
    requires forall b :: b in order ==> b in specs && b in contents
    requires a in specs && a in contents
    ensures Emit(Drained(order + [a], specs, contents), dryRun, now)
              == Emit(Drained(order, specs, contents), dryRun, now) + Emit([(specs[a].name, contents[a])], dryRun, now)
  {
    DrainedSnoc(order, a, specs, contents);
    EmitSnoc(Drained(order, specs, contents), (specs[a].name, contents[a]), dryRun, now);
    EmitSnoc([], (specs[a].name, contents[a]), dryRun, now);
  }

  /**
   * Part way through a tick: `order` lists the addresses visited so far,
   * each once, and `remaining` the ones still to visit.
   */
  ghost predicate VisitSplit(order: seq<string>, remaining: set<string>, keys: set<string>) {
    && (forall a :: a in keys <==> a in remaining || a in order)
    && (forall a :: a in order ==> a !in remaining)
    && (forall i, j :: 0 <= i < j < |order| ==> order[i] != order[j])
    && |order| + |remaining| == |keys|
  }

  lemma VisitStep(order: seq<string>, remaining: set<string>, keys: set<string>, a: string)
    requires VisitSplit(order, remaining, keys) && a in remaining
    ensures VisitSplit(order + [a], remaining - {a}, keys)
    ensures |remaining - {a}| < |remaining|
  {
    assert |remaining - {a}| == |remaining| - 1;
  }

  /** At the end of a tick: every address was visited exactly once. */
  ghost predicate VisitsEach(order: seq<string>, keys: set<string>) {
    && (forall a :: a in keys <==> a in order)
    && (forall i, j :: 0 <= i < j < |order| ==> order[i] != order[j])
    && |order| == |keys|
  }

  lemma VisitDone(order: seq<string>, keys: set<string>)
    requires VisitSplit(order, {}, keys)
    ensures VisitsEach(order, keys)
  {
  }

  // ---------------------------------------------------------------------
  // The running monitor

  /**
   * The package-level `sensors` map: lower-cased address to sensor. It is
   * filled once during start-up and only read afterwards; the sensors it
   * points to are what changes.
   */
  type Registry = map<string, Sensor>

  /** Distinct addresses have distinct sensors (each was created by its own `newSensor`). */
  ghost predicate Distinct(sensors: Registry) {
    forall a, b :: a in sensors && b in sensors && a != b ==> sensors[a] != sensors[b]
  }

  /** The name and decoder stored under each address. */
  function SpecsOf(sensors: Registry): (m: map<string, SensorSpec>)
    ensures m.Keys == sensors.Keys
  {
    map a | a in sensors :: SensorSpec(sensors[a].name, sensors[a].kind)
  }

  /** The fields each sensor has stored since its last flush. */
  ghost function ContentsOf(sensors: Registry): map<string, Data>
    reads sensors.Values
  {
    map a | a in sensors :: sensors[a].data
  }

  /** Storing a sensor under an address stores its name and decoder there and changes no other entry. */
  lemma SpecsOfUpdate(sensors: Registry, mac: string, s: Sensor)
    ensures SpecsOf(sensors[mac := s]) == SpecsOf(sensors)[mac := SensorSpec(s.name, s.kind)]
  {
  }

  /**
   * The setup loop of `main`, starting from the empty map of `init`: create
   * one fresh, empty sensor per entry under its lower-cased address; an
   * unknown type tag is fatal.
   */
  method Configure(confs: seq<SensorConfig>) returns (r: Result<Registry, string>)
    ensures r.Success? <==> BuildRegistry(confs).Success?
    ensures r.Failure? ==> r.error == BuildRegistry(confs).error
    ensures r.Success? ==> Distinct(r.value) && SpecsOf(r.value) == BuildRegistry(confs).value
    ensures r.Success? ==> forall a :: a in r.value ==> fresh(r.value[a]) && r.value[a].data == map[]
  {
    var sensors: Registry := map[];
    var i := 0;
    while i < |confs|
      invariant 0 <= i <= |confs|
      invariant BuildRegistry(confs[..i]) == Success(SpecsOf(sensors))
      invariant Distinct(sensors)
      invariant forall a :: a in sensors ==> fresh(sensors[a]) && sensors[a].data == map[]
    {
      var c := confs[i];
      BuildRegistryPrefix(confs, i);
      var mac := ToLower(c.mac);
      match ParseSensorType(c.typ)
      case None =>
        BuildRegistryFailureSticks(confs, i + 1);
        return Failure(c.typ);
      case Some(kind) =>
        var s := new Sensor(c.name, kind);
        RegisterKnown(SpecsOf(sensors), c, kind);
        SpecsOfUpdate(sensors, mac, s);
        sensors := sensors[mac := s];
      i := i + 1;
    }
    assert confs[..|confs|] == confs;
    r := Success(sensors);
  }

  /** `advFilter`: an advertisement is handled only when its address is configured. */
  function AdvFilter(sensors: Registry, addr: string): (ok: bool)
    ensures ok <==> addr in SpecsOf(sensors)
  {
    addr in sensors
  }

  /**
   * `advHandler`: feed every service-data block, in order, to the sensor
   * at the address. The scanner calls it only after `advFilter` accepted.
   */
  method AdvHandler(sensors: Registry, addr: string, blocks: seq<seq<Byte>>)
    requires addr in sensors
    modifies sensors[addr]
    ensures sensors[addr].data == MergeAll(old(sensors[addr].data), DecodeAll(sensors[addr].kind, blocks))
  {
    var s := sensors[addr];
    for i := 0 to |blocks|
      invariant s.data == MergeAll(old(s.data), DecodeAll(s.kind, blocks[..i]))
    {
      assert DecodeAll(s.kind, blocks[..i + 1])[..i] == DecodeAll(s.kind, blocks[..i]);
      s.ProcessAdv(blocks[i]);
    }
    assert blocks[..|blocks|] == blocks;
  }

  /**
   * One advertisement as the scanner delivers it: the filter decides,
   * and only an accepted one reaches its sensor; nothing else changes.
   */
  method OnAdvertisement(sensors: Registry, addr: string, blocks: seq<seq<Byte>>) returns (accepted: bool)
    modifies if addr in sensors then {sensors[addr]} else {}
    ensures accepted <==> addr in SpecsOf(sensors)
    ensures accepted ==> sensors[addr].data == MergeAll(old(sensors[addr].data), DecodeAll(sensors[addr].kind, blocks))
  {
    accepted := AdvFilter(sensors, addr);
    if accepted {
      AdvHandler(sensors, addr, blocks);
    }
  }

  /** What `ContentsOf` holds for one configured address. */
  lemma ContentsOfAt(sensors: Registry, a: string)
    requires a in sensors
    ensures a in ContentsOf(sensors) && ContentsOf(sensors)[a] == sensors[a].data
  {
  }

  /** The stored fields part way through a tick: the sensors still to visit keep theirs, the rest are empty. */
  ghost function Pending(before: map<string, Data>, remaining: set<string>): (m: map<string, Data>)
    ensures m.Keys == before.Keys
  {
    map a | a in before :: if a in remaining then before[a] else map[]
  }

  /** Visiting one more address empties exactly that address. */
  lemma PendingStep(before: map<string, Data>, remaining: set<string>, a: string)
    requires a in before
    ensures Pending(before, remaining - {a}) == Pending(before, remaining)[a := map[]]
  {
  }

  /**
   * The tick's step for one sensor: flush it, and produce its record when
   * the flushed fields are non-empty and this is not a dry run. No other
   * sensor changes.
   */
  method FlushSensor(sensors: Registry, a: string, dryRun: bool, now: int) returns (emitted: seq<Record>)
    requires a in sensors && Distinct(sensors)
    modifies sensors[a]
    ensures ContentsOf(sensors) == old(ContentsOf(sensors))[a := map[]]
    ensures emitted == Emit([(sensors[a].name, old(sensors[a].data))], dryRun, now)
  {
    var s := sensors[a];
    var fields := s.Flush();
    emitted := [];
    if !dryRun && |fields| > 0 {
      emitted := [RecordFor(s.name, fields, now)];
    }
  }

  /**
   * One flush tick: visit every sensor once, in the map's (unspecified)
   * order, flush it, and write a record when its fields are non-empty and
   * this is not a dry run. Every sensor is left empty, dry run or not.
   */
  method Tick(sensors: Registry, dryRun: bool, now: int) returns (records: seq<Record>, ghost order: seq<string>)
    requires Distinct(sensors)
    modifies sensors.Values
    ensures VisitsEach(order, sensors.Keys)
    ensures records == Emit(Drained(order, SpecsOf(sensors), old(ContentsOf(sensors))), dryRun, now)
    ensures forall a :: a in sensors ==> sensors[a].data == map[]
  {
    ghost var before, specs, keys := ContentsOf(sensors), SpecsOf(sensors), sensors.Keys;
    assert specs.Keys == before.Keys == keys;
    var remaining := sensors.Keys;
    records, order := [], [];
    while remaining != {}
      invariant VisitSplit(order, remaining, keys)
      invariant ContentsOf(sensors) == Pending(before, remaining)
      invariant records == Emit(Drained(order, specs, before), dryRun, now)
      decreases |remaining|
    {
      var a :| a in remaining;
      ContentsOfAt(sensors, a);
      var emitted := FlushSensor(sensors, a, dryRun, now);
      PendingStep(before, remaining, a);
      EmitDrainedSnoc(order, a, specs, before, dryRun, now);
      records := records + emitted;
      VisitStep(order, remaining, keys, a);
      order := order + [a];
      remaining := remaining - {a};
    }
    VisitDone(order, keys);
    forall a | a in sensors
      ensures sensors[a].data == map[]
    {
      ContentsOfAt(sensors, a);
    }
  }
}
