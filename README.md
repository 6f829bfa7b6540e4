# mijiamon ingestion core in Dafny

mijiamon listens for Bluetooth LE advertisements from Xiaomi Mijia
temperature and humidity sensors. It decodes each vendor payload into a
small field map (`temperature`, `humidity`, `battery_pct`). It keeps the
latest value of every field per sensor. Once a minute it flushes every
sensor and writes one `environment` point per non-empty flush to InfluxDB.
All of it lives in `main.go`.

This project models that pipeline and proves its properties:

- `Bytes.dfy`: little-endian `uint16` reads and the `int16` conversion the
  decoders use, each with its inverse.
- `Decoders.dfy`: `processAdvLYWSD03MMC` (ATC firmware, fixed 15-byte frame)
  and `processAdvLYWSDCGQ` (sub-message selected by byte 13). Each has an
  encoder for the same layout, with round-trip lemmas in both directions.
  A bounds-checked LYWSDCGQ decoder is defined too (see Findings), and so is
  the decoder each sensor type is created with.
- `Accumulator.dfy`: the `sensor` type as a class with the mutable field
  `data`. It has `newSensor`, `processAdv` (overwrite each decoded field)
  and `flush` (hand back a copy, start over empty). Lemmas cover a series
  of merges: presence, last writer wins, and order independence for
  disjoint contributions.
- `HexFormat.dfy`: `formatHex` as the source's loop, proved against a
  characterisation of the spaced hex form. That form can be parsed back,
  and it is unique.
- `Monitor.dfy` covers the wiring in `main`:
  - the setup loop: lower-case the MAC, dispatch on the type tag, fail on
    an unknown tag;
  - `advFilter` and `advHandler`;
  - the flush tick, as a loop over the sensors in the map's unspecified
    order.
  The `sensors` map is the `Registry` value that setup returns. After
  setup only the sensors it points to change.
- `Scenarios.dfy`: client code. One configured sensor receives one frame,
  and the contracts determine exactly what the next two ticks write.

Readings stay exact. `Scaled(raw, divisor)` stands for the source's
`float64(raw) / divisor`, and `Int(n)` for `int(b[k])`.

## Model

| member | source | states |
|---|---|---|
| Bytes.Uint16LE | main.go:78-79 | The word read at `i` has `b[i]` as its low byte and `b[i+1]` as its high byte, and lies in 0..65535. |
| Bytes.PutUint16LEOfUint16LE | main.go:78-79 | Writing a read word back reproduces the two bytes it was read from. |
| Bytes.ToInt16 | main.go:78 | `int16(w)` lies in -32768..32767 and agrees with `w` modulo 65536. |
| Bytes.Int16Bits | main.go:78 | The encoders' inverse of the `int16(...)` conversions at main.go:78 and main.go:94: for every int16 value there is a 16-bit pattern that `int16(...)` reads back as that value. |
| Bytes.Int16BitsOfToInt16 | main.go:78 | The `int16` conversion loses no word: converting back gives the original bits. |
| Decoders.DecodeLYWSD03MMC | main.go:74-84 | Every block whose length is not 15 decodes to the empty map. A 15-byte block decodes to exactly `temperature`, `humidity` and `battery_pct`. |
| Decoders.DecodeEncodeLYWSD03MMC | main.go:76-81 | A valid reading (int16 temperature, uint16 humidity, byte battery) written into any 15-byte frame decodes to that reading's fields, scaled by 1/100. |
| Decoders.EncodeDecodeLYWSD03MMC | main.go:76-81 | Every 15-byte block decodes to the fields of some valid reading, and writing that reading back into the block reproduces the block. |
| Decoders.DecodeLYWSD03MMCExample | main.go:78 | The bytes 0x47 0x09 at offset 6 decode to 2375/100 degrees. |
| Decoders.DecodeLYWSD03MMCNegative | main.go:78 | A temperature word with its top bit set decodes to a negative temperature. |
| Decoders.InCGQDomain | main.go:87-95 | The blocks the source's decoder reads only within their length. Every block of 18 or more bytes is one, and none of 13 bytes or fewer is. |
| Decoders.DecodeLYWSDCGQ | main.go:86-99 | The source's decoder, defined only where it does not panic. Discriminator 0x01 yields exactly `battery_pct`, 0x04 exactly `temperature` and `humidity`, and the result is empty iff the discriminator is neither. |
| Decoders.DecodeEncodeLYWSDCGQ | main.go:87-96 | A valid battery or climate sub-message written at offset 13 of any frame long enough to hold it (15 bytes for a battery message, 18 for a climate message) decodes to exactly that message's fields: `battery_pct` equal to byte 14, or temperature and humidity in tenths. |
| Decoders.EncodeDecodeLYWSDCGQ | main.go:87-96 | Every block the source can decode whose discriminator is 0x01 or 0x04 (a battery block of 15 or more bytes, a climate block of 18 or more) decodes to the fields of some valid message, and writing that message back reproduces the block. |
| Decoders.DecodeLYWSDCGQChecked | main.go:86-99 | Wherever the source's decoder can run, this one agrees with it. On every block the source would index out of range, it returns the empty map. |
| Decoders.TruncatedClimateOutsideDomain | main.go:92-95 | A block of 14 to 17 bytes with discriminator 0x04 is outside the model's domain, and the checked decoder yields no fields for it. |
| Decoders.ShortBlockOutsideDomain | main.go:87-90 | A block of 13 bytes or fewer, or a 14-byte battery message, makes the source index `b[13]` or `b[14]` out of range. The checked decoder yields no fields for it. |
| Decoders.Decode | main.go:178-180 | A sensor's decoder produces only the three known field names. It is the ATC decoder for LYWSD03MMC and agrees with the source's LYWSDCGQ decoder wherever that one is defined. |
| Accumulator.Merge | main.go:58-60 | After storing a field map, every incoming field holds its new value and every other stored field is unchanged. An empty field map changes nothing. |
| Accumulator.MergeAll | main.go:147-151 | Storing the decoded blocks one after another never loses a stored field, and the last block's fields hold their values. |
| Accumulator.DecodeAll | main.go:147-151 | One decoder output per block, in block order. |
| Accumulator.MergeAllPresence | main.go:58-60 | After several stores, a field is present iff it was present before or some store carried it. |
| Accumulator.MergeAllLastCarrier | main.go:58-60 | After several stores, a field holds the value from the last store that carried it: the last writer wins. |
| Accumulator.MergeAllUntouched | main.go:58-60 | A stored field that no later store carried keeps its value. |
| Accumulator.CarriedFieldSurvivesReorder | main.go:56-60 | With disjoint contributions, a carried field ends up with its value whatever order the stores ran in. |
| Accumulator.MergeOrderIrrelevant | main.go:56-60 | Stores with pairwise disjoint field names give the same stored map in any order, so no contribution is lost whichever caller takes the lock first. |
| Accumulator.Sensor.constructor | main.go:46-53 | A new sensor has the given name and decoder and stores nothing. |
| Accumulator.Sensor.ProcessAdv | main.go:55-61 | After the loop over the decoder output, `data` is the old `data` overridden by the decoded fields. |
| Accumulator.Sensor.Flush | main.go:63-72 | Returns a copy equal to the stored fields before the call and leaves the sensor empty. |
| HexFormat.HexDigit | main.go:132 | Each nibble becomes one lower-case hex digit, and that digit reads back as the nibble. |
| HexFormat.EncodeToString | main.go:132 | `hex.EncodeToString` writes two digits per byte, high nibble first, at positions 2k and 2k+1. |
| HexFormat.FormatHexStep | main.go:135-141 | One pass of the loop extends the spaced form by one byte: its two digits, then a space unless it is the last byte. |
| HexFormat.FormatHex | main.go:131-143 | The output is the spaced hex form of the input. It is empty for no bytes and has length 3n-1 for n bytes. Byte k's digits sit at 3k and 3k+1, and every position 3k+2 is a space, so there is no trailing space. |
| HexFormat.ParseSpacedHexInverse | main.go:131-143 | The spaced hex form loses nothing: parsing it gives back the bytes. |
| HexFormat.SpacedHexUnique | main.go:131-143 | A byte sequence has only one spaced hex form, so that form determines `formatHex`'s result. |
| Monitor.ParseSensorType | main.go:176-182 | A recognised tag is the tag of the type it selects. An unrecognised tag is the tag of no type. |
| Monitor.ParseTypeTag | main.go:177-180 | Each type's own tag selects that type. |
| Monitor.ToLower | main.go:175 | Same length, no upper-case ASCII letter left, and each character is kept or is an upper-case letter moved to lower case. |
| Monitor.ToLowerIdempotent | main.go:175 | Lower-casing an already lower-cased address changes nothing. |
| Monitor.Register | main.go:175-183 | One pass of the setup loop. A failure stays that failure. Otherwise it succeeds iff the entry's tag is known, and fails with that tag if not. |
| Monitor.RegisterKeys | main.go:175-180 | A successful pass adds exactly the entry's lower-cased MAC to the registry's addresses. |
| Monitor.RegisterKnown | main.go:175-180 | A pass over an entry with a known tag stores the entry's name and type under its lower-cased MAC. |
| Monitor.BuildRegistry | main.go:174-184 | The setup loop over all entries. A successful registry has no more addresses than there are entries. |
| Monitor.BuildRegistrySuccess | main.go:174-184 | Start-up succeeds iff every configured entry has a known type tag. |
| Monitor.BuildRegistryFirstUnknown | main.go:181-182 | When start-up fails, it reports the tag of the first entry whose tag is unknown. |
| Monitor.BuildRegistryFailureSticks | main.go:182 | Once an entry has failed, later entries change nothing: the outcome is that failure. |
| Monitor.BuildRegistryPrefix | main.go:174 | Each entry extends the registry of the entries before it by one pass of the loop. |
| Monitor.BuildRegistryStep | main.go:174-180 | A successful registry is the registry of all but the last entry, updated under the last entry's lower-cased address. |
| Monitor.BuildRegistryKeysSound | main.go:175-180 | On success every registry address is the lower-cased MAC of some entry. |
| Monitor.BuildRegistryKeysComplete | main.go:175-180 | On success every entry's lower-cased MAC is a registry address. |
| Monitor.BuildRegistryLastWins | main.go:177-180 | On success each address holds the name and decoder of the last entry with that address. |
| Monitor.RegistryAddressesLowerCase | main.go:175 | Configured addresses are stored in lower case. |
| Monitor.RecordFor | main.go:194-201 | The point written for a sensor: measurement `environment`, the single tag `name` set to the sensor's name, the flushed fields and the tick's time. |
| Monitor.Emit | main.go:190-206 | What one tick writes for the sensors' flushed fields in visit order. Nothing is written in dry-run mode, and every record has measurement `environment` and non-empty fields. |
| Monitor.EmitSnoc | main.go:193-205 | Flushing one more sensor appends at most that sensor's own record. |
| Monitor.EmitOnlyNonEmpty | main.go:193 | Every record a tick writes comes from a non-empty flush, carries those fields under measurement `environment`, and none is written in dry-run mode. |
| Monitor.EmitEveryNonEmpty | main.go:193-201 | Outside dry-run mode every non-empty flush gets its record. |
| Monitor.EmitAtMostOnePerSensor | main.go:190-206 | A tick writes at most one record per sensor. |
| Monitor.DrainedSnoc | main.go:190-191 | Visiting one more address appends that sensor's name and flushed fields. |
| Monitor.EmitDrainedSnoc | main.go:190-206 | Visiting one more address appends exactly the records of that sensor alone. |
| Monitor.VisitStep | main.go:190 | Taking one unvisited address keeps the visit bookkeeping: every address is visited or pending, none twice. |
| Monitor.VisitDone | main.go:190 | When nothing is pending, every address was visited exactly once. |
| Monitor.SpecsOfUpdate | main.go:178-180 | Storing a sensor under an address stores its name and decoder there and changes no other entry. |
| Monitor.Configure | main.go:174-184 | Succeeds iff every tag is known, and otherwise fails with the registry's error, which is the first unknown tag. On success the distinct fresh, empty sensors hold exactly the names and decoders of the registry. |
| Monitor.AdvFilter | main.go:154-157 | An advertisement passes iff its address is a configured address. |
| Monitor.AdvHandler | main.go:145-152 | The sensor's data becomes the old data with each block's decoded fields stored in block order. |
| Monitor.OnAdvertisement | main.go:145-157 | An advertisement is accepted iff its address is configured. Only then is it stored, as `advHandler` stores it, and no other sensor changes. |
| Monitor.ContentsOfAt | main.go:190-191 | The contents snapshot holds each sensor's stored fields. |
| Monitor.PendingStep | main.go:190-191 | Visiting one more address empties exactly that address. |
| Monitor.FlushSensor | main.go:191-205 | The visited sensor is emptied and no other changes. The records are that sensor's one record when its flushed fields are non-empty and this is not a dry run, and none otherwise. |
| Monitor.Tick | main.go:186-209 | Each sensor is visited exactly once, in some order. The records are those `Emit` gives for each sensor's fields before the tick, in that order. Every sensor ends empty, dry run or not. |
| Scenarios.FlushAfterProcess | main.go:55-72 | A sensor that stores one block and is flushed twice hands back exactly the decoded fields, then nothing. |
| Scenarios.KitchenRegistry | main.go:174-180 | A single LYWSD03MMC entry with an upper-case MAC registers under the lower-cased address. |
| Scenarios.KitchenDecodes | main.go:76-81 | A frame with 0x0852, 0x11d0 and 88 decodes to 21.30 degrees, 45.60 percent and battery 88. |
| Scenarios.SingleVisit | main.go:190 | A tick over one sensor visits just that sensor. |
| Scenarios.EndToEnd | main.go:174-214 | After one accepted frame, the first tick writes exactly one record with the decoded fields, and the second writes nothing. An unknown address is dropped. |

## Left out

- Radio I/O is not modelled: BLE device setup, the scan, and the signal-handling context (main.go:111-115, 211-214). The scanner appears only as calls to `OnAdvertisement`.
- TOML decoding of the configuration file and flag parsing are not modelled (main.go:117-120, 164-168). The decoded `[[Sensors]]` list is the input of `Configure`, and `dryRun` is a parameter.
- The InfluxDB client is not modelled (main.go:170-172, 194-205). Building and writing a point becomes appending a `Record` to the tick's result. A failed write only prints a message and the loop goes on, so it changes nothing in the model.
- The pprof HTTP server and all logging (`log.Printf`, `vlog`) are not modelled, including the `formatHex` call inside `advHandler`'s verbose log line.
- The mutexes, the goroutines and the one-minute ticker are not modelled. Each `processAdv` and `flush` call is one atomic step, and a tick is one call. `MergeOrderIrrelevant` covers the order in which concurrent stores win the lock.
- Float division is not modelled: `Scaled(raw, divisor)` keeps the exact reading instead of the rounded `float64`.
- Decoders.DecodeLYWSDCGQ: `InCGQDomain` treats every 0x04 block shorter than 18 bytes as a panic. Go bounds the slices `b[14:16]` and `b[16:18]` by the slice's capacity, not its length, so a block of 14 to 17 bytes panics only if the buffer behind it is also short. Otherwise the source decodes bytes past the block's end, which the model cannot see.
- Accumulator.Sensor.ProcessAdv: an LYWSDCGQ sensor stores a short block through the checked decoder, so it stores nothing. The source panics on such a block (see Findings). The same holds for `AdvHandler` and `OnAdvertisement`, which reach the decoder through `ProcessAdv`, so a later `Tick` writes nothing for that block.
- Monitor.ToLower: lower-cases ASCII letters only, not all of Unicode as `strings.ToLower` does. Configured MAC addresses are ASCII.
- Monitor.Tick: one `now` serves for the whole tick, where the source calls `time.Now()` for each point. The order in which Go's `range` visits the map is a ghost output, constrained only to visit each sensor once.
- Monitor.Configure: `log.Fatalf` becomes a `Failure` result. The partly built map is dropped, because the process would exit.
- Monitor.AdvHandler: requires a configured address, because the scanner calls it only after `advFilter` accepted. An unfiltered call would dereference a nil sensor in the source.
- Active polling of sensors and poll intervals are not modelled: `main.go` has neither.

## Findings

| source | as written | input that shows it | evidently intended | confidence | as-written member | corrected member |
|---|---|---|---|---|---|---|
| main.go:86-99 | `processAdvLYWSDCGQ` indexes `b[13]` and `b[14]` and slices `b[14:16]` and `b[16:18]` with no length check. A short block from a configured LYWSDCGQ address panics and stops the process. | any block of 13 bytes or fewer (`b[13]` is out of range), or a block of length 14 with byte 13 = 0x01 | a block too short for its sub-message yields no fields, as every other unrecognised block does | not executed; the index panics are certain for blocks of 13 bytes or fewer | Decoders.ShortBlockOutsideDomain | Decoders.DecodeLYWSDCGQChecked |

The as-written decoder `DecodeLYWSDCGQ` carries the source's implicit
bounds as its precondition `InCGQDomain`. `Decode`, and with it every
sensor in the model, uses the checked decoder. The two agree on every block
the source can handle.

A climate message of 14 to 17 bytes (`TruncatedClimateOutsideDomain`) is
a special case. Go checks the slices `b[14:16]` and `b[16:18]` against the
slice's capacity rather than its length, so whether it panics depends on
the buffer behind the block. The model treats any read past the length as
out of range, and the finding above claims only the index panics.
