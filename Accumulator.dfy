/**
 * The per-sensor accumulator (`sensor`, `newSensor`, `processAdv`, `flush`).
 *
 * A sensor keeps the latest value of every field decoded since the last
 * flush. The source guards each call with a mutex; here each method is one
 * atomic step.
 */
module Accumulator {
  import opened Bytes
  import opened Decoders

  /** Storing a decoder's output: every incoming field overwrites, every other field stays. */
  function Merge(d: Data, fields: Data): (r: Data)
    ensures r.Keys == d.Keys + fields.Keys
    ensures forall k :: k in fields ==> r[k] == fields[k]
    ensures forall k :: k in d && k !in fields ==> r[k] == d[k]
    ensures fields == map[] ==> r == d
  {
    d + fields
  }

  /** The stored fields after merging each field map of `fs`, first to last. */
  function MergeAll(d: Data, fs: seq<Data>): (r: Data)
    ensures d.Keys <= r.Keys
    ensures fs != [] ==> forall k :: k in fs[|fs| - 1] ==> k in r && r[k] == fs[|fs| - 1][k]
  {
    if fs == [] then d else Merge(MergeAll(d, fs[..|fs| - 1]), fs[|fs| - 1])
  }

  /** The decoder output of each block, in order. */
  function DecodeAll(kind: SensorType, blocks: seq<seq<Byte>>): (fs: seq<Data>)
    ensures |fs| == |blocks|
    ensures forall i :: 0 <= i < |blocks| ==> fs[i] == Decode(kind, blocks[i])
  {
    if blocks == [] then [] else [Decode(kind, blocks[0])] + DecodeAll(kind, blocks[1..])
  }

  /** No field map after position `i` carries `key`. */
  predicate NoneCarriesAfter(fs: seq<Data>, key: string, i: int) {
    forall j :: 0 <= j < |fs| && i < j ==> key !in fs[j]
  }

  /** After merging `fs`, a field is present exactly when it was stored before or some map carried it. */
  lemma {:induction false} MergeAllPresence(d: Data, fs: seq<Data>, key: string)
    ensures key in MergeAll(d, fs) <==> key in d || exists i :: 0 <= i < |fs| && key in fs[i]
  {
    if fs != [] {
      var n := |fs| - 1;
      var init := fs[..n];
      MergeAllPresence(d, init, key);
      if key in MergeAll(d, fs) && key !in d && key !in fs[n] {
        var i :| 0 <= i < n && key in init[i];
        assert key in fs[i];
      }
      if i :| 0 <= i < n && key in fs[i] {
        assert key in init[i];
      }
    }
  }

  /** After merging `fs`, a field holds the value of the last map that carried it. */
  lemma {:induction false} MergeAllLastCarrier(d: Data, fs: seq<Data>, key: string, i: nat)
    requires i < |fs| && key in fs[i] && NoneCarriesAfter(fs, key, i)
    ensures key in MergeAll(d, fs) && MergeAll(d, fs)[key] == fs[i][key]
  {
    var n := |fs| - 1;
    if i < n {
      var init := fs[..n];
      assert init[i] == fs[i];
      assert NoneCarriesAfter(init, key, i) by {
        forall j | 0 <= j < n && i < j ensures key !in init[j] {
          assert init[j] == fs[j];
        }
      }
      MergeAllLastCarrier(d, init, key, i);
    }
  }

  /** After merging `fs`, a stored field that no map carried keeps its old value. */
  lemma {:induction false} MergeAllUntouched(d: Data, fs: seq<Data>, key: string)
    requires key in d && NoneCarriesAfter(fs, key, -1)
    ensures key in MergeAll(d, fs) && MergeAll(d, fs)[key] == d[key]
  {
    if fs != [] {
      var n := |fs| - 1;
      var init := fs[..n];
      assert NoneCarriesAfter(init, key, -1) by {
        forall j | 0 <= j < n ensures key !in init[j] {
          assert init[j] == fs[j];
        }
      }
      MergeAllUntouched(d, init, key);
    }
  }

  /** Field maps with pairwise disjoint names: no two contributions touch the same field. */
  predicate PairwiseDisjoint(fs: seq<Data>) {
    forall i, j :: 0 <= i < j < |fs| ==> fs[i].Keys !! fs[j].Keys
  }

  /** A field carried by one of `fs` is stored, with the same value, after merging any reordering of `fs`. */
  lemma CarriedFieldSurvivesReorder(d: Data, fs: seq<Data>, gs: seq<Data>, key: string, i: nat)
    requires PairwiseDisjoint(fs) && PairwiseDisjoint(gs)
    requires multiset(fs) == multiset(gs)
    requires i < |fs| && key in fs[i]
    ensures key in MergeAll(d, fs) && key in MergeAll(d, gs)
    ensures MergeAll(d, fs)[key] == MergeAll(d, gs)[key] == fs[i][key]
  {
    assert fs[i] in multiset(gs);
    var j :| 0 <= j < |gs| && gs[j] == fs[i];
    MergeAllLastCarrier(d, fs, key, i);
    MergeAllLastCarrier(d, gs, key, j);
  }

  /**
   * Merges with disjoint field names do not depend on their order: whichever
   * order concurrent callers win the lock in, the stored fields are the same,
   * and no contribution is lost.
   */
  lemma MergeOrderIrrelevant(d: Data, fs: seq<Data>, gs: seq<Data>)
    requires PairwiseDisjoint(fs) && PairwiseDisjoint(gs)
    requires multiset(fs) == multiset(gs)
    ensures MergeAll(d, fs) == MergeAll(d, gs)
  {
    var a, b := MergeAll(d, fs), MergeAll(d, gs);
    forall key
      ensures key in a <==> key in b
      ensures key in a ==> a[key] == b[key]
    {
      if i :| 0 <= i < |fs| && key in fs[i] {
        CarriedFieldSurvivesReorder(d, fs, gs, key, i);
      } else if j :| 0 <= j < |gs| && key in gs[j] {
        CarriedFieldSurvivesReorder(d, gs, fs, key, j);
      } else {
        MergeAllPresence(d, fs, key);
        MergeAllPresence(d, gs, key);
        if key in d {
          MergeAllUntouched(d, fs, key);
          MergeAllUntouched(d, gs, key);
        }
      }
    }
  }

  /** One sensor: its display name, its decoder, and the fields stored since the last flush. */
  class Sensor {
    const name: string
    const kind: SensorType
    var data: Data

    /** `newSensor`: nothing stored yet. */
    constructor (name: string, kind: SensorType)
      ensures this.name == name && this.kind == kind && data == map[]
    {
      this.name := name;
      this.kind := kind;
      data := map[];
    }

    /** `processAdv`: decode the block and overwrite each decoded field. */
    method ProcessAdv(b: seq<Byte>)
      modifies this
      ensures data == Merge(old(data), Decode(kind, b))
    {
      var fields := Decode(kind, b);
      var pending := fields.Keys;
      while pending != {}
        invariant pending <= fields.Keys
        invariant data.Keys == old(data).Keys + (fields.Keys - pending)
        invariant forall k :: k in fields && k !in pending ==> data[k] == fields[k]
        invariant forall k :: k in old(data) && (k !in fields || k in pending) ==> data[k] == old(data)[k]
        decreases pending
      {
        var k :| k in pending;
        data := data[k := fields[k]];
        pending := pending - {k};
      }
    }

    /** `flush`: hand back a copy of the stored fields and start over with none. */
    method Flush() returns (ret: Data)
      modifies this
      ensures ret == old(data) && data == map[]
    {
      ret := map[];
      var pending := data.Keys;
      while pending != {}
        invariant data == old(data)
        invariant pending <= data.Keys
        invariant ret.Keys == data.Keys - pending
        invariant forall k :: k in ret ==> ret[k] == data[k]
        decreases pending
      {
        var k :| k in pending;
        ret := ret[k := data[k]];
        pending := pending - {k};
      }
      data := map[];
    }
  }
}
