/**
 * PickleDb: an in-memory key-value store that keeps its whole dataset in memory
 * and dumps it to one file according to a dump policy.
 *
 * A key holds either a scalar (one payload) or a list (a sequence of payloads),
 * never both when the store only changes through these operations. Payloads are
 * the codec's encoding of values; every read decodes afresh, asking for a kind.
 * The database file is modelled by the ghost field `file`, which a dump replaces
 * by the current pair of maps, and the ghost counter `writes`, which every dump
 * increases.
 */
module Store {
  import opened Wrappers
  import opened Codec
  import opened Dumping
  import opened Lists

  /** What a dump writes to the database file: the scalar map and the list map. */
  type Snapshot = (map<string, string>, map<string, seq<string>>)

  datatype LoadError = UnreadableFile

  /** The keys of `m`, each once, in an order the model leaves open. */
  method KeysOf<V>(m: map<string, V>) returns (keys: seq<string>)
    ensures |keys| == |m|
    ensures forall k :: k in keys <==> k in m
    ensures Distinct(keys)
  {
    keys := [];
    var rest := m.Keys;
    while rest != {}
      invariant rest <= m.Keys
      invariant forall k :: k in keys <==> k in m && k !in rest
      invariant Distinct(keys)
      invariant |keys| + |rest| == |m.Keys|
      decreases |rest|
    {
      var k :| k in rest;
      keys := keys + [k];
      rest := rest - {k};
    }
  }

  class PickleDb {
    var valueMap: map<string, string>
    var listMap: map<string, seq<string>>
    const dbFilePath: string
    const dumpPolicy: DumpPolicy
    var lastDump: nat
    ghost var file: Option<Snapshot>
    ghost var writes: nat

    /** Key exclusivity: no key is a scalar and a list at once. */
    predicate Exclusive()
      reads this
    {
      valueMap.Keys !! listMap.Keys
    }

    /** Every key in the store, scalar or list. */
    ghost function Keys(): set<string>
      reads this
    {
      valueMap.Keys + listMap.Keys
    }

    ghost function Contents(): Snapshot
      reads this
    {
      (valueMap, listMap)
    }

    /** The file and the dump clock as a change left them: written iff the policy's hook fired. */
    twostate predicate DumpedAfterChange(now: nat)
      reads this
    {
      if MutationWrites(dumpPolicy, old(lastDump), now) then
        && file == Some(Contents())
        && writes == old(writes) + 1
        && lastDump == LastDumpAfterWrite(dumpPolicy, old(lastDump), now)
      else
        Undumped()
    }

    twostate predicate Undumped()
      reads this
    {
      file == old(file) && writes == old(writes) && lastDump == old(lastDump)
    }

    /** A new, empty store; `onDisk` is whatever the file at `location` holds already. */
    constructor New(location: string, policy: DumpPolicy, now: nat, ghost onDisk: Option<Snapshot>)
      ensures valueMap == map[] && listMap == map[]
      ensures dbFilePath == location && dumpPolicy == policy && lastDump == now
      ensures file == onDisk && writes == 0
      ensures Exclusive()
    {
      valueMap := map[];
      listMap := map[];
      dbFilePath := location;
      dumpPolicy := policy;
      lastDump := now;
      file := onDisk;
      writes := 0;
    }

    /** A store holding the maps read back from the file at `location`. */
    constructor FromFile(location: string, policy: DumpPolicy, now: nat, stored: Snapshot)
      ensures valueMap == stored.0 && listMap == stored.1
      ensures dbFilePath == location && dumpPolicy == policy && lastDump == now
      ensures file == Some(stored) && writes == 0
    {
      valueMap := stored.0;
      listMap := stored.1;
      dbFilePath := location;
      dumpPolicy := policy;
      lastDump := now;
      file := Some(stored);
      writes := 0;
    }

    /**
     * Loads a store from the file at `location`. `stored` is the file as the codec
     * reads it: `None` when the file cannot be read or is not a dump. Loading does
     * not check key exclusivity: a store is exclusive iff the file's maps are.
     */
    static method Load(location: string, policy: DumpPolicy, now: nat, stored: Option<Snapshot>)
      returns (r: Result<PickleDb, LoadError>)
      ensures stored.None? <==> r.Failure?
      ensures r.Success? ==>
        && fresh(r.value)
        && r.value.valueMap == stored.value.0 && r.value.listMap == stored.value.1
        && r.value.dbFilePath == location && r.value.dumpPolicy == policy
        && r.value.lastDump == now && r.value.file == stored && r.value.writes == 0
        && (r.value.Exclusive() <==> stored.value.0.Keys !! stored.value.1.Keys)
    {
      if stored.None? {
        return Failure(UnreadableFile);
      }
      var db := new PickleDb.FromFile(location, policy, now, stored.value);
      r := Success(db);
    }

    /** Loads a store that never writes its file: Load under NeverDump. */
    static method LoadReadOnly(location: string, now: nat, stored: Option<Snapshot>)
      returns (r: Result<PickleDb, LoadError>)
      ensures stored.None? <==> r.Failure?
      ensures r.Success? ==>
        && fresh(r.value)
        && r.value.valueMap == stored.value.0 && r.value.listMap == stored.value.1
        && r.value.dbFilePath == location && r.value.dumpPolicy == NeverDump
        && r.value.lastDump == now && r.value.file == stored && r.value.writes == 0
    {
      r := Load(location, NeverDump, now, stored);
    }

    /**
     * Writes the data to the file, unless the policy is NeverDump, and reports
     * success. Under PeriodicDump the write also restarts the cooldown.
     */
    method Dump(now: nat) returns (ok: bool)
      modifies this
      ensures ok
      ensures valueMap == old(valueMap) && listMap == old(listMap)
      ensures RequestWrites(dumpPolicy) ==>
        && file == Some(Contents())
        && writes == old(writes) + 1
        && lastDump == LastDumpAfterWrite(dumpPolicy, old(lastDump), now)
      ensures !RequestWrites(dumpPolicy) ==> Undumped()
    {
      if dumpPolicy.NeverDump? {
        return true;
      }
      file := Some((valueMap, listMap));
      writes := writes + 1;
      if dumpPolicy.PeriodicDump? {
        lastDump := now;
      }
      ok := true;
    }

    /** The hook every change runs: AutoDump writes, PeriodicDump writes once its cooldown is over. */
    method DumpDb(now: nat)
      modifies this
      ensures valueMap == old(valueMap) && listMap == old(listMap)
      ensures DumpedAfterChange(now)
    {
      match dumpPolicy
      case AutoDump =>
        var _ := Dump(now);
      case PeriodicDump(interval) =>
        if Elapsed(lastDump, now) > interval {
          lastDump := now;
          var _ := Dump(now);
        }
      case _ =>
    }

    /** Stores `value` as the scalar under `key`, replacing a scalar or a list held there. */
    method Set(key: string, value: Value, now: nat)
      modifies this
      ensures valueMap == old(valueMap)[key := Encode(value)]
      ensures listMap == old(listMap) - {key}
      ensures Get(key, KindOf(value)) == Some(value)
      ensures old(Exclusive()) ==> Exclusive()
      ensures DumpedAfterChange(now)
    {
      if key in listMap {
        listMap := listMap - {key};
      }
      valueMap := valueMap[key := Encode(value)];
      DecodeEncode(value, KindOf(value));
      DumpDb(now);
    }

    /** The scalar under `key` read as a value of `kind`; None when there is none or it is not of that kind. */
    function Get(key: string, kind: Kind): (r: Option<Value>)
      reads this
      ensures key !in valueMap ==> r == None
      ensures forall v :: r == Some(v) <==> key in valueMap && valueMap[key] == Encode(v) && KindOf(v) == kind
    {
      if key in valueMap then
        assert forall v :: Decode(valueMap[key], kind) == Some(v) <==> valueMap[key] == Encode(v) && KindOf(v) == kind by {
          forall v { DecodeIff(valueMap[key], kind, v); }
        }
        Decode(valueMap[key], kind)
      else
        None
    }

    /** Whether `key` holds a scalar or a list. */
    function Exists(key: string): (b: bool)
      reads this
      ensures b <==> key in Keys()
      ensures !b ==> LLen(key) == 0 && forall kind :: Get(key, kind) == None
    {
      key in valueMap || key in listMap
    }

    /** All keys, scalars and lists, in an order the model leaves open. */
    method GetAll() returns (keys: seq<string>)
      ensures |keys| == TotalKeys()
      ensures forall k :: k in keys <==> k in Keys()
      ensures Exclusive() ==> Distinct(keys)
    {
      var scalars := KeysOf(valueMap);
      var lists := KeysOf(listMap);
      keys := scalars + lists;
      if Exclusive() {
        forall i, j | 0 <= i < j < |keys| ensures keys[i] != keys[j] {
          if j >= |scalars| && i < |scalars| {
            assert keys[i] in valueMap && keys[j] in listMap;
          }
        }
      }
    }

    /** The number of entries of both maps: the number of keys when keys are exclusive. */
    function TotalKeys(): (n: nat)
      reads this
      ensures n >= |Keys()|
      ensures Exclusive() <==> n == |Keys()|
    {
      assert |valueMap| == |valueMap.Keys| && |listMap| == |listMap.Keys|;
      |valueMap| + |listMap|
    }

    /** Removes the scalar or the list under `key`; reports whether there was one. */
    method Rem(key: string, now: nat) returns (removed: bool)
      modifies this
      ensures removed <==> key in old(Keys())
      ensures key in old(valueMap) ==> valueMap == old(valueMap) - {key} && listMap == old(listMap)
      ensures key !in old(valueMap) ==> valueMap == old(valueMap) && listMap == old(listMap) - {key}
      ensures old(Exclusive()) ==> Exclusive() && key !in Keys()
      ensures DumpedAfterChange(now)
    {
      removed := key in valueMap;
      if removed {
        valueMap := valueMap - {key};
      } else {
        removed := key in listMap;
        listMap := listMap - {key};
      }
      DumpDb(now);
    }

    /** Makes `name` an empty list, replacing a scalar or a list held there. */
    method LCreate(name: string, now: nat)
      modifies this
      ensures valueMap == old(valueMap) - {name}
      ensures listMap == old(listMap)[name := []]
      ensures LExists(name) && LLen(name) == 0
      ensures old(Exclusive()) ==> Exclusive()
      ensures DumpedAfterChange(now)
    {
      if name in valueMap {
        valueMap := valueMap - {name};
      }
      listMap := listMap[name := []];
      DumpDb(now);
    }

    /** Whether `name` holds a list. */
    function LExists(name: string): (b: bool)
      reads this
      ensures b ==> Exists(name)
      ensures b && Exclusive() ==> forall kind :: Get(name, kind) == None
      ensures !b ==> LLen(name) == 0
    {
      name in listMap
    }

    /** Appends `value` to the list `name`; false, and no change, when there is no such list. */
    method LAdd(name: string, value: Value, now: nat) returns (ok: bool)
      modifies this
      ensures ok <==> name in old(listMap)
      ensures valueMap == old(valueMap)
      ensures ok ==> listMap == old(listMap)[name := old(listMap)[name] + [Encode(value)]]
      ensures ok ==> LGet(name, old(LLen(name)), KindOf(value)) == Some(value)
      ensures ok ==> DumpedAfterChange(now)
      ensures !ok ==> listMap == old(listMap) && Undumped()
    {
      assert EncodeAll([value]) == [Encode(value)];
      ok := LExtend(name, [value], now);
    }

    /** Appends `values`, in order, to the list `name`; false, and no change, when there is no such list. */
    method LExtend(name: string, values: seq<Value>, now: nat) returns (ok: bool)
      modifies this
      ensures ok <==> name in old(listMap)
      ensures valueMap == old(valueMap)
      ensures ok ==> listMap == old(listMap)[name := old(listMap)[name] + EncodeAll(values)]
      ensures ok ==> forall i :: 0 <= i < |values| ==>
        LGet(name, old(LLen(name)) + i, KindOf(values[i])) == Some(values[i])
      ensures ok ==> DumpedAfterChange(now)
      ensures !ok ==> listMap == old(listMap) && Undumped()
    {
      if name in listMap {
        var serialized := EncodeAll(values);
        listMap := listMap[name := listMap[name] + serialized];
        forall i | 0 <= i < |values| {
          DecodeEncode(values[i], KindOf(values[i]));
        }
        DumpDb(now);
        ok := true;
      } else {
        ok := false;
      }
    }

    /** The element at `pos` of the list `name` read as a value of `kind`; None when there is none or it is not of that kind. */
    function LGet(name: string, pos: nat, kind: Kind): (r: Option<Value>)
      reads this
      ensures name !in listMap || pos >= |listMap[name]| ==> r == None
      ensures forall v :: r == Some(v) <==>
        name in listMap && pos < |listMap[name]| && listMap[name][pos] == Encode(v) && KindOf(v) == kind
    {
      if name in listMap && pos < |listMap[name]| then
        assert forall v :: Decode(listMap[name][pos], kind) == Some(v) <==> listMap[name][pos] == Encode(v) && KindOf(v) == kind by {
          forall v { DecodeIff(listMap[name][pos], kind, v); }
        }
        Decode(listMap[name][pos], kind)
      else
        None
    }

    /** The length of the list `name`, 0 when there is no such list. */
    function LLen(name: string): (n: nat)
      reads this
      ensures name in listMap ==> n == |listMap[name]|
      ensures name !in listMap ==> n == 0
      ensures forall pos: nat, kind :: LGet(name, pos, kind).Some? ==> pos < n
    {
      if name in listMap then |listMap[name]| else 0
    }

    /** Removes the list `name` and returns how many elements it had (0 when there was none). */
    method LRemList(name: string, now: nat) returns (n: nat)
      modifies this
      ensures n == old(LLen(name))
      ensures valueMap == old(valueMap)
      ensures listMap == old(listMap) - {name}
      ensures old(Exclusive()) ==> Exclusive()
      ensures DumpedAfterChange(now)
    {
      n := LLen(name);
      listMap := listMap - {name};
      DumpDb(now);
    }

    /**
     * Removes the element at `pos` of the list `name` and returns it read as a value
     * of `kind`. The element is removed even when it does not read as that kind.
     * Nothing changes when there is no such list or `pos` is out of bounds.
     */
    method LPop(name: string, pos: nat, kind: Kind, now: nat) returns (r: Option<Value>)
      modifies this
      ensures valueMap == old(valueMap)
      ensures r == old(LGet(name, pos, kind))
      ensures name in old(listMap) && pos < |old(listMap)[name]| ==>
        && listMap == old(listMap)[name := RemoveAt(old(listMap)[name], pos)]
        && DumpedAfterChange(now)
      ensures !(name in old(listMap) && pos < |old(listMap)[name]|) ==>
        listMap == old(listMap) && Undumped()
      ensures old(Exclusive()) ==> Exclusive()
    {
      if name in listMap {
        var list := listMap[name];
        if pos < |list| {
          var res := list[pos];
          listMap := listMap[name := RemoveAt(list, pos)];
          DumpDb(now);
          r := Decode(res, kind);
        } else {
          r := None;
        }
      } else {
        r := None;
      }
    }

    /**
     * Removes the first element of the list `name` that is the payload of `value`,
     * and reports whether there was one. Nothing changes when there is none.
     */
    method LRemValue(name: string, value: Value, now: nat) returns (ok: bool)
      modifies this
      ensures ok <==> name in old(listMap) && Encode(value) in old(listMap)[name]
      ensures valueMap == old(valueMap)
      ensures ok ==>
        && listMap == old(listMap)[name := RemoveAt(old(listMap)[name], IndexOf(old(listMap)[name], Encode(value)))]
        && DumpedAfterChange(now)
      ensures !ok ==> listMap == old(listMap) && Undumped()
      ensures old(Exclusive()) ==> Exclusive()
    {
      if name in listMap {
        var list := listMap[name];
        var serialized := Encode(value);
        var found, pos := Position(list, serialized);
        if found {
          IndexOfUnique(list, serialized, pos);
          listMap := listMap[name := RemoveAt(list, pos)];
          DumpDb(now);
          ok := true;
        } else {
          ok := false;
        }
      } else {
        ok := false;
      }
    }

    /** The final dump when the store is released: every policy but NeverDump writes. */
    method Close(now: nat)
      modifies this
      ensures valueMap == old(valueMap) && listMap == old(listMap)
      ensures dumpPolicy.NeverDump? ==> Undumped()
      ensures !dumpPolicy.NeverDump? ==>
        && file == Some(Contents())
        && writes == old(writes) + 1
        && lastDump == LastDumpAfterWrite(dumpPolicy, old(lastDump), now)
    {
      if !dumpPolicy.NeverDump? {
        var _ := Dump(now);
      }
    }
  }
}
