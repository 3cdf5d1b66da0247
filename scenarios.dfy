/** Clients of the store that replay the usage examples of its documentation. */
module Scenarios {
  import opened Wrappers
  import opened Codec
  import opened Dumping
  import opened Lists
  import opened Store

  /** Items added one by one, of different types, read back by position and type. */
  method Fruits()
  {
    var db := new PickleDb.New("example.db", AutoDump, 0, None);
    db.LCreate("fruits", 1);
    var ok := db.LAdd("fruits", Text("apple"), 2);
    assert ok;
    ok := db.LAdd("fruits", Int(42), 3);
    assert ok;
    assert db.LLen("fruits") == 2;
    assert db.LGet("fruits", 0, TextKind) == Some(Text("apple"));
    assert db.LGet("fruits", 1, IntKind) == Some(Int(42));
    // 42 read as a text: the payload is not the encoding of any text
    if db.LGet("fruits", 1, TextKind).Some? {
      EncodeInjective(db.LGet("fruits", 1, TextKind).value, Int(42));
    }
    assert db.LGet("fruits", 1, TextKind) == None;
    assert db.writes == 3;
  }

  /** lextend keeps the order of its items; lpop removes by position and shifts the rest left. */
  method PopShiftsLeft()
  {
    var db := new PickleDb.New("example.db", DumpUponRequest, 0, None);
    db.LCreate("list1", 0);
    var ok := db.LExtend("list1", [Int(1), Int(2), Int(3), Int(4)], 0);
    assert ok;
    assert db.LGet("list1", 2, IntKind) == Some(Int(3));
    var item2 := db.LPop("list1", 2, IntKind, 0);
    assert item2 == Some(Int(3));
    assert db.listMap["list1"] == [Encode(Int(1)), Encode(Int(2)), Encode(Int(4))];
    var item1 := db.LPop("list1", 1, IntKind, 0);
    assert item1 == Some(Int(2));
    assert db.listMap["list1"] == [Encode(Int(1)), Encode(Int(4))];
    var none := db.LPop("list1", 2, IntKind, 0);
    assert none == None && db.LLen("list1") == 2;
    assert db.writes == 0;
  }

  /** lpop drops the element even when it does not read as the requested type. */
  method PopLosesMismatchedItem()
  {
    var db := new PickleDb.New("example.db", NeverDump, 0, None);
    db.LCreate("list1", 0);
    var ok := db.LAdd("list1", Text("x"), 0);
    assert ok;
    var item := db.LPop("list1", 0, IntKind, 0);
    if item.Some? {
      EncodeInjective(item.value, Text("x"));
    }
    assert item == None;
    assert db.LLen("list1") == 0;
  }

  /** lrem_value removes the first element equal to the value, not the element at a position. */
  method RemoveByValue()
  {
    var db := new PickleDb.New("example.db", DumpUponRequest, 0, None);
    db.LCreate("list1", 0);
    var one, two, three := Encode(Int(1)), Encode(Int(2)), Encode(Int(3));
    var ok := db.LExtend("list1", [Int(1), Int(2), Int(3), Int(2)], 0);
    assert ok;
    var l := db.listMap["list1"];
    assert l == [one, two, three, two];
    assert one != two by {
      if one == two { EncodeInjective(Int(1), Int(2)); }
    }
    IndexOfUnique(l, two, 1);
    ok := db.LRemValue("list1", Int(2), 0);
    assert ok;
    assert db.listMap["list1"] == RemoveAt(l, 1) == [one, three, two];
    ok := db.LRemValue("list2", Int(2), 0);
    assert !ok;
  }

  /** A scalar and a list under one key replace each other. */
  method OverwriteAcrossKinds()
  {
    var db := new PickleDb.New("example.db", AutoDump, 0, None);
    db.Set("k", Int(1), 0);
    assert db.Get("k", IntKind) == Some(Int(1));
    db.LCreate("k", 0);
    assert db.Get("k", IntKind) == None && db.LExists("k");
    db.Set("k", Text("v"), 0);
    assert !db.LExists("k") && db.Get("k", TextKind) == Some(Text("v"));
    assert db.Exclusive() && db.TotalKeys() == 1;
  }

  /** Reads of a key that was never written. */
  method MissingKey()
  {
    var db := new PickleDb.New("example.db", AutoDump, 0, None);
    assert db.Get("missing", IntKind) == None;
    assert db.LLen("missing") == 0;
    var removed := db.Rem("missing", 0);
    assert !removed;
    assert db.writes == 1;   // a removal that removes nothing still runs the dump hook
  }

  /** Under NeverDump the file keeps what it held, whatever the store does. */
  method ReadOnlyStore(onDisk: Snapshot)
  {
    var r := PickleDb.LoadReadOnly("example.db", 0, Some(onDisk));
    assert r.Success?;
    var db := r.value;
    db.Set("a", Int(1), 1);
    db.LCreate("b", 2);
    var ok := db.Dump(3);
    assert ok;
    db.Close(4);
    assert db.file == Some(onDisk) && db.writes == 0;
  }

  /** Under PeriodicDump(10): changes at 11 and 15 write once, a change at 22 writes again. */
  method PeriodicCooldownAtWork()
  {
    var db := new PickleDb.New("example.db", PeriodicDump(10), 0, None);
    db.Set("a", Int(1), 11);
    assert db.writes == 1 && db.lastDump == 11;
    db.Set("a", Int(2), 15);
    assert db.writes == 1 && db.lastDump == 11;
    db.Set("a", Int(3), 22);
    assert db.writes == 2 && db.lastDump == 22;
    var ok := db.Dump(25);
    assert db.writes == 3 && db.lastDump == 25;
    db.Set("a", Int(4), 30);
    assert db.writes == 3;
    db.Close(40);
    assert db.writes == 4 && db.lastDump == 40;
  }

  /**
   * A run of changes, one at each reading of `times`, writes the file exactly as
   * often as the policy's trace predicts.
   */
  method SetOverTime(db: PickleDb, key: string, value: Value, times: seq<nat>)
    modifies db
    ensures db.writes == old(db.writes) + |WriteTimes(db.dumpPolicy, old(db.lastDump), times)|
  {
    var i := 0;
    while i < |times|
      invariant i <= |times|
      invariant |WriteTimes(db.dumpPolicy, old(db.lastDump), times)|
        == db.writes - old(db.writes) + |WriteTimes(db.dumpPolicy, db.lastDump, times[i..])|
      invariant db.writes >= old(db.writes)
    {
      assert times[i..][1..] == times[i + 1..];
      db.Set(key, value, times[i]);
      i := i + 1;
    }
  }
}
