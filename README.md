# PickleDb in Dafny

A model of PickleDB-rs (`src/lib.rs`): a key-value store that keeps its whole
dataset in memory and dumps it to a single file under a dump policy. The model
covers the store itself (`PickleDb`), its public scalar and list operations, the
dump-policy state machine and the final dump on release, and proves what those
operations promise.

## Layout

- `wrappers.dfy` — `Option` and `Result`.
- `codec.dfy` — module `Codec`: the serialisation capability the store relies on.
  The store only ever holds payload strings; `Encode` turns a value into its
  payload and `Decode(s, kind)` reads a payload back as a value of the requested
  kind, yielding `None` on a type mismatch or a malformed payload (as
  `serde_json::from_str::<V>` failing does in `get`, `lget` and `lpop`). This is a
  stand-in, not JSON: a value is an integer (canonical decimal) or a text (between
  double quotes, unescaped). The store itself needs only that decoding an encoding
  gives the value back and that `Encode` is injective; the stand-in proves more,
  that `Decode(s, k) == Some(v)` exactly when `s == Encode(v)` and `v` is of kind
  `k` (see "Left out" for what that means for payloads read from a file).
- `dumping.dfy` — module `Dumping`: `DumpPolicy` (`NeverDump`, `AutoDump`,
  `DumpUponRequest`, `PeriodicDump(interval)`), the decision the post-change hook
  makes (`MutationWrites`), and `WriteTimes`, the instants at which a run of changes
  writes the file, with lemmas for each policy.
- `lists.dfy` — module `Lists`: removal at a position (`Vec::remove`), the first
  occurrence of a payload and the linear search for it (`Iterator::position`).
- `store.dfy` — module `Store`: class `PickleDb`. Its fields are those of the Rust
  struct: `valueMap` (the Rust field `map`, renamed because `map` is a Dafny
  keyword), `listMap`, `dbFilePath`, `dumpPolicy` and `lastDump`. Two ghost fields
  stand for the database file: `file` is what the file holds, and each dump
  replaces it by the pair of maps, and `writes` counts the dumps. Every mutator
  states its whole new state, whether the dump hook wrote the file
  (`DumpedAfterChange`) or left file and clock alone (`Undumped`), and that key
  exclusivity (`Exclusive`: no key is both a scalar and a list) is preserved.
- `scenarios.dfy` — verified clients replaying the usage examples of the source's
  documentation: mixed-type lists, `lpop` shifting the tail left, removal by value,
  a scalar and a list replacing each other, missing keys, a read-only store and the
  periodic cooldown; and `SetOverTime`, which runs a change at each reading of a
  clock and writes the file exactly as often as `WriteTimes` predicts.

The clock is a natural number supplied by the caller of every operation that may
dump (`now`). `Elapsed` saturates at zero when `now` is earlier than the last dump,
as `Instant::duration_since` does.

Where the code and its comments disagree, the model follows the code:

- `lrem_value` removes the first element whose payload equals the payload of the
  given value (src/lib.rs:711-714); its doc comment (src/lib.rs:672-702) describes
  removal by position. `Scenarios.RemoveByValue` shows the difference.
- `lpop` removes the element before decoding it (src/lib.rs:655-659): when the
  element does not read as the requested type, it is gone and the result is `None`
  (`Scenarios.PopLosesMismatchedItem`).
- `rem` evaluates `map.remove(key).is_some() || list_map.remove(key).is_some()`
  (src/lib.rs:398): when the key holds a scalar, the list map is not touched. Under
  key exclusivity the key is then in neither map; a store loaded from a file whose
  maps share a key keeps that key's list.
- `load` (src/lib.rs:181-191) does not check key exclusivity, so the model does not
  assume it: a loaded store is exclusive exactly when the file's maps are, and each
  mutator preserves exclusivity when it held before.
- `rem` and `lrem_list` run the dump hook even when nothing was removed
  (src/lib.rs:399, 605); `ladd` and `lextend` run it only when the list exists (also
  when `lextend` appends nothing), `lpop` only when the list exists and the position
  is in bounds, and `lrem_value` only when the list exists and the value is found.

## Model

| member | source | states |
|---|---|---|
| `Codec.Decode` | src/lib.rs:342-348 | a payload read as a kind yields a value only if it is that value's encoding and of that kind |
| `Codec.DecodeEncode` | src/lib.rs:306-313 | reading a payload back as its own kind gives the original value; as any other kind it gives `None` |
| `Codec.DecodeIff` | src/lib.rs:343-346 | decoding yields `v` exactly when the payload is `Encode(v)` and `v` has the requested kind |
| `Codec.EncodeInjective` | src/lib.rs:711-712 | equal payloads come from equal values, so comparing payloads compares values |
| `Codec.EncodeAll` | src/lib.rs:515-517 | the payloads of a sequence of values, one per value, in the same order |
| `Dumping.WriteTimes` | src/lib.rs:242-257 | the writes of a run of changes are some of the change instants, at most one per change |
| `Dumping.ChangesNeverWrite` | src/lib.rs:104-109 | under NeverDump and DumpUponRequest no change writes the file |
| `Dumping.EveryChangeWrites` | src/lib.rs:243-246 | under AutoDump every change writes the file |
| `Dumping.PeriodicWritesSpaced` | src/lib.rs:247-253 | under PeriodicDump(d) the first write comes more than d after the last dump and successive writes are more than d apart |
| `Dumping.PeriodicCooldown` | src/lib.rs:110-114 | of two changes within d of each other only the first writes; a change more than d after it writes again |
| `Lists.RemoveAt` | src/lib.rs:655 | removing position i keeps the elements before i and shifts the later ones one place left; the length drops by one |
| `Lists.RemoveAtMultiset` | src/lib.rs:714 | a removal deletes exactly one element, the one at the position |
| `Lists.IndexOf` | src/lib.rs:712 | the position found holds the payload and no earlier position does |
| `Lists.IndexOfUnique` | src/lib.rs:712 | the first occurrence is the only position holding the payload with none before it |
| `Lists.Position` | src/lib.rs:711-712 | the search finds a position iff the payload occurs, and then finds its first occurrence |
| `Scenarios.SetOverTime` | src/lib.rs:242-257 | a run of `set` calls at the readings of a clock writes the file exactly as many times as `WriteTimes` counts |
| `Store.KeysOf` | src/lib.rs:370-378 | the keys of a map, each exactly once, as many as the map has entries |
| `Store.PickleDb.New` | src/lib.rs:143-150 | a new store is empty and exclusive, with the given path and policy, the dump clock at now, the file untouched |
| `Store.PickleDb.FromFile` | src/lib.rs:184-190 | a store built from the two maps read from the file |
| `Store.PickleDb.Load` | src/lib.rs:181-191 | fails iff the file cannot be read as a dump; otherwise holds the file's maps, exclusive iff they share no key |
| `Store.PickleDb.LoadReadOnly` | src/lib.rs:215-217 | Load with the NeverDump policy |
| `Store.PickleDb.Dump` | src/lib.rs:225-240 | under NeverDump reports success without writing; otherwise writes the current maps, and PeriodicDump restarts its cooldown at now |
| `Store.PickleDb.DumpDb` | src/lib.rs:242-257 | AutoDump writes; PeriodicDump(d) writes and sets the dump clock to now iff more than d elapsed; the other policies do nothing |
| `Store.PickleDb.Set` | src/lib.rs:295-304 | the key becomes a scalar holding the value's payload and loses any list; other keys unchanged; get then returns the value; exclusivity kept |
| `Store.PickleDb.Get` | src/lib.rs:338-350 | returns v exactly when the key is a scalar whose payload is v's encoding and v has the requested kind; None for a missing key or a list |
| `Store.PickleDb.Exists` | src/lib.rs:360-362 | true iff the key is a scalar or a list; when false, every read of the key reports absence |
| `Store.PickleDb.GetAll` | src/lib.rs:369-381 | exactly the keys of both maps, as many as total_keys counts, without duplicates when keys are exclusive |
| `Store.PickleDb.TotalKeys` | src/lib.rs:385-387 | at least the number of distinct keys, and equal to it iff keys are exclusive |
| `Store.PickleDb.Rem` | src/lib.rs:397-401 | true iff the key was present; removes the scalar, or else the list; with exclusivity the key is then absent; always runs the dump hook |
| `Store.PickleDb.LCreate` | src/lib.rs:414-421 | the key becomes an empty list and loses any scalar; other keys unchanged; exclusivity kept |
| `Store.PickleDb.LExists` | src/lib.rs:433-435 | true iff the name is a list; such a key reads as no scalar when keys are exclusive |
| `Store.PickleDb.LAdd` | src/lib.rs:467-472 | lextend with one value: appends its payload to an existing list, where lget then finds it; false and no change, no dump otherwise |
| `Store.PickleDb.LExtend` | src/lib.rs:509-525 | true iff the list exists; appends the payloads in input order, each readable at its new position; otherwise nothing changes and no dump |
| `Store.PickleDb.LGet` | src/lib.rs:559-573 | returns v exactly when the list exists, the position is in bounds and holds v's encoding of the requested kind |
| `Store.PickleDb.LLen` | src/lib.rs:583-588 | the list's length, 0 for a missing list; no position at or past it reads as a value |
| `Store.PickleDb.LRemList` | src/lib.rs:602-607 | returns the prior length (0 if absent), removes only the list entry, always runs the dump hook |
| `Store.PickleDb.LPop` | src/lib.rs:648-668 | in bounds: removes the element at the position, shifting the rest left, and returns what lget returned there, even None; otherwise no change, no dump, None |
| `Store.PickleDb.LRemValue` | src/lib.rs:705-725 | true iff the list holds the value's payload; then exactly its first occurrence is removed and the hook runs; otherwise nothing changes |
| `Store.PickleDb.Close` | src/lib.rs:728-734 | the final dump: every policy but NeverDump writes the current maps, and PeriodicDump restarts its clock at now; NeverDump leaves file and clock alone |

## Left out

- The JSON codec (serde_json) and Rust's generic `V: Serialize / DeserializeOwned`:
  replaced by the two-kind stand-in in `Codec`; no JSON text is modelled.
- File I/O: reading the file in `load` (src/lib.rs:182) and parsing it
  (src/lib.rs:183) become the parameter `stored` (`None` when either fails); the
  write in `dump` (src/lib.rs:232) becomes the ghost fields `file` and `writes`.
  The panic when the write fails is not modelled.
- Store.PickleDb.Dump: always reports success; the serialisation error branch
  (src/lib.rs:238) is not modelled, since encoding a pair of string-keyed maps of
  strings does not fail.
- Store.PickleDb.Get, Store.PickleDb.LGet, Store.PickleDb.LPop: the stand-in decoder
  accepts only the exact text `Encode(v)`, while `serde_json::from_str`
  (src/lib.rs:343, 565, 657) also accepts other spellings of the same value (extra
  white space, escapes such as `\u0041`). The store never writes such payloads, but a
  loaded file may hold them: there the model's reads give `None` where the source
  gives the value, so the "only when the payload is `Encode(v)`" half of these
  contracts belongs to the stand-in, not to serde_json.
- Real time: `Instant::now()` and `Duration` become caller-supplied natural numbers.
- The iteration order of `HashMap` in `get_all` (src/lib.rs:370-380): the model
  promises membership, count and distinctness, never an order.
- Store.PickleDb.Close: Rust runs `drop` automatically when the store goes out of
  scope; in the model the caller calls `Close`, and nothing stops later use.
- The module documentation (src/lib.rs:1-94) describes no behaviour of its own.
