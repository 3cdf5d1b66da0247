/**
 * The dump policy: the rule that decides when the in-memory data is written to
 * the database file. The policy is fixed when the store is created; what changes
 * is the time of the last dump, which only the periodic policy consults.
 *
 * Time is a clock reading supplied by the caller (a natural number of ticks)
 * instead of a monotonic system clock.
 */
module Dumping {

  datatype DumpPolicy =
    | NeverDump                     // the file is never written, not even on request
    | AutoDump                      // every change is written at once
    | DumpUponRequest               // only an explicit dump writes
    | PeriodicDump(interval: nat)   // a change writes when more than `interval` passed since the last dump

  /** Time passed from `since` to `now`; a reading earlier than `since` counts as no time at all. */
  function Elapsed(since: nat, now: nat): nat
  {
    if since <= now then now - since else 0
  }

  /** Whether the hook that runs after a successful change writes the file. */
  predicate MutationWrites(policy: DumpPolicy, lastDump: nat, now: nat)
  {
    match policy
    case AutoDump => true
    case PeriodicDump(interval) => Elapsed(lastDump, now) > interval
    case _ => false
  }

  /** Whether an explicit request to dump writes the file. */
  predicate RequestWrites(policy: DumpPolicy)
  {
    !policy.NeverDump?
  }

  /** The time of the last dump once a write happened at `now`: only the periodic policy keeps the clock. */
  function LastDumpAfterWrite(policy: DumpPolicy, lastDump: nat, now: nat): nat
  {
    if policy.PeriodicDump? then now else lastDump
  }

  /**
   * The readings, among `times`, at which a run of changes made at those readings
   * writes the file, starting from a last dump at `lastDump`.
   */
  function WriteTimes(policy: DumpPolicy, lastDump: nat, times: seq<nat>): (w: seq<nat>)
    ensures |w| <= |times|
    ensures forall t :: t in w ==> t in times
    decreases |times|
  {
    if times == [] then []
    else if MutationWrites(policy, lastDump, times[0]) then
      [times[0]] + WriteTimes(policy, LastDumpAfterWrite(policy, lastDump, times[0]), times[1..])
    else
      WriteTimes(policy, lastDump, times[1..])
  }

  /** Under NeverDump and DumpUponRequest no change ever writes the file by itself. */
  lemma {:induction false} ChangesNeverWrite(policy: DumpPolicy, lastDump: nat, times: seq<nat>)
    requires policy.NeverDump? || policy.DumpUponRequest?
    ensures WriteTimes(policy, lastDump, times) == []
  {
    if times != [] {
      ChangesNeverWrite(policy, lastDump, times[1..]);
    }
  }

  /** Under AutoDump every change writes the file. */
  lemma {:induction false} EveryChangeWrites(lastDump: nat, times: seq<nat>)
    ensures WriteTimes(AutoDump, lastDump, times) == times
  {
    if times != [] {
      EveryChangeWrites(lastDump, times[1..]);
    }
  }

  /**
   * Under PeriodicDump(d) the first write comes more than d after the last dump and
   * two successive writes are more than d apart, whatever the clock readings are.
   */
  lemma {:induction false} PeriodicWritesSpaced(d: nat, lastDump: nat, times: seq<nat>)
    ensures var w := WriteTimes(PeriodicDump(d), lastDump, times);
      && (|w| > 0 ==> w[0] > lastDump + d)
      && (forall i :: 0 <= i < |w| - 1 ==> w[i + 1] > w[i] + d)
    decreases |times|
  {
    if times != [] {
      var t := times[0];
      if MutationWrites(PeriodicDump(d), lastDump, t) {
        PeriodicWritesSpaced(d, t, times[1..]);
      } else {
        PeriodicWritesSpaced(d, lastDump, times[1..]);
      }
    }
  }

  /**
   * The cooldown at work: of two changes within d of each other only the first
   * writes, and a third change more than d after the first writes again.
   */
  lemma PeriodicCooldown(d: nat, lastDump: nat, t1: nat, t2: nat, t3: nat)
    requires lastDump + d < t1 <= t2 <= t1 + d < t3
    ensures WriteTimes(PeriodicDump(d), lastDump, [t1, t2, t3]) == [t1, t3]
  {
    var p := PeriodicDump(d);
    assert [t1, t2, t3][1..] == [t2, t3];
    assert [t2, t3][1..] == [t3];
    assert WriteTimes(p, t1, [t3]) == [t3] + WriteTimes(p, t3, []);
    assert WriteTimes(p, t1, [t2, t3]) == WriteTimes(p, t1, [t3]);
  }
}
