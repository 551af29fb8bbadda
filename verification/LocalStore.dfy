/** The in-process limiter store: a key-value cache whose entries live for a
    fixed time after they are written. Time is in seconds. */
module LocalStore {
  import opened Wrappers

  type Key = string
  datatype Decision = Allow | Deny
  datatype Entry<+V> = Entry(value: V, writtenAt: real)
  type Slot<+V> = Option<Entry<V>>

  /** The store's fixed time to live, in seconds. */
  const TTL: real := 600.0

  function SlotOf<K(==), V>(entries: map<K, Entry<V>>, key: K): Slot<V> {
    if key in entries then Some(entries[key]) else None
  }

  /** What a read at `now` sees of a slot: an entry `ttl` seconds old is gone. */
  function Live<V>(slot: Slot<V>, ttl: real, now: real): Option<V> {
    if slot.Some? && now - slot.value.writtenAt < ttl then Some(slot.value.value) else None
  }

  class LocalStore<K(==), V> {
    const ttl: real
    var entries: map<K, Entry<V>>

    constructor (ttl: real)
      ensures this.ttl == ttl && entries == map[]
    {
      this.ttl := ttl;
      entries := map[];
    }

    method Get(key: K, now: real) returns (v: Option<V>)
      ensures v == Live(SlotOf(entries, key), ttl, now)
    {
      if key in entries && now - entries[key].writtenAt < ttl {
        v := Some(entries[key].value);
      } else {
        v := None;
      }
    }

    method Insert(key: K, value: V, now: real)
      modifies this
      ensures entries == old(entries)[key := Entry(value, now)]
    {
      entries := entries[key := Entry(value, now)];
    }

    method GetOrInsert(key: K, init: V, now: real) returns (v: V)
      modifies this
      ensures v == Live(SlotOf(old(entries), key), ttl, now).GetOr(init)
      ensures entries ==
        if Live(SlotOf(old(entries), key), ttl, now).Some? then old(entries)
        else old(entries)[key := Entry(init, now)]
    {
      var found := Get(key, now);
      if found.Some? {
        return found.value;
      }
      Insert(key, init, now);
      v := init;
    }

    method Update(key: K, init: V, update: V -> V, now: real) returns (v: V)
      modifies this
      ensures v == update(Live(SlotOf(old(entries), key), ttl, now).GetOr(init))
      ensures entries == old(entries)[key := Entry(v, now)]
    {
      v := GetOrInsert(key, init, now);
      v := update(v);
      Insert(key, v, now);
    }
  }

  // Runs. A limiter is a step on one key's slot; a run is the list of times at
  // which it is asked.

  type Step<!V> = (Slot<V>, real) -> (Entry<V>, Decision)

  ghost predicate Nondecreasing(ts: seq<real>) {
    forall i, j :: 0 <= i <= j < |ts| ==> ts[i] <= ts[j]
  }

  /** `burst` checks at time 0, then one at `x`. */
  function BurstThenOne(burst: nat, x: real): seq<real> {
    seq(burst + 1, i => if i < burst then 0.0 else x)
  }

  /** The slot a run of checks on one fresh key leaves behind. */
  function SlotAfter<V>(step: Step<V>, ts: seq<real>): Slot<V> {
    if ts == [] then None
    else Some(step(SlotAfter(step, ts[..|ts| - 1]), ts[|ts| - 1]).0)
  }

  /** The answer to check number `n` of a run. */
  function DecisionAt<V>(step: Step<V>, ts: seq<real>, n: nat): Decision
    requires n < |ts|
  {
    step(SlotAfter(step, ts[..n]), ts[n]).1
  }

  lemma SlotAfterNext<V>(step: Step<V>, ts: seq<real>, n: nat)
    requires n < |ts|
    ensures SlotAfter(step, ts[..n + 1]) == Some(step(SlotAfter(step, ts[..n]), ts[n]).0)
  {
    assert ts[..n + 1][..n] == ts[..n];
  }

  // Many keys in one store.

  datatype Request = Request(key: Key, time: real)

  /** The whole store after a run of requests on any keys. */
  function EntriesAfter<V>(step: Step<V>, reqs: seq<Request>): map<Key, Entry<V>> {
    if reqs == [] then map[]
    else
      var before := EntriesAfter(step, reqs[..|reqs| - 1]);
      var r := reqs[|reqs| - 1];
      before[r.key := step(SlotOf(before, r.key), r.time).0]
  }

  /** The times at which one key was asked. */
  function TimesOf(reqs: seq<Request>, key: Key): seq<real> {
    if reqs == [] then []
    else
      var r := reqs[|reqs| - 1];
      TimesOf(reqs[..|reqs| - 1], key) + if r.key == key then [r.time] else []
  }

  /** The answer to the last of a run of requests. */
  function LastAnswer<V>(step: Step<V>, reqs: seq<Request>): Decision
    requires reqs != []
  {
    var r := reqs[|reqs| - 1];
    step(SlotOf(EntriesAfter(step, reqs[..|reqs| - 1]), r.key), r.time).1
  }

  /** Keys do not influence each other: what the store holds for a key is what
      that key's own requests alone would have left. */
  lemma {:induction false} KeysAreIsolated<V>(step: Step<V>, reqs: seq<Request>, key: Key)
    ensures SlotOf(EntriesAfter(step, reqs), key) == SlotAfter(step, TimesOf(reqs, key))
  {
    if reqs != [] {
      var earlier := reqs[..|reqs| - 1];
      var r := reqs[|reqs| - 1];
      KeysAreIsolated(step, earlier, key);
      if r.key == key {
        assert TimesOf(reqs, key)[..|TimesOf(earlier, key)|] == TimesOf(earlier, key);
      } else {
        assert TimesOf(reqs, key) == TimesOf(earlier, key);
      }
    }
  }

  /** A request is answered as if its key were the only one in the store. */
  lemma AnswersAreIsolated<V>(step: Step<V>, reqs: seq<Request>)
    requires reqs != []
    ensures
      var own := TimesOf(reqs, reqs[|reqs| - 1].key);
      own != [] && LastAnswer(step, reqs) == DecisionAt(step, own, |own| - 1)
  {
    var earlier := reqs[..|reqs| - 1];
    var r := reqs[|reqs| - 1];
    KeysAreIsolated(step, earlier, r.key);
    assert TimesOf(reqs, r.key)[..|TimesOf(earlier, r.key)|] == TimesOf(earlier, r.key);
  }
}
