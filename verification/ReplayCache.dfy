/** The nonce replay cache of connector/security.py.

    A Python dict remembers insertion order, and the eviction step sorts its items stably, so
    the dict is kept here as the sequence of its items in insertion order.  Clock readings are
    parameters, in seconds, as reals. */
module ReplayCache {

  datatype Entry = Entry(key: string, expiry: real)

  // An accepted key together with the clock reading under which it was accepted.
  datatype Acceptance = Acceptance(key: string, time: real)

  // What makes a sequence of items a dict.
  ghost predicate UniqueKeys(entries: seq<Entry>) {
    forall i, j :: 0 <= i < j < |entries| ==> entries[i].key != entries[j].key
  }

  predicate HasKey(entries: seq<Entry>, key: string) {
    exists i :: 0 <= i < |entries| && entries[i].key == key
  }

  /** `dict.pop(key, None)` */
  function Pop(entries: seq<Entry>, key: string): seq<Entry> {
    if entries == [] then []
    else if entries[0].key == key then entries[1..]
    else [entries[0]] + Pop(entries[1..], key)
  }

  // The keys, in dict order, whose expiry has been reached.
  function ExpiredKeys(entries: seq<Entry>, now: real): seq<string> {
    if entries == [] then []
    else (if entries[0].expiry <= now then [entries[0].key] else []) + ExpiredKeys(entries[1..], now)
  }

  /** A stable sort by expiry: an element goes in front of the first one that is not earlier. */
  function InsertByExpiry(e: Entry, sorted: seq<Entry>): seq<Entry> {
    if sorted == [] || e.expiry <= sorted[0].expiry then [e] + sorted
    else [sorted[0]] + InsertByExpiry(e, sorted[1..])
  }

  function SortByExpiry(entries: seq<Entry>): seq<Entry> {
    if entries == [] then [] else InsertByExpiry(entries[0], SortByExpiry(entries[1..]))
  }

  ghost predicate ExpirySorted(entries: seq<Entry>) {
    forall i, j :: 0 <= i <= j < |entries| ==> entries[i].expiry <= entries[j].expiry
  }

  // The items with a given expiry, in order: what a stable sort must not disturb.
  ghost function AtExpiry(entries: seq<Entry>, expiry: real): seq<Entry> {
    if entries == [] then []
    else (if entries[0].expiry == expiry then [entries[0]] else []) + AtExpiry(entries[1..], expiry)
  }

  // ---------------------------------------------------------------- what cleaning leaves

  // The items still alive at a time.
  function Live(entries: seq<Entry>, now: real): seq<Entry> {
    if entries == [] then []
    else (if entries[0].expiry > now then [entries[0]] else []) + Live(entries[1..], now)
  }

  // The items whose key is not in a set.
  ghost function Without(entries: seq<Entry>, keys: set<string>): seq<Entry> {
    if entries == [] then []
    else (if entries[0].key !in keys then [entries[0]] else []) + Without(entries[1..], keys)
  }

  ghost function KeysOf(entries: seq<Entry>): set<string> {
    set i | 0 <= i < |entries| :: entries[i].key
  }

  // How many items are to be evicted; `sorted_items[:overflow]` stops at the end of the list.
  function Overflow(size: nat, maxEntries: int): (n: nat)
    ensures n <= size
    ensures size - n <= if maxEntries < 0 then 0 else maxEntries
  {
    if size <= maxEntries then 0 else if maxEntries < 0 then size else size - maxEntries
  }

  ghost function Cleaned(entries: seq<Entry>, maxEntries: int, now: real): seq<Entry> {
    var live := Live(entries, now);
    var overflow := Overflow(|live|, maxEntries);
    SortLength(live);
    Without(live, KeysOf(SortByExpiry(live)[..overflow]))
  }

  ghost function Checked(entries: seq<Entry>, ttlSec: int, maxEntries: int, key: string, now: real): (bool,
                         seq<Entry>) {
    var cleaned := Cleaned(entries, maxEntries, now);
    if HasKey(cleaned, key) then (false, cleaned)
    else (true, cleaned + [Entry(key, now + ttlSec as real)])
  }

  // ---------------------------------------------------------------- what the history says

  /** The declarative answer.  `key` is remembered at `now` iff it is among the last `maxEntries`
      accepted keys and was accepted less than `ttlSec` ago. */
  ghost predicate Remembered(history: seq<Acceptance>, ttlSec: int, maxEntries: int, key: string, now: real) {
    exists i :: 0 <= i < |history| && RemembersAt(history, ttlSec, maxEntries, i, now) && history[i].key == key
  }

  ghost predicate RemembersAt(history: seq<Acceptance>, ttlSec: int, maxEntries: int, i: nat, now: real)
    requires i < |history|
  {
    i >= |history| - maxEntries && history[i].time + ttlSec as real > now
  }

  ghost function Stamped(history: seq<Acceptance>, ttlSec: int): seq<Entry> {
    seq(|history|, i requires 0 <= i < |history| => Entry(history[i].key, history[i].time + ttlSec as real))
  }

  ghost predicate Chronological(history: seq<Acceptance>, clock: real) {
    && (forall i, j :: 0 <= i <= j < |history| ==> history[i].time <= history[j].time)
    && (forall i :: 0 <= i < |history| ==> history[i].time <= clock)
  }

  /** The coupling between the lossy cache and the full history: the cache is the stamped tail of
      the history, its keys are distinct, and whatever was dropped can never matter again. */
  ghost predicate Tracks(entries: seq<Entry>, history: seq<Acceptance>, ttlSec: int, maxEntries: int, clock: real) {
    && Chronological(history, clock)
    && UniqueKeys(entries)
    && |entries| <= |history|
    && entries == Stamped(history, ttlSec)[|history| - |entries|..]
    && forall i :: 0 <= i < |history| - |entries| ==> !RemembersAt(history, ttlSec, maxEntries, i, clock)
  }

  // ---------------------------------------------------------------- sorting

  lemma {:induction false} InsertLength(e: Entry, sorted: seq<Entry>)
    ensures |InsertByExpiry(e, sorted)| == |sorted| + 1
  {
    if sorted != [] { InsertLength(e, sorted[1..]); }
  }

  lemma {:induction false} SortLength(entries: seq<Entry>)
    ensures |SortByExpiry(entries)| == |entries|
  {
    if entries != [] {
      SortLength(entries[1..]);
      InsertLength(entries[0], SortByExpiry(entries[1..]));
    }
  }

  lemma {:induction false} InsertKeepsSorted(e: Entry, sorted: seq<Entry>)
    requires ExpirySorted(sorted)
    ensures ExpirySorted(InsertByExpiry(e, sorted))
    ensures forall k :: 0 <= k < |InsertByExpiry(e, sorted)| ==>
              InsertByExpiry(e, sorted)[k] == e || InsertByExpiry(e, sorted)[k] in sorted
  {
    if sorted != [] && e.expiry > sorted[0].expiry {
      InsertKeepsSorted(e, sorted[1..]);
    }
  }

  lemma {:induction false} InsertIsStable(e: Entry, sorted: seq<Entry>, expiry: real)
    requires ExpirySorted(sorted)
    ensures AtExpiry(InsertByExpiry(e, sorted), expiry) == AtExpiry([e] + sorted, expiry)
  {
    if sorted != [] && e.expiry > sorted[0].expiry {
      InsertIsStable(e, sorted[1..], expiry);
      var rest := InsertByExpiry(e, sorted[1..]);
      assert ([sorted[0]] + rest)[1..] == rest;
      assert ([e] + sorted)[1..] == sorted;
      assert ([e] + sorted[1..])[1..] == sorted[1..];
    } else {
      assert InsertByExpiry(e, sorted) == [e] + sorted;
    }
  }

  /** The sort used for eviction is a stable sort: its result is ordered by expiry, and the items
      sharing an expiry (hence all items) are exactly the given ones, in the given order. */
  lemma {:induction false} SortIsStable(entries: seq<Entry>)
    ensures ExpirySorted(SortByExpiry(entries))
    ensures forall x :: AtExpiry(SortByExpiry(entries), x) == AtExpiry(entries, x)
  {
    if entries != [] {
      SortIsStable(entries[1..]);
      InsertKeepsSorted(entries[0], SortByExpiry(entries[1..]));
      forall x ensures AtExpiry(SortByExpiry(entries), x) == AtExpiry(entries, x) {
        var tail := SortByExpiry(entries[1..]);
        InsertIsStable(entries[0], tail, x);
        assert ([entries[0]] + tail)[1..] == tail;
      }
    }
  }

  lemma {:induction false} SortOfSorted(entries: seq<Entry>)
    requires ExpirySorted(entries)
    ensures SortByExpiry(entries) == entries
  {
    if entries != [] {
      SortOfSorted(entries[1..]);
      assert entries == [entries[0]] + entries[1..];
    }
  }

  // ---------------------------------------------------------------- popping

  lemma {:induction false} PopIsWithout(entries: seq<Entry>, keys: set<string>, key: string)
    requires UniqueKeys(entries)
    ensures Pop(Without(entries, keys), key) == Without(entries, keys + {key})
  {
    if entries != [] {
      PopIsWithout(entries[1..], keys, key);
      var rest := Without(entries[1..], keys);
      assert [] + rest == rest;
      if entries[0].key in keys {
        assert Without(entries, keys) == rest;
        assert Without(entries, keys + {key}) == Without(entries[1..], keys + {key});
      } else {
        var kept := [entries[0]] + rest;
        assert Without(entries, keys) == kept && kept[1..] == rest && kept[0] == entries[0];
        if entries[0].key == key {
          WithoutAbsent(entries[1..], keys, key);
          assert Without(entries, keys + {key}) == Without(entries[1..], keys + {key});
        }
      }
    }
  }

  lemma {:induction false} WithoutAbsent(entries: seq<Entry>, keys: set<string>, key: string)
    requires forall i :: 0 <= i < |entries| ==> entries[i].key != key
    ensures Without(entries, keys + {key}) == Without(entries, keys)
  {
    if entries != [] { WithoutAbsent(entries[1..], keys, key); }
  }

  lemma {:induction false} WithoutNothing(entries: seq<Entry>)
    ensures Without(entries, {}) == entries
  {
    if entries != [] { WithoutNothing(entries[1..]); }
  }

  lemma {:induction false} WithoutKeepsUnique(entries: seq<Entry>, keys: set<string>)
    requires UniqueKeys(entries)
    ensures UniqueKeys(Without(entries, keys))
    ensures forall e :: e in Without(entries, keys) <==> e in entries && e.key !in keys
  {
    if entries != [] {
      WithoutKeepsUnique(entries[1..], keys);
      assert forall e :: e in entries <==> e == entries[0] || e in entries[1..];
      var rest := Without(entries[1..], keys);
      assert forall k :: 0 <= k < |rest| ==> rest[k] in rest;
    }
  }

  lemma {:induction false} ExpiredKeyIsExpired(entries: seq<Entry>, now: real, e: Entry)
    requires UniqueKeys(entries) && e in entries
    ensures e.key in ExpiredKeys(entries, now) <==> e.expiry <= now
  {
    var tail := ExpiredKeys(entries[1..], now);
    if e != entries[0] {
      ExpiredKeyIsExpired(entries[1..], now, e);
      var i :| 0 <= i < |entries| && entries[i] == e;
      assert entries[0].key != entries[i].key;
      assert e.key in ExpiredKeys(entries, now) <==> e.key in tail;
    } else if e.key in tail {
      ExpiredKeyPresent(entries[1..], now, e.key);
    }
  }

  lemma {:induction false} ExpiredKeyPresent(entries: seq<Entry>, now: real, key: string)
    requires key in ExpiredKeys(entries, now)
    ensures HasKey(entries, key)
  {
    if entries[0].key != key {
      ExpiredKeyPresent(entries[1..], now, key);
      var i :| 0 <= i < |entries[1..]| && entries[1..][i].key == key;
      assert entries[i + 1].key == key;
    } else {
      assert entries[0].key == key;
    }
  }

  // Removing the keys found expired leaves the live items.
  lemma {:induction false} WithoutExpiredIsLive(entries: seq<Entry>, now: real)
    requires UniqueKeys(entries)
    ensures Without(entries, set k | k in ExpiredKeys(entries, now)) == Live(entries, now)
  {
    var keys := set k | k in ExpiredKeys(entries, now);
    forall i | 0 <= i < |entries| ensures entries[i].key in keys <==> entries[i].expiry <= now {
      ExpiredKeyIsExpired(entries, now, entries[i]);
    }
    WithoutByExpiry(entries, keys, now);
  }

  lemma {:induction false} WithoutByExpiry(entries: seq<Entry>, keys: set<string>, now: real)
    requires forall i :: 0 <= i < |entries| ==> (entries[i].key in keys <==> entries[i].expiry <= now)
    ensures Without(entries, keys) == Live(entries, now)
  {
    if entries != [] { WithoutByExpiry(entries[1..], keys, now); }
  }

  lemma {:induction false} LiveKeepsUnique(entries: seq<Entry>, now: real)
    requires UniqueKeys(entries)
    ensures UniqueKeys(Live(entries, now))
  {
    WithoutExpiredIsLive(entries, now);
    WithoutKeepsUnique(entries, set k | k in ExpiredKeys(entries, now));
  }

  // ---------------------------------------------------------------- the cache

  class NonceReplayCache {
    const ttlSec: int
    const maxEntries: int
    var entries: seq<Entry>
    ghost var history: seq<Acceptance>  // every key accepted so far, never forgotten
    ghost var clock: real               // the latest clock reading

    ghost predicate Valid()
      reads this
    {
      UniqueKeys(entries)
    }

    // The cache stands for its history, up to now.
    ghost predicate Faithful()
      reads this
    {
      Tracks(entries, history, ttlSec, maxEntries, clock)
    }

    constructor (ttlSec: int, maxEntries: int)
      ensures Valid() && Faithful()
      ensures this.ttlSec == ttlSec && this.maxEntries == maxEntries
      ensures entries == [] && history == [] && clock == 0.0
    {
      this.ttlSec := ttlSec;
      this.maxEntries := maxEntries;
      entries := [];
      history := [];
      clock := 0.0;
    }

    /** `_cleanup`: first the expired items go, then the earliest to expire until the rest fits. */
    method Cleanup(now: real)
      requires Valid()
      modifies this`entries
      ensures Valid()
      ensures entries == Cleaned(old(entries), maxEntries, now)
    {
      var expired := ExpiredKeys(entries, now);
      PopKeys(expired);
      WithoutExpiredIsLive(old(entries), now);
      SortLength(entries);
      NoVictims(entries);
      if |entries| <= maxEntries {
        return;
      }
      var sortedItems := SortByExpiry(entries);
      var overflow := Overflow(|entries|, maxEntries);
      PopKeys(KeyList(sortedItems[..overflow]));
      KeyListKeys(sortedItems[..overflow]);
    }

    /** The popping loop both halves of `_cleanup` end with. */
    method PopKeys(keys: seq<string>)
      requires Valid()
      modifies this`entries
      ensures Valid()
      ensures entries == Without(old(entries), set k | k in keys)
    {
      ghost var gone: set<string> := {};
      WithoutNothing(entries);
      for i := 0 to |keys|
        invariant gone == set k | k in keys[..i]
        invariant entries == Without(old(entries), gone)
      {
        PopIsWithout(old(entries), gone, keys[i]);
        entries := Pop(entries, keys[i]);
        gone := gone + {keys[i]};
      }
      assert keys[..|keys|] == keys;
      WithoutKeepsUnique(old(entries), gone);
    }

    /** True, and remembered, iff the key is not in the cache.  While the clock does not step back,
        that is iff the full history does not remember the key. */
    method CheckAndMark(key: string, now: real) returns (ok: bool)
      requires Valid()
      modifies this
      ensures Valid()
      ensures (ok, entries) == Checked(old(entries), ttlSec, maxEntries, key, now)
      ensures history == if ok then old(history) + [Acceptance(key, now)] else old(history)
      ensures clock == now
      ensures old(Faithful()) && old(clock) <= now ==>
                Faithful() && ok == !Remembered(old(history), ttlSec, maxEntries, key, now)
    {
      if Faithful() && clock <= now {
        CheckedFollowsHistory(entries, history, ttlSec, maxEntries, clock, key, now);
      }
      clock := now;
      Cleanup(now);
      if HasKey(entries, key) {
        return false;
      }
      entries := entries + [Entry(key, now + ttlSec as real)];
      history := history + [Acceptance(key, now)];
      return true;
    }
  }

  // The keys of items, in order.
  function KeyList(entries: seq<Entry>): seq<string> {
    seq(|entries|, i requires 0 <= i < |entries| => entries[i].key)
  }

  lemma {:induction false} KeyListKeys(entries: seq<Entry>)
    ensures (set k | k in KeyList(entries)) == KeysOf(entries)
  {
    var keys := KeyList(entries);
    forall k ensures k in keys <==> k in KeysOf(entries) {
      if k in keys {
        var i :| 0 <= i < |keys| && keys[i] == k;
        assert entries[i].key == k;
      }
      if k in KeysOf(entries) {
        var i :| 0 <= i < |entries| && entries[i].key == k;
        assert keys[i] == k;
      }
    }
  }

  // When everything fits, nothing is evicted.
  lemma {:induction false} NoVictims(live: seq<Entry>)
    ensures |SortByExpiry(live)| == |live| && Without(live, KeysOf(SortByExpiry(live)[..0])) == live
  {
    SortLength(live);
    WithoutNothing(live);
    assert KeysOf(SortByExpiry(live)[..0]) == {};
  }

  lemma {:induction false} KeysOfAppend(entries: seq<Entry>, e: Entry)
    ensures KeysOf(entries + [e]) == KeysOf(entries) + {e.key}
  {
    var all := entries + [e];
    forall k ensures k in KeysOf(all) <==> k in KeysOf(entries) + {e.key} {
      if k in KeysOf(entries) {
        var i :| 0 <= i < |entries| && entries[i].key == k;
        assert all[i].key == k;
      }
      if k == e.key { assert all[|entries|].key == k; }
      if k in KeysOf(all) {
        var i :| 0 <= i < |all| && all[i].key == k;
        if i < |entries| { assert entries[i].key == k; }
      }
    }
  }

  // ---------------------------------------------------------------- cleaning follows the history

  // In an expiry-sorted sequence the live items are a suffix.
  lemma {:induction false} LiveIsSuffix(entries: seq<Entry>, now: real)
    requires ExpirySorted(entries)
    ensures |Live(entries, now)| <= |entries|
    ensures Live(entries, now) == entries[|entries| - |Live(entries, now)|..]
    ensures forall i :: 0 <= i < |entries| ==> (i < |entries| - |Live(entries, now)| <==> entries[i].expiry <= now)
  {
    if entries != [] {
      LiveIsSuffix(entries[1..], now);
      var n := |Live(entries[1..], now)|;
      assert forall i :: 1 <= i < |entries| ==> entries[i] == entries[1..][i - 1];
      if entries[0].expiry > now {
        var tail := entries[1..];
        assert forall i :: 0 <= i < |tail| ==> tail[i].expiry > now;
        assert n == |tail|;
        assert entries == [entries[0]] + entries[1..];
      } else {
        assert entries[1..][|entries| - 1 - n..] == entries[|entries| - n..];
      }
    }
  }

  lemma {:induction false} WithoutPrefixIsSuffix(entries: seq<Entry>, n: nat)
    requires n <= |entries| && UniqueKeys(entries)
    ensures Without(entries, KeysOf(entries[..n])) == entries[n..]
  {
    var keys := KeysOf(entries[..n]);
    forall i | 0 <= i < |entries| ensures entries[i].key in keys <==> i < n {
      if i < n { assert entries[..n][i].key in keys; }
    }
    WithoutFrom(entries, keys, n);
  }

  lemma {:induction false} WithoutFrom(entries: seq<Entry>, keys: set<string>, n: nat)
    requires n <= |entries|
    requires forall i :: 0 <= i < |entries| ==> (entries[i].key in keys <==> i < n)
    ensures Without(entries, keys) == entries[n..]
  {
    if entries != [] {
      assert forall i :: 1 <= i < |entries| ==> entries[1..][i - 1] == entries[i];
      WithoutFrom(entries[1..], keys, if n == 0 then 0 else n - 1);
      assert n > 0 ==> entries[1..][n - 1..] == entries[n..];
      assert entries == [entries[0]] + entries[1..];
    }
  }

  // Dropping the expired items keeps the coupling and leaves only items that are alive.
  lemma {:induction false} LiveTracks(entries: seq<Entry>, history: seq<Acceptance>, ttlSec: int, maxEntries: int,
                                      clock: real, now: real)
    requires Tracks(entries, history, ttlSec, maxEntries, clock) && clock <= now
    ensures Tracks(Live(entries, now), history, ttlSec, maxEntries, now)
    ensures ExpirySorted(Live(entries, now))
    ensures forall e :: e in Live(entries, now) ==> e.expiry > now
  {
    TracksSorted(entries, history, ttlSec, maxEntries, clock);
    LiveIsSuffix(entries, now);
    LiveKeepsUnique(entries, now);
    SuffixTracks(entries, |entries| - |Live(entries, now)|, history, ttlSec, maxEntries, clock, now);
    LiveIsLive(entries, now);
  }

  lemma {:induction false} LiveIsLive(entries: seq<Entry>, now: real)
    ensures forall e :: e in Live(entries, now) ==> e.expiry > now
  {
    if entries != [] { LiveIsLive(entries[1..], now); }
  }

  lemma {:induction false} SuffixTracks(entries: seq<Entry>, drop: nat, history: seq<Acceptance>, ttlSec: int,
                                        maxEntries: int, clock: real, now: real)
    requires Tracks(entries, history, ttlSec, maxEntries, clock) && clock <= now && drop <= |entries|
    requires forall i :: 0 <= i < drop ==> entries[i].expiry <= now
    ensures Tracks(entries[drop..], history, ttlSec, maxEntries, now)
  {
    var skip := |history| - |entries|;
    SuffixOfSuffix(Stamped(history, ttlSec), skip, drop);
    forall i | 0 <= i < skip + drop ensures !RemembersAt(history, ttlSec, maxEntries, i, now) {
      if i < skip {
        assert !RemembersAt(history, ttlSec, maxEntries, i, clock);
      } else {
        assert entries[i - skip] == Stamped(history, ttlSec)[i];
      }
    }
  }

  lemma {:induction false} TracksSorted(entries: seq<Entry>, history: seq<Acceptance>, ttlSec: int, maxEntries: int,
                                        clock: real)
    requires Tracks(entries, history, ttlSec, maxEntries, clock)
    ensures ExpirySorted(entries)
  {
    var skip := |history| - |entries|;
    assert forall k :: 0 <= k < |entries| ==> entries[k] == Stamped(history, ttlSec)[skip + k];
  }

  lemma {:induction false} SuffixOfSuffix<T>(s: seq<T>, m: nat, n: nat)
    requires m + n <= |s|
    ensures s[m..][n..] == s[m + n..]
  {
  }

  // The cleaned cache is the tail of the history that is still remembered.
  lemma {:induction false} CleanedTracks(entries: seq<Entry>, history: seq<Acceptance>, ttlSec: int, maxEntries: int,
                                         clock: real, now: real)
    requires Tracks(entries, history, ttlSec, maxEntries, clock) && clock <= now
    ensures Tracks(Cleaned(entries, maxEntries, now), history, ttlSec, maxEntries, now)
    ensures forall i :: 0 <= i < |history| ==>
              (RemembersAt(history, ttlSec, maxEntries, i, now) <==>
                 i >= |history| - |Cleaned(entries, maxEntries, now)|)
  {
    LiveTracks(entries, history, ttlSec, maxEntries, clock, now);
    var live := Live(entries, now);
    SortOfSorted(live);
    var overflow := Overflow(|live|, maxEntries);
    WithoutPrefixIsSuffix(live, overflow);
    var cleaned := Cleaned(entries, maxEntries, now);
    assert cleaned == live[overflow..];
    EvictTracks(live, overflow, history, ttlSec, maxEntries, now);
  }

  lemma {:induction false} EvictTracks(live: seq<Entry>, overflow: nat, history: seq<Acceptance>, ttlSec: int,
                                       maxEntries: int, now: real)
    requires Tracks(live, history, ttlSec, maxEntries, now)
    requires forall e :: e in live ==> e.expiry > now
    requires overflow == Overflow(|live|, maxEntries)
    ensures Tracks(live[overflow..], history, ttlSec, maxEntries, now)
    ensures forall i :: 0 <= i < |history| ==>
              (RemembersAt(history, ttlSec, maxEntries, i, now) <==> i >= |history| - |live[overflow..]|)
  {
    var stamped := Stamped(history, ttlSec);
    var skip := |history| - |live|;
    var kept := live[overflow..];
    assert kept == stamped[|history| - |kept|..];
    forall i | 0 <= i < |history|
      ensures RemembersAt(history, ttlSec, maxEntries, i, now) <==> i >= |history| - |kept|
    {
      if i >= skip {
        assert live[i - skip] == stamped[i] && live[i - skip] in live;
      }
    }
  }

  lemma {:induction false} CleanedHasRemembered(entries: seq<Entry>, history: seq<Acceptance>, ttlSec: int,
                                                maxEntries: int, clock: real, key: string, now: real)
    requires Tracks(entries, history, ttlSec, maxEntries, clock) && clock <= now
    ensures HasKey(Cleaned(entries, maxEntries, now), key) <==> Remembered(history, ttlSec, maxEntries, key, now)
  {
    CleanedTracks(entries, history, ttlSec, maxEntries, clock, now);
    TailHasRemembered(Cleaned(entries, maxEntries, now), history, ttlSec, maxEntries, key, now);
  }

  lemma {:induction false} TailHasRemembered(tail: seq<Entry>, history: seq<Acceptance>, ttlSec: int, maxEntries: int,
                                             key: string, now: real)
    requires |tail| <= |history| && tail == Stamped(history, ttlSec)[|history| - |tail|..]
    requires forall i :: 0 <= i < |history| ==>
               (RemembersAt(history, ttlSec, maxEntries, i, now) <==> i >= |history| - |tail|)
    ensures HasKey(tail, key) <==> Remembered(history, ttlSec, maxEntries, key, now)
  {
    var skip := |history| - |tail|;
    assert forall k :: 0 <= k < |tail| ==> tail[k] == Stamped(history, ttlSec)[skip + k];
    if HasKey(tail, key) {
      var k :| 0 <= k < |tail| && tail[k].key == key;
      assert RemembersAt(history, ttlSec, maxEntries, skip + k, now) && history[skip + k].key == key;
    }
    if Remembered(history, ttlSec, maxEntries, key, now) {
      var i :| 0 <= i < |history| && RemembersAt(history, ttlSec, maxEntries, i, now) && history[i].key == key;
      assert tail[i - skip].key == key;
    }
  }

  /** One check refines the history: from a cache that tracks the history of acceptances, the
      answer is exactly the declarative one, and the cache tracks the extended history. */
  lemma {:induction false} CheckedFollowsHistory(entries: seq<Entry>, history: seq<Acceptance>, ttlSec: int,
                                                 maxEntries: int, clock: real, key: string, now: real)
    requires Tracks(entries, history, ttlSec, maxEntries, clock) && clock <= now
    ensures var (ok, after) := Checked(entries, ttlSec, maxEntries, key, now);
            && ok == !Remembered(history, ttlSec, maxEntries, key, now)
            && Tracks(after, if ok then history + [Acceptance(key, now)] else history, ttlSec, maxEntries, now)
  {
    CleanedTracks(entries, history, ttlSec, maxEntries, clock, now);
    CleanedHasRemembered(entries, history, ttlSec, maxEntries, clock, key, now);
    var cleaned := Cleaned(entries, maxEntries, now);
    if !HasKey(cleaned, key) {
      MarkTracks(cleaned, history, ttlSec, maxEntries, key, now);
    }
  }

  lemma {:induction false} MarkTracks(entries: seq<Entry>, history: seq<Acceptance>, ttlSec: int, maxEntries: int,
                                      key: string, now: real)
    requires Tracks(entries, history, ttlSec, maxEntries, now) && !HasKey(entries, key)
    ensures Tracks(entries + [Entry(key, now + ttlSec as real)], history + [Acceptance(key, now)],
                   ttlSec, maxEntries, now)
  {
    var longer := history + [Acceptance(key, now)];
    var after := entries + [Entry(key, now + ttlSec as real)];
    assert Stamped(longer, ttlSec) == Stamped(history, ttlSec) + [Entry(key, now + ttlSec as real)];
    forall i | 0 <= i < |longer| - |after| ensures !RemembersAt(longer, ttlSec, maxEntries, i, now) {
      assert !RemembersAt(history, ttlSec, maxEntries, i, now);
    }
  }

  // ---------------------------------------------------------------- whole runs

  datatype Call = Call(key: string, now: real)

  ghost function Answers(entries: seq<Entry>, ttlSec: int, maxEntries: int, calls: seq<Call>): (answers: seq<bool>)
    ensures |answers| == |calls|
    decreases |calls|
  {
    if calls == [] then []
    else
      var (ok, after) := Checked(entries, ttlSec, maxEntries, calls[0].key, calls[0].now);
      [ok] + Answers(after, ttlSec, maxEntries, calls[1..])
  }

  // The acceptances of a run, given its answers.
  ghost function Accepted(calls: seq<Call>, answers: seq<bool>): seq<Acceptance>
    requires |calls| == |answers|
  {
    if calls == [] then []
    else (if answers[0] then [Acceptance(calls[0].key, calls[0].now)] else []) + Accepted(calls[1..], answers[1..])
  }

  // The acceptances known when the i-th call is made.
  ghost function HistoryAt(history: seq<Acceptance>, calls: seq<Call>, answers: seq<bool>, i: nat): seq<Acceptance>
    requires i <= |calls| == |answers|
  {
    history + Accepted(calls[..i], answers[..i])
  }

  ghost predicate ClockNeverStepsBack(clock: real, calls: seq<Call>)
    decreases |calls|
  {
    calls != [] ==> clock <= calls[0].now && ClockNeverStepsBack(calls[0].now, calls[1..])
  }

  // The same run decided from the full history, which forgets nothing.
  ghost function HistoryAnswers(history: seq<Acceptance>, ttlSec: int, maxEntries: int,
                                calls: seq<Call>): (answers: seq<bool>)
    ensures |answers| == |calls|
    decreases |calls|
  {
    if calls == [] then []
    else
      var ok := !Remembered(history, ttlSec, maxEntries, calls[0].key, calls[0].now);
      [ok] + HistoryAnswers(if ok then history + [Acceptance(calls[0].key, calls[0].now)] else history,
                            ttlSec, maxEntries, calls[1..])
  }

  /** Over any run of the cache whose clock does not step back, the i-th call is refused exactly
      when its key is among the last `maxEntries` keys accepted before it and the age of that
      acceptance is below the time to live. */
  lemma {:induction false} ExactRefinement(ttlSec: int, maxEntries: int, start: real, calls: seq<Call>, i: nat)
    requires ClockNeverStepsBack(start, calls) && i < |calls|
    ensures var answers := Answers([], ttlSec, maxEntries, calls);
            answers[i] == !Remembered(HistoryAt([], calls, answers, i), ttlSec, maxEntries, calls[i].key, calls[i].now)
  {
    AnswersFromHistory([], [], ttlSec, maxEntries, start, calls);
    HistoryAnswerAt([], ttlSec, maxEntries, calls, i);
  }

  // The bounded cache and the unbounded history give the same answers.
  lemma {:induction false} AnswersFromHistory(entries: seq<Entry>, history: seq<Acceptance>, ttlSec: int,
                                              maxEntries: int, clock: real, calls: seq<Call>)
    requires Tracks(entries, history, ttlSec, maxEntries, clock)
    requires ClockNeverStepsBack(clock, calls)
    ensures Answers(entries, ttlSec, maxEntries, calls) == HistoryAnswers(history, ttlSec, maxEntries, calls)
    decreases |calls|
  {
    if calls != [] {
      var call := calls[0];
      CheckedFollowsHistory(entries, history, ttlSec, maxEntries, clock, call.key, call.now);
      var (ok, after) := Checked(entries, ttlSec, maxEntries, call.key, call.now);
      AnswersFromHistory(after, if ok then history + [Acceptance(call.key, call.now)] else history,
                         ttlSec, maxEntries, call.now, calls[1..]);
    }
  }

  lemma {:induction false} HistoryAnswerAt(history: seq<Acceptance>, ttlSec: int, maxEntries: int, calls: seq<Call>,
                                           i: nat)
    requires i < |calls|
    ensures var answers := HistoryAnswers(history, ttlSec, maxEntries, calls);
            answers[i] ==
              !Remembered(HistoryAt(history, calls, answers, i), ttlSec, maxEntries, calls[i].key, calls[i].now)
    decreases |calls|
  {
    var answers := HistoryAnswers(history, ttlSec, maxEntries, calls);
    if i == 0 {
      assert HistoryAt(history, calls, answers, 0) == history;
    } else {
      var longer := if answers[0] then history + [Acceptance(calls[0].key, calls[0].now)] else history;
      var rest := HistoryAnswers(longer, ttlSec, maxEntries, calls[1..]);
      assert answers == [answers[0]] + rest;
      assert answers[1..] == rest;
      HistoryAnswerAt(longer, ttlSec, maxEntries, calls[1..], i - 1);
      HistoryAtStep(history, calls, answers, i);
      assert calls[1..][i - 1] == calls[i];
    }
  }

  lemma {:induction false} HistoryAtStep(history: seq<Acceptance>, calls: seq<Call>, answers: seq<bool>, i: nat)
    requires 0 < i <= |calls| == |answers|
    ensures var longer := if answers[0] then history + [Acceptance(calls[0].key, calls[0].now)] else history;
            HistoryAt(history, calls, answers, i) == HistoryAt(longer, calls[1..], answers[1..], i - 1)
  {
    assert calls[..i][1..] == calls[1..][..i - 1];
    assert answers[..i][1..] == answers[1..][..i - 1];
  }

  // ---------------------------------------------------------------- whatever the clock does

  lemma {:induction false} SortKeepsItems(entries: seq<Entry>)
    ensures multiset(SortByExpiry(entries)) == multiset(entries)
  {
    if entries != [] {
      SortKeepsItems(entries[1..]);
      InsertKeepsItems(entries[0], SortByExpiry(entries[1..]));
      assert entries == [entries[0]] + entries[1..];
    }
  }

  lemma {:induction false} InsertKeepsItems(e: Entry, sorted: seq<Entry>)
    ensures multiset(InsertByExpiry(e, sorted)) == multiset([e] + sorted)
  {
    if sorted != [] && e.expiry > sorted[0].expiry {
      InsertKeepsItems(e, sorted[1..]);
      assert sorted == [sorted[0]] + sorted[1..];
    }
  }

  lemma {:induction false} WithoutCounts(entries: seq<Entry>, keys: set<string>)
    requires UniqueKeys(entries) && keys <= KeysOf(entries)
    ensures |Without(entries, keys)| == |entries| - |keys|
  {
    if entries == [] {
      assert keys == {};
    } else {
      var k0, tail := entries[0].key, entries[1..];
      var rest := keys - {k0};
      KeysOfTail(entries);
      WithoutCounts(tail, rest);
      if k0 in keys {
        assert keys == rest + {k0};
        WithoutAbsent(tail, rest, k0);
        assert Without(entries, keys) == [] + Without(tail, keys);
      } else {
        assert keys == rest;
      }
    }
  }

  lemma {:induction false} KeysOfTail(entries: seq<Entry>)
    requires entries != [] && UniqueKeys(entries)
    ensures KeysOf(entries) - {entries[0].key} <= KeysOf(entries[1..])
    ensures forall i :: 0 <= i < |entries[1..]| ==> entries[1..][i].key != entries[0].key
  {
    forall k | k in KeysOf(entries) && k != entries[0].key ensures k in KeysOf(entries[1..]) {
      var i :| 0 <= i < |entries| && entries[i].key == k;
      assert entries[1..][i - 1].key == k;
    }
  }

  // The first n of the sorted items have n distinct keys.
  lemma {:induction false} VictimCount(entries: seq<Entry>, sorted: seq<Entry>, n: nat)
    requires UniqueKeys(entries) && multiset(sorted) == multiset(entries) && n <= |sorted|
    ensures |KeysOf(sorted[..n])| == n
    ensures KeysOf(sorted[..n]) <= KeysOf(entries)
  {
    if n > 0 {
      VictimCount(entries, sorted, n - 1);
      var e := sorted[n - 1];
      assert sorted[..n] == sorted[..n - 1] + [e];
      KeysOfAppend(sorted[..n - 1], e);
      assert e in multiset(sorted);
      assert e in entries;
      if e.key in KeysOf(sorted[..n - 1]) {
        var j :| 0 <= j < n - 1 && sorted[..n - 1][j].key == e.key;
        var f := sorted[j];
        assert f in multiset(sorted);
        assert f == e;
        TwiceInMultiset(sorted, j, n - 1);
        OnceInUnique(entries, e);
        assert false;
      }
    }
  }

  lemma {:induction false} TwiceInMultiset(s: seq<Entry>, j: nat, k: nat)
    requires j < k < |s| && s[j] == s[k]
    ensures multiset(s)[s[j]] >= 2
  {
    assert s == s[..k] + s[k..];
    assert s[..k][j] == s[j] && s[k..][0] == s[k];
    assert s[j] in multiset(s[..k]) && s[j] in multiset(s[k..]);
  }

  lemma {:induction false} OnceInUnique(entries: seq<Entry>, e: Entry)
    requires UniqueKeys(entries)
    ensures multiset(entries)[e] <= 1
  {
    if entries != [] {
      OnceInUnique(entries[1..], e);
      assert entries == [entries[0]] + entries[1..];
      if entries[0] == e {
        assert e !in entries[1..];
      }
    }
  }

  /** Whatever the clock does, cleaning a dict keeps as many live items as fit, and no item it
      keeps expires before an item it evicts. */
  lemma {:induction false} EvictionAtAnyClock(entries: seq<Entry>, maxEntries: int, now: real)
    requires UniqueKeys(entries)
    ensures var live := Live(entries, now);
            var cleaned := Cleaned(entries, maxEntries, now);
            && |cleaned| == |live| - Overflow(|live|, maxEntries)
            && (forall e :: e in cleaned ==> e in live)
            && (forall e, f :: e in live && e !in cleaned && f in cleaned ==> e.expiry <= f.expiry)
  {
    var live := Live(entries, now);
    var sorted := SortByExpiry(live);
    var n := Overflow(|live|, maxEntries);
    LiveKeepsUnique(entries, now);
    SortLength(live);
    SortKeepsItems(live);
    SortIsStable(live);
    VictimCount(live, sorted, n);
    WithoutCounts(live, KeysOf(sorted[..n]));
    WithoutKeepsUnique(live, KeysOf(sorted[..n]));
    var cleaned := Cleaned(entries, maxEntries, now);
    forall e, f | e in live && e !in cleaned && f in cleaned ensures e.expiry <= f.expiry {
      EvictedExpireFirst(live, sorted, n, e, f);
    }
  }

  lemma {:induction false} EvictedExpireFirst(live: seq<Entry>, sorted: seq<Entry>, n: nat, e: Entry, f: Entry)
    requires UniqueKeys(live) && ExpirySorted(sorted) && multiset(sorted) == multiset(live) && n <= |sorted|
    requires e in live && e.key in KeysOf(sorted[..n])
    requires f in live && f.key !in KeysOf(sorted[..n])
    ensures e.expiry <= f.expiry
  {
    var victims := sorted[..n];
    var i :| 0 <= i < n && victims[i].key == e.key;
    assert sorted[i] in multiset(sorted);
    assert sorted[i] in live && sorted[i] == e;
    assert f in multiset(live);
    assert f in sorted;
    var j :| 0 <= j < |sorted| && sorted[j] == f;
    assert forall k :: 0 <= k < n ==> victims[k] == sorted[k] && victims[k].key in KeysOf(victims);
    assert i < n <= j;
  }
}
