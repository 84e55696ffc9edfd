/**
 * The run manifest: the history of published runs, one entry per run key,
 * newest first, plus a pointer to the entry of the latest run. A run upserts
 * its own entry: entries with the same key are dropped, the new entry is
 * appended, and the list is sorted by generation time, descending and stable.
 */
module RunManifest {

  import opened Wrappers
  import opened StableSort

  /** One published run. Entries read from an older manifest may lack a key or a timestamp. */
  datatype Entry = Entry(
    key: Option<string>,
    sport: string,
    season: int,
    week: int,
    path: string,
    generatedAt: Option<string>)

  /** String ordering by character code, a proper prefix coming first. */
  function LexLe(a: string, b: string): (le: bool)
    ensures a <= b ==> le
    ensures a != [] && b != [] && a[0] < b[0] ==> le
    ensures le && a != [] ==> b != [] && a[0] <= b[0]
  {
    a == [] || (b != [] && (a[0] < b[0] || (a[0] == b[0] && LexLe(a[1..], b[1..]))))
  }

  lemma {:induction false} LexLeTotal(a: string, b: string)
    ensures LexLe(a, b) || LexLe(b, a)
    decreases |a|
  {
    if a != [] && b != [] && a[0] == b[0] {
      LexLeTotal(a[1..], b[1..]);
    }
  }

  lemma {:induction false} LexLeTransitive(a: string, b: string, c: string)
    requires LexLe(a, b) && LexLe(b, c)
    ensures LexLe(a, c)
    decreases |a|
  {
    if a != [] && a[0] == b[0] && b[0] == c[0] {
      LexLeTransitive(a[1..], b[1..], c[1..]);
    }
  }

  lemma {:induction false} LexLeAntisymmetric(a: string, b: string)
    requires LexLe(a, b) && LexLe(b, a)
    ensures a == b
    decreases |a|
  {
    if a != [] {
      LexLeAntisymmetric(a[1..], b[1..]);
      assert a == [a[0]] + a[1..] && b == [b[0]] + b[1..];
    }
  }

  lemma LexLeTotalOrder()
    ensures TotalOrder(LexLe)
  {
    forall a, b
      ensures LexLe(a, b) || LexLe(b, a)
    {
      LexLeTotal(a, b);
    }
    forall a, b, c | LexLe(a, b) && LexLe(b, c)
      ensures LexLe(a, c)
    {
      LexLeTransitive(a, b, c);
    }
    forall a, b | LexLe(a, b) && LexLe(b, a)
      ensures a == b
    {
      LexLeAntisymmetric(a, b);
    }
  }

  /** The sort key of an entry: its generation timestamp, or "" when it has none. */
  function GeneratedKey(e: Entry): (k: string)
    ensures e.generatedAt.Some? ==> k == e.generatedAt.value
    ensures e.generatedAt.None? ==> forall t :: LexLe(k, t)
  {
    match e.generatedAt
    case Some(t) => t
    case None => ""
  }

  /** The entries whose key is not `key`, in order; entries without a key are kept. */
  function Without(entries: seq<Entry>, key: string): (kept: seq<Entry>)
    ensures forall i :: 0 <= i < |kept| ==> kept[i].key != Some(key)
  {
    if entries == [] then []
    else
      var init, last := entries[..|entries| - 1], entries[|entries| - 1];
      assert entries == init + [last];
      Without(init, key) + (if last.key != Some(key) then [last] else [])
  }

  /** Dropping a key keeps every other entry, keyless ones included, as often as it occurred. */
  lemma {:induction false} WithoutCount(entries: seq<Entry>, key: string, e: Entry)
    ensures multiset(Without(entries, key))[e] == if e.key == Some(key) then 0 else multiset(entries)[e]
    decreases |entries|
  {
    if entries != [] {
      var init, last := entries[..|entries| - 1], entries[|entries| - 1];
      assert entries == init + [last];
      WithoutCount(init, key, e);
    }
  }

  /** The entry a run publishes under `key`. */
  function NewEntry(key: string, sport: string, season: int, week: int, generatedAt: string): (e: Entry)
    ensures e.key == Some(key) && GeneratedKey(e) == generatedAt
    ensures e.sport == sport && e.season == season && e.week == week
    ensures e.path == "signals/top3_" + key + ".json"
  {
    Entry(Some(key), sport, season, week, "signals/top3_" + key + ".json", Some(generatedAt))
  }

  /** The entries after upserting `entry`: same-key entries dropped, `entry` appended, sorted newest first. */
  function UpsertEntries(entries: seq<Entry>, entry: Entry): (r: seq<Entry>)
    requires entry.key.Some?
    ensures |r| == |Without(entries, entry.key.value)| + 1
    ensures multiset(r) == multiset(Without(entries, entry.key.value)) + multiset{entry}
  {
    Sort(Without(entries, entry.key.value) + [entry], GeneratedKey, LexLe)
  }

  /** Afterwards the new entry is the one and only entry with its key. */
  lemma UpsertSingleEntryForKey(entries: seq<Entry>, entry: Entry)
    requires entry.key.Some?
    ensures var r := UpsertEntries(entries, entry);
            && entry in r
            && multiset(r)[entry] == 1
            && forall i :: 0 <= i < |r| && r[i].key == entry.key ==> r[i] == entry
  {
    var kept := Without(entries, entry.key.value);
    var r := UpsertEntries(entries, entry);
    assert multiset(r) == multiset(kept) + multiset{entry};
    WithoutCount(entries, entry.key.value, entry);
    assert multiset(r)[entry] == 1;
    forall i | 0 <= i < |r| && r[i].key == entry.key
      ensures r[i] == entry
    {
      assert r[i] in multiset(r);
      WithoutCount(entries, entry.key.value, r[i]);
    }
  }

  /** Every entry with another key, keyless ones included, is kept as often as before; nothing else appears. */
  lemma UpsertKeepsOthers(entries: seq<Entry>, entry: Entry)
    requires entry.key.Some?
    ensures var r := UpsertEntries(entries, entry);
            && (forall e: Entry :: e.key != entry.key ==> multiset(r)[e] == multiset(entries)[e])
            && (forall e :: e in r ==> e == entry || (e in entries && e.key != entry.key))
  {
    var kept := Without(entries, entry.key.value);
    var r := UpsertEntries(entries, entry);
    assert multiset(r) == multiset(kept) + multiset{entry};
    forall e: Entry | e.key != entry.key
      ensures multiset(r)[e] == multiset(entries)[e]
    {
      WithoutCount(entries, entry.key.value, e);
    }
    forall e | e in r
      ensures e == entry || (e in entries && e.key != entry.key)
    {
      assert e in multiset(r);
      WithoutCount(entries, entry.key.value, e);
    }
  }

  /** No two entries share a key; keyless entries are not constrained. */
  predicate UniqueKeys(s: seq<Entry>) {
    forall i, j :: 0 <= i < j < |s| && s[i].key.Some? ==> s[i].key != s[j].key
  }

  /** With unique keys, an entry that has a key occurs at most once. */
  lemma {:induction false} KeyedAtMostOnce(s: seq<Entry>, e: Entry)
    requires UniqueKeys(s) && e.key.Some?
    ensures multiset(s)[e] <= 1
    decreases |s|
  {
    if s != [] {
      var init, last := s[..|s| - 1], s[|s| - 1];
      assert s == init + [last];
      assert UniqueKeys(init);
      KeyedAtMostOnce(init, e);
      if last == e {
        assert e !in init by {
          forall i | 0 <= i < |init|
            ensures init[i] != e
          {
            assert s[i] == init[i] && s[|s| - 1] == e;
          }
        }
      }
    }
  }

  /** An upsert keeps the keys of a manifest unique: each run is listed at most once. */
  lemma UpsertKeepsKeysUnique(entries: seq<Entry>, entry: Entry)
    requires entry.key.Some? && UniqueKeys(entries)
    ensures UniqueKeys(UpsertEntries(entries, entry))
  {
    var r := UpsertEntries(entries, entry);
    forall i, j | 0 <= i < j < |r| && r[i].key.Some?
      ensures r[i].key != r[j].key
    {
      UpsertPairKeysDiffer(entries, entry, i, j);
    }
  }

  lemma UpsertPairKeysDiffer(entries: seq<Entry>, entry: Entry, i: nat, j: nat)
    requires entry.key.Some? && UniqueKeys(entries)
    requires i < j < |UpsertEntries(entries, entry)| && UpsertEntries(entries, entry)[i].key.Some?
    ensures var r := UpsertEntries(entries, entry); r[i].key != r[j].key
  {
    var r := UpsertEntries(entries, entry);
    var k := entry.key.value;
    var x, y := r[i], r[j];
    assert x != y by {
      UpsertKeyedAtMostOnce(entries, entry, x);
      SingleOccurrence(r, i, j);
    }
    assert x in multiset(r) && y in multiset(r);
    WithoutCount(entries, k, x);
    WithoutCount(entries, k, y);
    if x.key != entry.key && y.key != entry.key {
      assert x in multiset(entries) && y in multiset(entries);
      var p :| 0 <= p < |entries| && entries[p] == x;
      var q :| 0 <= q < |entries| && entries[q] == y;
      if p < q {
        assert entries[p].key != entries[q].key;
      } else {
        assert entries[q].key != entries[p].key;
      }
    }
  }

  lemma UpsertKeyedAtMostOnce(entries: seq<Entry>, entry: Entry, x: Entry)
    requires entry.key.Some? && UniqueKeys(entries) && x.key.Some?
    ensures multiset(UpsertEntries(entries, entry))[x] <= 1
  {
    WithoutCount(entries, entry.key.value, x);
    if x.key != entry.key {
      KeyedAtMostOnce(entries, x);
    }
  }

  /** The entries are ordered newest first, and entries with equal timestamps keep their previous order. */
  lemma UpsertSortedByTime(entries: seq<Entry>, entry: Entry)
    requires entry.key.Some?
    ensures SortedDesc(UpsertEntries(entries, entry), GeneratedKey, LexLe)
    ensures forall t :: WithKey(UpsertEntries(entries, entry), GeneratedKey, t)
                     == WithKey(Without(entries, entry.key.value) + [entry], GeneratedKey, t)
  {
    var s := Without(entries, entry.key.value) + [entry];
    LexLeTotalOrder();
    SortSorted(s, GeneratedKey, LexLe);
    forall t
      ensures WithKey(Sort(s, GeneratedKey, LexLe), GeneratedKey, t) == WithKey(s, GeneratedKey, t)
    {
      SortStable(s, GeneratedKey, LexLe, t);
    }
  }

  /** `entry` is strictly newer than every entry of `entries` recorded under another key. */
  predicate NewerThanOthers(entries: seq<Entry>, entry: Entry) {
    forall e :: e in entries && e.key != entry.key ==> !LexLe(GeneratedKey(entry), GeneratedKey(e))
  }

  /**
   * The new entry comes first exactly when it is strictly newer than every
   * entry kept from other runs; on a tie it goes after the older entry.
   */
  lemma UpsertNewestFirst(entries: seq<Entry>, entry: Entry)
    requires entry.key.Some?
    ensures UpsertEntries(entries, entry)[0] == entry <==> NewerThanOthers(entries, entry)
  {
    if NewerThanOthers(entries, entry) {
      NewerGoesFirst(entries, entry);
    }
    if UpsertEntries(entries, entry)[0] == entry {
      FirstIsNewer(entries, entry);
    }
  }

  lemma NewerGoesFirst(entries: seq<Entry>, entry: Entry)
    requires entry.key.Some? && NewerThanOthers(entries, entry)
    ensures UpsertEntries(entries, entry)[0] == entry
  {
    var kept := Without(entries, entry.key.value);
    var s := kept + [entry];
    assert s[..|s| - 1] == kept && s[|s| - 1] == entry;
    var sortedKept := Sort(kept, GeneratedKey, LexLe);
    forall i | 0 <= i < |sortedKept|
      ensures !LexLe(GeneratedKey(entry), GeneratedKey(sortedKept[i]))
    {
      assert sortedKept[i] in multiset(kept);
      WithoutCount(entries, entry.key.value, sortedKept[i]);
    }
    InsertFront(sortedKept, entry, GeneratedKey, LexLe);
  }

  lemma FirstIsNewer(entries: seq<Entry>, entry: Entry)
    requires entry.key.Some? && UpsertEntries(entries, entry)[0] == entry
    ensures NewerThanOthers(entries, entry)
  {
    var kept := Without(entries, entry.key.value);
    var sortedKept := Sort(kept, GeneratedKey, LexLe);
    assert UpsertEntries(entries, entry) == Insert(sortedKept, entry, GeneratedKey, LexLe) by {
      var s := kept + [entry];
      assert s[..|s| - 1] == kept && s[|s| - 1] == entry;
    }
    assert entry !in sortedKept by {
      WithoutCount(entries, entry.key.value, entry);
      assert entry !in multiset(sortedKept);
    }
    InsertFrontOnly(sortedKept, entry, GeneratedKey, LexLe);
    forall e | e in entries && e.key != entry.key
      ensures !LexLe(GeneratedKey(entry), GeneratedKey(e))
    {
      assert e in sortedKept by {
        WithoutCount(entries, entry.key.value, e);
        assert e in multiset(entries);
        assert e in multiset(sortedKept);
      }
    }
  }

  /**
   * Upserting a second run under the same key gives exactly what upserting
   * only the second run would: the first run's entry leaves no trace.
   */
  lemma UpsertSameKeyTwice(entries: seq<Entry>, first: Entry, second: Entry)
    requires first.key.Some? && second.key == first.key
    ensures UpsertEntries(UpsertEntries(entries, first), second) == UpsertEntries(entries, second)
  {
    var k := first.key.value;
    var kept := Without(entries, k);
    var once := UpsertEntries(entries, first);
    var x := Without(once, k) + [second];
    var y := kept + [second];
    forall t
      ensures WithKey(x, GeneratedKey, t) == WithKey(y, GeneratedKey, t)
    {
      UpsertSortedByTime(entries, first);
      calc {
        WithKey(Without(once, k), GeneratedKey, t);
        { WithoutWithKey(once, k, t); }
        Without(WithKey(once, GeneratedKey, t), k);
        Without(WithKey(kept + [first], GeneratedKey, t), k);
        { WithoutWithKey(kept + [first], k, t); }
        WithKey(Without(kept + [first], k), GeneratedKey, t);
        { WithoutAppendDropped(kept, first, k); WithoutTwice(entries, k); }
        WithKey(kept, GeneratedKey, t);
      }
      WithKeyAppend(Without(once, k), [second], GeneratedKey, t);
      WithKeyAppend(kept, [second], GeneratedKey, t);
    }
    LexLeTotalOrder();
    SortSorted(x, GeneratedKey, LexLe);
    forall t
      ensures WithKey(Sort(x, GeneratedKey, LexLe), GeneratedKey, t) == WithKey(y, GeneratedKey, t)
    {
      SortStable(x, GeneratedKey, LexLe, t);
    }
    SortUnique(y, Sort(x, GeneratedKey, LexLe), GeneratedKey, LexLe);
  }

  /** Dropping a key and selecting a timestamp commute. */
  lemma {:induction false} WithoutWithKey(s: seq<Entry>, key: string, t: string)
    ensures WithKey(Without(s, key), GeneratedKey, t) == Without(WithKey(s, GeneratedKey, t), key)
    decreases |s|
  {
    if s != [] {
      var init, last := s[..|s| - 1], s[|s| - 1];
      WithoutWithKey(init, key, t);
      var w := Without(init, key);
      var lastKept := if last.key != Some(key) then [last] else [];
      WithKeyAppend(w, lastKept, GeneratedKey, t);
      var v := WithKey(init, GeneratedKey, t);
      var lastSelected := if GeneratedKey(last) == t then [last] else [];
      WithoutAppend(v, lastSelected, key);
      assert lastKept[..|lastKept|] == lastKept;
    }
  }

  lemma {:induction false} WithoutAppend(s: seq<Entry>, u: seq<Entry>, key: string)
    ensures Without(s + u, key) == Without(s, key) + Without(u, key)
    decreases |u|
  {
    if u == [] {
      assert s + u == s;
    } else {
      var init, last := u[..|u| - 1], u[|u| - 1];
      assert (s + u)[..|s + u| - 1] == s + init;
      assert (s + u)[|s + u| - 1] == last;
      WithoutAppend(s, init, key);
    }
  }

  lemma WithoutAppendDropped(s: seq<Entry>, e: Entry, key: string)
    requires e.key == Some(key)
    ensures Without(s + [e], key) == Without(s, key)
  {
    assert (s + [e])[..|s|] == s;
  }

  lemma {:induction false} WithoutTwice(s: seq<Entry>, key: string)
    ensures Without(Without(s, key), key) == Without(s, key)
    decreases |s|
  {
    if s != [] {
      var init, last := s[..|s| - 1], s[|s| - 1];
      WithoutTwice(init, key);
      var lastKept := if last.key != Some(key) then [last] else [];
      WithoutAppend(Without(init, key), lastKept, key);
    }
  }

  /** Sorts a copy of `list` in place, newest first and stable. */
  method SortByTime(list: seq<Entry>) returns (sorted: seq<Entry>)
    ensures sorted == Sort(list, GeneratedKey, LexLe)
  {
    var a := new Entry[|list|](i requires 0 <= i < |list| => list[i]);
    assert a[..] == list;
    SortInPlace(a, GeneratedKey, LexLe);
    sorted := a[..];
  }

  /** The manifest a run loads (or starts empty), updates and stores. */
  class Manifest {
    var entries: seq<Entry>
    var latest: Option<Entry>
    var updatedAt: Option<string>

    /** A manifest as loaded; a missing or unreadable file is `Manifest([], None, None)`. */
    constructor (entries: seq<Entry>, latest: Option<Entry>, updatedAt: Option<string>)
      ensures this.entries == entries && this.latest == latest && this.updatedAt == updatedAt
    {
      this.entries, this.latest, this.updatedAt := entries, latest, updatedAt;
    }

    /**
     * Records the run published under `key` at time `now`: its entry replaces
     * every entry with the same key, the entries are re-sorted newest first,
     * and `latest` points to the run's entry.
     */
    method Upsert(key: string, sport: string, season: int, week: int, now: string)
      modifies this
      ensures entries == UpsertEntries(old(entries), NewEntry(key, sport, season, week, now))
      ensures latest == Some(NewEntry(key, sport, season, week, now))
      ensures updatedAt == Some(now)
      ensures UniqueKeys(old(entries)) ==> UniqueKeys(entries)
    {
      var entry := NewEntry(key, sport, season, week, now);
      var sorted := SortByTime(Without(entries, key) + [entry]);
      assert UniqueKeys(entries) ==> UniqueKeys(sorted) by {
        if UniqueKeys(entries) {
          UpsertKeepsKeysUnique(entries, entry);
        }
      }
      entries := sorted;
      latest := Some(entry);
      updatedAt := Some(now);
    }
  }
}
