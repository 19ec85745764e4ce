/**
 * The translation history both clients keep: a most-recent-first list of at most
 * ten entries, written through to the browser's storage under one key after
 * every change (`localStorage` in the web client, `chrome.storage.local` in the
 * side panel). The stored value stands for the serialised list; serialising and
 * parsing it back is taken to be lossless.
 */
module History {
  import opened Json

  const Capacity: nat := 10
  const StorageKey: string := "translationHistory"

  /** One history item: the response's `originalText`, `translatedText`, and `Date.now()`. */
  datatype Entry = Entry(source: JsVal, target: JsVal, timestamp: int)

  /** The list after `unshift(e)` and, when it grew past ten, `slice(0, 10)`. */
  function Prepend(e: Entry, list: seq<Entry>): (r: seq<Entry>)
    ensures |r| == if |list| < Capacity then |list| + 1 else Capacity
    ensures r[0] == e
    ensures r[1..] <= list
  {
    var grown := [e] + list;
    if |grown| > Capacity then grown[..Capacity] else grown
  }

  /** The first (at most) `n` elements of `s`. */
  function Take<T>(s: seq<T>, n: nat): (r: seq<T>)
    ensures r <= s && |r| == if |s| < n then |s| else n
  {
    if |s| <= n then s else s[..n]
  }

  function Reverse<T>(s: seq<T>): (r: seq<T>)
    ensures |r| == |s|
    ensures forall i | 0 <= i < |s| :: r[i] == s[|s| - 1 - i]
  {
    if |s| == 0 then [] else Reverse(s[1..]) + [s[0]]
  }

  /** The list after adding each of `items` in turn, starting from `list`. */
  function AddAll(list: seq<Entry>, items: seq<Entry>): seq<Entry>
    decreases |items|
  {
    if |items| == 0 then list else AddAll(Prepend(items[0], list), items[1..])
  }

  /** Adding one entry keeps the ten most recent of everything seen, newest first. */
  lemma PrependIsTake(e: Entry, list: seq<Entry>)
    ensures Prepend(e, list) == Take([e] + list, Capacity)
  {
  }

  /**
   * Whatever was added, the list holds the most recently added entries, newest
   * first, followed by the front of the earlier list, ten at most.
   */
  lemma {:induction false} AddAllKeepsMostRecent(list: seq<Entry>, items: seq<Entry>)
    requires |items| > 0
    ensures AddAll(list, items) == Take(Reverse(items) + list, Capacity)
    decreases |items|
  {
    var e, rest := items[0], items[1..];
    var p := Prepend(e, list);
    PrependIsTake(e, list);
    assert AddAll(list, items) == AddAll(p, rest);
    if |rest| == 0 {
      assert Reverse(items) == [e];
    } else {
      AddAllKeepsMostRecent(p, rest);
      TakeAppend(Reverse(rest), [e] + list, Capacity);
      assert Reverse(items) == Reverse(rest) + [e];
      assert Reverse(rest) + ([e] + list) == Reverse(items) + list;
    }
  }

  /** After ten or more additions nothing of the earlier list is left. */
  lemma LastTenOnly(list: seq<Entry>, items: seq<Entry>)
    requires |items| >= Capacity
    ensures AddAll(list, items) == Reverse(items)[..Capacity]
  {
    AddAllKeepsMostRecent(list, items);
    assert (Reverse(items) + list)[..Capacity] == Reverse(items)[..Capacity];
  }

  /** Cutting the tail of a suffix before taking a prefix changes nothing. */
  lemma TakeAppend<T>(a: seq<T>, b: seq<T>, n: nat)
    ensures Take(a + Take(b, n), n) == Take(a + b, n)
  {
    var lhs, rhs := Take(a + Take(b, n), n), Take(a + b, n);
    assert |lhs| == |rhs|;
    forall i | 0 <= i < |lhs| ensures lhs[i] == rhs[i] {
      if i >= |a| {
        assert lhs[i] == Take(b, n)[i - |a|];
      }
    }
  }

  /** The history of one page, and the browser storage it writes through to. */
  class HistoryCache {
    var entries: seq<Entry>
    var storage: map<string, seq<Entry>>

    /** The page starts with an empty list; the storage holds what earlier visits saved. */
    constructor (saved: map<string, seq<Entry>>)
      ensures entries == [] && storage == saved
    {
      entries := [];
      storage := saved;
    }

    /** The stored list is the list in memory. */
    predicate Persisted()
      reads this
    {
      StorageKey in storage && storage[StorageKey] == entries
    }

    /** `addToHistory`: prepend, keep the first ten, save. */
    method Add(e: Entry)
      modifies this
      ensures entries == Prepend(e, old(entries))
      ensures storage == old(storage)[StorageKey := entries]
      ensures Persisted()
    {
      entries := [e] + entries;
      if |entries| > Capacity {
        entries := entries[..Capacity];
      }
      Save();
    }

    /** `saveHistory`: the whole list goes to storage; nothing else is touched. */
    method Save()
      modifies this
      ensures entries == old(entries)
      ensures storage == old(storage)[StorageKey := entries]
      ensures Persisted()
    {
      storage := storage[StorageKey := entries];
    }

    /** `loadHistory`: adopts the stored list as it is (no cap), or keeps the list when nothing is stored. */
    method Load()
      modifies this
      ensures storage == old(storage)
      ensures entries == if StorageKey in storage then storage[StorageKey] else old(entries)
      ensures StorageKey in storage ==> Persisted()
    {
      if StorageKey in storage {
        entries := storage[StorageKey];
      }
    }

    /** `clearHistory`: only when the user confirms, empties the list and saves it. */
    method Clear(confirmed: bool)
      modifies this
      ensures confirmed ==> entries == [] && storage == old(storage)[StorageKey := []]
      ensures !confirmed ==> entries == old(entries) && storage == old(storage)
    {
      if confirmed {
        entries := [];
        Save();
      }
    }
  }
}
