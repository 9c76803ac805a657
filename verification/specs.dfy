/**
 * A `Record<string, boolean>` of room capabilities (`{ wifi: true, ac: false, ... }`),
 * held as the entry list `Object.entries` enumerates.
 */
module Specs {
  import opened Base

  datatype SpecEntry = SpecEntry(key: string, on: bool)

  function EntryKeys(entries: seq<SpecEntry>): seq<string> {
    if entries == [] then [] else [entries[0].key] + EntryKeys(entries[1..])
  }

  /** The entries of a parsed object: a key occurs at most once (a repeated JSON key keeps only its last value). */
  type SpecList = entries: seq<SpecEntry> | Distinct(EntryKeys(entries))

  /** `specs?.[key]` as a condition: the entry's value, false when the record or the key is absent. */
  predicate Flag(specs: Option<SpecList>, key: string) {
    specs.Some? && FlagIn(specs.value, key)
  }

  /** The value of the entry with the key; false when there is none. */
  predicate FlagIn(entries: seq<SpecEntry>, key: string) {
    if entries == [] then false
    else if entries[0].key == key then entries[0].on
    else FlagIn(entries[1..], key)
  }

  function ActiveIn(entries: seq<SpecEntry>): seq<string> {
    if entries == [] then []
    else if entries[0].on then [entries[0].key] + ActiveIn(entries[1..])
    else ActiveIn(entries[1..])
  }

  /**
   * `Object.entries(specs).filter(([, v]) => v).map(([k]) => k)`, empty when the
   * record is absent: exactly the switched-on keys, in entry order.
   */
  function ActiveKeys(specs: Option<SpecList>): (r: seq<string>)
    ensures specs.None? ==> r == []
    ensures specs.Some? ==> IsSubsequence(r, EntryKeys(specs.value))
    ensures forall k :: k in r <==> specs.Some? && SpecEntry(k, true) in specs.value
  {
    match specs
    case None => []
    case Some(entries) =>
      ActiveSubsequence(entries);
      ActiveMembers(entries);
      ActiveIn(entries)
  }

  lemma {:induction false} ActiveSubsequence(entries: seq<SpecEntry>)
    ensures IsSubsequence(ActiveIn(entries), EntryKeys(entries))
  {
    if entries != [] {
      ActiveSubsequence(entries[1..]);
      if entries[0].on {
        assert ([entries[0].key] + ActiveIn(entries[1..]))[1..] == ActiveIn(entries[1..]);
      }
    }
  }

  lemma {:induction false} ActiveMembers(entries: seq<SpecEntry>)
    ensures forall k :: k in ActiveIn(entries) <==> SpecEntry(k, true) in entries
  {
    if entries != [] {
      ActiveMembers(entries[1..]);
      assert entries == [entries[0]] + entries[1..];
    }
  }

  lemma {:induction false} EntryKeysIndex(entries: seq<SpecEntry>)
    ensures |EntryKeys(entries)| == |entries|
    ensures forall i :: 0 <= i < |entries| ==> EntryKeys(entries)[i] == entries[i].key
  {
    if entries != [] {
      EntryKeysIndex(entries[1..]);
    }
  }

  /** With distinct keys, a key's flag is on exactly when the entry list holds that key switched on. */
  lemma {:induction false} FlagInIff(entries: seq<SpecEntry>, key: string)
    requires Distinct(EntryKeys(entries))
    ensures FlagIn(entries, key) <==> SpecEntry(key, true) in entries
  {
    if entries != [] {
      var tail := entries[1..];
      EntryKeysIndex(entries);
      EntryKeysIndex(tail);
      assert Distinct(EntryKeys(tail)) by {
        forall a, b | 0 <= a < b < |tail| ensures EntryKeys(tail)[a] != EntryKeys(tail)[b] {
          assert EntryKeys(entries)[a + 1] != EntryKeys(entries)[b + 1];
        }
      }
      assert entries == [entries[0]] + tail;
      if entries[0].key == key {
        forall j | 0 <= j < |tail| ensures tail[j].key != key {
          assert EntryKeys(entries)[0] != EntryKeys(entries)[j + 1];
        }
      } else {
        FlagInIff(tail, key);
      }
    }
  }

  /** A spec's flag is on exactly when its key is among the switched-on keys. */
  lemma FlagIffActive(specs: Option<SpecList>, key: string)
    ensures Flag(specs, key) <==> key in ActiveKeys(specs)
  {
    if specs.Some? {
      FlagInIff(specs.value, key);
    }
  }
}
