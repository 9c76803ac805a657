/**
 * Grouping a list by a string key into a plain object, the
 * `reduce((acc, x) => { if (!acc[k]) acc[k] = []; acc[k].push(x); return acc }, {})`
 * idiom both the price table and the room-details view use. The object is held
 * as its groups in insertion order.
 */
module Grouping {
  import opened Base
  import opened Text
  import opened Numerals
  import opened Js

  datatype Group<T> = Group(key: string, items: seq<T>)

  function KeysOf<T>(gs: seq<Group<T>>): seq<string> {
    if gs == [] then [] else [gs[0].key] + KeysOf(gs[1..])
  }

  /** `grouped[k] ?? []`: the items of the group with key `k`. */
  function ItemsFor<T>(gs: seq<Group<T>>, k: string): seq<T> {
    if gs == [] then []
    else if gs[0].key == k then gs[0].items
    else ItemsFor(gs[1..], k)
  }

  function TotalSize<T>(gs: seq<Group<T>>): nat {
    if gs == [] then 0 else |gs[0].items| + TotalSize(gs[1..])
  }

  /** The elements of `xs` whose key is `k`, in input order. */
  function Select<T>(xs: seq<T>, key: T -> string, k: string): seq<T> {
    if xs == [] then []
    else Select(xs[..|xs| - 1], key, k) + (if key(xs[|xs| - 1]) == k then [xs[|xs| - 1]] else [])
  }

  predicate HasKey<T>(xs: seq<T>, key: T -> string, k: string) {
    exists i :: 0 <= i < |xs| && key(xs[i]) == k
  }

  /** One step of the reduce: append `x` to the group for `k`, opening it at the end when new. */
  function Push<T>(gs: seq<Group<T>>, k: string, x: T): seq<Group<T>> {
    if gs == [] then [Group(k, [x])]
    else if gs[0].key == k then [Group(k, gs[0].items + [x])] + gs[1..]
    else [gs[0]] + Push(gs[1..], k, x)
  }

  /** The whole reduce, as a left fold over `xs`. */
  function GroupBy<T>(xs: seq<T>, key: T -> string): seq<Group<T>> {
    if xs == [] then []
    else Push(GroupBy(xs[..|xs| - 1], key), key(xs[|xs| - 1]), xs[|xs| - 1])
  }

  // ---------------------------------------------------------------------------
  // One step
  // ---------------------------------------------------------------------------

  lemma {:induction false} PushItems<T>(gs: seq<Group<T>>, k: string, x: T, k': string)
    ensures ItemsFor(Push(gs, k, x), k') == ItemsFor(gs, k') + (if k' == k then [x] else [])
  {
    if gs != [] && gs[0].key != k {
      PushItems(gs[1..], k, x, k');
    }
  }

  lemma {:induction false} PushKeys<T>(gs: seq<Group<T>>, k: string, x: T)
    ensures KeysOf(Push(gs, k, x)) == if k in KeysOf(gs) then KeysOf(gs) else KeysOf(gs) + [k]
  {
    if gs != [] && gs[0].key != k {
      PushKeys(gs[1..], k, x);
    }
  }

  lemma {:induction false} PushSize<T>(gs: seq<Group<T>>, k: string, x: T)
    ensures TotalSize(Push(gs, k, x)) == TotalSize(gs) + 1
  {
    if gs != [] && gs[0].key != k {
      PushSize(gs[1..], k, x);
    }
  }

  /** Every group is non-empty and is the group its key looks up. */
  predicate WellFormed<T(==)>(gs: seq<Group<T>>) {
    forall i :: 0 <= i < |gs| ==> gs[i].items != [] && ItemsFor(gs, gs[i].key) == gs[i].items
  }

  lemma {:induction false} KeysOfIndex<T>(gs: seq<Group<T>>)
    ensures |KeysOf(gs)| == |gs|
    ensures forall i :: 0 <= i < |gs| ==> KeysOf(gs)[i] == gs[i].key
  {
    if gs != [] {
      KeysOfIndex(gs[1..]);
    }
  }

  lemma {:induction false} ItemsForFirst<T>(gs: seq<Group<T>>, i: nat)
    requires i < |gs| && Distinct(KeysOf(gs))
    ensures ItemsFor(gs, gs[i].key) == gs[i].items
  {
    KeysOfIndex(gs);
    if i > 0 {
      assert KeysOf(gs)[0] != KeysOf(gs)[i];
      KeysOfIndex(gs[1..]);
      assert Distinct(KeysOf(gs[1..])) by {
        forall a, b | 0 <= a < b < |gs| - 1 ensures KeysOf(gs[1..])[a] != KeysOf(gs[1..])[b] {
          assert KeysOf(gs)[a + 1] != KeysOf(gs)[b + 1];
        }
      }
      ItemsForFirst(gs[1..], i - 1);
    }
  }

  lemma {:induction false} PushWellFormed<T>(gs: seq<Group<T>>, k: string, x: T)
    requires Distinct(KeysOf(gs)) && forall i :: 0 <= i < |gs| ==> gs[i].items != []
    ensures Distinct(KeysOf(Push(gs, k, x)))
    ensures forall i :: 0 <= i < |Push(gs, k, x)| ==> Push(gs, k, x)[i].items != []
  {
    PushKeys(gs, k, x);
    if gs != [] && gs[0].key != k {
      KeysOfIndex(gs);
      KeysOfIndex(gs[1..]);
      assert Distinct(KeysOf(gs[1..])) by {
        forall a, b | 0 <= a < b < |gs| - 1 ensures KeysOf(gs[1..])[a] != KeysOf(gs[1..])[b] {
          assert KeysOf(gs)[a + 1] != KeysOf(gs)[b + 1];
        }
      }
      PushWellFormed(gs[1..], k, x);
    }
    var r := Push(gs, k, x);
    KeysOfIndex(r);
    if k in KeysOf(gs) {
      assert |r| == |gs|;
    } else {
      assert KeysOf(r) == KeysOf(gs) + [k];
    }
  }

  // ---------------------------------------------------------------------------
  // The whole fold
  // ---------------------------------------------------------------------------

  /**
   * Grouping is a partition that keeps order: the group keys are distinct and
   * are exactly the keys that occur; each group is non-empty and holds exactly
   * the elements with its key, in input order.
   */
  lemma {:induction false} GroupByPartition<T>(xs: seq<T>, key: T -> string)
    ensures Distinct(KeysOf(GroupBy(xs, key)))
    ensures forall k :: k in KeysOf(GroupBy(xs, key)) <==> HasKey(xs, key, k)
    ensures forall k :: ItemsFor(GroupBy(xs, key), k) == Select(xs, key, k)
    ensures WellFormed(GroupBy(xs, key))
  {
    var g := GroupBy(xs, key);
    if xs != [] {
      var pre := xs[..|xs| - 1];
      var x := xs[|xs| - 1];
      var g0 := GroupBy(pre, key);
      GroupByPartition(pre, key);
      PushKeys(g0, key(x), x);
      forall k ensures ItemsFor(g, k) == Select(xs, key, k) {
        PushItems(g0, key(x), x, k);
      }
      forall k ensures k in KeysOf(g) <==> HasKey(xs, key, k) {
        if HasKey(xs, key, k) {
          var i :| 0 <= i < |xs| && key(xs[i]) == k;
          if i < |xs| - 1 {
            assert pre[i] == xs[i];
          }
        }
        if HasKey(pre, key, k) {
          var i :| 0 <= i < |pre| && key(pre[i]) == k;
          assert xs[i] == pre[i];
        }
      }
      assert forall i :: 0 <= i < |g0| ==> g0[i].items != [];
      PushWellFormed(g0, key(x), x);
      forall i | 0 <= i < |g| ensures ItemsFor(g, g[i].key) == g[i].items {
        ItemsForFirst(g, i);
      }
    }
  }

  /** Sizes add up: every element lands in exactly one group. */
  lemma {:induction false} GroupBySize<T>(xs: seq<T>, key: T -> string)
    ensures TotalSize(GroupBy(xs, key)) == |xs|
  {
    if xs != [] {
      GroupBySize(xs[..|xs| - 1], key);
      PushSize(GroupBy(xs[..|xs| - 1], key), key(xs[|xs| - 1]), xs[|xs| - 1]);
    }
  }

  /** The group of a key holds exactly the elements with that key. */
  lemma GroupOf<T>(xs: seq<T>, key: T -> string, k: string)
    ensures ItemsFor(GroupBy(xs, key), k) == Select(xs, key, k)
  {
    GroupByPartition(xs, key);
  }

  /** An element sits in the group of its own key. */
  lemma ElementInOwnGroup<T>(xs: seq<T>, key: T -> string, i: nat)
    requires i < |xs|
    ensures xs[i] in ItemsFor(GroupBy(xs, key), key(xs[i]))
  {
    GroupByPartition(xs, key);
    SelectContains(xs, key, i);
  }

  lemma {:induction false} SelectContains<T>(xs: seq<T>, key: T -> string, i: nat)
    requires i < |xs|
    ensures xs[i] in Select(xs, key, key(xs[i]))
  {
    if i < |xs| - 1 {
      SelectContains(xs[..|xs| - 1], key, i);
    }
  }

  /** Only elements with the key are selected. */
  lemma {:induction false} SelectMembers<T>(xs: seq<T>, key: T -> string, k: string)
    ensures forall x :: x in Select(xs, key, k) ==> x in xs && key(x) == k
  {
    if xs != [] {
      SelectMembers(xs[..|xs| - 1], key, k);
      assert xs == xs[..|xs| - 1] + [xs[|xs| - 1]];
    }
  }

  /** A key selects nothing exactly when no element has it. */
  lemma SelectEmptyIff<T>(xs: seq<T>, key: T -> string, k: string)
    ensures Select(xs, key, k) == [] <==> !HasKey(xs, key, k)
  {
    SelectMembers(xs, key, k);
    if HasKey(xs, key, k) {
      var i :| 0 <= i < |xs| && key(xs[i]) == k;
      SelectContains(xs, key, i);
    }
  }

  // ---------------------------------------------------------------------------
  // As written: the accumulator is a plain `{}`
  // ---------------------------------------------------------------------------

  /**
   * The reduce as the source runs it: for a key that names an inherited
   * property, `!acc[k]` is false, no array is created, and `acc[k].push` throws
   * a TypeError (`None`).
   */
  function GroupByAsWritten<T>(xs: seq<T>, key: T -> string): Option<seq<Group<T>>> {
    if xs == [] then Some([])
    else match GroupByAsWritten(xs[..|xs| - 1], key)
      case None => None
      case Some(g) =>
        var k := key(xs[|xs| - 1]);
        if k !in KeysOf(g) && k in PrototypeNames then None
        else Some(Push(g, k, xs[|xs| - 1]))
  }

  /** A single item whose key is `constructor` makes the as-written reduce throw. */
  lemma PrototypeKeyThrows<T>(x: T, key: T -> string)
    requires key(x) == "constructor"
    ensures GroupByAsWritten([x], key) == None
  {
    assert [x][..0] == [];
  }

  /** When no key names an inherited property, the source and the corrected grouping agree. */
  lemma {:induction false} AsWrittenAgrees<T>(xs: seq<T>, key: T -> string)
    requires forall i :: 0 <= i < |xs| ==> key(xs[i]) !in PrototypeNames
    ensures GroupByAsWritten(xs, key) == Some(GroupBy(xs, key))
  {
    if xs != [] {
      AsWrittenAgrees(xs[..|xs| - 1], key);
    }
  }

  // ---------------------------------------------------------------------------
  // Key order: `Object.entries` of the grouped object
  // ---------------------------------------------------------------------------

  /** The distinct elements of `ks`, in order of first occurrence. */
  function FirstOccurrences(ks: seq<string>): seq<string> {
    if ks == [] then []
    else if ks[|ks| - 1] in ks[..|ks| - 1] then FirstOccurrences(ks[..|ks| - 1])
    else FirstOccurrences(ks[..|ks| - 1]) + [ks[|ks| - 1]]
  }

  /** The reduce creates the keys in order of their first occurrence in the input. */
  lemma {:induction false} GroupByKeysInOrder<T>(xs: seq<T>, key: T -> string)
    ensures KeysOf(GroupBy(xs, key)) == FirstOccurrences(Map(key, xs))
  {
    if xs != [] {
      var pre := xs[..|xs| - 1];
      var x := xs[|xs| - 1];
      var g0 := GroupBy(pre, key);
      GroupByKeysInOrder(pre, key);
      GroupByPartition(pre, key);
      PushKeys(g0, key(x), x);
      var ks := Map(key, xs);
      assert ks[..|ks| - 1] == Map(key, pre);
      assert key(x) in Map(key, pre) <==> HasKey(pre, key, key(x)) by {
        if HasKey(pre, key, key(x)) {
          var i :| 0 <= i < |pre| && key(pre[i]) == key(x);
          assert Map(key, pre)[i] == key(x);
        }
      }
    }
  }

  /**
   * A property key that is an array index: the canonical decimal form of an
   * integer from 0 to 2^32 - 2, that is "0" or digits without a leading zero.
   */
  predicate IsArrayIndex(k: string) {
    && |k| >= 1 && AllDigits(k)
    && (k[0] == '0' ==> |k| == 1)
    && RadixValue(k, 10) <= 0xFFFF_FFFE
  }

  /** The integer an array-index key denotes. */
  function IndexValue(k: string): nat {
    RadixValue(k, 10)
  }

  /** The groups whose key is an array index (`index`) or is not (`!index`), in insertion order. */
  function KeyFilter<T>(gs: seq<Group<T>>, index: bool): seq<Group<T>> {
    if gs == [] then []
    else (if IsArrayIndex(gs[0].key) == index then [gs[0]] else []) + KeyFilter(gs[1..], index)
  }

  /** The keys that are not array indices, in order. */
  function OtherKeys(ks: seq<string>): seq<string> {
    if ks == [] then []
    else (if IsArrayIndex(ks[0]) then [] else [ks[0]]) + OtherKeys(ks[1..])
  }

  /** Places `g` before the first group whose key denotes an integer at least as large. */
  function InsertByIndex<T>(g: Group<T>, s: seq<Group<T>>): seq<Group<T>> {
    if s == [] then [g]
    else if IndexValue(g.key) <= IndexValue(s[0].key) then [g] + s
    else [s[0]] + InsertByIndex(g, s[1..])
  }

  function SortByIndex<T>(s: seq<Group<T>>): seq<Group<T>> {
    if s == [] then [] else InsertByIndex(s[0], SortByIndex(s[1..]))
  }

  /**
   * `Object.entries(grouped)`: an ordinary object lists its array-index keys
   * first, in ascending numeric order, then its other string keys in the order
   * they were created (ECMA-262, section 10.1.11.1, OrdinaryOwnPropertyKeys).
   */
  function Entries<T>(gs: seq<Group<T>>): seq<Group<T>> {
    SortByIndex(KeyFilter(gs, true)) + KeyFilter(gs, false)
  }

  predicate DistinctKeys<T>(gs: seq<Group<T>>) {
    forall i, j :: 0 <= i < j < |gs| ==> gs[i].key != gs[j].key
  }

  /** Keys strictly ascending by the integers they denote. */
  predicate AscendingByIndex<T>(gs: seq<Group<T>>) {
    forall i, j :: 0 <= i < j < |gs| ==> IndexValue(gs[i].key) < IndexValue(gs[j].key)
  }

  lemma DistinctKeysIff<T>(gs: seq<Group<T>>)
    ensures Distinct(KeysOf(gs)) <==> DistinctKeys(gs)
  {
    KeysOfIndex(gs);
  }

  lemma {:induction false} KeysOfConcat<T>(a: seq<Group<T>>, b: seq<Group<T>>)
    ensures KeysOf(a + b) == KeysOf(a) + KeysOf(b)
  {
    if a != [] {
      assert (a + b)[1..] == a[1..] + b;
      KeysOfConcat(a[1..], b);
    } else {
      assert a + b == b;
    }
  }

  /** Every digit string is worth at least its leading digit. */
  lemma {:induction false} LeadingDigitBound(ds: string)
    requires |ds| >= 1
    ensures RadixValue(ds, 10) >= DigitValue(ds[0])
  {
    if |ds| > 1 {
      LeadingDigitBound(ds[..|ds| - 1]);
    }
  }

  /** An array-index key is the decimal rendering of the integer it denotes. */
  lemma {:induction false} ArrayIndexCanonical(k: string)
    requires |k| >= 1 && AllDigits(k) && (k[0] == '0' ==> |k| == 1)
    ensures NatToString(RadixValue(k, 10)) == k
  {
    if |k| > 1 {
      var pre := k[..|k| - 1];
      ArrayIndexCanonical(pre);
      LeadingDigitBound(pre);
      var v := RadixValue(k, 10);
      assert v / 10 == RadixValue(pre, 10) && v % 10 == DigitValue(k[|k| - 1]);
      assert k == pre + [k[|k| - 1]];
    }
  }

  /** Different array-index keys denote different integers. */
  lemma IndexValueInjective(a: string, b: string)
    requires IsArrayIndex(a) && IsArrayIndex(b) && IndexValue(a) == IndexValue(b)
    ensures a == b
  {
    ArrayIndexCanonical(a);
    ArrayIndexCanonical(b);
  }

  lemma {:induction false} KeyFilterMember<T>(gs: seq<Group<T>>, index: bool, x: Group<T>)
    ensures x in KeyFilter(gs, index) <==> x in gs && IsArrayIndex(x.key) == index
  {
    if gs != [] {
      KeyFilterMember(gs[1..], index, x);
      assert gs == [gs[0]] + gs[1..];
    }
  }

  lemma {:induction false} KeyFilterLength<T>(gs: seq<Group<T>>)
    ensures |KeyFilter(gs, true)| + |KeyFilter(gs, false)| == |gs|
  {
    if gs != [] {
      KeyFilterLength(gs[1..]);
    }
  }

  lemma {:induction false} KeyFilterDistinct<T>(gs: seq<Group<T>>, index: bool)
    requires DistinctKeys(gs)
    ensures DistinctKeys(KeyFilter(gs, index))
  {
    if gs != [] {
      KeyFilterDistinct(gs[1..], index);
      var r := KeyFilter(gs[1..], index);
      forall j | 0 <= j < |r| ensures r[j].key != gs[0].key {
        KeyFilterMember(gs[1..], index, r[j]);
        var k :| 0 <= k < |gs[1..]| && gs[1..][k] == r[j];
        assert gs[k + 1] == r[j];
      }
    }
  }

  lemma {:induction false} KeyFilterConcat<T>(a: seq<Group<T>>, b: seq<Group<T>>, index: bool)
    ensures KeyFilter(a + b, index) == KeyFilter(a, index) + KeyFilter(b, index)
  {
    if a != [] {
      assert (a + b)[1..] == a[1..] + b;
      KeyFilterConcat(a[1..], b, index);
    } else {
      assert a + b == b;
    }
  }

  /** Filtering keeps exactly the groups already of one kind. */
  lemma {:induction false} KeyFilterOfKind<T>(gs: seq<Group<T>>, index: bool)
    requires forall g :: g in gs ==> IsArrayIndex(g.key) == index
    ensures KeyFilter(gs, index) == gs
    ensures KeyFilter(gs, !index) == []
  {
    if gs != [] {
      KeyFilterOfKind(gs[1..], index);
    }
  }

  /** Filtering the groups filters their keys. */
  lemma {:induction false} OtherKeysOfGroups<T>(gs: seq<Group<T>>)
    ensures KeysOf(KeyFilter(gs, false)) == OtherKeys(KeysOf(gs))
  {
    if gs != [] {
      OtherKeysOfGroups(gs[1..]);
      KeysOfConcat(if IsArrayIndex(gs[0].key) then [] else [gs[0]], KeyFilter(gs[1..], false));
    }
  }

  lemma {:induction false} InsertMember<T>(g: Group<T>, s: seq<Group<T>>, x: Group<T>)
    ensures x in InsertByIndex(g, s) <==> x == g || x in s
  {
    if s != [] && IndexValue(g.key) > IndexValue(s[0].key) {
      InsertMember(g, s[1..], x);
      assert s == [s[0]] + s[1..];
    }
  }

  lemma {:induction false} InsertLength<T>(g: Group<T>, s: seq<Group<T>>)
    ensures |InsertByIndex(g, s)| == |s| + 1
  {
    if s != [] && IndexValue(g.key) > IndexValue(s[0].key) {
      InsertLength(g, s[1..]);
    }
  }

  lemma {:induction false} SortMember<T>(s: seq<Group<T>>, x: Group<T>)
    ensures x in SortByIndex(s) <==> x in s
  {
    if s != [] {
      SortMember(s[1..], x);
      InsertMember(s[0], SortByIndex(s[1..]), x);
      assert s == [s[0]] + s[1..];
    }
  }

  lemma {:induction false} SortLength<T>(s: seq<Group<T>>)
    ensures |SortByIndex(s)| == |s|
  {
    if s != [] {
      SortLength(s[1..]);
      InsertLength(s[0], SortByIndex(s[1..]));
    }
  }

  lemma {:induction false} InsertAscending<T>(g: Group<T>, s: seq<Group<T>>)
    requires AscendingByIndex(s)
    requires forall i :: 0 <= i < |s| ==> IndexValue(s[i].key) != IndexValue(g.key)
    ensures AscendingByIndex(InsertByIndex(g, s))
  {
    if s != [] && IndexValue(g.key) > IndexValue(s[0].key) {
      InsertAscending(g, s[1..]);
      var r := InsertByIndex(g, s[1..]);
      forall j | 0 <= j < |r| ensures IndexValue(s[0].key) < IndexValue(r[j].key) {
        InsertMember(g, s[1..], r[j]);
        if r[j] != g {
          var k :| 0 <= k < |s[1..]| && s[1..][k] == r[j];
          assert s[k + 1] == r[j];
        }
      }
    }
  }

  /** Sorting keys that denote different integers puts them in strictly ascending order. */
  lemma {:induction false} SortAscending<T>(s: seq<Group<T>>)
    requires forall i, j :: 0 <= i < j < |s| ==> IndexValue(s[i].key) != IndexValue(s[j].key)
    ensures AscendingByIndex(SortByIndex(s))
  {
    if s != [] {
      SortAscending(s[1..]);
      var r := SortByIndex(s[1..]);
      forall i | 0 <= i < |r| ensures IndexValue(r[i].key) != IndexValue(s[0].key) {
        SortMember(s[1..], r[i]);
        var k :| 0 <= k < |s[1..]| && s[1..][k] == r[i];
        assert s[k + 1] == r[i];
      }
      InsertAscending(s[0], r);
    }
  }

  /**
   * Array-index groups in ascending order followed by the other groups: the
   * joined keys are distinct, array-index keys come first and ascend, and the
   * other groups are what remains after filtering.
   */
  lemma JoinKinds<T>(a: seq<Group<T>>, b: seq<Group<T>>)
    requires forall i :: 0 <= i < |a| ==> IsArrayIndex(a[i].key)
    requires AscendingByIndex(a)
    requires forall j :: 0 <= j < |b| ==> !IsArrayIndex(b[j].key)
    requires DistinctKeys(b)
    ensures DistinctKeys(a + b)
    ensures forall i, j :: 0 <= i < j < |a + b| && IsArrayIndex((a + b)[j].key) ==> IsArrayIndex((a + b)[i].key)
    ensures forall i, j :: 0 <= i < j < |a + b| && IsArrayIndex((a + b)[i].key) && IsArrayIndex((a + b)[j].key) ==>
      IndexValue((a + b)[i].key) < IndexValue((a + b)[j].key)
    ensures KeyFilter(a + b, false) == b
  {
    KeyFilterConcat(a, b, false);
    KeyFilterOfKind(a, true);
    KeyFilterOfKind(b, false);
  }

  /** A group is among the entries exactly when it is among the groups. */
  lemma EntriesMember<T>(gs: seq<Group<T>>, x: Group<T>)
    ensures x in Entries(gs) <==> x in gs
  {
    KeyFilterMember(gs, true, x);
    KeyFilterMember(gs, false, x);
    SortMember(KeyFilter(gs, true), x);
  }

  /**
   * The entries are the groups reordered: nothing is added or lost, keys stay
   * distinct, every array-index key comes before every other key, array-index
   * keys ascend by the integers they denote, and the other keys keep their
   * insertion order.
   */
  lemma EntriesOrder<T>(gs: seq<Group<T>>)
    requires DistinctKeys(gs)
    ensures forall g :: g in Entries(gs) <==> g in gs
    ensures |Entries(gs)| == |gs|
    ensures DistinctKeys(Entries(gs))
    ensures forall i, j :: 0 <= i < j < |Entries(gs)| && IsArrayIndex(Entries(gs)[j].key) ==>
      IsArrayIndex(Entries(gs)[i].key)
    ensures forall i, j :: (0 <= i < j < |Entries(gs)|
      && IsArrayIndex(Entries(gs)[i].key) && IsArrayIndex(Entries(gs)[j].key)) ==>
      IndexValue(Entries(gs)[i].key) < IndexValue(Entries(gs)[j].key)
    ensures KeyFilter(Entries(gs), false) == KeyFilter(gs, false)
  {
    var other := KeyFilter(gs, false);
    forall g ensures g in Entries(gs) <==> g in gs {
      EntriesMember(gs, g);
    }
    KeyFilterLength(gs);
    SortLength(KeyFilter(gs, true));
    KeyFilterDistinct(gs, false);
    SortedIndexKeys(gs);
    forall j | 0 <= j < |other| ensures !IsArrayIndex(other[j].key) {
      KeyFilterMember(gs, false, other[j]);
    }
    JoinKinds(SortByIndex(KeyFilter(gs, true)), other);
  }

  /** The sorted array-index groups all have array-index keys, in strictly ascending order. */
  lemma SortedIndexKeys<T>(gs: seq<Group<T>>)
    requires DistinctKeys(gs)
    ensures forall i :: 0 <= i < |SortByIndex(KeyFilter(gs, true))| ==>
      IsArrayIndex(SortByIndex(KeyFilter(gs, true))[i].key)
    ensures AscendingByIndex(SortByIndex(KeyFilter(gs, true)))
  {
    var ix := KeyFilter(gs, true);
    var sorted := SortByIndex(ix);
    KeyFilterDistinct(gs, true);
    forall i | 0 <= i < |ix| ensures IsArrayIndex(ix[i].key) {
      KeyFilterMember(gs, true, ix[i]);
    }
    forall i, j | 0 <= i < j < |ix| ensures IndexValue(ix[i].key) != IndexValue(ix[j].key) {
      if IndexValue(ix[i].key) == IndexValue(ix[j].key) {
        IndexValueInjective(ix[i].key, ix[j].key);
      }
    }
    SortAscending(ix);
    forall i | 0 <= i < |sorted| ensures IsArrayIndex(sorted[i].key) {
      SortMember(ix, sorted[i]);
      KeyFilterMember(gs, true, sorted[i]);
    }
  }

  /**
   * The entries of a grouping are a partition in their own right: keys are
   * distinct, a key is listed exactly when some element has it, and each
   * entry holds exactly the elements with its key, in input order.
   */
  lemma EntriesPartition<T>(xs: seq<T>, key: T -> string)
    ensures DistinctKeys(Entries(GroupBy(xs, key)))
    ensures forall i :: 0 <= i < |Entries(GroupBy(xs, key))| ==>
      Entries(GroupBy(xs, key))[i].items == Select(xs, key, Entries(GroupBy(xs, key))[i].key)
    ensures forall k ::
      (exists i :: 0 <= i < |Entries(GroupBy(xs, key))| && Entries(GroupBy(xs, key))[i].key == k) <==> HasKey(xs, key, k)
  {
    var gs := GroupBy(xs, key);
    var es := Entries(gs);
    GroupByPartition(xs, key);
    DistinctKeysIff(gs);
    EntriesOrder(gs);
    KeysOfIndex(gs);
    forall i | 0 <= i < |es| ensures es[i].items == Select(xs, key, es[i].key) {
      EntriesMember(gs, es[i]);
      var j :| 0 <= j < |gs| && gs[j] == es[i];
      ItemsForFirst(gs, j);
    }
    forall k ensures (exists i :: 0 <= i < |es| && es[i].key == k) <==> HasKey(xs, key, k) {
      if HasKey(xs, key, k) {
        assert k in KeysOf(gs);
        var j :| 0 <= j < |gs| && KeysOf(gs)[j] == k;
        EntriesMember(gs, gs[j]);
        var i :| 0 <= i < |es| && es[i] == gs[j];
        assert es[i].key == k;
      }
      if exists i :: 0 <= i < |es| && es[i].key == k {
        var i :| 0 <= i < |es| && es[i].key == k;
        EntriesMember(gs, es[i]);
        var j :| 0 <= j < |gs| && gs[j] == es[i];
        assert KeysOf(gs)[j] == k;
      }
    }
  }

  /** Two groups, a word key inserted before an array-index key: the index key is listed first. */
  lemma EntriesOfTwo<T>(s: Group<T>, t: Group<T>)
    requires !IsArrayIndex(s.key) && IsArrayIndex(t.key)
    ensures Entries([s, t]) == [t, s]
  {
    assert [s, t][1..] == [t] && [t][1..] == [];
    assert KeyFilter([t], true) == [t] && KeyFilter([t], false) == [];
    assert KeyFilter([s, t], true) == [t];
    assert KeyFilter([s, t], false) == [s];
    assert SortByIndex([t]) == [t];
  }
}
