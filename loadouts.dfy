/**
 * The loadouts built from item entries: ItemLoadout's two filters (the same
 * code in ItemLoadout.java and ItemLoadout.kt), the Java InventoryLoadout,
 * and the Kotlin inventory and equipment loadout builders.
 */
module Loadouts {
  import opened ItemEntries

  // ---------------------------------------------------------------------
  // ItemLoadout

  /** The entries the items do not satisfy, in loadout order. */
  function Missing(entries: seq<Entry>, items: seq<Item>, matches: Matcher): (r: seq<Entry>)
    ensures |r| <= |entries|
    decreases |entries|
  {
    if |entries| == 0 then []
    else
      var e := entries[|entries| - 1];
      Missing(entries[..|entries| - 1], items, matches) + (if ContainedSpec(e, items, matches) then [] else [e])
  }

  /** `item` matches one of the entries. */
  predicate InLoadout(entries: seq<Entry>, item: Item, matches: Matcher) {
    exists k :: 0 <= k < |entries| && Matches(entries[k], item, matches)
  }

  /** The items that match no entry, in item order. */
  function Invalid(entries: seq<Entry>, items: seq<Item>, matches: Matcher): (r: seq<Item>)
    ensures |r| <= |items|
    decreases |items|
  {
    if |items| == 0 then []
    else
      var it := items[|items| - 1];
      Invalid(entries, items[..|items| - 1], matches) + (if InLoadout(entries, it, matches) then [] else [it])
  }

  /** getMissing(items) (ItemLoadout.java:10-18, ItemLoadout.kt:16-22). */
  method GetMissing(entries: seq<Entry>, items: seq<Item>, matches: Matcher) returns (r: seq<Entry>)
    ensures r == Missing(entries, items, matches)
  {
    r := [];
    for i := 0 to |entries|
      invariant r == Missing(entries[..i], items, matches)
    {
      assert entries[..i + 1][..i] == entries[..i];
      var ok := Contained(entries[i], items, matches);
      if !ok {
        r := r + [entries[i]];
      }
    }
    assert entries[..|entries|] == entries;
  }

  /** getInvalid(items) (ItemLoadout.java:20-33, ItemLoadout.kt:24-33), with its labelled `continue`. */
  method GetInvalid(entries: seq<Entry>, items: seq<Item>, matches: Matcher) returns (r: seq<Item>)
    ensures r == Invalid(entries, items, matches)
  {
    r := [];
    label Outer:
    for i := 0 to |items|
      invariant r == Invalid(entries, items[..i], matches)
    {
      assert items[..i + 1][..i] == items[..i];
      assert items[..i + 1][i] == items[i];
      for k := 0 to |entries|
        invariant forall j :: 0 <= j < k ==> !Matches(entries[j], items[i], matches)
      {
        if matches(entries[k].pattern, items[i].name) {
          continue Outer;
        }
      }
      r := r + [items[i]];
    }
    assert items[..|items|] == items;
  }

  /** getMissing holds exactly the entries that are not contained. */
  lemma {:induction false} MissingMembers(entries: seq<Entry>, items: seq<Item>, matches: Matcher)
    ensures forall e :: e in Missing(entries, items, matches) <==> e in entries && !ContainedSpec(e, items, matches)
    decreases |entries|
  {
    if |entries| > 0 {
      var xs := entries[..|entries| - 1];
      MissingMembers(xs, items, matches);
      assert entries == xs + [entries[|entries| - 1]];
    }
  }

  /** getMissing keeps loadout order: it distributes over concatenation. */
  lemma {:induction false} MissingAppend(a: seq<Entry>, b: seq<Entry>, items: seq<Item>, matches: Matcher)
    ensures Missing(a + b, items, matches) == Missing(a, items, matches) + Missing(b, items, matches)
    decreases |b|
  {
    if |b| > 0 {
      var bs := b[..|b| - 1];
      assert (a + b)[..|a + b| - 1] == a + bs;
      assert (a + b)[|a + b| - 1] == b[|b| - 1];
      MissingAppend(a, bs, items, matches);
    } else {
      assert a + b == a;
    }
  }

  /** Optional entries are never missing. */
  lemma OptionalNeverMissing(entries: seq<Entry>, items: seq<Item>, matches: Matcher)
    ensures forall e :: e in Missing(entries, items, matches) ==> !e.optional
  {
    MissingMembers(entries, items, matches);
  }

  /** getInvalid holds exactly the items that match no entry. */
  lemma {:induction false} InvalidMembers(entries: seq<Entry>, items: seq<Item>, matches: Matcher)
    ensures forall it :: it in Invalid(entries, items, matches) <==> it in items && !InLoadout(entries, it, matches)
    decreases |items|
  {
    if |items| > 0 {
      var xs := items[..|items| - 1];
      InvalidMembers(entries, xs, matches);
      assert items == xs + [items[|items| - 1]];
    }
  }

  /** getInvalid keeps item order: it distributes over concatenation. */
  lemma {:induction false} InvalidAppend(entries: seq<Entry>, a: seq<Item>, b: seq<Item>, matches: Matcher)
    ensures Invalid(entries, a + b, matches) == Invalid(entries, a, matches) + Invalid(entries, b, matches)
    decreases |b|
  {
    if |b| > 0 {
      var bs := b[..|b| - 1];
      assert (a + b)[..|a + b| - 1] == a + bs;
      assert (a + b)[|a + b| - 1] == b[|b| - 1];
      InvalidAppend(entries, a, bs, matches);
    } else {
      assert a + b == a;
    }
  }

  /** An empty loadout misses nothing and finds every item invalid. */
  lemma {:induction false} EmptyLoadout(items: seq<Item>, matches: Matcher)
    ensures Missing([], items, matches) == []
    ensures Invalid([], items, matches) == items
    decreases |items|
  {
    if |items| > 0 {
      EmptyLoadout(items[..|items| - 1], matches);
      assert items[..|items| - 1] + [items[|items| - 1]] == items;
    }
  }

  // ---------------------------------------------------------------------
  // InventoryLoadout (Java)

  /**
   * InventoryLoadout (InventoryLoadout.java): the entries in a backing list.
   * `resizable` says whether that list supports `add`: `Arrays.asList` and
   * `List.of` do not.
   */
  class InventoryLoadout {
    var required: seq<Entry>
    var resizable: bool

    /** InventoryLoadout(List) (lines 13-15): uses the caller's list. */
    constructor(entries: seq<Entry>, resizable: bool)
      ensures required == entries && this.resizable == resizable
    {
      required := entries;
      this.resizable := resizable;
    }

    /** iterator (lines 26-29): the backing list, in order. */
    function Entries(): seq<Entry>
      reads this
    {
      required
    }

    /**
     * require (lines 17-20): appends to the backing list, which raises
     * UnsupportedOperationException (`ok == false`) when the list cannot grow.
     */
    method Require(e: Entry) returns (ok: bool)
      modifies this
      ensures ok == resizable && resizable == old(resizable)
      ensures required == if ok then old(required) + [e] else old(required)
    {
      if !resizable {
        return false;
      }
      required := required + [e];
      ok := true;
    }
  }

  /** of(entries...) (InventoryLoadout.java:22-24), as written: a fixed-size list, or an immutable empty one for null. */
  method Of(entries: Option<seq<Entry>>) returns (l: InventoryLoadout)
    ensures fresh(l) && !l.resizable
    ensures l.required == if entries.Some? then entries.value else []
  {
    l := new InventoryLoadout(if entries.Some? then entries.value else [], false);
  }

  /** A loadout made by `of` cannot take another entry: `of(a).require(b)` always raises. */
  method OfThenRequire(entries: Option<seq<Entry>>, e: Entry) returns (ok: bool, after: seq<Entry>)
    ensures !ok && after == if entries.Some? then entries.value else []
  {
    var l := Of(entries);
    ok := l.Require(e);
    after := l.Entries();
  }

  /** of(entries...) as intended: the entries copied into a list that can grow. */
  method OfGrowable(entries: Option<seq<Entry>>) returns (l: InventoryLoadout)
    ensures fresh(l) && l.resizable
    ensures l.required == if entries.Some? then entries.value else []
  {
    l := new InventoryLoadout(if entries.Some? then entries.value else [], true);
  }

  /** With the intended `of`, `require` appends after the given entries, in call order. */
  method OfGrowableThenRequire(entries: Option<seq<Entry>>, e: Entry, f: Entry) returns (ok: bool, after: seq<Entry>)
    ensures ok && after == (if entries.Some? then entries.value else []) + [e, f]
  {
    var l := OfGrowable(entries);
    var ok1 := l.Require(e);
    ok := l.Require(f);
    ok := ok && ok1;
    after := l.Entries();
  }

  // ---------------------------------------------------------------------
  // InventoryLoadoutBuilder (Kotlin)

  /** `item(names) { block }`: the names are set first, so the block may replace them. */
  function ItemBlock(names: seq<string>, block: seq<Setting>): seq<Setting> {
    [Names(names)] + block
  }

  /** An `item` call whose block sets no names builds its entry with the given names. */
  lemma ItemKeepsNames(names: seq<string>, block: seq<Setting>)
    requires forall k :: 0 <= k < |block| ==> !block[k].Names?
    ensures ApplyAll(KotlinDefaults, ItemBlock(names, block)).names == names
  {
    var b := ItemBlock(names, block);
    assert b[1..] == block;
    LaterSettingWins(Apply(KotlinDefaults, Names(names)), block, names);
  }

  /** A `Names` call in the block overrides the names `item` was given. */
  lemma ItemBlockOverrides(names: seq<string>, other: seq<string>)
    ensures ApplyAll(KotlinDefaults, ItemBlock(names, [Names(other)])).names == other
  {
    var b := ItemBlock(names, [Names(other)]);
    var c1 := Apply(KotlinDefaults, Names(names));
    assert b[1..] == [Names(other)] && b[1..][1..] == [];
    assert ApplyAll(KotlinDefaults, b) == ApplyAll(c1, [Names(other)]);
    assert ApplyAll(c1, [Names(other)]) == ApplyAll(Apply(c1, Names(other)), []);
  }

  /** InventoryLoadoutBuilder (InventoryLoadout.kt:16-31). */
  class InventoryLoadoutBuilder {
    var entries: seq<Entry>

    constructor()
      ensures entries == []
    {
      entries := [];
    }

    /** entry { block } (lines 19-21): appends the built entry; a failed build appends nothing. */
    method AddEntry(block: seq<Setting>, quote: string -> string) returns (r: Result)
      modifies this
      ensures r == KotlinEntry(block, quote)
      ensures entries == if r.Built? then old(entries) + [r.entry] else old(entries)
    {
      var b := new KotlinEntryBuilder();
      b.Run(block);
      r := b.Build(quote);
      if r.Built? {
        entries := entries + [r.entry];
      }
    }

    /** item(names) { block } (lines 23-28). */
    method AddItem(names: seq<string>, block: seq<Setting>, quote: string -> string) returns (r: Result)
      modifies this
      ensures r == KotlinEntry(ItemBlock(names, block), quote)
      ensures entries == if r.Built? then old(entries) + [r.entry] else old(entries)
    {
      r := AddEntry(ItemBlock(names, block), quote);
    }

    /** build (line 30): a copy of the entries, in call order. */
    method Build() returns (l: seq<Entry>)
      ensures l == entries
    {
      l := entries;
    }
  }

  // ---------------------------------------------------------------------
  // EquipmentLoadoutBuilder (Kotlin)

  /** An equipment slot (`Equipment.Slot`), by ordinal. */
  type Slot = nat

  /** A LinkedHashMap: the keys in first-insertion order and their values. */
  datatype OrderedMap = OrderedMap(keys: seq<Slot>, values: map<Slot, Entry>)

  ghost predicate OrderedValid(m: OrderedMap) {
    (forall i, j :: 0 <= i < j < |m.keys| ==> m.keys[i] != m.keys[j]) &&
    (forall k :: k in m.values <==> k in m.keys)
  }

  const EmptyMap := OrderedMap([], map[])

  /** `map[slot] = entry`: a new key goes last; an existing key keeps its place. */
  function Put(m: OrderedMap, k: Slot, v: Entry): (r: OrderedMap)
    requires OrderedValid(m)
    ensures OrderedValid(r)
    ensures k in r.values && r.values[k] == v
    ensures forall j :: j in m.values && j != k ==> j in r.values && r.values[j] == m.values[j]
  {
    if k in m.values then OrderedMap(m.keys, m.values[k := v])
    else OrderedMap(m.keys + [k], m.values[k := v])
  }

  /** `slots.values.toList()`: the values in key order. */
  function Values(m: OrderedMap): (r: seq<Entry>)
    requires OrderedValid(m)
    ensures |r| == |m.keys|
  {
    seq(|m.keys|, i requires 0 <= i < |m.keys| => m.values[m.keys[i]])
  }

  /** A write to a new slot adds its entry at the end of `entries`. */
  lemma PutNew(m: OrderedMap, k: Slot, v: Entry)
    requires OrderedValid(m) && k !in m.values
    ensures Values(Put(m, k, v)) == Values(m) + [v]
  {
  }

  /** A write to a slot already set replaces its entry where it was. */
  lemma PutExisting(m: OrderedMap, k: Slot, v: Entry)
    requires OrderedValid(m) && k in m.values
    ensures exists i :: 0 <= i < |m.keys| && m.keys[i] == k && Values(Put(m, k, v)) == Values(m)[i := v]
  {
    var i :| 0 <= i < |m.keys| && m.keys[i] == k;
    assert Values(Put(m, k, v)) == Values(m)[i := v];
  }

  /** The later of two writes to the same slot wins. */
  lemma PutTwice(m: OrderedMap, k: Slot, a: Entry, b: Entry)
    requires OrderedValid(m)
    ensures Put(Put(m, k, a), k, b) == Put(m, k, b)
  {
  }

  /** EquipmentLoadoutBuilder (EquipmentLoadout.kt:53-72). */
  class EquipmentLoadoutBuilder {
    var slots: OrderedMap

    constructor()
      ensures slots == EmptyMap
    {
      slots := EmptyMap;
    }

    /** set(slot, entry) (lines 67-69). */
    method Set(slot: Slot, entry: Entry)
      requires OrderedValid(slots)
      modifies this
      ensures slots == Put(old(slots), slot, entry)
    {
      if slot in slots.values {
        slots := OrderedMap(slots.keys, slots.values[slot := entry]);
      } else {
        slots := OrderedMap(slots.keys + [slot], slots.values[slot := entry]);
      }
    }

    /** slot(slot) { block } (lines 56-58); a failed build stores nothing. */
    method SetSlot(slot: Slot, block: seq<Setting>, quote: string -> string) returns (r: Result)
      requires OrderedValid(slots)
      modifies this
      ensures r == KotlinEntry(block, quote)
      ensures slots == if r.Built? then Put(old(slots), slot, r.entry) else old(slots)
    {
      var b := new KotlinEntryBuilder();
      b.Run(block);
      r := b.Build(quote);
      if r.Built? {
        Set(slot, r.entry);
      }
    }

    /** item(slot, names) { block } (lines 60-65). */
    method SetItem(slot: Slot, names: seq<string>, block: seq<Setting>, quote: string -> string) returns (r: Result)
      requires OrderedValid(slots)
      modifies this
      ensures r == KotlinEntry(ItemBlock(names, block), quote)
      ensures slots == if r.Built? then Put(old(slots), slot, r.entry) else old(slots)
    {
      r := SetSlot(slot, ItemBlock(names, block), quote);
    }

    /** build (line 71), and the loadout's `entries` (line 13). */
    method Build() returns (entries: seq<Entry>)
      requires OrderedValid(slots)
      ensures entries == Values(slots)
    {
      entries := [];
      for i := 0 to |slots.keys|
        invariant entries == Values(slots)[..i]
      {
        entries := entries + [slots.values[slots.keys[i]]];
      }
    }
  }
}
