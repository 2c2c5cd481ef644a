/** A least-recently-used cache as container/list and a map implement it: the list holds the slots, most recent
    first, and the map leads from each key to its slot. */
module Lru {

  datatype Slot<T> = Slot(key: string, value: T)

  type List<T> = seq<Slot<T>>

  predicate Has<T>(list: List<T>, key: string) {
    exists i :: 0 <= i < |list| && list[i].key == key
  }

  /** The first entry with a key. */
  function Find<T>(list: List<T>, key: string): Slot<T>
    requires Has(list, key)
  {
    if list[0].key == key then list[0] else Find(list[1..], key)
  }

  /** The list without a key. */
  function Without<T>(list: List<T>, key: string): List<T> {
    if list == [] then []
    else if list[0].key == key then Without(list[1..], key)
    else [list[0]] + Without(list[1..], key)
  }

  predicate Distinct<T>(list: List<T>) {
    forall i, j | 0 <= i < j < |list| :: list[i].key != list[j].key
  }

  /** Room for one more: the oldest entries go. */
  function Evicted<T>(list: List<T>, capacity: int): List<T>
    requires capacity >= 1
  {
    if |list| >= capacity then list[..capacity - 1] else list
  }

  lemma {:induction false} WithoutMembers<T>(list: List<T>, key: string)
    ensures forall e <- Without(list, key) :: e in list && e.key != key
    ensures forall e <- list :: e.key != key ==> e in Without(list, key)
  {
    if list != [] {
      WithoutMembers(list[1..], key);
      assert list == [list[0]] + list[1..];
    }
  }

  lemma DistinctTail<T>(list: List<T>)
    requires Distinct(list) && list != []
    ensures Distinct(list[1..]) && forall e <- list[1..] :: e.key != list[0].key
  {
  }

  lemma {:induction false} WithoutIsDistinct<T>(list: List<T>, key: string)
    requires Distinct(list)
    ensures Distinct(Without(list, key))
  {
    if list != [] {
      DistinctTail(list);
      WithoutIsDistinct(list[1..], key);
      WithoutMembers(list[1..], key);
      if list[0].key != key {
        FrontKeepsDistinct(list[0], Without(list[1..], key));
      }
    }
  }

  lemma {:induction false} FindMember<T>(list: List<T>, key: string)
    requires Has(list, key)
    ensures Find(list, key) in list && Find(list, key).key == key
  {
    if list[0].key != key {
      var i :| 0 <= i < |list| && list[i].key == key;
      assert list[1..][i - 1].key == key;
      FindMember(list[1..], key);
    }
  }

  lemma FrontKeepsDistinct<T>(e: Slot<T>, list: List<T>)
    requires Distinct(list) && forall x <- list :: x.key != e.key
    ensures Distinct([e] + list)
  {
    assert forall i | 0 <= i < |list| :: list[i] in list;
  }

  lemma EvictedIsPrefix<T>(list: List<T>, capacity: int)
    requires capacity >= 1 && Distinct(list)
    ensures Evicted(list, capacity) <= list && Distinct(Evicted(list, capacity))
    ensures |Evicted(list, capacity)| < capacity
    ensures forall e <- Evicted(list, capacity) :: e in list
  {
  }

  lemma {:induction false} WithoutShorter<T>(list: List<T>, key: string)
    requires Has(list, key)
    ensures |Without(list, key)| < |list|
  {
    if list[0].key != key {
      var i :| 0 <= i < |list| && list[i].key == key;
      assert list[1..][i - 1].key == key;
      WithoutShorter(list[1..], key);
    } else {
      WithoutNoLonger(list[1..], key);
    }
  }

  lemma {:induction false} WithoutNoLonger<T>(list: List<T>, key: string)
    ensures |Without(list, key)| <= |list|
  {
    if list != [] {
      WithoutNoLonger(list[1..], key);
    }
  }

  lemma FindIsThe<T>(list: List<T>, entry: Slot<T>)
    requires Distinct(list) && entry in list
    ensures Has(list, entry.key) && Find(list, entry.key) == entry
  {
    FindMember(list, entry.key);
  }

  ghost predicate Agrees<T>(items: map<string, Slot<T>>, list: List<T>) {
    && (forall e <- list :: e.key in items && items[e.key] == e)
    && (forall n <- items :: items[n] in list && items[n].key == n)
  }

  lemma WithoutAgrees<T>(items: map<string, Slot<T>>, list: List<T>, key: string)
    requires Distinct(list) && Agrees(items, list)
    ensures Distinct(Without(list, key)) && Agrees(items - {key}, Without(list, key))
  {
    WithoutIsDistinct(list, key);
    WithoutMembers(list, key);
  }

  lemma PushAgrees<T>(items: map<string, Slot<T>>, list: List<T>, entry: Slot<T>)
    requires Distinct(list) && Agrees(items, list) && entry.key !in items
    ensures Distinct([entry] + list) && Agrees(items[entry.key := entry], [entry] + list)
  {
    FrontKeepsDistinct(entry, list);
  }

  lemma MoveToFrontAgrees<T>(items: map<string, Slot<T>>, list: List<T>, key: string)
    requires Distinct(list) && Agrees(items, list) && key in items
    ensures Distinct([items[key]] + Without(list, key)) && Agrees(items, [items[key]] + Without(list, key))
  {
    WithoutAgrees(items, list, key);
    PushAgrees(items - {key}, Without(list, key), items[key]);
    assert (items - {key})[key := items[key]] == items;
  }

  lemma DropLast<T>(items: map<string, Slot<T>>, list: List<T>)
    requires Distinct(list) && Agrees(items, list) && list != []
    ensures Distinct(list[..|list| - 1])
    ensures Agrees(items - {list[|list| - 1].key}, list[..|list| - 1])
  {
    var rest, last := list[..|list| - 1], list[|list| - 1];
    assert list == rest + [last];
    assert forall e <- rest :: e.key != last.key;
  }

  lemma LookupIsTheElement<T>(items: map<string, Slot<T>>, list: List<T>, key: string)
    requires Distinct(list) && Agrees(items, list)
    ensures Has(list, key) <==> key in items
    ensures key in items ==> Find(list, key) == items[key]
  {
    if key in items {
      FindIsThe(list, items[key]);
    }
  }

  lemma {:induction false} WithoutAbsent<T>(list: List<T>, key: string)
    requires !Has(list, key)
    ensures Without(list, key) == list
  {
    if list != [] {
      assert list[0].key != key;
      assert forall i | 0 <= i < |list[1..]| :: list[1..][i] == list[i + 1];
      WithoutAbsent(list[1..], key);
    }
  }
}
