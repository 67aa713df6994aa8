/** Filtering licences: of each licence only the newest stays, once in each list that has it, and the older ones are
    reported as revoked. */
module Licences {
  import opened Types

  /** A licence; `body` is whatever else there is to it. */
  datatype Item = Item(id: Text, timestamp: nat, body: Text)

  /** The licences of one provider, by its public key. */
  datatype Group = Group(pk: Text, items: seq<Item>)

  datatype RevokedLicense = RevokedLicense(licenseId: Text, providerPubkey: Text, timestamp: nat)

  type MaxMap = map<Text, nat>

  // ---------- the newest timestamps ----------

  function WithItem(m: MaxMap, item: Item): MaxMap {
    if item.id in m then m[item.id := Max(m[item.id], item.timestamp)] else m[item.id := item.timestamp]
  }

  function MaxOfItems(m: MaxMap, items: seq<Item>): MaxMap {
    if items == [] then m else WithItem(MaxOfItems(m, items[..|items| - 1]), items[|items| - 1])
  }

  function MaxOfGroups(data: seq<Group>): MaxMap {
    if data == [] then map[] else MaxOfItems(MaxOfGroups(data[..|data| - 1]), data[|data| - 1].items)
  }

  predicate Holds(data: seq<Group>, id: Text, timestamp: nat) {
    exists g :: g in data && exists item :: item in g.items && item.id == id && item.timestamp == timestamp
  }

  /** `m` gives every licence of `data`, and no other, its newest timestamp. */
  ghost predicate IsMaximum(data: seq<Group>, m: MaxMap) {
    && (forall id | id in m :: Holds(data, id, m[id]))
    && (forall g, item | g in data && item in g.items :: item.id in m && item.timestamp <= m[item.id])
  }

  lemma MaximumIsUnique(data: seq<Group>, m: MaxMap, n: MaxMap)
    requires IsMaximum(data, m) && IsMaximum(data, n)
    ensures m == n
  {
    forall id | id in m ensures id in n && m[id] <= n[id] {
      assert Holds(data, id, m[id]);
    }
    forall id | id in n ensures id in m && n[id] <= m[id] {
      assert Holds(data, id, n[id]);
    }
  }

  lemma {:induction false} MaxOfItemsBounds(m: MaxMap, items: seq<Item>)
    ensures var n := MaxOfItems(m, items);
            && (forall id | id in m :: id in n && m[id] <= n[id])
            && (forall item | item in items :: item.id in n && item.timestamp <= n[item.id])
            && (forall id | id in n :: (id in m && n[id] == m[id]) || exists item :: item in items && item.id == id && item.timestamp == n[id])
  {
    if items != [] {
      var init, last := items[..|items| - 1], items[|items| - 1];
      assert items == init + [last];
      MaxOfItemsBounds(m, init);
      var before, n := MaxOfItems(m, init), MaxOfItems(m, items);
      forall id | id in n
        ensures (id in m && n[id] == m[id]) || exists item :: item in items && item.id == id && item.timestamp == n[id]
      {
        if id == last.id && (id !in before || n[id] != before[id]) {
          assert last in items;
        }
      }
    }
  }

  lemma {:induction false} MaxOfGroupsIsMaximum(data: seq<Group>)
    ensures IsMaximum(data, MaxOfGroups(data))
  {
    if data != [] {
      var init, last := data[..|data| - 1], data[|data| - 1];
      assert data == init + [last];
      MaxOfGroupsIsMaximum(init);
      MaxOfItemsBounds(MaxOfGroups(init), last.items);
      var m := MaxOfGroups(data);
      forall id | id in m ensures Holds(data, id, m[id]) {
        if item :| item in last.items && item.id == id && item.timestamp == m[id] {
          assert last in data;
        } else {
          assert Holds(init, id, m[id]);
        }
      }
    }
  }

  // ---------- one list ----------

  predicate Newest(m: MaxMap, item: Item) {
    item.id in m && item.timestamp == m[item.id]
  }

  /** The items of a list that are newest or, if `newest` is false, that are not. */
  function Filter(m: MaxMap, items: seq<Item>, newest: bool): seq<Item> {
    if items == [] then []
    else
      var last := items[|items| - 1];
      Filter(m, items[..|items| - 1], newest) + if Newest(m, last) == newest then [last] else []
  }

  /** Of an item and the items before it, one of the two filters takes the item. */
  lemma FilterOfLast(m: MaxMap, items: seq<Item>)
    requires items != []
    ensures var init, last := items[..|items| - 1], items[|items| - 1];
            if Newest(m, last) then
              Filter(m, items, true) == Filter(m, init, true) + [last] && Filter(m, items, false) == Filter(m, init, false)
            else
              Filter(m, items, true) == Filter(m, init, true) && Filter(m, items, false) == Filter(m, init, false) + [last]
  {
    hide Newest;
  }

  /** Each item is in exactly one of a and b, counted with multiplicity. */
  ghost predicate Splits(items: seq<Item>, a: seq<Item>, b: seq<Item>) {
    multiset(items) == multiset(a) + multiset(b)
  }

  lemma NothingSplits()
    ensures Splits([], [], [])
  {
  }

  lemma OneMoreToTheFirst(init: seq<Item>, last: Item, a: seq<Item>, b: seq<Item>)
    requires Splits(init, a, b)
    ensures Splits(init + [last], a + [last], b)
  {
  }

  lemma OneMoreToTheSecond(init: seq<Item>, last: Item, a: seq<Item>, b: seq<Item>)
    requires Splits(init, a, b)
    ensures Splits(init + [last], a, b + [last])
  {
    assert Splits(init, b, a);
    OneMoreToTheFirst(init, last, b, a);
  }

  lemma NothingFiltered(m: MaxMap, newest: bool)
    ensures Filter(m, [], newest) == []
  {
  }

  lemma {:induction false} FilterConserves(m: MaxMap, items: seq<Item>)
    ensures Splits(items, Filter(m, items, true), Filter(m, items, false))
  {
    hide *;
    if items == [] {
      NothingFiltered(m, true);
      NothingFiltered(m, false);
      NothingSplits();
    } else {
      var init, last := items[..|items| - 1], items[|items| - 1];
      FilterConserves(m, init);
      FilterOfLast(m, items);
      assert items == init + [last];
      if Newest(m, last) {
        OneMoreToTheFirst(init, last, Filter(m, init, true), Filter(m, init, false));
      } else {
        OneMoreToTheSecond(init, last, Filter(m, init, true), Filter(m, init, false));
      }
    }
  }

  lemma {:induction false} FilterMembers(m: MaxMap, items: seq<Item>, newest: bool, x: Item)
    ensures x in Filter(m, items, newest) <==> x in items && Newest(m, x) == newest
  {
    if items != [] {
      hide Newest;
      FilterMembers(m, items[..|items| - 1], newest, x);
      assert items == items[..|items| - 1] + [items[|items| - 1]];
    }
  }

  lemma {:induction false} FilterAll(m: MaxMap, items: seq<Item>)
    requires forall x | x in items :: Newest(m, x)
    ensures Filter(m, items, true) == items && Filter(m, items, false) == []
  {
    if items != [] {
      FilterAll(m, items[..|items| - 1]);
      FilterOfLast(m, items);
      hide Newest, Filter;
      assert items == items[..|items| - 1] + [items[|items| - 1]];
    }
  }

  function Ids(items: seq<Item>): set<Text> {
    set item | item in items :: item.id
  }

  /** The first item of each licence. */
  function FirstOfEach(items: seq<Item>): seq<Item> {
    if items == [] then []
    else
      var last := items[|items| - 1];
      FirstOfEach(items[..|items| - 1]) + if last.id in Ids(items[..|items| - 1]) then [] else [last]
  }

  /** The items after the first of their licence. */
  function Repeats(items: seq<Item>): seq<Item> {
    if items == [] then []
    else
      var last := items[|items| - 1];
      Repeats(items[..|items| - 1]) + if last.id in Ids(items[..|items| - 1]) then [last] else []
  }

  predicate DistinctIds(items: seq<Item>) {
    forall i, j | 0 <= i < j < |items| :: items[i].id != items[j].id
  }

  lemma NothingRepeats()
    ensures FirstOfEach([]) == [] && Repeats([]) == []
  {
  }

  /** Of an item and the items before it, the item is the first of its licence or a repeat. */
  lemma FirstOrRepeat(items: seq<Item>)
    requires items != []
    ensures var init, last := items[..|items| - 1], items[|items| - 1];
            if last.id in Ids(init) then FirstOfEach(items) == FirstOfEach(init) && Repeats(items) == Repeats(init) + [last]
            else FirstOfEach(items) == FirstOfEach(init) + [last] && Repeats(items) == Repeats(init)
  {
    hide Ids;
  }

  lemma {:induction false} FirstOfEachConserves(items: seq<Item>)
    ensures Splits(items, FirstOfEach(items), Repeats(items))
  {
    hide *;
    if items == [] {
      NothingRepeats();
      NothingSplits();
    } else {
      var init, last := items[..|items| - 1], items[|items| - 1];
      FirstOfEachConserves(init);
      FirstOrRepeat(items);
      assert items == init + [last];
      if last.id in Ids(init) {
        OneMoreToTheSecond(init, last, FirstOfEach(init), Repeats(init));
      } else {
        OneMoreToTheFirst(init, last, FirstOfEach(init), Repeats(init));
      }
    }
  }

  lemma {:induction false} FirstOfEachMembers(items: seq<Item>, x: Item)
    requires x in FirstOfEach(items)
    ensures x in items
  {
    FirstOfEachConserves(items);
    assert x in multiset(FirstOfEach(items));
    assert x in multiset(items);
  }

  lemma IdsOfAppend(items: seq<Item>, last: Item)
    ensures Ids(items + [last]) == Ids(items) + {last.id}
  {
  }

  lemma DistinctAppend(items: seq<Item>, last: Item)
    requires DistinctIds(items) && last.id !in Ids(items)
    ensures DistinctIds(items + [last])
  {
    forall i | 0 <= i < |items| ensures items[i].id != last.id {
      assert items[i] in items;
    }
  }

  lemma {:induction false} FirstOfEachIsDistinct(items: seq<Item>)
    ensures Ids(FirstOfEach(items)) == Ids(items) && DistinctIds(FirstOfEach(items))
  {
    if items != [] {
      var init, last := items[..|items| - 1], items[|items| - 1];
      assert items == init + [last];
      hide Ids, DistinctIds;
      FirstOfEachIsDistinct(init);
      IdsOfAppend(init, last);
      IdsOfAppend(FirstOfEach(init), last);
      if last.id !in Ids(init) {
        DistinctAppend(FirstOfEach(init), last);
      }
    }
  }

  lemma {:induction false} FirstOfDistinct(items: seq<Item>)
    requires DistinctIds(items)
    ensures FirstOfEach(items) == items
  {
    if items != [] {
      var init, last := items[..|items| - 1], items[|items| - 1];
      assert items == init + [last];
      FirstOfDistinct(init);
      assert forall x | x in init :: exists i :: 0 <= i < |items| - 1 && items[i] == x;
    }
  }

  // ---------- all lists ----------

  /** What is left of a list. */
  function KeptOf(m: MaxMap, items: seq<Item>): seq<Item> {
    FirstOfEach(Filter(m, items, true))
  }

  function Kept(m: MaxMap, data: seq<Group>): seq<Group> {
    if data == [] then []
    else
      var last := data[|data| - 1];
      var items := KeptOf(m, last.items);
      Kept(m, data[..|data| - 1]) + if items == [] then [] else [last.(items := items)]
  }

  function Report(pk: Text, items: seq<Item>): seq<RevokedLicense> {
    seq(|items|, i requires 0 <= i < |items| => RevokedLicense(items[i].id, pk, items[i].timestamp))
  }

  /** The outdated items, list by list, in order. */
  function Revoked(m: MaxMap, data: seq<Group>): seq<RevokedLicense> {
    if data == [] then []
    else
      var last := data[|data| - 1];
      Revoked(m, data[..|data| - 1]) + Report(last.pk, Filter(m, last.items, false))
  }

  // ---------- the filter ----------

  method FindNewest(data: seq<Group>) returns (maxMap: MaxMap)
    ensures maxMap == MaxOfGroups(data)
  {
    maxMap := map[];
    for n := 0 to |data|
      invariant maxMap == MaxOfGroups(data[..n])
    {
      assert data[..n + 1][..n] == data[..n];
      ghost var before := maxMap;
      var items := data[n].items;
      for i := 0 to |items|
        invariant maxMap == MaxOfItems(before, items[..i])
      {
        assert items[..i + 1][..i] == items[..i];
        var item := items[i];
        if item.id in maxMap {
          if item.timestamp > maxMap[item.id] {
            maxMap := maxMap[item.id := item.timestamp];
          }
        } else {
          maxMap := maxMap[item.id := item.timestamp];
        }
      }
      assert items[..|items|] == items;
    }
    assert data[..|data|] == data;
  }

  /** Takes the outdated items out of a list and reports them. */
  method RetainNewest(maxMap: MaxMap, group: Group, reported: seq<RevokedLicense>)
    returns (items: seq<Item>, revoked: seq<RevokedLicense>)
    requires forall item | item in group.items :: item.id in maxMap
    ensures items == Filter(maxMap, group.items, true)
    ensures revoked == reported + Report(group.pk, Filter(maxMap, group.items, false))
  {
    items, revoked := [], reported;
    for i := 0 to |group.items|
      invariant items == Filter(maxMap, group.items[..i], true)
      invariant revoked == reported + Report(group.pk, Filter(maxMap, group.items[..i], false))
    {
      assert group.items[..i + 1][..i] == group.items[..i];
      var item := group.items[i];
      if item.timestamp == maxMap[item.id] {
        items := items + [item];
      } else {
        revoked := revoked + [RevokedLicense(item.id, group.pk, item.timestamp)];
      }
    }
    assert group.items[..|group.items|] == group.items;
  }

  method RetainFirst(all: seq<Item>) returns (items: seq<Item>)
    ensures items == FirstOfEach(all)
  {
    items := [];
    var seen := {};
    for i := 0 to |all|
      invariant items == FirstOfEach(all[..i]) && seen == Ids(all[..i])
    {
      assert all[..i + 1][..i] == all[..i] && all[..i + 1] == all[..i] + [all[i]];
      IdsOfAppend(all[..i], all[i]);
      if all[i].id !in seen {
        seen := seen + {all[i].id};
        items := items + [all[i]];
      }
    }
    assert all[..|all|] == all;
  }

  /** The data after the first two passes, and after the third. */
  function Trimmed(m: MaxMap, data: seq<Group>): seq<Group> {
    seq(|data|, i requires 0 <= i < |data| => data[i].(items := Filter(m, data[i].items, true)))
  }

  function Deduplicated(data: seq<Group>): seq<Group> {
    seq(|data|, i requires 0 <= i < |data| => data[i].(items := FirstOfEach(data[i].items)))
  }

  function NonEmpty(data: seq<Group>): seq<Group> {
    if data == [] then []
    else NonEmpty(data[..|data| - 1]) + if data[|data| - 1].items == [] then [] else [data[|data| - 1]]
  }

  lemma {:induction false} PassesMakeKept(m: MaxMap, data: seq<Group>)
    ensures NonEmpty(Deduplicated(Trimmed(m, data))) == Kept(m, data)
  {
    if data != [] {
      var init := data[..|data| - 1];
      PassesMakeKept(m, init);
      assert Deduplicated(Trimmed(m, data))[..|data| - 1] == Deduplicated(Trimmed(m, init));
    }
  }

  /** Second pass: each list keeps its newest items. */
  method RetainNewestOfAll(maxMap: MaxMap, input: seq<Group>) returns (data: seq<Group>, revoked: seq<RevokedLicense>)
    requires forall g, item | g in input && item in g.items :: item.id in maxMap
    ensures data == Trimmed(maxMap, input)
    ensures revoked == Revoked(maxMap, input)
  {
    hide Filter;
    data, revoked := input, [];
    for n := 0 to |data|
      invariant |data| == |input|
      invariant forall k | n <= k < |input| :: data[k] == input[k]
      invariant forall k | 0 <= k < n :: data[k] == input[k].(items := Filter(maxMap, input[k].items, true))
      invariant revoked == Revoked(maxMap, input[..n])
    {
      assert input[n] in input;
      assert input[..n + 1][..n] == input[..n];
      var items, more := RetainNewest(maxMap, data[n], revoked);
      revoked := more;
      data := data[n := data[n].(items := items)];
    }
    assert input[..|input|] == input;
  }

  /** Third pass: each list keeps one item of each licence. */
  method RetainFirstOfAll(input: seq<Group>) returns (data: seq<Group>)
    ensures data == Deduplicated(input)
  {
    hide FirstOfEach;
    data := input;
    for n := 0 to |data|
      invariant |data| == |input|
      invariant forall k | n <= k < |input| :: data[k] == input[k]
      invariant forall k | 0 <= k < n :: data[k] == input[k].(items := FirstOfEach(input[k].items))
    {
      var items := RetainFirst(data[n].items);
      data := data[n := data[n].(items := items)];
    }
  }

  method RemoveWithOutdatedTimestamps(input: seq<Group>) returns (data: seq<Group>, revoked: seq<RevokedLicense>)
    ensures data == Kept(MaxOfGroups(input), input)
    ensures revoked == Revoked(MaxOfGroups(input), input)
  {
    hide Trimmed, Deduplicated, NonEmpty, Kept, Revoked, MaxOfGroups;
    var maxMap := FindNewest(input);
    MaxOfGroupsIsMaximum(input);
    data, revoked := RetainNewestOfAll(maxMap, input);
    data := RetainFirstOfAll(data);
    data := RetainNonEmpty(data);
    PassesMakeKept(maxMap, input);
  }

  method RetainNonEmpty(all: seq<Group>) returns (data: seq<Group>)
    ensures data == NonEmpty(all)
  {
    data := [];
    for n := 0 to |all|
      invariant data == NonEmpty(all[..n])
    {
      assert all[..n + 1][..n] == all[..n];
      if all[n].items != [] {
        data := data + [all[n]];
      }
    }
    assert all[..|all|] == all;
  }

  // ---------- what the filter promises ----------

  function AllItems(data: seq<Group>): seq<Item> {
    if data == [] then [] else AllItems(data[..|data| - 1]) + data[|data| - 1].items
  }

  function AllOutdated(m: MaxMap, data: seq<Group>): seq<Item> {
    if data == [] then [] else AllOutdated(m, data[..|data| - 1]) + Filter(m, data[|data| - 1].items, false)
  }

  function AllRepeats(m: MaxMap, data: seq<Group>): seq<Item> {
    if data == [] then [] else AllRepeats(m, data[..|data| - 1]) + Repeats(Filter(m, data[|data| - 1].items, true))
  }

  lemma AllItemsAppend(data: seq<Group>, last: Group)
    ensures AllItems(data + [last]) == AllItems(data) + last.items
  {
    assert (data + [last])[..|data|] == data;
  }

  lemma Regroup<T>(items: multiset<T>, kept: multiset<T>, outdated: multiset<T>, repeated: multiset<T>, newest: multiset<T>)
    requires items == newest + outdated && newest == kept + repeated
    ensures items == kept + outdated + repeated
  {
  }

  lemma ItemsOfKept(m: MaxMap, data: seq<Group>, last: Group)
    ensures AllItems(Kept(m, data + [last])) == AllItems(Kept(m, data)) + KeptOf(m, last.items)
  {
    hide KeptOf, AllItems;
    var all, k := data + [last], last.(items := KeptOf(m, last.items));
    assert all[..|all| - 1] == data && all[|all| - 1] == last;
    assert Kept(m, all) == Kept(m, data) + if k.items == [] then [] else [k];
    AllItemsAppend(Kept(m, data), k);
    assert Kept(m, data) + [] == Kept(m, data) && AllItems(Kept(m, data)) + [] == AllItems(Kept(m, data));
  }

  /** Each item is exactly one of kept, outdated or a repeat. */
  lemma {:induction false} ItemsAreConserved(m: MaxMap, data: seq<Group>)
    ensures multiset(AllItems(data))
            == multiset(AllItems(Kept(m, data))) + multiset(AllOutdated(m, data)) + multiset(AllRepeats(m, data))
  {
    if data != [] {
      hide FirstOfEach, Repeats, Filter, Kept;
      var init, last := data[..|data| - 1], data[|data| - 1];
      assert data == init + [last];
      ItemsAreConserved(m, init);
      ItemsOfKept(m, init, last);
      var newest := Filter(m, last.items, true);
      FilterConserves(m, last.items);
      FirstOfEachConserves(newest);
      Regroup(multiset(last.items), multiset(KeptOf(m, last.items)), multiset(Filter(m, last.items, false)),
              multiset(Repeats(newest)), multiset(newest));
    }
  }

  /** The outdated items are reported, each once, in order. */
  lemma {:induction false} OutdatedAreReported(m: MaxMap, data: seq<Group>)
    ensures |Revoked(m, data)| == |AllOutdated(m, data)|
    ensures forall i | 0 <= i < |AllOutdated(m, data)| ::
              && Revoked(m, data)[i].licenseId == AllOutdated(m, data)[i].id
              && Revoked(m, data)[i].timestamp == AllOutdated(m, data)[i].timestamp
  {
    if data != [] {
      hide Filter;
      OutdatedAreReported(m, data[..|data| - 1]);
    }
  }

  lemma {:induction false} KeptGroups(m: MaxMap, data: seq<Group>, k: Group)
    ensures k in Kept(m, data) <==> exists g :: g in data && KeptOf(m, g.items) != [] && k == g.(items := KeptOf(m, g.items))
  {
    if data != [] {
      hide KeptOf;
      KeptGroups(m, data[..|data| - 1], k);
      assert data == data[..|data| - 1] + [data[|data| - 1]];
    }
  }

  /** Whatever is kept is newest, once in its list, and no list is empty. */
  lemma KeptAreNewest(data: seq<Group>, k: Group)
    requires k in Kept(MaxOfGroups(data), data)
    ensures k.items != [] && DistinctIds(k.items)
    ensures forall item | item in k.items ::
              (exists g :: g in data && g.pk == k.pk && item in g.items)
              && (forall g, other | g in data && other in g.items && other.id == item.id :: other.timestamp <= item.timestamp)
  {
    var m := MaxOfGroups(data);
    MaxOfGroupsIsMaximum(data);
    KeptGroups(m, data, k);
    var g :| g in data && k == g.(items := KeptOf(m, g.items));
    FirstOfEachIsDistinct(Filter(m, g.items, true));
    forall item | item in k.items ensures item in g.items && Newest(m, item) {
      FirstOfEachMembers(Filter(m, g.items, true), item);
      FilterMembers(m, g.items, true, item);
    }
  }

  /** Each licence survives, at its newest timestamp, in every list that holds it there. */
  lemma NewestSurvive(data: seq<Group>, g: Group, item: Item)
    requires g in data && item in g.items
    requires forall h, other | h in data && other in h.items && other.id == item.id :: other.timestamp <= item.timestamp
    ensures exists k, kept :: k in Kept(MaxOfGroups(data), data) && k.pk == g.pk
              && kept in k.items && kept.id == item.id && kept.timestamp == item.timestamp
  {
    var m := MaxOfGroups(data);
    MaxOfGroupsIsMaximum(data);
    assert Holds(data, item.id, m[item.id]);
    var current, k := Filter(m, g.items, true), g.(items := KeptOf(m, g.items));
    FilterMembers(m, g.items, true, item);
    FirstOfEachIsDistinct(current);
    assert item.id in Ids(current);
    var kept :| kept in k.items && kept.id == item.id;
    FirstOfEachMembers(current, kept);
    FilterMembers(m, g.items, true, kept);
    KeptGroups(m, data, k);
  }

  /** Revoked are exactly the items below the newest timestamp of their licence. */
  lemma {:induction false} RevokedExactly(m: MaxMap, data: seq<Group>, r: RevokedLicense)
    ensures r in Revoked(m, data) <==>
              exists g, item :: g in data && item in g.items && !Newest(m, item)
                                && r == RevokedLicense(item.id, g.pk, item.timestamp)
  {
    if data != [] {
      var init, last := data[..|data| - 1], data[|data| - 1];
      hide Newest;
      RevokedExactly(m, init, r);
      assert data == init + [last];
      var stale := Filter(m, last.items, false);
      forall item ensures item in stale <==> item in last.items && !Newest(m, item) {
        FilterMembers(m, last.items, false, item);
      }
      if item :| item in last.items && !Newest(m, item) && r == RevokedLicense(item.id, last.pk, item.timestamp) {
        var i :| 0 <= i < |stale| && stale[i] == item;
        assert Report(last.pk, stale)[i] == r;
      }
    }
  }

  lemma KeptHasTheSameMaximum(data: seq<Group>)
    ensures MaxOfGroups(Kept(MaxOfGroups(data), data)) == MaxOfGroups(data)
  {
    var m := MaxOfGroups(data);
    var kept := Kept(m, data);
    MaxOfGroupsIsMaximum(data);
    forall id | id in m ensures Holds(kept, id, m[id]) {
      assert Holds(data, id, m[id]);
      var g, item :| g in data && item in g.items && item.id == id && item.timestamp == m[id];
      NewestSurvive(data, g, item);
    }
    forall k, item | k in kept && item in k.items ensures item.id in m && item.timestamp <= m[item.id] {
      KeptAreNewest(data, k);
    }
    MaxOfGroupsIsMaximum(kept);
    MaximumIsUnique(kept, MaxOfGroups(kept), m);
  }

  lemma {:induction false} NewestStay(m: MaxMap, data: seq<Group>)
    requires forall g | g in data :: g.items != [] && DistinctIds(g.items) && forall item | item in g.items :: Newest(m, item)
    ensures Kept(m, data) == data && Revoked(m, data) == []
  {
    if data != [] {
      var init, last := data[..|data| - 1], data[|data| - 1];
      assert data == init + [last];
      NewestStay(m, init);
      FilterAll(m, last.items);
      FirstOfDistinct(last.items);
    }
  }

  /** A second run changes nothing and revokes nothing. */
  lemma SecondRunChangesNothing(data: seq<Group>)
    ensures var kept := Kept(MaxOfGroups(data), data);
            Kept(MaxOfGroups(kept), kept) == kept && Revoked(MaxOfGroups(kept), kept) == []
  {
    var m := MaxOfGroups(data);
    var kept := Kept(m, data);
    KeptHasTheSameMaximum(data);
    forall k | k in kept
      ensures k.items != [] && DistinctIds(k.items) && forall item | item in k.items :: Newest(m, item)
    {
      KeptAreNewest(data, k);
      MaxOfGroupsIsMaximum(data);
      forall item | item in k.items ensures Newest(m, item) {
        assert Holds(data, item.id, m[item.id]);
      }
    }
    NewestStay(m, kept);
  }
}
