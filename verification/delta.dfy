/** Card deltas: what changed between two snapshots, and applying it to a third. */
module CardsDelta {
  import opened Common
  import opened Dicts

  /** A card's content; `canon` is its JSON with sorted keys, `rest` whatever that does not show. */
  datatype Body = Body(canon: string, rest: string)

  /** A list entry: a card with its id as text, or something without an id. */
  datatype Item = Card(id: string, body: Body) | Junk

  datatype Cards = Missing | NotAList | Cards(items: seq<Item>)

  datatype Snapshot = NotADict | Snapshot(cards: Cards, other: string)

  datatype Delta = NoDelta | Delta(added: seq<Item>, removed: seq<Item>, updated: seq<Item>)

  type Index = Dict<string, Body>

  const ID_ONLY := Body("id", "")

  function PutAll(d: Index, items: seq<Item>): Index {
    if items == [] then d
    else
      var init, it := PutAll(d, items[..|items| - 1]), items[|items| - 1];
      if it.Card? then Put(init, it.id, it.body) else init
  }

  function PopAll(d: Index, items: seq<Item>): Index {
    if items == [] then d
    else
      var init, it := PopAll(d, items[..|items| - 1]), items[|items| - 1];
      if it.Card? then Pop(init, it.id) else init
  }

  /** `_index`: a repeated id keeps its first place and its last content. */
  function IndexOf(items: seq<Item>): Index {
    PutAll(Empty(), items)
  }

  function Entry(d: Index, k: string): Item {
    if k in d.vals then Card(k, d.vals[k]) else Junk
  }

  /** `list(card_map.values())` */
  function Entries(d: Index, ks: seq<string>): seq<Item> {
    if ks == [] then [] else Entries(d, ks[..|ks| - 1]) + [Entry(d, ks[|ks| - 1])]
  }

  function IdEntries(ks: seq<string>): seq<Item> {
    if ks == [] then [] else IdEntries(ks[..|ks| - 1]) + [Card(ks[|ks| - 1], ID_ONLY)]
  }

  function Inside(ks: seq<string>, s: set<string>): seq<string> {
    if ks == [] then []
    else
      var init := Inside(ks[..|ks| - 1], s);
      if ks[|ks| - 1] in s then init + [ks[|ks| - 1]] else init
  }

  function Outside(ks: seq<string>, s: set<string>): seq<string> {
    if ks == [] then []
    else
      var init := Outside(ks[..|ks| - 1], s);
      if ks[|ks| - 1] in s then init else init + [ks[|ks| - 1]]
  }

  predicate Changed(b: Index, n: Index, k: string) {
    k in b.vals && k in n.vals && n.vals[k].canon != b.vals[k].canon
  }

  function ChangedKeys(b: Index, n: Index, ks: seq<string>): seq<string> {
    if ks == [] then []
    else
      var init := ChangedKeys(b, n, ks[..|ks| - 1]);
      if Changed(b, n, ks[|ks| - 1]) then init + [ks[|ks| - 1]] else init
  }

  function DeltaOf(b: Index, n: Index): Delta {
    Delta(Entries(n, Outside(n.keys, b.vals.Keys)), IdEntries(Outside(b.keys, n.vals.Keys)), Entries(n, ChangedKeys(b, n, n.keys)))
  }

  function Applied(d: Index, delta: Delta): Index
    requires delta.Delta?
  {
    PutAll(PutAll(PopAll(d, delta.removed), delta.updated), delta.added)
  }

  // ----- the code

  method BuildIndex(items: seq<Item>) returns (out: Index)
    ensures out == IndexOf(items) && Valid(out)
  {
    out := Empty();
    for i := 0 to |items|
      invariant out == IndexOf(items[..i])
    {
      assert items[..i + 1][..i] == items[..i];
      if items[i].Card? {
        out := Put(out, items[i].id, items[i].body);
      }
    }
    assert items[..|items|] == items;
    PutAllIsValid(Empty(), items);
  }

  method ComputeCardsDelta(base: Snapshot, now: Snapshot) returns (delta: Delta)
    ensures delta.NoDelta? <==> !(base.Snapshot? && now.Snapshot? && base.cards.Cards? && now.cards.Cards?)
    ensures delta.Delta? ==> delta == DeltaOf(IndexOf(base.cards.items), IndexOf(now.cards.items))
    ensures delta.Delta? ==> Compares(IndexOf(base.cards.items), IndexOf(now.cards.items), delta)
  {
    if base.NotADict? || now.NotADict? || !base.cards.Cards? || !now.cards.Cards? {
      return NoDelta;
    }
    var bi := BuildIndex(base.cards.items);
    var ni := BuildIndex(now.cards.items);
    var added, updated := AddedAndUpdated(bi, ni);
    var removed := Removed(bi, ni);
    DeltaCompares(bi, ni);
    return Delta(added, removed, updated);
  }

  method AddedAndUpdated(bi: Index, ni: Index) returns (added: seq<Item>, updated: seq<Item>)
    requires Valid(ni)
    ensures added == Entries(ni, Outside(ni.keys, bi.vals.Keys))
    ensures updated == Entries(ni, ChangedKeys(bi, ni, ni.keys))
  {
    added, updated := [], [];
    for i := 0 to |ni.keys|
      invariant added == Entries(ni, Outside(ni.keys[..i], bi.vals.Keys))
      invariant updated == Entries(ni, ChangedKeys(bi, ni, ni.keys[..i]))
    {
      var k := ni.keys[i];
      assert k in ni.keys;
      AddedStep(bi, ni, i);
      UpdatedStep(bi, ni, i);
      if k !in bi.vals {
        added := added + [Card(k, ni.vals[k])];
      } else if ni.vals[k].canon != bi.vals[k].canon {
        updated := updated + [Card(k, ni.vals[k])];
      }
    }
    assert ni.keys[..|ni.keys|] == ni.keys;
  }

  method Removed(bi: Index, ni: Index) returns (removed: seq<Item>)
    ensures removed == IdEntries(Outside(bi.keys, ni.vals.Keys))
  {
    removed := [];
    for i := 0 to |bi.keys|
      invariant removed == IdEntries(Outside(bi.keys[..i], ni.vals.Keys))
    {
      RemovedStep(bi, ni, i);
      if bi.keys[i] !in ni.vals {
        removed := removed + [Card(bi.keys[i], ID_ONLY)];
      }
    }
    assert bi.keys[..|bi.keys|] == bi.keys;
  }

  lemma {:induction false} AddedStep(b: Index, n: Index, i: nat)
    requires i < |n.keys|
    ensures Entries(n, Outside(n.keys[..i + 1], b.vals.Keys))
      == Entries(n, Outside(n.keys[..i], b.vals.Keys)) + if n.keys[i] in b.vals then [] else [Entry(n, n.keys[i])]
  {
    assert n.keys[..i + 1][..i] == n.keys[..i];
    EntriesSnoc(n, Outside(n.keys[..i], b.vals.Keys), n.keys[i]);
  }

  lemma {:induction false} UpdatedStep(b: Index, n: Index, i: nat)
    requires i < |n.keys|
    ensures Entries(n, ChangedKeys(b, n, n.keys[..i + 1]))
      == Entries(n, ChangedKeys(b, n, n.keys[..i])) + if Changed(b, n, n.keys[i]) then [Entry(n, n.keys[i])] else []
  {
    assert n.keys[..i + 1][..i] == n.keys[..i];
    EntriesSnoc(n, ChangedKeys(b, n, n.keys[..i]), n.keys[i]);
  }

  lemma {:induction false} EntriesSnoc(d: Index, ks: seq<string>, k: string)
    ensures Entries(d, ks + [k]) == Entries(d, ks) + [Entry(d, k)]
  {
    assert (ks + [k])[..|ks|] == ks;
  }

  lemma {:induction false} RemovedStep(b: Index, n: Index, i: nat)
    requires i < |b.keys|
    ensures IdEntries(Outside(b.keys[..i + 1], n.vals.Keys))
      == IdEntries(Outside(b.keys[..i], n.vals.Keys)) + if b.keys[i] in n.vals then [] else [Card(b.keys[i], ID_ONLY)]
  {
    assert b.keys[..i + 1][..i] == b.keys[..i];
    var ks := Outside(b.keys[..i], n.vals.Keys);
    assert (ks + [b.keys[i]])[..|ks|] == ks;
  }

  /** Anything that is not a snapshot with a card list (or without cards at all) comes back as is. */
  method ApplyCardsDelta(base: Snapshot, delta: Delta) returns (result: Snapshot)
    ensures base.NotADict? || delta.NoDelta? || base.cards.NotAList? ==> result == base
    ensures base.Snapshot? && delta.Delta? && !base.cards.NotAList? ==>
      var d := Applied(IndexOf(if base.cards.Cards? then base.cards.items else []), delta);
      result == base.(cards := Cards(Entries(d, d.keys)))
  {
    if base.NotADict? || delta.NoDelta? || base.cards.NotAList? {
      return base;
    }
    var cards := if base.cards.Cards? then base.cards.items else [];
    var cardMap := BuildIndex(cards);
    ghost var start := cardMap;
    for i := 0 to |delta.removed|
      invariant cardMap == PopAll(start, delta.removed[..i])
    {
      assert delta.removed[..i + 1][..i] == delta.removed[..i];
      if delta.removed[i].Card? {
        cardMap := Pop(cardMap, delta.removed[i].id);
      }
    }
    assert delta.removed[..|delta.removed|] == delta.removed;
    cardMap := StoreAll(cardMap, delta.updated);
    cardMap := StoreAll(cardMap, delta.added);
    return base.(cards := Cards(Entries(cardMap, cardMap.keys)));
  }

  method StoreAll(d: Index, items: seq<Item>) returns (r: Index)
    ensures r == PutAll(d, items)
  {
    r := d;
    for i := 0 to |items|
      invariant r == PutAll(d, items[..i])
    {
      assert items[..i + 1][..i] == items[..i];
      if items[i].Card? {
        r := Put(r, items[i].id, items[i].body);
      }
    }
    assert items[..|items|] == items;
  }

  predicate IsDeltaApplicable(delta: Delta) {
    delta.Delta? && (delta.added != [] || delta.removed != [] || delta.updated != [])
  }

  // ----- indexes, deltas and their application in plain words

  /** No entry of the list is a card with this id. */
  ghost predicate NoneOf(items: seq<Item>, k: string) {
    forall i :: 0 <= i < |items| ==> !(items[i].Card? && items[i].id == k)
  }

  /** The last card of the list with this id has this content. */
  ghost predicate LastOf(items: seq<Item>, k: string, v: Body) {
    exists i :: 0 <= i < |items| && items[i] == Card(k, v) && NoneFrom(items, i + 1, k)
  }

  ghost predicate NoneFrom(items: seq<Item>, i: nat, k: string) {
    forall j :: i <= j < |items| ==> !(items[j].Card? && items[j].id == k)
  }

  lemma {:induction false} LastSnoc(items: seq<Item>, it: Item, k: string)
    ensures NoneOf(items + [it], k) <==> NoneOf(items, k) && !(it.Card? && it.id == k)
    ensures forall v :: LastOf(items + [it], k, v) <==> if it.Card? && it.id == k then it.body == v else LastOf(items, k, v)
  {
    var all := items + [it];
    assert all[|items|] == it && forall i :: 0 <= i < |items| ==> all[i] == items[i];
    forall v ensures LastOf(all, k, v) <==> if it.Card? && it.id == k then it.body == v else LastOf(items, k, v) {
      if it == Card(k, v) {
        assert NoneFrom(all, |items| + 1, k);
      } else if i :| 0 <= i < |items| && items[i] == Card(k, v) && NoneFrom(items, i + 1, k) && !(it.Card? && it.id == k) {
        assert all[i] == Card(k, v) && NoneFrom(all, i + 1, k);
      }
      if i :| 0 <= i < |all| && all[i] == Card(k, v) && NoneFrom(all, i + 1, k) {
        LastIsKept(items, it, k, v, i);
      }
    }
    NoneSnoc(items, it, k);
  }

  lemma {:induction false} LastIsKept(items: seq<Item>, it: Item, k: string, v: Body, i: nat)
    requires var all := items + [it]; i < |all| && all[i] == Card(k, v) && NoneFrom(all, i + 1, k)
    ensures if it.Card? && it.id == k then it.body == v else LastOf(items, k, v)
  {
    var all := items + [it];
    assert all[|items|] == it && forall j :: 0 <= j < |items| ==> all[j] == items[j];
    if i < |items| {
      assert NoneFrom(items, i + 1, k);
    }
  }

  lemma {:induction false} NoneSnoc(items: seq<Item>, it: Item, k: string)
    ensures NoneOf(items + [it], k) <==> NoneOf(items, k) && !(it.Card? && it.id == k)
  {
    assert forall i :: 0 <= i < |items| ==> (items + [it])[i] == items[i];
    assert (items + [it])[|items|] == it;
  }

  /** Storing a list: an id that it has ends up with its last content there, any other id stays as it was. */
  lemma {:induction false} PutAllTells(d: Index, items: seq<Item>, k: string)
    ensures forall v :: LastOf(items, k, v) ==> k in PutAll(d, items).vals && PutAll(d, items).vals[k] == v
    ensures NoneOf(items, k) ==> (k in PutAll(d, items).vals <==> k in d.vals)
    ensures NoneOf(items, k) && k in d.vals ==> k in PutAll(d, items).vals && PutAll(d, items).vals[k] == d.vals[k]
    ensures NoneOf(items, k) || exists v :: LastOf(items, k, v)
  {
    if items != [] {
      var init, it := items[..|items| - 1], items[|items| - 1];
      PutAllTells(d, init, k);
      LastSnoc(init, it, k);
      assert items == init + [it];
      assert it.Card? && it.id == k ==> LastOf(items, k, it.body);
    }
  }

  lemma {:induction false} PopAllTells(d: Index, items: seq<Item>, k: string)
    ensures k in PopAll(d, items).vals <==> k in d.vals && NoneOf(items, k)
    ensures k in PopAll(d, items).vals ==> PopAll(d, items).vals[k] == d.vals[k]
  {
    if items != [] {
      var init, it := items[..|items| - 1], items[|items| - 1];
      PopAllTells(d, init, k);
      NoneSnoc(init, it, k);
      assert items == init + [it];
    }
  }

  /** `_index`: the ids of the list, each with its last content, in the order in which they first come. */
  lemma {:induction false} IndexTells(items: seq<Item>)
    ensures forall k :: k in IndexOf(items).vals <==> !NoneOf(items, k)
    ensures forall k, v :: LastOf(items, k, v) ==> k in IndexOf(items).vals && IndexOf(items).vals[k] == v
    ensures forall p, q :: 0 <= p < q < |IndexOf(items).keys| ==> ComesFirst(items, IndexOf(items).keys[p], IndexOf(items).keys[q])
  {
    forall k ensures k in IndexOf(items).vals <==> !NoneOf(items, k) {
      PutAllTells(Empty(), items, k);
    }
    forall k, v | LastOf(items, k, v) ensures k in IndexOf(items).vals && IndexOf(items).vals[k] == v {
      PutAllTells(Empty(), items, k);
    }
    KeysInOrder(items);
  }

  /** Some card with id `x` comes before any with id `y`. */
  ghost predicate ComesFirst(items: seq<Item>, x: string, y: string) {
    exists i :: 0 <= i < |items| && items[i].Card? && items[i].id == x && NoneOf(items[..i + 1], y)
  }

  lemma {:induction false} FirstSnoc(items: seq<Item>, it: Item, x: string, y: string)
    requires ComesFirst(items, x, y)
    ensures ComesFirst(items + [it], x, y)
  {
    var i :| 0 <= i < |items| && items[i].Card? && items[i].id == x && NoneOf(items[..i + 1], y);
    assert (items + [it])[i] == items[i] && (items + [it])[..i + 1] == items[..i + 1];
  }

  lemma {:induction false} NewComesLast(items: seq<Item>, x: string, y: string)
    requires !NoneOf(items, x) && NoneOf(items, y)
    ensures ComesFirst(items, x, y)
  {
    var i :| 0 <= i < |items| && items[i].Card? && items[i].id == x;
    assert NoneOf(items[..i + 1], y);
  }

  lemma {:induction false} KeysInOrder(items: seq<Item>)
    ensures var keys := IndexOf(items).keys;
      && (forall k :: k in keys ==> !NoneOf(items, k))
      && (forall p, q :: 0 <= p < q < |keys| ==> ComesFirst(items, keys[p], keys[q]))
  {
    if items != [] {
      var init, it := items[..|items| - 1], items[|items| - 1];
      var before, keys := IndexOf(init).keys, IndexOf(items).keys;
      KeysInOrder(init);
      assert items == init + [it];
      forall k | k in keys ensures !NoneOf(items, k) {
        NoneSnoc(init, it, k);
      }
      forall p, q | 0 <= p < q < |keys| ensures ComesFirst(items, keys[p], keys[q]) {
        if q < |before| {
          FirstSnoc(init, it, keys[p], keys[q]);
        } else {
          assert keys[p] in before;
          PutAllTells(Empty(), init, keys[q]);
          NewComesLast(init, keys[p], keys[q]);
          FirstSnoc(init, it, keys[p], keys[q]);
        }
      }
    }
  }

  /** `items` are cards, in the order of the ids in `keys`. */
  ghost predicate InOrderOf(items: seq<Item>, keys: seq<string>) {
    && (forall p :: 0 <= p < |items| ==> items[p].Card?)
    && (forall p, q :: 0 <= p < q < |items| ==> Precedes(keys, items[p].id, items[q].id))
  }

  ghost predicate Precedes(keys: seq<string>, x: string, y: string) {
    exists i, j :: 0 <= i < j < |keys| && keys[i] == x && keys[j] == y
  }

  /** Added are the new cards, removed the ids that are gone, updated the cards whose canonical JSON differs:
      these, each once, and no others. */
  ghost predicate Compares(b: Index, n: Index, delta: Delta) {
    && delta.Delta?
    && (forall it :: it in delta.added <==> it.Card? && it.id !in b.vals && it.id in n.vals && it.body == n.vals[it.id])
    && (forall it :: it in delta.removed <==> it.Card? && it.id in b.vals && it.id !in n.vals && it.body == ID_ONLY)
    && (forall it :: it in delta.updated <==>
                     && it.Card? && it.id in b.vals && it.id in n.vals
                     && it.body == n.vals[it.id] && b.vals[it.id].canon != n.vals[it.id].canon)
    && InOrderOf(delta.added, n.keys) && InOrderOf(delta.removed, b.keys) && InOrderOf(delta.updated, n.keys)
  }

  lemma {:induction false} EntriesAt(d: Index, ks: seq<string>)
    requires forall k :: k in ks ==> k in d.vals
    ensures |Entries(d, ks)| == |ks| && forall i :: 0 <= i < |ks| ==> Entries(d, ks)[i] == Card(ks[i], d.vals[ks[i]])
    ensures forall it :: it in Entries(d, ks) <==> it.Card? && it.id in ks && it.body == d.vals[it.id]
  {
    if ks != [] {
      EntriesAt(d, ks[..|ks| - 1]);
      assert forall k :: k in ks <==> k in ks[..|ks| - 1] || k == ks[|ks| - 1];
    }
  }

  lemma {:induction false} IdEntriesAt(ks: seq<string>)
    ensures |IdEntries(ks)| == |ks| && forall i :: 0 <= i < |ks| ==> IdEntries(ks)[i] == Card(ks[i], ID_ONLY)
    ensures forall it :: it in IdEntries(ks) <==> it.Card? && it.id in ks && it.body == ID_ONLY
  {
    if ks != [] {
      IdEntriesAt(ks[..|ks| - 1]);
      assert forall k :: k in ks <==> k in ks[..|ks| - 1] || k == ks[|ks| - 1];
    }
  }

  /** `part` lists some of `ks`, in their order. */
  ghost predicate Within(part: seq<string>, ks: seq<string>) {
    forall p, q :: 0 <= p < q < |part| ==> Precedes(ks, part[p], part[q])
  }

  lemma {:induction false} PrecedesSnoc(ks: seq<string>, k: string, x: string, y: string)
    ensures Precedes(ks, x, y) ==> Precedes(ks + [k], x, y)
    ensures x in ks ==> Precedes(ks + [k], x, k)
  {
    var all := ks + [k];
    assert all[|ks|] == k && forall i :: 0 <= i < |ks| ==> all[i] == ks[i];
    if i, j :| 0 <= i < j < |ks| && ks[i] == x && ks[j] == y {
      assert all[i] == x && all[j] == y;
    }
    if i :| 0 <= i < |ks| && ks[i] == x {
      assert all[i] == x;
    }
  }

  lemma {:induction false} WithinSnoc(part: seq<string>, ks: seq<string>, k: string)
    requires Within(part, ks) && forall x :: x in part ==> x in ks
    ensures Within(part, ks + [k]) && Within(part + [k], ks + [k])
  {
    var more := part + [k];
    forall p, q | 0 <= p < q < |more| ensures Precedes(ks + [k], more[p], more[q]) {
      PrecedesSnoc(ks, k, more[p], more[q]);
      assert more[p] in part;
    }
    assert forall p :: 0 <= p < |part| ==> more[p] == part[p];
  }

  lemma {:induction false} FilterWithin(ks: seq<string>, s: set<string>)
    ensures Within(Outside(ks, s), ks) && forall x :: x in Outside(ks, s) ==> x in ks
  {
    if ks != [] {
      var init, k := ks[..|ks| - 1], ks[|ks| - 1];
      FilterWithin(init, s);
      WithinSnoc(Outside(init, s), init, k);
      assert ks == init + [k];
    }
  }

  lemma {:induction false} ChangedWithin(b: Index, n: Index, ks: seq<string>)
    ensures Within(ChangedKeys(b, n, ks), ks) && forall x :: x in ChangedKeys(b, n, ks) ==> x in ks
  {
    if ks != [] {
      var init, k := ks[..|ks| - 1], ks[|ks| - 1];
      ChangedWithin(b, n, init);
      WithinSnoc(ChangedKeys(b, n, init), init, k);
      assert ks == init + [k];
    }
  }

  lemma {:induction false} EntriesInOrder(items: seq<Item>, part: seq<string>, ks: seq<string>)
    requires Within(part, ks) && |items| == |part| && forall i :: 0 <= i < |part| ==> items[i].Card? && items[i].id == part[i]
    ensures InOrderOf(items, ks)
  {
    forall p, q | 0 <= p < q < |items| ensures Precedes(ks, items[p].id, items[q].id) {
      assert Precedes(ks, part[p], part[q]);
    }
  }

  lemma {:induction false} DeltaCompares(b: Index, n: Index)
    requires Valid(b) && Valid(n)
    ensures Compares(b, n, DeltaOf(b, n))
  {
    var gone, changed, new' := Outside(b.keys, n.vals.Keys), ChangedKeys(b, n, n.keys), Outside(n.keys, b.vals.Keys);
    DeltaIds(b, n);
    EntriesAt(n, new');
    EntriesAt(n, changed);
    IdEntriesAt(gone);
    FilterWithin(n.keys, b.vals.Keys);
    FilterWithin(b.keys, n.vals.Keys);
    ChangedWithin(b, n, n.keys);
    EntriesInOrder(Entries(n, new'), new', n.keys);
    EntriesInOrder(Entries(n, changed), changed, n.keys);
    EntriesInOrder(IdEntries(gone), gone, b.keys);
  }

  /** Any delta whatever: an added card wins over an updated one, that over a removal, and that over the base. */
  lemma {:induction false} AppliedTells(d: Index, delta: Delta, k: string)
    requires delta.Delta?
    ensures var a := Applied(d, delta).vals;
      && (forall v :: LastOf(delta.added, k, v) ==> k in a && a[k] == v)
      && (forall v :: NoneOf(delta.added, k) && LastOf(delta.updated, k, v) ==> k in a && a[k] == v)
      && (NoneOf(delta.added, k) && NoneOf(delta.updated, k) ==>
            && (k in a <==> k in d.vals && NoneOf(delta.removed, k))
            && (k in a ==> a[k] == d.vals[k]))
  {
    var p := PopAll(d, delta.removed);
    PopAllTells(d, delta.removed, k);
    PutAllTells(p, delta.updated, k);
    PutAllTells(PutAll(p, delta.updated), delta.added, k);
  }

  // ----- key lists

  lemma {:induction false} PutAllIsValid(d: Index, items: seq<Item>)
    requires Valid(d)
    ensures Valid(PutAll(d, items))
  {
    if items != [] {
      PutAllIsValid(d, items[..|items| - 1]);
    }
  }

  lemma {:induction false} FilterMembers(ks: seq<string>, s: set<string>)
    ensures forall k :: k in Inside(ks, s) <==> k in ks && k in s
    ensures forall k :: k in Outside(ks, s) <==> k in ks && k !in s
    ensures NoDup(ks) ==> NoDup(Outside(ks, s))
  {
    if ks != [] {
      var n := |ks| - 1;
      FilterMembers(ks[..n], s);
      assert forall k :: k in ks <==> k in ks[..n] || k == ks[n];
      if NoDup(ks) {
        assert ks[n] !in Outside(ks[..n], s);
      }
    }
  }

  lemma {:induction false} ChangedMembers(b: Index, n: Index, ks: seq<string>)
    ensures forall k :: k in ChangedKeys(b, n, ks) <==> k in ks && Changed(b, n, k)
  {
    if ks != [] {
      ChangedMembers(b, n, ks[..|ks| - 1]);
      assert forall k :: k in ks <==> k in ks[..|ks| - 1] || k == ks[|ks| - 1];
    }
  }

  lemma {:induction false} WithoutInside(ks: seq<string>, s: set<string>, k: string)
    ensures Without(Inside(ks, s), k) == Inside(ks, s - {k})
  {
    if ks != [] {
      var init, last := ks[..|ks| - 1], ks[|ks| - 1];
      WithoutInside(init, s, k);
      if last in s {
        assert (Inside(init, s) + [last])[..|Inside(init, s)|] == Inside(init, s);
      }
    }
  }

  lemma {:induction false} InsideAll(ks: seq<string>, s: set<string>)
    requires forall k :: k in ks ==> k in s
    ensures Inside(ks, s) == ks
  {
    if ks != [] {
      InsideAll(ks[..|ks| - 1], s);
      assert ks == ks[..|ks| - 1] + [ks[|ks| - 1]];
    }
  }

  lemma {:induction false} InsideSame(ks: seq<string>, s: set<string>, t: set<string>)
    requires forall k :: k in ks ==> (k in s <==> k in t)
    ensures Inside(ks, s) == Inside(ks, t)
  {
    if ks != [] {
      InsideSame(ks[..|ks| - 1], s, t);
    }
  }

  // ----- applying a delta

  /** `p` is `d` without the keys in `gone`, in the same order. */
  ghost predicate Popped(d: Index, p: Index, gone: set<string>) {
    Valid(p) && p.vals == d.vals - gone && p.keys == Inside(d.keys, d.vals.Keys - gone)
  }

  lemma {:induction false} PopStep(d: Index, p: Index, gone: set<string>, k: string)
    requires Popped(d, p, gone)
    ensures Popped(d, Pop(p, k), gone + {k})
  {
    PopIsValid(p, k);
    assert p.vals - {k} == d.vals - (gone + {k});
    WithoutInside(d.keys, d.vals.Keys - gone, k);
    assert d.vals.Keys - gone - {k} == d.vals.Keys - (gone + {k});
    if k !in p.vals {
      assert d.vals.Keys - gone == d.vals.Keys - (gone + {k});
    }
  }

  lemma {:induction false} PopAllSelects(d: Index, rs: seq<string>)
    requires Valid(d)
    ensures Popped(d, PopAll(d, IdEntries(rs)), Elements(rs))
  {
    if rs == [] {
      InsideAll(d.keys, d.vals.Keys);
      assert d.vals.Keys - Elements(rs) == d.vals.Keys && d.vals - Elements(rs) == d.vals;
    } else {
      var init, r := rs[..|rs| - 1], rs[|rs| - 1];
      PopAllSelects(d, init);
      PopStep(d, PopAll(d, IdEntries(init)), Elements(init), r);
      assert IdEntries(rs)[..|IdEntries(rs)| - 1] == IdEntries(init);
      assert Elements(rs) == Elements(init) + {r};
    }
  }

  /** `p` is `d` after storing n's content for the keys `ks`; new keys go to the end. */
  ghost predicate Stored(d: Index, n: Index, ks: seq<string>, p: Index) {
    Valid(p) && p.keys == d.keys + Outside(ks, d.vals.Keys) && Overlaid(d, n, ks, p)
  }

  ghost predicate Overlaid(d: Index, n: Index, ks: seq<string>, p: Index) {
    && (forall k :: k in p.vals <==> k in d.vals || k in ks)
    && (forall k :: k in ks ==> k in n.vals && k in p.vals && p.vals[k] == n.vals[k])
    && (forall k :: k in d.vals && k !in ks ==> k in p.vals && p.vals[k] == d.vals[k])
  }

  lemma {:induction false} OverlayStep(d: Index, n: Index, init: seq<string>, k: string, p: Index)
    requires Overlaid(d, n, init, p) && k in n.vals
    ensures Overlaid(d, n, init + [k], Put(p, k, n.vals[k]))
  {
    assert forall x :: x in init + [k] <==> x in init || x == k;
  }

  lemma {:induction false} StoreStep(d: Index, n: Index, init: seq<string>, k: string, p: Index)
    requires Stored(d, n, init, p) && k in n.vals && k !in init
    ensures Stored(d, n, init + [k], Put(p, k, n.vals[k]))
  {
    assert Valid(Put(p, k, n.vals[k])) by { PutIsValid(p, k, n.vals[k]); }
    assert Overlaid(d, n, init + [k], Put(p, k, n.vals[k])) by { OverlayStep(d, n, init, k, p); }
    KeysStep(d, init, k, p, n.vals[k]);
  }

  lemma {:induction false} KeysStep(d: Index, init: seq<string>, k: string, p: Index, v: Body)
    requires p.keys == d.keys + Outside(init, d.vals.Keys) && (k in p.vals <==> k in d.vals)
    ensures Put(p, k, v).keys == d.keys + Outside(init + [k], d.vals.Keys)
  {
    assert (init + [k])[..|init|] == init;
  }

  lemma {:induction false} PutAllEntries(d: Index, n: Index, ks: seq<string>)
    requires Valid(d) && NoDup(ks) && forall k :: k in ks ==> k in n.vals
    ensures Stored(d, n, ks, PutAll(d, Entries(n, ks)))
  {
    if ks != [] {
      var m := |ks| - 1;
      var init, k := ks[..m], ks[m];
      PutAllEntries(d, n, init);
      assert k in ks && k !in init && init + [k] == ks;
      StoreStep(d, n, init, k, PutAll(d, Entries(n, init)));
      PutAllSnoc(d, Entries(n, init), Card(k, n.vals[k]));
    }
  }

  lemma {:induction false} PutAllSnoc(d: Index, items: seq<Item>, it: Item)
    requires it.Card?
    ensures PutAll(d, items + [it]) == Put(PutAll(d, items), it.id, it.body)
  {
    assert (items + [it])[..|items|] == items;
  }

  lemma {:induction false} EntriesLength(d: Index, ks: seq<string>)
    ensures |Entries(d, ks)| == |ks|
  {
    if ks != [] {
      EntriesLength(d, ks[..|ks| - 1]);
    }
  }

  /** Same ids, same canonical JSON. */
  ghost predicate Agree(a: Index, b: Index) {
    && (forall k :: k in a.vals <==> k in b.vals)
    && (forall k :: k in a.vals ==> k in b.vals && a.vals[k].canon == b.vals[k].canon)
  }

  lemma {:induction false} ChangedNoDup(b: Index, n: Index, ks: seq<string>)
    requires NoDup(ks)
    ensures NoDup(ChangedKeys(b, n, ks))
  {
    if ks != [] {
      var m := |ks| - 1;
      ChangedNoDup(b, n, ks[..m]);
      ChangedMembers(b, n, ks[..m]);
    }
  }

  lemma {:induction false} OutsideNone(ks: seq<string>, s: set<string>)
    requires forall k :: k in ks ==> k in s
    ensures Outside(ks, s) == []
  {
    if ks != [] {
      OutsideNone(ks[..|ks| - 1], s);
    }
  }

  lemma {:induction false} OutsideAll(ks: seq<string>, s: set<string>)
    requires forall k :: k in ks ==> k !in s
    ensures Outside(ks, s) == ks
  {
    if ks != [] {
      OutsideAll(ks[..|ks| - 1], s);
      assert ks == ks[..|ks| - 1] + [ks[|ks| - 1]];
    }
  }

  /** The ids a delta removes, updates and adds. */
  lemma {:induction false} DeltaIds(b: Index, n: Index)
    requires Valid(b) && Valid(n)
    ensures forall k :: k in Outside(b.keys, n.vals.Keys) <==> k in b.vals && k !in n.vals
    ensures forall k :: k in ChangedKeys(b, n, n.keys) <==> Changed(b, n, k)
    ensures forall k :: k in Outside(n.keys, b.vals.Keys) <==> k in n.vals && k !in b.vals
    ensures NoDup(ChangedKeys(b, n, n.keys)) && NoDup(Outside(n.keys, b.vals.Keys))
  {
    FilterMembers(b.keys, n.vals.Keys);
    FilterMembers(n.keys, b.vals.Keys);
    ChangedMembers(b, n, n.keys);
    ChangedNoDup(b, n, n.keys);
  }

  lemma {:induction false} AfterRemoval(r: Index, b: Index, n: Index)
    requires Valid(r) && Valid(b) && Valid(n) && Agree(r, b)
    ensures var p := PopAll(r, IdEntries(Outside(b.keys, n.vals.Keys)));
      && Valid(p) && p.keys == Inside(r.keys, n.vals.Keys)
      && (forall k :: k in p.vals <==> k in b.vals && k in n.vals)
      && (forall k :: k in p.vals ==> p.vals[k].canon == b.vals[k].canon)
  {
    var gone := Outside(b.keys, n.vals.Keys);
    DeltaIds(b, n);
    PopAllSelects(r, gone);
    InsideSame(r.keys, r.vals.Keys - Elements(gone), n.vals.Keys);
  }

  lemma {:induction false} AfterUpdate(p: Index, b: Index, n: Index)
    requires Valid(p) && Valid(b) && Valid(n)
    requires forall k :: k in p.vals <==> k in b.vals && k in n.vals
    requires forall k :: k in p.vals ==> p.vals[k].canon == b.vals[k].canon
    ensures var q := PutAll(p, Entries(n, ChangedKeys(b, n, n.keys)));
      && Valid(q) && q.keys == p.keys && q.vals.Keys == p.vals.Keys
      && (forall k :: k in q.vals ==> q.vals[k].canon == n.vals[k].canon)
  {
    var changed := ChangedKeys(b, n, n.keys);
    DeltaIds(b, n);
    PutAllEntries(p, n, changed);
    OutsideNone(changed, p.vals.Keys);
  }

  lemma {:induction false} AfterAddition(q: Index, b: Index, n: Index)
    requires Valid(q) && Valid(b) && Valid(n)
    requires forall k :: k in q.vals <==> k in b.vals && k in n.vals
    requires forall k :: k in q.vals ==> q.vals[k].canon == n.vals[k].canon
    ensures var new' := Outside(n.keys, b.vals.Keys);
      var a := PutAll(q, Entries(n, new')); Valid(a) && Agree(a, n) && a.keys == q.keys + new'
  {
    var new' := Outside(n.keys, b.vals.Keys);
    DeltaIds(b, n);
    PutAllEntries(q, n, new');
    OutsideAll(new', q.vals.Keys);
  }

  /** The delta from b to n, applied to any r that agrees with b, agrees with n; surviving cards
      keep r's order and added ones follow in n's order. */
  lemma {:induction false} ApplyAgrees(r: Index, b: Index, n: Index)
    requires Valid(r) && Valid(b) && Valid(n) && Agree(r, b)
    ensures var a := Applied(r, DeltaOf(b, n));
      && Valid(a) && Agree(a, n)
      && a.keys == Inside(r.keys, n.vals.Keys) + Outside(n.keys, b.vals.Keys)
  {
    AfterRemoval(r, b, n);
    var p := PopAll(r, IdEntries(Outside(b.keys, n.vals.Keys)));
    AfterUpdate(p, b, n);
    AfterAddition(PutAll(p, Entries(n, ChangedKeys(b, n, n.keys))), b, n);
  }

  /** Rebuilding the list and indexing it again gives the same dictionary. */
  lemma {:induction false} ReindexIsIdentity(d: Index)
    requires Valid(d)
    ensures IndexOf(Entries(d, d.keys)) == d
  {
    var none: Index := Empty();
    var r := PutAll(none, Entries(d, d.keys));
    PutAllEntries(none, d, d.keys);
    OutsideAll(d.keys, none.vals.Keys);
    SameContent(d, r);
  }

  lemma {:induction false} SameContent(d: Index, r: Index)
    requires Valid(d) && Overlaid(Empty(), d, d.keys, r) && r.keys == d.keys
    ensures r == d
  {
    assert r.vals.Keys == d.vals.Keys;
    assert r.vals == d.vals;
  }

  /** Round trip at the level of card lists. */
  lemma {:induction false} RoundTrip(base: seq<Item>, now: seq<Item>)
    ensures var b, n := IndexOf(base), IndexOf(now);
      var a := Applied(b, DeltaOf(b, n));
      && Agree(IndexOf(Entries(a, a.keys)), n)
      && a.keys == Inside(b.keys, n.vals.Keys) + Outside(n.keys, b.vals.Keys)
  {
    PutAllIsValid(Empty(), base);
    PutAllIsValid(Empty(), now);
    var b, n := IndexOf(base), IndexOf(now);
    ApplyAgrees(b, b, n);
    ReindexIsIdentity(Applied(b, DeltaOf(b, n)));
  }

  /** Replaying the deltas between successive snapshots, from the first one on. */
  function Replay(chain: seq<Index>): Index
    requires chain != []
  {
    if |chain| == 1 then chain[0]
    else Applied(Replay(chain[..|chain| - 1]), DeltaOf(chain[|chain| - 2], chain[|chain| - 1]))
  }

  /** Deltas compose along any chain of snapshots. */
  lemma {:induction false} DeltasCompose(chain: seq<Index>)
    requires chain != [] && forall i :: 0 <= i < |chain| ==> Valid(chain[i])
    ensures Valid(Replay(chain)) && Agree(Replay(chain), chain[|chain| - 1])
  {
    if |chain| > 1 {
      DeltasCompose(chain[..|chain| - 1]);
      ApplyAgrees(Replay(chain[..|chain| - 1]), chain[|chain| - 2], chain[|chain| - 1]);
    }
  }

  /** A delta is applicable exactly when the two indexes disagree. */
  lemma {:induction false} ApplicableIffDifferent(b: Index, n: Index)
    requires Valid(b) && Valid(n)
    ensures !IsDeltaApplicable(DeltaOf(b, n)) <==> Agree(b, n)
  {
    var gone, changed, new' := Outside(b.keys, n.vals.Keys), ChangedKeys(b, n, n.keys), Outside(n.keys, b.vals.Keys);
    DeltaIds(b, n);
    EntriesLength(n, changed);
    EntriesLength(n, new');
    IdEntriesLength(gone);
    if gone == [] && changed == [] && new' == [] {
      forall k | k in b.vals ensures k in n.vals && b.vals[k].canon == n.vals[k].canon {
        assert k !in gone && k !in changed;
      }
      forall k | k in n.vals ensures k in b.vals {
        assert k !in new';
      }
    } else if gone != [] {
      assert gone[0] in gone;
    } else if changed != [] {
      assert changed[0] in changed;
    } else {
      assert new'[0] in new';
    }
  }

  lemma {:induction false} IdEntriesLength(ks: seq<string>)
    ensures |IdEntries(ks)| == |ks|
  {
    if ks != [] {
      IdEntriesLength(ks[..|ks| - 1]);
    }
  }
}
