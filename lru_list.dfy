// The global LRU list: an intrusive doubly-linked list of cached pages, the
// most recently used page at the head.  Pages live in an arena addressed by
// handle (the C code's `vm_page_t *`); each record carries the page's key and
// its `prev`/`next` links, and the list keeps `head`, `tail` and `size`.  The
// ghost `order` is the list read from head to tail; every method is proved
// against the policy functions of LruPolicy on that sequence.

module LruList {
  import opened Types
  import opened LruPolicy

  /** `vm_page_t`: the page's key and its intrusive links. */
  datatype Page = Page(key: PageKey, prev: Option<Handle>, next: Option<Handle>)

  /** The record at position `i` of `order` points back to the record
      before it and forward to the record after it, and to nothing past
      either end. */
  ghost predicate LinkedAround(pages: map<Handle, Page>, order: seq<Handle>, i: int)
  {
    && 0 <= i < |order|
    && order[i] in pages
    && pages[order[i]].prev == (if i == 0 then None else Some(order[i - 1]))
    && pages[order[i]].next == (if i == |order| - 1 then None else Some(order[i + 1]))
  }

  /** Positions `i` and `j` of `order` hold different records. */
  ghost predicate Apart(order: seq<Handle>, i: int, j: int)
  {
    0 <= i < |order| && 0 <= j < |order| && order[i] != order[j]
  }

  /** The records of `order` are linked in that order from `head` to `tail`. */
  ghost predicate Linked(pages: map<Handle, Page>, order: seq<Handle>, head: Option<Handle>, tail: Option<Handle>)
  {
    && (forall i, j | 0 <= i < j < |order| :: Apart(order, i, j))
    && (forall i | 0 <= i < |order| :: order[i] in pages)
    && head == (if order == [] then None else Some(order[0]))
    && tail == (if order == [] then None else Some(order[|order| - 1]))
    && (forall i | 0 <= i < |order| :: LinkedAround(pages, order, i))
  }

  /** The links of the record at position `i`. */
  lemma LinkedAt(pages: map<Handle, Page>, order: seq<Handle>, head: Option<Handle>, tail: Option<Handle>, i: nat)
    requires Linked(pages, order, head, tail) && i < |order|
    ensures order[i] in pages
    ensures pages[order[i]].prev == if i == 0 then None else Some(order[i - 1])
    ensures pages[order[i]].next == if i == |order| - 1 then None else Some(order[i + 1])
  {
    assert LinkedAround(pages, order, i);
  }

  /** A linked list holds no record twice. */
  lemma LinkedDistinct(pages: map<Handle, Page>, order: seq<Handle>, head: Option<Handle>, tail: Option<Handle>)
    requires Linked(pages, order, head, tail)
    ensures Distinct(order)
  {
    forall i, j | 0 <= i < j < |order|
      ensures order[i] != order[j]
    {
      assert Apart(order, i, j);
    }
  }

  /** Every listed record has a key, so the key view is as long as the list. */
  lemma LinkedKeys(pages: map<Handle, Page>, order: seq<Handle>, head: Option<Handle>, tail: Option<Handle>)
    requires Linked(pages, order, head, tail)
    ensures forall h | h in order :: h in KeyMap(pages)
    ensures |KeysOf(KeyMap(pages), order)| == |order|
  {
  }

  /** Linking `h` in front of a non-empty list: `h` points forward to the
      old first record, which points back to `h`. */
  lemma PushLinks(pages: map<Handle, Page>, s: seq<Handle>, head: Option<Handle>, tail: Option<Handle>, h: Handle)
    requires Linked(pages, s, head, tail) && h in pages && h !in s && s != []
    ensures var p1 := pages[h := pages[h].(prev := None, next := Some(s[0]))];
            var p2 := p1[s[0] := p1[s[0]].(prev := Some(h))];
            Linked(p2, [h] + s, Some(h), tail)
  {
    LinkedDistinct(pages, s, head, tail);
    var p1 := pages[h := pages[h].(prev := None, next := Some(s[0]))];
    var p2 := p1[s[0] := p1[s[0]].(prev := Some(h))];
    var n := [h] + s;
    forall i | 0 <= i < |n|
      ensures LinkedAround(p2, n, i)
    {
      if i == 0 {
        assert n[1] == s[0];
      } else {
        LinkedAt(pages, s, head, tail, i - 1);
        assert n[i] == s[i - 1] && s[i - 1] != h;
        if i + 1 < |n| {
          assert n[i + 1] == s[i];
        }
        if i > 1 {
          assert s[i - 1] != s[0];
        }
      }
    }
    forall a, b | 0 <= a < b < |n|
      ensures Apart(n, a, b)
    {
      assert n[b] == s[b - 1];
      if a > 0 {
        assert n[a] == s[a - 1];
      }
    }
    assert Linked(p2, n, Some(h), tail);
  }

  /** Unlinking the record at position `k > 0`: its predecessor's `next`
      becomes its `next`, and its successor's `prev`, if it has one, becomes
      its `prev`; otherwise the predecessor is the new tail. */
  lemma DetachLinks(pages: map<Handle, Page>, s: seq<Handle>, head: Option<Handle>, tail: Option<Handle>, k: nat)
    requires Linked(pages, s, head, tail) && 0 < k < |s|
    ensures var p := pages[s[k]];
            var p1 := pages[s[k - 1] := pages[s[k - 1]].(next := p.next)];
            var p2 := if k + 1 < |s| then p1[s[k + 1] := p1[s[k + 1]].(prev := p.prev)] else p1;
            var tail' := if k + 1 < |s| then tail else p.prev;
            Linked(p2, s[..k] + s[k + 1..], head, tail')
  {
    LinkedDistinct(pages, s, head, tail);
    LinkedAt(pages, s, head, tail, k);
    var p := pages[s[k]];
    var p1 := pages[s[k - 1] := pages[s[k - 1]].(next := p.next)];
    var p2 := if k + 1 < |s| then p1[s[k + 1] := p1[s[k + 1]].(prev := p.prev)] else p1;
    var n := s[..k] + s[k + 1..];
    forall i | 0 <= i < |n|
      ensures LinkedAround(p2, n, i)
    {
      if i < k {
        assert n[i] == s[i];
        LinkedAt(pages, s, head, tail, i);
        if i > 0 {
          assert n[i - 1] == s[i - 1];
        }
        if i + 1 < k {
          assert n[i + 1] == s[i + 1];
        } else if k + 1 < |s| {
          assert n[i + 1] == s[k + 1];
        }
        if k + 1 < |s| {
          assert s[i] != s[k + 1];
        }
      } else {
        assert n[i] == s[i + 1];
        LinkedAt(pages, s, head, tail, i + 1);
        if i > k {
          assert n[i - 1] == s[i];
        } else {
          assert n[i - 1] == s[k - 1];
        }
        if i + 1 < |n| {
          assert n[i + 1] == s[i + 2];
        }
        assert s[i + 1] != s[k - 1];
        if i > k {
          assert s[i + 1] != s[k + 1];
        }
      }
    }
    forall a, b | 0 <= a < b < |n|
      ensures Apart(n, a, b)
    {
      if a < k {
        assert n[a] == s[a];
      } else {
        assert n[a] == s[a + 1];
      }
      if b < k {
        assert n[b] == s[b];
      } else {
        assert n[b] == s[b + 1];
      }
    }
    var tail' := if k + 1 < |s| then tail else p.prev;
    assert n[0] == s[0];
    assert n[|n| - 1] == if k + 1 < |s| then s[|s| - 1] else s[k - 1];
    assert forall i | 0 <= i < |n| :: n[i] in p2;
    assert tail' == Some(n[|n| - 1]);
    assert Linked(p2, n, head, tail');
  }

  /** A record that is not on the list can be added or changed freely. */
  lemma LinkedOffList(pages: map<Handle, Page>, s: seq<Handle>, head: Option<Handle>, tail: Option<Handle>, h: Handle, p: Page)
    requires Linked(pages, s, head, tail) && h !in s
    ensures Linked(pages[h := p], s, head, tail)
  {
    var p1 := pages[h := p];
    forall i | 0 <= i < |s|
      ensures LinkedAround(p1, s, i)
    {
      assert s[i] != h && LinkedAround(pages, s, i);
    }
  }

  /** Dropping the last record of a list of two or more: its predecessor
      has no `next` and is the new tail. */
  lemma PopLinks(pages: map<Handle, Page>, s: seq<Handle>, head: Option<Handle>, tail: Option<Handle>)
    requires Linked(pages, s, head, tail) && 2 <= |s|
    requires forall g | g in pages :: g in s
    ensures var before := s[|s| - 2];
            var p1 := pages[before := pages[before].(next := None)] - {s[|s| - 1]};
            && Linked(p1, s[..|s| - 1], head, Some(before))
            && (forall g | g in p1 :: g in s[..|s| - 1])
            && KeyMap(p1) == KeyMap(pages) - {s[|s| - 1]}
            && KeysOf(KeyMap(p1), s[..|s| - 1]) == KeysOf(KeyMap(pages), s)[..|s| - 1]
  {
    LinkedDistinct(pages, s, head, tail);
    var last := s[|s| - 1];
    var before := s[|s| - 2];
    var p1 := pages[before := pages[before].(next := None)] - {last};
    var n := s[..|s| - 1];
    forall i | 0 <= i < |n|
      ensures LinkedAround(p1, n, i)
    {
      LinkedAt(pages, s, head, tail, i);
      assert n[i] == s[i] && s[i] != last;
      if i + 1 < |n| {
        assert n[i + 1] == s[i + 1] && s[i] != before;
      }
    }
    forall a, b | 0 <= a < b < |n|
      ensures Apart(n, a, b)
    {
      assert Apart(s, a, b);
    }
    assert Linked(p1, n, head, Some(before));
    forall g | g in p1
      ensures g in n
    {
      var j :| 0 <= j < |s| && s[j] == g;
      assert n[j] == g;
    }
    assert KeyMap(p1) == KeyMap(pages) - {last};
    KeysOfPop(KeyMap(pages), s);
  }

  /** Each handle's page key, forgetting the links. */
  function KeyMap(pages: map<Handle, Page>): map<Handle, PageKey>
  {
    map h | h in pages :: pages[h].key
  }

  /** The keys of the handles of `order`, in that order (a handle without
      a record has no key to contribute). */
  function KeysOf(km: map<Handle, PageKey>, order: seq<Handle>): (r: seq<PageKey>)
    ensures |r| <= |order|
    ensures (forall h | h in order :: h in km) ==> |r| == |order|
  {
    if order == [] then []
    else if order[0] in km then [km[order[0]]] + KeysOf(km, order[1..])
    else KeysOf(km, order[1..])
  }

  /** No two handles carry the same key. */
  ghost predicate Injective(km: map<Handle, PageKey>)
  {
    forall a, b | a in km && b in km && km[a] == km[b] :: a == b
  }

  lemma {:induction false} KeysOfHas(km: map<Handle, PageKey>, order: seq<Handle>, h: Handle)
    requires (forall g | g in order :: g in km) && h in order
    ensures km[h] in KeysOf(km, order)
  {
    if order[0] != h {
      KeysOfHas(km, order[1..], h);
    }
  }

  lemma {:induction false} KeysOfFrom(km: map<Handle, PageKey>, order: seq<Handle>, k: PageKey) returns (h: Handle)
    requires (forall g | g in order :: g in km) && k in KeysOf(km, order)
    ensures h in order && km[h] == k
  {
    if km[order[0]] == k {
      h := order[0];
    } else {
      h := KeysOfFrom(km, order[1..], k);
    }
  }

  /** The key view of a list does not see records that are off it. */
  lemma {:induction false} KeysOfOffList(km: map<Handle, PageKey>, order: seq<Handle>, h: Handle, k: PageKey)
    requires (forall g | g in order :: g in km) && h !in order
    ensures KeysOf(km[h := k], order) == KeysOf(km, order)
  {
    if order != [] {
      KeysOfOffList(km, order[1..], h, k);
    }
  }

  /** Pushing a new handle pushes its key on the key view. */
  lemma KeysOfPush(km: map<Handle, PageKey>, order: seq<Handle>, h: Handle, k: PageKey)
    requires (forall g | g in order :: g in km) && h !in order
    ensures KeysOf(km[h := k], [h] + order) == [k] + KeysOf(km, order)
  {
    assert ([h] + order)[1..] == order;
    KeysOfOffList(km, order, h, k);
  }

  /** With distinct keys, taking a handle out of the list takes its key out
      of the key view. */
  lemma {:induction false} KeysOfWithout(km: map<Handle, PageKey>, order: seq<Handle>, h: Handle)
    requires (forall g | g in order :: g in km) && h in km && Injective(km)
    ensures KeysOf(km, Without(order, h)) == Without(KeysOf(km, order), km[h])
  {
    if order != [] {
      KeysOfWithout(km, order[1..], h);
      if order[0] != h {
        assert km[order[0]] != km[h];
      }
    }
  }

  /** Moving a handle to the head moves its key to the head of the view. */
  lemma KeysOfTouch(km: map<Handle, PageKey>, order: seq<Handle>, h: Handle)
    requires (forall g | g in order :: g in km) && h in km && Injective(km)
    ensures KeysOf(km, Touch(order, h)) == Touch(KeysOf(km, order), km[h])
  {
    KeysOfWithout(km, order, h);
  }

  /** Dropping the last handle (and its record) drops the last key. */
  lemma {:induction false} KeysOfDropLast(km: map<Handle, PageKey>, order: seq<Handle>, last: Handle)
    requires (forall g | g in order :: g in km) && last in km && Distinct(order + [last])
    ensures forall g | g in order :: g in km - {last}
    ensures KeysOf(km - {last}, order) == KeysOf(km, order + [last])[..|order|]
  {
    forall g | g in order
      ensures g != last
    {
      var j :| 0 <= j < |order| && order[j] == g;
      assert (order + [last])[j] == g && (order + [last])[|order|] == last;
    }
    if order != [] {
      var t := order[1..];
      assert (order + [last])[1..] == t + [last];
      assert Distinct(t + [last]);
      KeysOfDropLast(km, t, last);
      assert order + [last] == [order[0]] + (t + [last]);
    }
  }

  /** The same, for a list given whole. */
  lemma KeysOfPop(km: map<Handle, PageKey>, order: seq<Handle>)
    requires (forall g | g in order :: g in km) && Distinct(order) && order != []
    ensures forall i | 0 <= i < |order| - 1 :: order[i] in km - {order[|order| - 1]}
    ensures KeysOf(km - {order[|order| - 1]}, order[..|order| - 1]) == KeysOf(km, order)[..|order| - 1]
  {
    var last := order[|order| - 1];
    var p := order[..|order| - 1];
    assert p + [last] == order;
    KeysOfDropLast(km, p, last);
  }

  /** Distinct handles with distinct keys give a view without repeats. */
  lemma {:induction false} KeysOfDistinct(km: map<Handle, PageKey>, order: seq<Handle>)
    requires (forall g | g in order :: g in km) && Distinct(order) && Injective(km)
    ensures Distinct(KeysOf(km, order))
  {
    if order != [] {
      assert Distinct(order[1..]);
      KeysOfDistinct(km, order[1..]);
      if km[order[0]] in KeysOf(km, order[1..]) {
        var g := KeysOfFrom(km, order[1..], km[order[0]]);
        assert false;
      }
      var r := KeysOf(km, order);
      forall a, b | 0 <= a < b < |r|
        ensures r[a] != r[b]
      {
        assert r[b] == KeysOf(km, order[1..])[b - 1];
        if a > 0 {
          assert r[a] == KeysOf(km, order[1..])[a - 1];
        }
      }
    }
  }

  class LruList {
    var pages: map<Handle, Page>
    var head: Option<Handle>
    var tail: Option<Handle>
    var size: nat
    /** The next fresh handle (the C code's `malloc` of a `vm_page_t`). */
    var nextHandle: Handle
    ghost var order: seq<Handle>

    /** Every record in the arena is on the list, linked in `order`, and
        `size` counts the list; no record uses a handle not yet issued. */
    ghost predicate Valid()
      reads this
    {
      && Linked(pages, order, head, tail)
      && (forall h | h in pages :: h in order && h < nextHandle)
      && size == |order|
    }

    /** The keys of the listed pages from head to tail. */
    ghost function Keys(): seq<PageKey>
      reads this
    {
      KeysOf(KeyMap(pages), order)
    }

    /** One key per listed page. */
    lemma KeysLength()
      requires Valid()
      ensures |Keys()| == |order|
    {
      LinkedKeys(pages, order, head, tail);
    }

    /** The list part of `vm_list_init`. */
    constructor()
      ensures Valid() && order == [] && pages == map[]
    {
      pages := map[];
      head := None;
      tail := None;
      size := 0;
      nextHandle := 0;
      order := [];
    }

    /** `vm_list_push`: link a record that is not on the list at the head.
        On an empty list it becomes both head and tail; otherwise the old
        head points back to it and the tail does not move. */
    method LinkAtHead(h: Handle)
      requires Linked(pages, order, head, tail) && h in pages && h !in order
      modifies this
      ensures Linked(pages, order, head, tail)
      ensures order == [h] + old(order)
      ensures pages.Keys == old(pages).Keys && KeyMap(pages) == KeyMap(old(pages))
      ensures old(order) != [] ==> tail == old(tail)
      ensures size == old(size) && nextHandle == old(nextHandle)
    {
      if head == None {
        pages := pages[h := pages[h].(prev := None, next := None)];
        head := Some(h);
        tail := head;
      } else {
        var first := head.value;
        PushLinks(pages, order, head, tail, h);
        pages := pages[h := pages[h].(prev := None, next := head)];
        pages := pages[first := pages[first].(prev := Some(h))];
        head := Some(h);
      }
      order := [h] + order;
      assert KeyMap(pages) == KeyMap(old(pages));
    }

    /** The unlinking half of `vm_list_move_to_head`: the page's neighbours
        are joined, and `tail` moves back when the page was the tail. */
    method Detach(h: Handle)
      requires Linked(pages, order, head, tail) && h in order && order[0] != h
      modifies this
      ensures Linked(pages, order, head, tail)
      ensures order == Without(old(order), h)
      ensures pages.Keys == old(pages).Keys && KeyMap(pages) == KeyMap(old(pages))
      ensures size == old(size) && nextHandle == old(nextHandle)
    {
      ghost var k :| 0 <= k < |order| && order[k] == h;
      LinkedDistinct(pages, order, head, tail);
      LinkedAt(pages, order, head, tail, k);
      DetachLinks(pages, order, head, tail, k);
      WithoutAt(order, k);
      var p := pages[h];
      if p.prev.Some? {
        var q := p.prev.value;
        pages := pages[q := pages[q].(next := p.next)];
      }
      if p.next.Some? {
        var q := p.next.value;
        pages := pages[q := pages[q].(prev := p.prev)];
      } else {
        tail := p.prev;
      }
      order := order[..k] + order[k + 1..];
      assert KeyMap(pages) == KeyMap(old(pages));
    }

    /** `vm_list_move_to_head`: nothing happens for no page or for the head;
        otherwise the page is detached and linked again at the head. */
    method MoveToHead(target: Option<Handle>)
      requires Valid() && (target.Some? ==> target.value in pages)
      modifies this
      ensures Valid()
      ensures order == if target.None? then old(order) else Touch(old(order), target.value)
      ensures pages.Keys == old(pages).Keys && KeyMap(pages) == KeyMap(old(pages))
      ensures size == old(size)
    {
      LinkedDistinct(pages, order, head, tail);
      if head == target || target.None? {
        if target.Some? {
          TouchHead(order);
        }
        return;
      }
      var h := target.value;
      ghost var s := order;
      TouchDistinct(s, h);
      Detach(h);
      assert h in pages && h !in order;
      LinkAtHead(h);
      forall g | g in pages
        ensures g in order
      {
        assert g in s;
        if g != h {
          assert g in Without(s, h);
        }
      }
    }

    /** A new page (`vm_page_create`) under a fresh handle, pushed at the
        head and counted in `size`. */
    method Push(key: PageKey) returns (h: Handle)
      requires Valid()
      modifies this
      ensures Valid() && h !in old(pages)
      ensures order == [h] + old(order)
      ensures KeyMap(pages) == KeyMap(old(pages))[h := key]
      ensures Keys() == [key] + old(Keys())
    {
      LinkedKeys(pages, order, head, tail);
      h := nextHandle;
      nextHandle := nextHandle + 1;
      assert h !in order;
      LinkedOffList(pages, order, head, tail, h, Page(key, None, None));
      pages := pages[h := Page(key, None, None)];
      LinkAtHead(h);
      size := size + 1;
      assert KeyMap(pages) == old(KeyMap(pages))[h := key];
      KeysOfPush(old(KeyMap(pages)), old(order), h, key);
    }

    /** `vm_list_pop`: when the tail has a predecessor, that predecessor
        becomes the tail with no `next`, and the old tail's record is retired
        (it is freed with its tree node); its key is returned so that the
        caller can delete it from its file's tree.  A list of fewer than two
        pages is left alone. */
    method PopTail() returns (evicted: Option<PageKey>)
      requires Valid()
      modifies this
      ensures Valid() && pages.Keys <= old(pages).Keys
      ensures |old(order)| < 2 ==> evicted == None && order == old(order) && pages == old(pages)
      ensures |old(order)| >= 2 ==>
        var last := old(order)[|old(order)| - 1];
        && evicted == Some(old(pages)[last].key)
        && order == old(order)[..|old(order)| - 1]
        && KeyMap(pages) == KeyMap(old(pages)) - {last}
      ensures Keys() == if |old(order)| >= 2 then old(Keys())[..|old(order)| - 1] else old(Keys())
    {
      ghost var s := order;
      if s != [] {
        LinkedAt(pages, s, head, tail, |s| - 1);
      }
      if tail.Some? && pages[tail.value].prev.Some? {
        var last := tail.value;
        var before := pages[last].prev.value;
        LinkedAt(pages, s, head, tail, |s| - 2);
        PopLinks(pages, s, head, tail);
        evicted := Some(pages[last].key);
        tail := Some(before);
        pages := pages[before := pages[before].(next := None)] - {last};
        order := s[..|s| - 1];
        size := size - 1;
      } else {
        evicted := None;
      }
    }
  }

  // The drafts' other list operations, kept as written so that what goes
  // wrong with each can be stated.

  /** A snapshot of the list's pointers: the records with their links, and
      the list's `head` and `tail`. */
  datatype Links = Links(pages: map<Handle, Page>, head: Option<Handle>, tail: Option<Handle>)

  /** `move_to_head` in the top-level header: the page's neighbours are
      joined and the page is linked in front of the head, but `tail` is never
      touched, even when the page moved was the tail. */
  function MoveToHeadAsWritten(l: Links, h: Handle): Links
    requires h in l.pages
  {
    if l.head == Some(h) then l
    else
      var p := l.pages[h];
      var p1 := if p.prev.Some? && p.prev.value in l.pages
                then l.pages[p.prev.value := l.pages[p.prev.value].(next := p.next)] else l.pages;
      var p2 := if p.next.Some? && p.next.value in p1
                then p1[p.next.value := p1[p.next.value].(prev := p.prev)] else p1;
      var p3 := p2[h := p2[h].(prev := None, next := l.head)];
      var p4 := if l.head.Some? && l.head.value in p3
                then p3[l.head.value := p3[l.head.value].(prev := Some(h))] else p3;
      Links(p4, Some(h), l.tail)
  }

  /** The list 0, 1 with page 1 moved to the head: `tail` still names page
      1, now the head, whose `next` is page 0, so no order of the records is
      linked from that `head` to that `tail`. */
  lemma MoveTailAsWrittenBreaksList(k0: PageKey, k1: PageKey)
    ensures var l := Links(map[0 := Page(k0, None, Some(1)), 1 := Page(k1, Some(0), None)], Some(0), Some(1));
            && Linked(l.pages, [0, 1], l.head, l.tail)
            && var r := MoveToHeadAsWritten(l, 1);
               && r.head == r.tail == Some(1)
               && forall order :: !Linked(r.pages, order, r.head, r.tail)
  {
    var l := Links(map[0 := Page(k0, None, Some(1)), 1 := Page(k1, Some(0), None)], Some(0), Some(1));
    assert LinkedAround(l.pages, [0, 1], 0) && LinkedAround(l.pages, [0, 1], 1);
    var r := MoveToHeadAsWritten(l, 1);
    assert r.pages[1].next == Some(0);
    forall order
      ensures !Linked(r.pages, order, r.head, r.tail)
    {
      if |order| == 1 && order[0] == 1 {
        assert !LinkedAround(r.pages, order, 0);
      } else if |order| >= 2 && order[0] == 1 && order[|order| - 1] == 1 {
        assert !Apart(order, 0, |order| - 1);
      }
    }
  }

  /** `vm_list_push` as written: links the page at the head but never counts
      it in `size`, and on an empty list leaves whatever links the fresh
      record had. */
  function PushAsWritten(l: Links, size: nat, h: Handle): (Links, nat)
    requires h in l.pages
  {
    if l.head == None then (Links(l.pages, Some(h), Some(h)), size)
    else
      var p1 := l.pages[h := l.pages[h].(prev := None, next := l.head)];
      var p2 := if l.head.value in p1 then p1[l.head.value := p1[l.head.value].(prev := Some(h))] else p1;
      (Links(p2, Some(h), l.tail), size)
  }

  /** `PushAsWritten` applied to each handle of `hs` in turn. */
  function PushAllAsWritten(l: Links, size: nat, hs: seq<Handle>): (Links, nat)
    requires forall h | h in hs :: h in l.pages
    decreases |hs|
  {
    if hs == [] then (l, size)
    else
      var (l', size') := PushAsWritten(l, size, hs[0]);
      PushAllAsWritten(Links(l'.pages, l'.head, l'.tail), size', hs[1..])
  }

  /** The order `hs` leaves when its handles are pushed in turn in front of
      `s`: the last one pushed comes first. */
  function Stacked(hs: seq<Handle>, s: seq<Handle>): (r: seq<Handle>)
    ensures |r| == |hs| + |s|
    decreases |hs|
  {
    if hs == [] then s else Stacked(hs[1..], [hs[0]] + s)
  }

  /** Pushing fresh records (no links, not yet listed) one at a time keeps
      the list linked, with each new page in front, while `size` keeps the
      value it started with. */
  lemma {:induction false} PushAllAsWrittenLinks(l: Links, size: nat, s: seq<Handle>, hs: seq<Handle>)
    requires Linked(l.pages, s, l.head, l.tail)
    requires Distinct(hs)
    requires forall h | h in hs :: h in l.pages && h !in s && l.pages[h].prev == None && l.pages[h].next == None
    ensures var r := PushAllAsWritten(l, size, hs);
            Linked(r.0.pages, Stacked(hs, s), r.0.head, r.0.tail) && r.1 == size
    decreases |hs|
  {
    if hs != [] {
      var h := hs[0];
      var (l', size') := PushAsWritten(l, size, h);
      if s == [] {
        assert LinkedAround(l'.pages, [h], 0);
      } else {
        PushLinks(l.pages, s, l.head, l.tail, h);
      }
      assert Linked(l'.pages, [h] + s, l'.head, l'.tail);
      forall g | g in hs[1..]
        ensures g in l'.pages && g !in [h] + s && l'.pages[g].prev == None && l'.pages[g].next == None
      {
        assert g != h by {
          var j :| 0 <= j < |hs[1..]| && hs[1..][j] == g;
          assert hs[j + 1] == g;
        }
      }
      assert Distinct(hs[1..]) by {
        forall i, j | 0 <= i < j < |hs[1..]|
          ensures hs[1..][i] != hs[1..][j]
        {
          assert hs[1..][i] == hs[i + 1] && hs[1..][j] == hs[j + 1];
        }
      }
      PushAllAsWrittenLinks(Links(l'.pages, l'.head, l'.tail), size', [h] + s, hs[1..]);
    }
  }

  /** Pushing `n` fresh pages onto an empty list links all `n` of them while
      `size` stays 0, so the capacity check that should trigger eviction
      never fires. */
  lemma PushAsWrittenNeverCounts(pages: map<Handle, Page>, hs: seq<Handle>)
    requires Distinct(hs)
    requires forall h | h in hs :: h in pages && pages[h].prev == None && pages[h].next == None
    ensures var r := PushAllAsWritten(Links(pages, None, None), 0, hs);
            && Linked(r.0.pages, Stacked(hs, []), r.0.head, r.0.tail)
            && |Stacked(hs, [])| == |hs|
            && r.1 == 0
  {
    PushAllAsWrittenLinks(Links(pages, None, None), 0, [], hs);
  }

  /** `vm_list_pop` as written: when the tail has a predecessor, that
      predecessor becomes the tail with no `next` and the old tail's record is
      retired, but `size` is never decremented. */
  function PopAsWritten(l: Links, size: nat): (Links, nat)
  {
    if l.tail.Some? && l.tail.value in l.pages && l.pages[l.tail.value].prev.Some?
       && l.pages[l.tail.value].prev.value in l.pages
    then
      var last := l.tail.value;
      var before := l.pages[last].prev.value;
      (Links(l.pages[before := l.pages[before].(next := None)] - {last}, l.head, Some(before)), size)
    else (l, size)
  }

  /** Popping a list of two or more pages whose `size` is right unlinks the
      tail but leaves `size` one above the number of linked pages. */
  lemma PopAsWrittenMiscounts(l: Links, s: seq<Handle>)
    requires Linked(l.pages, s, l.head, l.tail) && 2 <= |s|
    requires forall g | g in l.pages :: g in s
    ensures var r := PopAsWritten(l, |s|);
            && Linked(r.0.pages, s[..|s| - 1], r.0.head, r.0.tail)
            && r.1 == |s[..|s| - 1]| + 1
  {
    LinkedAt(l.pages, s, l.head, l.tail, |s| - 1);
    PopLinks(l.pages, s, l.head, l.tail);
  }
}
