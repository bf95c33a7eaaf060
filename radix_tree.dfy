/** The per-file radix tree (`radix_tree_t` of `radix_node_t`): maps a page
    index to the handle of the cached page. A node is empty (a NULL slot), a
    leaf holding one page, or a branch over `RADIX_SIZE` child slots; being a
    datatype, a branch can never also hold a page. */
module RadixTree {
  import opened Types
  import opened RadixKey

  /** A leaf keeps the page index of the page it holds, which is what the C
      code reads through `node->page->page_index`. */
  datatype Node = Empty | Leaf(index: U64, page: Handle) | Branch(slots: seq<Node>)

  function EmptySlots(): (s: seq<Node>)
    ensures |s| == RADIX_SIZE && forall i | 0 <= i < |s| :: s[i] == Empty
  {
    seq(RADIX_SIZE, _ => Empty)
  }

  /** The page indices stored in the subtree. */
  ghost function Keys(node: Node): set<U64>
  {
    match node
    case Empty => {}
    case Leaf(k, _) => {k}
    case Branch(slots) => set i, k | 0 <= i < |slots| && k in Keys(slots[i]) :: k
  }

  predicate AllEmpty(slots: seq<Node>)
  {
    forall i | 0 <= i < |slots| :: slots[i] == Empty
  }

  /** The shape a node at depth `level` must have: a branch has exactly
      `RADIX_SIZE` slots, sits above the last level, is not empty, and slot
      `i` holds only indices whose nibble at this level is `i`. */
  ghost predicate WellFormed(node: Node, level: nat)
    decreases node
  {
    && level <= RADIX_LEVELS
    && match node
       case Empty => true
       case Leaf(_, _) => true
       case Branch(slots) =>
         && level < RADIX_LEVELS
         && |slots| == RADIX_SIZE
         && !AllEmpty(slots)
         && forall i | 0 <= i < |slots| ::
              && WellFormed(slots[i], level + 1)
              && forall k | k in Keys(slots[i]) :: Nibble(k, level) == i
  }

  /** Descent from `node` at depth `level` for `index`: one nibble a level
      until a leaf or an empty slot, then an exact check of the leaf's key. */
  function Get(node: Node, index: U64, level: nat): Option<Handle>
    decreases node
  {
    match node
    case Empty => None
    case Leaf(k, p) => if k == index then Some(p) else None
    case Branch(slots) =>
      if level < RADIX_LEVELS && |slots| == RADIX_SIZE
      then Get(slots[Nibble(index, level)], index, level + 1)
      else None
  }

  /** In a branch, an index can only be stored under the slot its nibble names. */
  lemma BranchKeys(slots: seq<Node>, level: nat, k: U64)
    requires WellFormed(Branch(slots), level)
    ensures k in Keys(Branch(slots)) <==> k in Keys(slots[Nibble(k, level)])
  {
    if k in Keys(Branch(slots)) {
      var i :| 0 <= i < |slots| && k in Keys(slots[i]);
    }
  }

  /** Lookup finds exactly the stored indices. */
  lemma {:induction false} GetFindsKeys(node: Node, level: nat, k: U64)
    requires WellFormed(node, level)
    ensures Get(node, k, level).Some? <==> k in Keys(node)
    decreases node
  {
    if node.Branch? {
      BranchKeys(node.slots, level, k);
      GetFindsKeys(node.slots[Nibble(k, level)], level + 1, k);
    }
  }

  /** A well-formed node is `Empty` exactly when it stores nothing. */
  lemma {:induction false} EmptyIffNoKeys(node: Node, level: nat)
    requires WellFormed(node, level)
    ensures node == Empty <==> Keys(node) == {}
    decreases node
  {
    if node.Branch? {
      var i :| 0 <= i < |node.slots| && node.slots[i] != Empty;
      EmptyIffNoKeys(node.slots[i], level + 1);
      var k :| k in Keys(node.slots[i]);
      assert k in Keys(node);
    }
  }

  /** The slots of a branch at depth `level` are well formed (whether or not
      any is occupied). */
  ghost predicate SlotsWellFormed(slots: seq<Node>, level: nat)
  {
    && level < RADIX_LEVELS
    && |slots| == RADIX_SIZE
    && forall i | 0 <= i < |slots| ::
         && WellFormed(slots[i], level + 1)
         && forall k | k in Keys(slots[i]) :: Nibble(k, level) == i
  }

  /** The indices stored under every slot but `n`. */
  ghost function KeysExcept(slots: seq<Node>, n: nat): set<U64>
  {
    set i, k | 0 <= i < |slots| && i != n && k in Keys(slots[i]) :: k
  }

  lemma KeysOfUpdate(slots: seq<Node>, n: nat, x: Node)
    requires n < |slots|
    ensures Keys(Branch(slots)) == KeysExcept(slots, n) + Keys(slots[n])
    ensures Keys(Branch(slots[n := x])) == KeysExcept(slots, n) + Keys(x)
  {
    var s' := slots[n := x];
    forall k | k in Keys(Branch(s'))
      ensures k in KeysExcept(slots, n) + Keys(x)
    {
      var i :| 0 <= i < |s'| && k in Keys(s'[i]);
      if i != n {
        assert k in KeysExcept(slots, n);
      }
    }
    forall k | k in KeysExcept(slots, n) + Keys(x)
      ensures k in Keys(Branch(s'))
    {
      if k in Keys(x) {
        assert k in Keys(s'[n]);
      } else {
        var i :| 0 <= i < |slots| && i != n && k in Keys(slots[i]);
        assert k in Keys(s'[i]);
      }
    }
    forall k | k in Keys(Branch(slots))
      ensures k in KeysExcept(slots, n) + Keys(slots[n])
    {
      var i :| 0 <= i < |slots| && k in Keys(slots[i]);
    }
  }

  lemma NoKeysInEmptySlots(n: nat)
    requires n < RADIX_SIZE
    ensures KeysExcept(EmptySlots(), n) == {}
  {
  }

  /** Two different indices that reach the same node at depth `level` part
      ways below it, so a split at that depth is possible. */
  lemma AgreeBelowDepth(a: U64, b: U64, level: nat)
    requires a != b && level <= RADIX_LEVELS && Agree(a, b, level)
    ensures level < RADIX_LEVELS
  {
    DistinctKeysDiverge(a, b);
    var j :| 0 <= j < RADIX_LEVELS && Nibble(a, j) != Nibble(b, j);
  }

  /** Replacing one slot by a well-formed subtree whose indices all have that
      slot's nibble keeps the slots well formed. */
  lemma SlotsUpdate(slots: seq<Node>, level: nat, n: nat, x: Node)
    requires SlotsWellFormed(slots, level) && n < RADIX_SIZE
    requires WellFormed(x, level + 1)
    requires forall k | k in Keys(x) :: Nibble(k, level) == n
    ensures SlotsWellFormed(slots[n := x], level)
  {
  }

  /** Indices that share the slot of `index` at depth `level` still agree
      with it one level down. */
  lemma AgreeDescends(slots: seq<Node>, level: nat, index: U64)
    requires SlotsWellFormed(slots, level)
    requires forall k | k in Keys(slots[Nibble(index, level)]) :: Agree(k, index, level)
    ensures forall k | k in Keys(slots[Nibble(index, level)]) :: Agree(k, index, level + 1)
  {
  }

  /** Lookup in `r` at depth `level` is lookup in `node` except that `index`
      now gives `v`. */
  ghost predicate StoresWith(r: Node, node: Node, level: nat, index: U64, v: Option<Handle>)
  {
    forall q :: Get(r, q, level) == if q == index then v else Get(node, q, level)
  }

  /** Lookup in a branch after the slot of `index` is replaced. */
  lemma GetAfterUpdate(slots: seq<Node>, level: nat, index: U64, v: Option<Handle>, x: Node)
    requires SlotsWellFormed(slots, level)
    requires StoresWith(x, slots[Nibble(index, level)], level + 1, index, v)
    ensures StoresWith(Branch(slots[Nibble(index, level) := x]), Branch(slots), level, index, v)
  {
    var n := Nibble(index, level);
    var s' := slots[n := x];
    forall q
      ensures Get(Branch(s'), q, level) == if q == index then v else Get(Branch(slots), q, level)
    {
      var m := Nibble(q, level);
      if m != n {
        assert s'[m] == slots[m];
      }
    }
  }

  /** `radix_descend`: send `index` one level down from a node whose slots
      are `slots`; an empty slot receives a new leaf, an occupied one is
      handled by `ManageLevel` one level deeper. */
  function Descend(slots: seq<Node>, level: nat, index: U64, page: Handle): (r: seq<Node>)
    requires SlotsWellFormed(slots, level)
    requires forall k | k in Keys(slots[Nibble(index, level)]) :: Agree(k, index, level)
    ensures SlotsWellFormed(r, level)
    ensures r == slots[Nibble(index, level) := r[Nibble(index, level)]]
    ensures Keys(r[Nibble(index, level)]) == Keys(slots[Nibble(index, level)]) + {index}
    ensures StoresWith(Branch(r), Branch(slots), level, index, Some(page))
    decreases RADIX_LEVELS - level, 0
  {
    var n := Nibble(index, level);
    AgreeDescends(slots, level, index);
    var x := if slots[n] == Empty then Leaf(index, page) else ManageLevel(slots[n], level + 1, index, page);
    assert StoresWith(x, slots[n], level + 1, index, Some(page));
    SlotsUpdate(slots, level, n, x);
    GetAfterUpdate(slots, level, index, Some(page), x);
    slots[n := x]
  }

  /** `radix_manage_level`: insert `index` into the subtree `node` at depth
      `level`. A leaf holding another index is split: its page and the new
      index both descend, and the node becomes a branch without a page. A
      leaf holding the same index has its page replaced. */
  function ManageLevel(node: Node, level: nat, index: U64, page: Handle): (r: Node)
    requires WellFormed(node, level)
    requires forall k | k in Keys(node) :: Agree(k, index, level)
    ensures WellFormed(r, level)
    ensures Keys(r) == Keys(node) + {index}
    ensures forall q :: Get(r, q, level) == if q == index then Some(page) else Get(node, q, level)
    decreases RADIX_LEVELS - level, 2
  {
    match node
    case Empty => Leaf(index, page)
    case Leaf(k, p) =>
      if k == index then Leaf(index, page) else SplitLeaf(k, p, level, index, page)
    case Branch(slots) =>
      var r := Descend(slots, level, index, page);
      KeysOfUpdate(slots, Nibble(index, level), r[Nibble(index, level)]);
      Branch(r)
  }

  /** The split of a leaf holding `k` when `index` arrives: both pages
      descend into the slots of a new branch that holds no page itself. */
  function SplitLeaf(k: U64, p: Handle, level: nat, index: U64, page: Handle): (r: Node)
    requires k != index && level <= RADIX_LEVELS && Agree(k, index, level)
    ensures WellFormed(r, level) && r.Branch?
    ensures Keys(r) == {k, index}
    ensures forall q :: Get(r, q, level) == if q == index then Some(page) else Get(Leaf(k, p), q, level)
    decreases RADIX_LEVELS - level, 1
  {
    AgreeBelowDepth(k, index, level);
    var lower := Descend(EmptySlots(), level, k, p);
    var r := Descend(lower, level, index, page);
    KeysOfUpdate(EmptySlots(), Nibble(k, level), lower[Nibble(k, level)]);
    NoKeysInEmptySlots(Nibble(k, level));
    KeysOfUpdate(lower, Nibble(index, level), r[Nibble(index, level)]);
    Branch(r)
  }

  /** Inserting into a leaf that holds another index splits it: the result
      is a branch, and both the old and the new index are found. */
  lemma SplitKeepsBoth(k: U64, p: Handle, index: U64, page: Handle, level: nat)
    requires k != index && level <= RADIX_LEVELS && Agree(k, index, level)
    ensures ManageLevel(Leaf(k, p), level, index, page).Branch?
    ensures Get(ManageLevel(Leaf(k, p), level, index, page), k, level) == Some(p)
    ensures Get(ManageLevel(Leaf(k, p), level, index, page), index, level) == Some(page)
  {
  }

  /** `radix_node_free` as intended: remove the leaf of `index` from the
      subtree; a branch whose slots all become empty is removed as well, so
      the tree of a file with no cached page is `Empty`. */
  function Remove(node: Node, level: nat, index: U64): (r: Node)
    requires WellFormed(node, level)
    ensures WellFormed(r, level)
    ensures Keys(r) == Keys(node) - {index}
    ensures forall q :: Get(r, q, level) == if q == index then None else Get(node, q, level)
    decreases node
  {
    match node
    case Empty => Empty
    case Leaf(k, _) => if k == index then Empty else node
    case Branch(slots) =>
      var n := Nibble(index, level);
      var x := Remove(slots[n], level + 1, index);
      assert StoresWith(x, slots[n], level + 1, index, None);
      SlotsUpdate(slots, level, n, x);
      GetAfterUpdate(slots, level, index, None, x);
      KeysOfUpdate(slots, n, x);
      BranchKeys(slots, level, index);
      var s := slots[n := x];
      if AllEmpty(s) then
        assert Keys(Branch(s)) == {};
        assert forall q :: Get(Branch(s), q, level) == None;
        Empty
      else
        Branch(s)
  }

  /** `get_node` (and `get_page`): the iterative descent. While the current
      node holds no page, step into the slot named by the next nibble, and
      give up at an empty slot; at a leaf, succeed only on an exact match. */
  method GetNode(root: Node, index: U64) returns (found: Option<Handle>)
    requires WellFormed(root, 0)
    ensures found == Get(root, index, 0)
  {
    var cur := root;
    var level := 0;
    while cur.Branch?
      invariant WellFormed(cur, level)
      invariant Get(cur, index, level) == Get(root, index, 0)
      decreases RADIX_LEVELS - level
    {
      var slot := Nibble(index, level);
      if cur.slots[slot] == Empty {
        return None;
      }
      cur := cur.slots[slot];
      level := level + 1;
    }
    if cur.Leaf? && cur.index == index {
      return Some(cur.page);
    }
    return None;
  }

  // The draft's placement of a new leaf when the slot of its nibble is empty
  // but the node already has children (vm_subsystem/vm_lru_hash_radix.c).

  /** The draft's scan: the first occupied slot at or after `i`. */
  function FirstOccupied(slots: seq<Node>, i: nat): (j: nat)
    requires i <= |slots|
    ensures i <= j <= |slots|
    ensures j < |slots| ==> slots[j] != Empty
    ensures forall m | i <= m < j :: slots[m] == Empty
    decreases |slots| - i
  {
    if i == |slots| || slots[i] != Empty then i else FirstOccupied(slots, i + 1)
  }

  /** As written: the new leaf goes to the last slot scanned, which is the
      first occupied one, overwriting what was there. */
  function PlaceLeafAsWritten(slots: seq<Node>, index: U64, page: Handle): seq<Node>
  {
    var j := FirstOccupied(slots, 0);
    if j < |slots| then slots[j := Leaf(index, page)] else slots
  }

  /** At the last level, a branch holding index 0 in slot 0 receives index 1:
      the draft puts the new leaf into slot 0 and index 0 is lost, while
      `Descend` keeps both. */
  lemma MisplacedLeafLosesPage()
    ensures var slots := EmptySlots()[0 := Leaf(0, 7)];
            && Get(Branch(PlaceLeafAsWritten(slots, 1, 8)), 0, RADIX_LEVELS - 1) == None
            && Get(Branch(slots), 0, RADIX_LEVELS - 1) == Some(7)
  {
    var slots := EmptySlots()[0 := Leaf(0, 7)];
    assert FirstOccupied(slots, 0) == 0;
  }
}
