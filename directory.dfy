/** The inode hashmap (`hashmap_t`): `HASH_BUCKETS_CAPACITY` buckets, each a
    collision chain of `hashmap_entry_t`, keyed by inode, each entry owning
    the file (`vm_file_t`) and its radix tree. */
module Directory {
  import opened Types
  import opened RadixKey
  import opened RadixTree

  /** `vm_file_t`: an inode and the root of its radix tree. */
  datatype VmFile = VmFile(inode: U64, root: Node)

  /** `hashmap_entry_t`: the inode key and its file; the `next` link is the
      entry's position in its bucket's chain. */
  datatype Entry = Entry(key: U64, file: VmFile)

  /** `hashmap_entry_create`: a chain entry for `inode` whose tree is a
      single leaf holding the new page. */
  function EntryCreate(inode: U64, index: U64, page: Handle): (e: Entry)
    ensures e.key == inode && e.file.inode == inode
    ensures WellFormed(e.file.root, 0) && Keys(e.file.root) == {index}
    ensures Get(e.file.root, index, 0) == Some(page)
  {
    Entry(inode, VmFile(inode, Leaf(index, page)))
  }

  /** The position of the first entry of `chain` keyed by `inode`, or `|chain|`
      when the chain has none. */
  function IndexOf(chain: seq<Entry>, inode: U64): (i: nat)
    ensures i <= |chain|
    ensures i < |chain| ==> chain[i].key == inode
    ensures forall j | 0 <= j < i :: chain[j].key != inode
  {
    if chain == [] then 0
    else if chain[0].key == inode then 0
    else 1 + IndexOf(chain[1..], inode)
  }

  /** The inodes that have an entry in `chain`. */
  ghost function ChainKeys(chain: seq<Entry>): set<U64>
  {
    set i | 0 <= i < |chain| :: chain[i].key
  }

  lemma IndexOfFinds(chain: seq<Entry>, inode: U64)
    ensures IndexOf(chain, inode) < |chain| <==> inode in ChainKeys(chain)
  {
    if inode in ChainKeys(chain) {
      var i :| 0 <= i < |chain| && chain[i].key == inode;
    }
  }

  /** The chain walk of `radix_insert`, `radix_node_delete` and
      `is_in_memory`: follow `next` until an entry keyed by `inode` or the
      end of the chain. */
  method FindInChain(chain: seq<Entry>, inode: U64) returns (i: nat)
    ensures i <= |chain|
    ensures i < |chain| ==> chain[i].key == inode
    ensures forall j | 0 <= j < i :: chain[j].key != inode
    ensures i == IndexOf(chain, inode)
  {
    i := 0;
    while i < |chain| && chain[i].key != inode
      invariant i <= |chain|
      invariant forall j | 0 <= j < i :: chain[j].key != inode
    {
      i := i + 1;
    }
  }

  /** The tree of `inode`, `Empty` when the inode has no entry. */
  function TreeOf(files: map<U64, Node>, inode: U64): Node
  {
    if inode in files then files[inode] else Empty
  }

  /** An entry sits in bucket `b` of a well-formed directory whose abstract
      content is `files`. */
  ghost predicate EntryValid(e: Entry, b: nat, files: map<U64, Node>, hash: U64 -> nat)
  {
    && hash(e.key) == b
    && e.file.inode == e.key
    && e.key in files
    && files[e.key] == e.file.root
  }

  ghost predicate ChainValid(chain: seq<Entry>, b: nat, files: map<U64, Node>, hash: U64 -> nat)
  {
    && (forall i | 0 <= i < |chain| :: EntryValid(chain[i], b, files, hash))
    && (forall i, j | 0 <= i < j < |chain| :: chain[i].key != chain[j].key)
  }

  /** The trees the directory holds are well formed and never empty: an
      inode keeps its entry exactly while it has cached pages. */
  ghost predicate FilesValid(files: map<U64, Node>)
  {
    forall inode | inode in files :: WellFormed(files[inode], 0) && files[inode] != Empty
  }

  lemma ChainKeysAppend(chain: seq<Entry>, e: Entry)
    ensures ChainKeys(chain + [e]) == ChainKeys(chain) + {e.key}
  {
    var c := chain + [e];
    assert c[|chain|].key == e.key;
    forall x | x in ChainKeys(chain) ensures x in ChainKeys(c) {
      var i :| 0 <= i < |chain| && chain[i].key == x;
      assert c[i].key == x;
    }
  }

  lemma ChainKeysUpdate(chain: seq<Entry>, i: nat, e: Entry)
    requires i < |chain| && e.key == chain[i].key
    ensures ChainKeys(chain[i := e]) == ChainKeys(chain)
  {
    var c := chain[i := e];
    forall x | x in ChainKeys(chain) ensures x in ChainKeys(c) {
      var j :| 0 <= j < |chain| && chain[j].key == x;
      assert c[j].key == x;
    }
  }

  /** Unlinking entry `i` (`prev->next = cur->next`, or the bucket head when
      it is first) drops exactly its key and keeps the others in order. */
  function Unlink(chain: seq<Entry>, i: nat): (r: seq<Entry>)
    requires i < |chain|
    ensures |r| == |chain| - 1
    ensures forall j | 0 <= j < i :: r[j] == chain[j]
    ensures forall j | i <= j < |r| :: r[j] == chain[j + 1]
  {
    if i == 0 then chain[1..] else chain[..i] + chain[i + 1..]
  }

  lemma ChainKeysUnlink(chain: seq<Entry>, i: nat)
    requires i < |chain|
    requires forall a, b | 0 <= a < b < |chain| :: chain[a].key != chain[b].key
    ensures ChainKeys(Unlink(chain, i)) == ChainKeys(chain) - {chain[i].key}
  {
    var c := Unlink(chain, i);
    forall x | x in ChainKeys(chain) - {chain[i].key} ensures x in ChainKeys(c) {
      var j :| 0 <= j < |chain| && chain[j].key == x;
      if j < i {
        assert c[j].key == x;
      } else {
        assert c[j - 1].key == x;
      }
    }
    forall x | x in ChainKeys(c) ensures x in ChainKeys(chain) - {chain[i].key} {
      var j :| 0 <= j < |c| && c[j].key == x;
      if j >= i {
        assert chain[j + 1].key == x;
      }
    }
  }

  /** The invariant of the hashmap, on a snapshot of its buckets: every
      entry sits in the bucket its inode hashes to, carries that inode's tree
      from `files`, appears once, and every inode of `files` has an entry. */
  ghost predicate DirValid(bs: seq<seq<Entry>>, files: map<U64, Node>, hash: U64 -> nat)
  {
    && |bs| == HASH_BUCKETS_CAPACITY
    && (forall x :: hash(x) < HASH_BUCKETS_CAPACITY)
    && FilesValid(files)
    && (forall b | 0 <= b < |bs| :: ChainValid(bs[b], b, files, hash))
    && (forall inode | inode in files :: inode in ChainKeys(bs[hash(inode)]))
  }

  /** Replacing one bucket's chain, with a change of `files` confined to the
      inodes of that bucket, keeps the invariant. */
  lemma DirValidUpdate(bs: seq<seq<Entry>>, files: map<U64, Node>, hash: U64 -> nat, b: nat,
                       chain: seq<Entry>, files': map<U64, Node>)
    requires DirValid(bs, files, hash) && b < |bs|
    requires FilesValid(files') && ChainValid(chain, b, files', hash)
    requires forall x | hash(x) != b :: (x in files' <==> x in files)
    requires forall x | x in files && hash(x) != b :: files'[x] == files[x]
    requires forall x | x in files' && hash(x) == b :: x in ChainKeys(chain)
    ensures DirValid(bs[b := chain], files', hash)
  {
    var bs' := bs[b := chain];
    forall c | 0 <= c < |bs'| && c != b
      ensures ChainValid(bs'[c], c, files', hash)
    {
      assert bs'[c] == bs[c];
      forall i | 0 <= i < |bs[c]|
        ensures EntryValid(bs[c][i], c, files', hash)
      {
        assert EntryValid(bs[c][i], c, files, hash);
      }
    }
    forall x | x in files'
      ensures x in ChainKeys(bs'[hash(x)])
    {
      if hash(x) != b {
        assert x in files;
      }
    }
  }

  /** A chain without an entry for `inode` gets one at its end. */
  lemma ChainValidAppend(chain: seq<Entry>, b: nat, files: map<U64, Node>, hash: U64 -> nat, e: Entry, tree: Node)
    requires ChainValid(chain, b, files, hash) && e.key !in ChainKeys(chain)
    requires hash(e.key) == b && e.file == VmFile(e.key, tree)
    ensures ChainValid(chain + [e], b, files[e.key := tree], hash)
  {
    var c := chain + [e];
    forall i | 0 <= i < |chain|
      ensures EntryValid(c[i], b, files[e.key := tree], hash)
    {
      assert c[i] == chain[i];
      assert chain[i].key in ChainKeys(chain);
    }
    forall i, j | 0 <= i < j < |c|
      ensures c[i].key != c[j].key
    {
      if j == |chain| {
        assert chain[i].key in ChainKeys(chain);
      }
    }
  }

  /** The entry of `inode` at position `i` gets a new tree. */
  lemma ChainValidReplace(chain: seq<Entry>, b: nat, files: map<U64, Node>, hash: U64 -> nat, i: nat, tree: Node)
    requires ChainValid(chain, b, files, hash) && i < |chain|
    ensures ChainValid(chain[i := Entry(chain[i].key, VmFile(chain[i].file.inode, tree))], b,
                       files[chain[i].key := tree], hash)
  {
    var k := chain[i].key;
    var c := chain[i := Entry(k, VmFile(chain[i].file.inode, tree))];
    forall j | 0 <= j < |c|
      ensures EntryValid(c[j], b, files[k := tree], hash)
    {
      if j != i {
        assert c[j] == chain[j];
        assert chain[j].key != k;
      }
    }
  }

  /** The entry at position `i` is unlinked and its inode leaves `files`. */
  lemma ChainValidUnlink(chain: seq<Entry>, b: nat, files: map<U64, Node>, hash: U64 -> nat, i: nat)
    requires ChainValid(chain, b, files, hash) && i < |chain|
    ensures ChainValid(Unlink(chain, i), b, files - {chain[i].key}, hash)
  {
    var k := chain[i].key;
    var c := Unlink(chain, i);
    forall j | 0 <= j < |c|
      ensures EntryValid(c[j], b, files - {k}, hash)
    {
      if j < i {
        assert c[j] == chain[j];
      } else {
        assert c[j] == chain[j + 1];
      }
    }
    forall p, q | 0 <= p < q < |c|
      ensures c[p].key != c[q].key
    {
      var p' := if p < i then p else p + 1;
      var q' := if q < i then q else q + 1;
      assert c[p] == chain[p'] && c[q] == chain[q'];
    }
  }

  /** The file trees after `radix_node_delete`, inode by inode: the page is
      removed from its own file's tree (a file whose tree empties has no
      entry, which reads as the empty tree) and no other tree changes. */
  lemma TreesAfterDelete(files: map<U64, Node>, files': map<U64, Node>, inode: U64, index: U64)
    requires FilesValid(files)
    requires files' ==
      if inode !in files then files
      else if Remove(files[inode], 0, index) == Empty then files - {inode}
      else files[inode := Remove(files[inode], 0, index)]
    ensures forall x :: TreeOf(files', x) ==
                        (if x == inode then Remove(TreeOf(files, inode), 0, index) else TreeOf(files, x))
  {
  }

  /** The chain after a page left the tree of its entry at position `i`:
      the entry is spliced out when its tree became empty, and otherwise
      keeps its place with the new tree. */
  function AfterRemove(chain: seq<Entry>, i: nat, emptied: bool, tree: Node): (r: seq<Entry>)
    requires i < |chain|
    ensures |r| == if emptied then |chain| - 1 else |chain|
  {
    if emptied then Unlink(chain, i) else chain[i := Entry(chain[i].key, VmFile(chain[i].key, tree))]
  }

  class Hashmap {
    /** The bucket function (`hash_page`); see `Hashing.HashInode`. */
    const hash: U64 -> nat
    var buckets: array<seq<Entry>>
    /** The directory's content: each cached inode's tree. */
    ghost var files: map<U64, Node>

    ghost predicate Valid()
      reads this, buckets
    {
      DirValid(buckets[..], files, hash)
    }

    /** The hashmap part of `vm_list_init`: every bucket empty. */
    constructor (hash: U64 -> nat)
      requires forall x :: hash(x) < HASH_BUCKETS_CAPACITY
      ensures Valid() && fresh(buckets) && files == map[] && this.hash == hash
    {
      this.hash := hash;
      buckets := new seq<Entry>[HASH_BUCKETS_CAPACITY](_ => []);
      files := map[];
    }

    /** The directory half of `is_in_memory`: hash the inode, walk its
        bucket's chain, and return the file's tree if it has an entry. */
    method FindFile(inode: U64) returns (root: Option<Node>)
      requires Valid()
      ensures root == if inode in files then Some(files[inode]) else None
    {
      var b := hash(inode);
      var chain := buckets[b];
      if chain == [] {
        return None;
      }
      var i := FindInChain(chain, inode);
      IndexOfFinds(chain, inode);
      if i == |chain| {
        return None;
      }
      return Some(chain[i].file.root);
    }

    /** The lookup half of `is_in_memory`: the file's entry, then its tree's
        `get_node`; a missing entry or page reads as absent. */
    method Lookup(inode: U64, index: U64) returns (found: Option<Handle>)
      requires Valid()
      ensures found == Get(TreeOf(files, inode), index, 0)
    {
      var root := FindFile(inode);
      if root.None? {
        return None;
      }
      found := GetNode(root.value, index);
    }
  
    /** `radix_insert`: hash the inode; in an empty bucket, or at the end of
        a chain without an entry for the inode, store a new entry whose tree
        is a leaf for the page; otherwise insert the page into the file's
        tree, splitting leaves as needed. */
    method InsertPage(inode: U64, index: U64, page: Handle)
      requires Valid()
      modifies this, buckets
      ensures Valid() && buckets == old(buckets)
      ensures files == old(files)[inode := ManageLevel(TreeOf(old(files), inode), 0, index, page)]
      ensures buckets[..] ==
        var chain := old(buckets[hash(inode)]);
        old(buckets[..])[hash(inode) :=
          if inode in old(files)
          then chain[IndexOf(chain, inode) := Entry(inode, VmFile(inode, files[inode]))]
          else chain + [EntryCreate(inode, index, page)]]
    {
      var chain := buckets[hash(inode)];
      if chain == [] {
        assert inode !in files;
        AddEntry(inode, index, page);
        return;
      }
      var i := FindInChain(chain, inode);
      IndexOfFinds(chain, inode);
      if i == |chain| {
        AddEntry(inode, index, page);
      } else {
        var e := chain[i];
        assert EntryValid(e, hash(inode), files, hash);
        var root := ManageLevel(e.file.root, 0, index, page);
        EmptyIffNoKeys(root, 0);
        ReplaceTree(inode, i, root);
      }
    }

    /** The first page of a file: a new entry holding a single leaf joins
        the end of the file's chain (`hashmap_entry_create` and the link
        from the last entry, or from the bucket when the chain is empty). */
    method AddEntry(inode: U64, index: U64, page: Handle)
      requires Valid() && inode !in files
      modifies this, buckets
      ensures Valid() && buckets == old(buckets)
      ensures files == old(files)[inode := Leaf(index, page)]
      ensures buckets[..] == old(buckets[..])[hash(inode) := old(buckets[hash(inode)]) + [EntryCreate(inode, index, page)]]
    {
      var b := hash(inode);
      var chain := buckets[b];
      var e := EntryCreate(inode, index, page);
      ghost var files' := files[inode := Leaf(index, page)];
      assert ChainValid(chain + [e], b, files', hash) && ChainKeys(chain + [e]) == ChainKeys(chain) + {inode} by {
        ChainValidAppend(chain, b, files, hash, e, Leaf(index, page));
        ChainKeysAppend(chain, e);
      }
      StoreChain(b, chain + [e], files');
    }

    /** `radix_node_delete`: walk the inode's chain; remove the page from the
        file's tree, and when the tree becomes empty (`radix_node_free`
        returns a negative value) unlink the entry from its chain. */
    method DeletePage(inode: U64, index: U64) returns (emptied: bool)
      requires Valid()
      modifies this, buckets
      ensures Valid() && buckets == old(buckets)
      ensures emptied == (inode in old(files) && Remove(old(files)[inode], 0, index) == Empty)
      ensures files ==
        if inode !in old(files) then old(files)
        else if emptied then old(files) - {inode}
        else old(files)[inode := Remove(old(files)[inode], 0, index)]
      ensures buckets[..] ==
        if inode !in old(files) then old(buckets[..])
        else old(buckets[..])[hash(inode) :=
          AfterRemove(old(buckets[hash(inode)]), IndexOf(old(buckets[hash(inode)]), inode), emptied,
                      Remove(old(files)[inode], 0, index))]
    {
      var chain := buckets[hash(inode)];
      var i := FindInChain(chain, inode);
      if i == |chain| {
        IndexOfFinds(chain, inode);
        return false;
      }
      emptied := RemoveFromEntry(inode, i, index);
    }

    /** `radix_node_delete` once the inode's entry is found at position `i`
        of its chain: the page leaves the entry's tree, and the entry leaves
        the chain when that tree becomes empty. */
    method RemoveFromEntry(inode: U64, i: nat, index: U64) returns (emptied: bool)
      requires Valid() && i < |buckets[hash(inode)]| && buckets[hash(inode)][i].key == inode
      modifies this, buckets
      ensures Valid() && buckets == old(buckets) && inode in old(files)
      ensures emptied == (Remove(old(files)[inode], 0, index) == Empty)
      ensures files ==
        if emptied then old(files) - {inode}
        else old(files)[inode := Remove(old(files)[inode], 0, index)]
      ensures buckets[..] ==
        old(buckets[..])[hash(inode) := AfterRemove(old(buckets[hash(inode)]), i, emptied, Remove(old(files)[inode], 0, index))]
    {
      var e := buckets[hash(inode)][i];
      assert EntryValid(e, hash(inode), files, hash);
      var tree := Remove(e.file.root, 0, index);
      EmptyIffNoKeys(tree, 0);
      if tree == Empty {
        DetachEntry(inode, i);
        emptied := true;
      } else {
        ReplaceTree(inode, i, tree);
        emptied := false;
      }
    }

    /** Unlink the inode's entry, found at position `i` of its chain, once
        its tree has become empty (`radix_node_free` and the chain splice). */
    method DetachEntry(inode: U64, i: nat)
      requires Valid() && i < |buckets[hash(inode)]| && buckets[hash(inode)][i].key == inode
      modifies this, buckets
      ensures Valid() && buckets == old(buckets) && files == old(files) - {inode}
      ensures buckets[..] == old(buckets[..])[hash(inode) := Unlink(old(buckets[hash(inode)]), i)]
    {
      var b := hash(inode);
      var chain := buckets[b];
      ghost var files' := files - {inode};
      assert ChainValid(Unlink(chain, i), b, files', hash) by {
        ChainValidUnlink(chain, b, files, hash, i);
      }
      assert ChainKeys(Unlink(chain, i)) == ChainKeys(chain) - {inode} by {
        ChainKeysUnlink(chain, i);
      }
      StoreChain(b, Unlink(chain, i), files');
    }

    /** Give the inode's entry, found at position `i` of its chain, a new
        non-empty tree (the entry keeps its place in the chain). */
    method ReplaceTree(inode: U64, i: nat, tree: Node)
      requires Valid() && i < |buckets[hash(inode)]| && buckets[hash(inode)][i].key == inode
      requires WellFormed(tree, 0) && tree != Empty
      modifies this, buckets
      ensures Valid() && buckets == old(buckets) && files == old(files)[inode := tree]
      ensures buckets[..] == old(buckets[..])[hash(inode) := old(buckets[hash(inode)])[i := Entry(inode, VmFile(inode, tree))]]
    {
      var b := hash(inode);
      var chain := buckets[b];
      ghost var files' := files[inode := tree];
      var updated := chain[i := Entry(inode, VmFile(inode, tree))];
      assert EntryValid(chain[i], b, files, hash);
      assert ChainValid(updated, b, files', hash) && ChainKeys(updated) == ChainKeys(chain) by {
        ChainValidReplace(chain, b, files, hash, i, tree);
        ChainKeysUpdate(chain, i, Entry(inode, VmFile(inode, tree)));
      }
      StoreChain(b, updated, files');
    }

    /** Store a bucket's new chain (`buckets[hash] = ...`, or `prev->next`
        for a later entry) together with the directory's new content, which
        may differ from the old one only in inodes of that bucket. */
    method StoreChain(b: nat, chain: seq<Entry>, ghost files': map<U64, Node>)
      requires Valid() && b < buckets.Length
      requires FilesValid(files') && ChainValid(chain, b, files', hash)
      requires forall x | hash(x) != b :: (x in files' <==> x in files)
      requires forall x | x in files && hash(x) != b :: files'[x] == files[x]
      requires forall x | x in files' && hash(x) == b :: x in ChainKeys(chain)
      modifies this, buckets
      ensures Valid() && buckets == old(buckets) && files == files'
      ensures buckets[..] == old(buckets[..])[b := chain]
    {
      ghost var bs := buckets[..];
      buckets[b] := chain;
      assert buckets[..] == bs[b := chain];
      DirValidUpdate(bs, files, hash, b, chain, files');
      files := files';
    }
  }

  // The drafts' versions of three directory steps, kept as written so that
  // what goes wrong with each can be stated.

  /** `radix_insert` as written for an inode without an entry: behind a
      non-empty chain the new entry is linked after the last one, but in an
      empty bucket it is only assigned to the local cursor, and the bucket
      stays empty. */
  function AddEntryAsWritten(chain: seq<Entry>, e: Entry): seq<Entry>
  {
    if chain == [] then chain else chain + [e]
  }

  /** The first page of a file whose bucket is empty is never recorded. */
  lemma FirstEntryAsWrittenIsLost(inode: U64, index: U64, page: Handle)
    ensures inode !in ChainKeys(AddEntryAsWritten([], EntryCreate(inode, index, page)))
  {
  }

  /** `hashmap_entry_delete` in the earlier draft: the walk finds the inode's
      entry, but the only assignments move the local cursor, so the chain is
      left as it was. */
  function EntryDeleteAsWritten(chain: seq<Entry>, inode: U64): seq<Entry>
  {
    chain
  }

  /** The inode keeps its entry after its "deletion". */
  lemma EntryDeleteAsWrittenKeepsEntry(chain: seq<Entry>, inode: U64)
    requires inode in ChainKeys(chain)
    ensures inode in ChainKeys(EntryDeleteAsWritten(chain, inode))
    ensures IndexOf(EntryDeleteAsWritten(chain, inode), inode) < |chain|
  {
    IndexOfFinds(chain, inode);
  }

  /** `radix_node_free` as written: -1 ("the tree is now empty") when the
      root is missing or holds no page, which includes every branch, and
      when the root leaf holds the page; for a root leaf holding another
      page it runs off its end without a value, modelled as `None`. */
  function FreeAsWritten(root: Node, index: U64): Option<int>
  {
    match root
    case Empty => Some(-1)
    case Branch(_) => Some(-1)
    case Leaf(k, _) => if k == index then Some(-1) else None
  }

  /** `radix_node_delete` as written: find the inode's entry and unlink it
      whenever `radix_node_free` reports -1; the tree itself is never
      changed below the root. */
  function DeleteAsWritten(chain: seq<Entry>, inode: U64, index: U64): seq<Entry>
  {
    var i := IndexOf(chain, inode);
    if i < |chain| && FreeAsWritten(chain[i].file.root, index) == Some(-1) then Unlink(chain, i) else chain
  }

  /** A file whose tree is a branch, that is one caching two or more pages:
      deleting page `a` unlinks the file's whole entry, although its tree
      without `a` still holds every other page `b`. */
  lemma DeleteAsWrittenDropsFile(inode: U64, t: Node, a: U64, b: U64)
    requires WellFormed(t, 0) && t.Branch? && a != b && b in Keys(t)
    ensures DeleteAsWritten([Entry(inode, VmFile(inode, t))], inode, a) == []
    ensures Get(Remove(t, 0, a), b, 0).Some?
  {
    var chain := [Entry(inode, VmFile(inode, t))];
    assert IndexOf(chain, inode) == 0;
    assert Unlink(chain, 0) == [];
    GetFindsKeys(Remove(t, 0, a), 0, b);
  }
}
