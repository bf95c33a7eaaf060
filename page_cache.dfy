// The global `VM_LIST`: the LRU list of cached pages together with the
// inode directory whose per-file radix trees index the same pages.  The
// coupling invariant says the two structures describe the same set of
// resident pages: every page on the list is found in its file's tree under
// its own key, and every page a tree holds is on the list with that key.
// The cache's behaviour is proved against the policy of LruPolicy on the
// sequence of resident keys, most recently used first.

module PageCache {
  import opened Types
  import opened RadixTree
  import opened Hashing
  import opened Directory
  import opened LruPolicy
  import opened LruList

  /** The list's records and the directory's trees hold the same pages: a
      record's key leads through its file's tree back to its handle, and a
      handle a tree holds is a record with the key it is stored under. */
  ghost predicate Resident(km: map<Handle, PageKey>, files: map<U64, Node>)
  {
    && (forall h | h in km :: Get(TreeOf(files, km[h].inode), km[h].pageIndex, 0) == Some(h))
    && (forall inode: U64, index: U64 | Get(TreeOf(files, inode), index, 0).Some? ::
          && Get(TreeOf(files, inode), index, 0).value in km
          && km[Get(TreeOf(files, inode), index, 0).value] == PageKey(inode, index))
  }

  /** Two records never carry the same key, since a tree holds one page
      per index. */
  lemma ResidentInjective(km: map<Handle, PageKey>, files: map<U64, Node>)
    requires Resident(km, files)
    ensures Injective(km)
  {
    forall a, b | a in km && b in km && km[a] == km[b]
      ensures a == b
    {
      assert Get(TreeOf(files, km[a].inode), km[a].pageIndex, 0) == Some(a);
    }
  }

  class PageCache {
    const list: LruList
    const dir: Hashmap

    ghost predicate Valid()
      reads list, dir, dir.buckets
    {
      && list.Valid()
      && dir.Valid()
      && list.size <= LRU_LIST_MAX_CAPACITY
      && Resident(KeyMap(list.pages), dir.files)
    }

    /** The resident pages' keys from most to least recently used. */
    ghost function Lru(): seq<PageKey>
      reads list
    {
      list.Keys()
    }

    /** `vm_list_init`: an empty list and 256 empty buckets keyed by
        `HashInode`. */
    constructor()
      ensures Valid() && fresh(list) && fresh(dir) && fresh(dir.buckets)
      ensures Lru() == [] && dir.files == map[]
    {
      list := new LruList();
      dir := new Hashmap(HashInode);
    }

    /** A key is resident exactly when its file's tree holds it. */
    lemma ResidentIff(key: PageKey)
      requires Valid()
      ensures key in Lru() <==> Get(TreeOf(dir.files, key.inode), key.pageIndex, 0).Some?
    {
      var km := KeyMap(list.pages);
      if key in Lru() {
        var h := KeysOfFrom(km, list.order, key);
        assert km[h] == key;
      }
      if Get(TreeOf(dir.files, key.inode), key.pageIndex, 0).Some? {
        var h := Get(TreeOf(dir.files, key.inode), key.pageIndex, 0).value;
        KeysOfHas(km, list.order, h);
      }
    }

    /** A file has a directory entry exactly when one of its pages is
        resident: entries come and go with their files' last pages. */
    lemma EntryIffResident(inode: U64)
      requires Valid()
      ensures inode in dir.files <==> exists i :: 0 <= i < |Lru()| && Lru()[i].inode == inode
    {
      var km := KeyMap(list.pages);
      if inode in dir.files {
        var t := dir.files[inode];
        EmptyIffNoKeys(t, 0);
        var index :| index in Keys(t);
        GetFindsKeys(t, 0, index);
        ResidentIff(PageKey(inode, index));
        var i :| 0 <= i < |Lru()| && Lru()[i] == PageKey(inode, index);
      }
      if exists i :: 0 <= i < |Lru()| && Lru()[i].inode == inode {
        var i :| 0 <= i < |Lru()| && Lru()[i].inode == inode;
        ResidentIff(Lru()[i]);
      }
    }

    /** The list never exceeds its capacity and never holds a key twice. */
    lemma Bounded()
      requires Valid()
      ensures |Lru()| <= LRU_LIST_MAX_CAPACITY && Distinct(Lru())
    {
      ResidentInjective(KeyMap(list.pages), dir.files);
      LinkedDistinct(list.pages, list.order, list.head, list.tail);
      KeysOfDistinct(KeyMap(list.pages), list.order);
    }

    /** `is_in_memory`: find the file's entry, look the page up in its tree,
        and on a hit move the page to the head of the list. */
    method IsInMemory(inode: U64, pageIndex: U64) returns (hit: bool)
      requires Valid()
      modifies list
      ensures Valid() && dir.files == old(dir.files)
      ensures hit == (PageKey(inode, pageIndex) in old(Lru()))
      ensures Lru() == if hit then Touch(old(Lru()), PageKey(inode, pageIndex)) else old(Lru())
    {
      var key := PageKey(inode, pageIndex);
      ResidentIff(key);
      var found := dir.Lookup(inode, pageIndex);
      if found.None? {
        return false;
      }
      ghost var km := KeyMap(list.pages);
      ResidentInjective(km, dir.files);
      KeysOfTouch(km, list.order, found.value);
      list.MoveToHead(found);
      hit := true;
    }

    /** `vm_list_pop` with the `radix_node_delete` it calls: the least
        recently used page leaves the list and its file's tree (and the
        file's entry when that was its last page).  A list of fewer than
        two pages is left alone. */
    method Evict()
      requires Valid()
      modifies list, dir, dir.buckets
      ensures Valid()
      ensures Lru() == if old(list.size) >= 2 then old(Lru())[..old(list.size) - 1] else old(Lru())
      ensures dir.buckets == old(dir.buckets)
    {
      ghost var km := KeyMap(list.pages);
      ghost var last := if list.order == [] then 0 else list.order[|list.order| - 1];
      var evicted := list.PopTail();
      if evicted.Some? {
        Forget(evicted.value, km, last, KeyMap(list.pages));
      }
    }

    /** The directory half of an eviction: `radix_node_delete` on the
        evicted page's key, which keeps the directory in step with the list
        once the page's record `last` is gone from it. */
    method Forget(key: PageKey, ghost km: map<Handle, PageKey>, ghost last: Handle, ghost km': map<Handle, PageKey>)
      requires dir.Valid() && Resident(km, dir.files) && last in km && km[last] == key
      requires km' == km - {last}
      modifies dir, dir.buckets
      ensures dir.Valid() && dir.buckets == old(dir.buckets)
      ensures Resident(km', dir.files)
    {
      ghost var files := dir.files;
      var _ := dir.DeletePage(key.inode, key.pageIndex);
      EvictKeepsResident(km, files, dir.files, last);
    }

    /** The miss path: evict first when the list is full, then cache the
        page at the head. */
    method Insert(inode: U64, pageIndex: U64)
      requires Valid() && PageKey(inode, pageIndex) !in Lru()
      modifies list, dir, dir.buckets
      ensures Valid()
      ensures Lru() == Access(old(Lru()), PageKey(inode, pageIndex), LRU_LIST_MAX_CAPACITY)
      ensures dir.buckets == old(dir.buckets)
    {
      ghost var s := Lru();
      Bounded();
      list.KeysLength();
      AccessMiss(s, PageKey(inode, pageIndex), LRU_LIST_MAX_CAPACITY);
      if list.size == LRU_LIST_MAX_CAPACITY {
        Evict();
      }
      ResidentIff(PageKey(inode, pageIndex));
      Admit(inode, pageIndex);
    }

    /** Create the page under a fresh handle, push it at the head of a list
        that has room, and insert it into its file's tree (creating the
        file's entry if needed). */
    method Admit(inode: U64, pageIndex: U64)
      requires Valid() && list.size < LRU_LIST_MAX_CAPACITY
      requires Get(TreeOf(dir.files, inode), pageIndex, 0).None?
      modifies list, dir, dir.buckets
      ensures Valid()
      ensures Lru() == [PageKey(inode, pageIndex)] + old(Lru())
      ensures dir.buckets == old(dir.buckets)
    {
      var key := PageKey(inode, pageIndex);
      ghost var km := KeyMap(list.pages);
      var h := list.Push(key);
      Record(key, h, km, KeyMap(list.pages));
    }

    /** The directory half of an admission: `radix_insert` of the new
        page's handle under its key, which keeps the directory in step with
        the list once the record `h` has joined it. */
    method Record(key: PageKey, h: Handle, ghost km: map<Handle, PageKey>, ghost km': map<Handle, PageKey>)
      requires dir.Valid() && Resident(km, dir.files) && h !in km
      requires Get(TreeOf(dir.files, key.inode), key.pageIndex, 0).None?
      requires km' == km[h := key]
      modifies dir, dir.buckets
      ensures dir.Valid() && dir.buckets == old(dir.buckets)
      ensures Resident(km', dir.files)
    {
      ghost var files := dir.files;
      dir.InsertPage(key.inode, key.pageIndex, h);
      InsertKeepsResident(km, files, dir.files, h, key);
    }

    /** One access in the workflow: a hit moves the page to the head; a miss
        evicts the least recently used page when the list is full and caches
        the page at the head. */
    method AccessPage(inode: U64, pageIndex: U64) returns (hit: bool)
      requires Valid()
      modifies list, dir, dir.buckets
      ensures Valid()
      ensures hit == (PageKey(inode, pageIndex) in old(Lru()))
      ensures Lru() == Access(old(Lru()), PageKey(inode, pageIndex), LRU_LIST_MAX_CAPACITY)
      ensures dir.buckets == old(dir.buckets)
    {
      hit := IsInMemory(inode, pageIndex);
      if !hit {
        Insert(inode, pageIndex);
      }
    }
  }

  /** Removing the evicted page from both sides keeps them in step. */
  lemma EvictKeepsResident(km: map<Handle, PageKey>, files: map<U64, Node>, files': map<U64, Node>, last: Handle)
    requires Resident(km, files) && last in km && FilesValid(files)
    requires files' ==
      var key := km[last];
      if key.inode !in files then files
      else if Remove(files[key.inode], 0, key.pageIndex) == Empty then files - {key.inode}
      else files[key.inode := Remove(files[key.inode], 0, key.pageIndex)]
    ensures Resident(km - {last}, files')
  {
    var key := km[last];
    TreesAfterDelete(files, files', key.inode, key.pageIndex);
    ResidentInjective(km, files);
    var t := TreeOf(files, key.inode);
    var km' := km - {last};
    forall g | g in km'
      ensures Get(TreeOf(files', km'[g].inode), km'[g].pageIndex, 0) == Some(g)
    {
      var k := km[g];
      assert km'[g] == k && k != key;
      assert Get(TreeOf(files, k.inode), k.pageIndex, 0) == Some(g);
      if k.inode == key.inode {
        assert Get(TreeOf(files', k.inode), k.pageIndex, 0) == Get(t, k.pageIndex, 0);
      } else {
        assert TreeOf(files', k.inode) == TreeOf(files, k.inode);
      }
    }
    forall inode: U64, index: U64 | Get(TreeOf(files', inode), index, 0).Some?
      ensures Get(TreeOf(files', inode), index, 0).value in km'
      ensures km'[Get(TreeOf(files', inode), index, 0).value] == PageKey(inode, index)
    {
      if inode == key.inode {
        assert index != key.pageIndex;
        assert Get(TreeOf(files', inode), index, 0) == Get(t, index, 0);
      } else {
        assert TreeOf(files', inode) == TreeOf(files, inode);
      }
      var g := Get(TreeOf(files, inode), index, 0).value;
      assert g in km && km[g] == PageKey(inode, index);
      assert g != last;
    }
  }

  /** Adding the new page to both sides keeps them in step. */
  lemma InsertKeepsResident(km: map<Handle, PageKey>, files: map<U64, Node>, files': map<U64, Node>, h: Handle, key: PageKey)
    requires Resident(km, files) && h !in km && FilesValid(files)
    requires Get(TreeOf(files, key.inode), key.pageIndex, 0).None?
    requires files' == files[key.inode := ManageLevel(TreeOf(files, key.inode), 0, key.pageIndex, h)]
    ensures Resident(km[h := key], files')
  {
    InsertKeepsRecords(km, files, files', h, key);
    InsertKeepsTrees(km, files, files', h, key);
  }

  /** After the insertion every record, old or new, is found under its key. */
  lemma InsertKeepsRecords(km: map<Handle, PageKey>, files: map<U64, Node>, files': map<U64, Node>, h: Handle, key: PageKey)
    requires Resident(km, files) && h !in km && FilesValid(files)
    requires Get(TreeOf(files, key.inode), key.pageIndex, 0).None?
    requires files' == files[key.inode := ManageLevel(TreeOf(files, key.inode), 0, key.pageIndex, h)]
    ensures forall g | g in km[h := key] ::
      Get(TreeOf(files', km[h := key][g].inode), km[h := key][g].pageIndex, 0) == Some(g)
  {
    var t := TreeOf(files, key.inode);
    var t' := ManageLevel(t, 0, key.pageIndex, h);
    var km' := km[h := key];
    forall g | g in km'
      ensures Get(TreeOf(files', km'[g].inode), km'[g].pageIndex, 0) == Some(g)
    {
      if g != h {
        var k := km[g];
        assert km'[g] == k;
        assert Get(TreeOf(files, k.inode), k.pageIndex, 0) == Some(g);
        if k.inode == key.inode {
          assert k.pageIndex != key.pageIndex;
          assert Get(t', k.pageIndex, 0) == Get(t, k.pageIndex, 0);
        }
      }
    }
  }

  /** After the insertion every handle a tree holds is a record with the key
      it is stored under. */
  lemma InsertKeepsTrees(km: map<Handle, PageKey>, files: map<U64, Node>, files': map<U64, Node>, h: Handle, key: PageKey)
    requires Resident(km, files) && h !in km && FilesValid(files)
    requires Get(TreeOf(files, key.inode), key.pageIndex, 0).None?
    requires files' == files[key.inode := ManageLevel(TreeOf(files, key.inode), 0, key.pageIndex, h)]
    ensures forall inode: U64, index: U64 | Get(TreeOf(files', inode), index, 0).Some? ::
      && Get(TreeOf(files', inode), index, 0).value in km[h := key]
      && km[h := key][Get(TreeOf(files', inode), index, 0).value] == PageKey(inode, index)
  {
    var t := TreeOf(files, key.inode);
    var t' := ManageLevel(t, 0, key.pageIndex, h);
    var km' := km[h := key];
    forall inode: U64, index: U64 | Get(TreeOf(files', inode), index, 0).Some?
      ensures Get(TreeOf(files', inode), index, 0).value in km'
      ensures km'[Get(TreeOf(files', inode), index, 0).value] == PageKey(inode, index)
    {
      if inode == key.inode {
        assert TreeOf(files', inode) == t';
        if index != key.pageIndex {
          assert Get(t', index, 0) == Get(t, index, 0);
          assert Get(t, index, 0).value in km;
          assert Get(t, index, 0).value != h;
        }
      } else {
        assert TreeOf(files', inode) == TreeOf(files, inode);
        assert Get(TreeOf(files, inode), index, 0).value != h;
      }
    }
  }
}
