/** A red-black tree used as a table from keys to values, as src/boyer_moore.c and src/mpat.c do. */
module KeyTable {
  import Spec = RedBlackSpec
  import opened RedBlackTree

  /** The tree is a table: one node for each key of m, carrying its value. */
  ghost predicate Holds(t: RBTree, m: map<int, int>)
    reads t, Spec.Ids(t.tree)
  {
    && Spec.Keys(t.tree) == m.Keys
    && (forall r :: r in Spec.Ids(t.tree) ==> r.key in m && r.data == m[r.key])
    && (forall r, q :: r in Spec.Ids(t.tree) && q in Spec.Ids(t.tree) && r.key == q.key ==> r == q)
  }

  method NewTable() returns (t: RBTree)
    ensures fresh(t) && fresh(t.Repr()) && t.Valid() && Holds(t, map[])
  {
    t := new RBTree();
  }

  /** Overwrites the entry of a key, or makes one. */
  method Put(t: RBTree, key: int, s: int, ghost m: map<int, int>)
    requires t.Valid() && Holds(t, m)
    modifies t, t.Repr()
    ensures t.Valid() && Holds(t, m[key := s])
    ensures fresh(t.Repr() - old(t.Repr()))
  {
    assert allocated(Spec.Ids(t.tree)) && allocated(t.Pool());
    assert t.LiveValid();
    hide RBTree.Valid;
    hide RBTree.LiveValid;
    hide Holds;
    var record, _ := t.Search(key);
    assert t.Valid() && Holds(t, m);
    ghost var repr := t.Repr();
    assert repr == old(t.Repr());
    if record == null {
      AddKey(t, key, s, m);
      assert t.Repr() - repr == t.Repr() - old(t.Repr());
    } else {
      Overwrite(t, record, key, s, m);
      assert t.Repr() == repr;
    }
  }

  method Overwrite(t: RBTree, record: RBNode, key: int, s: int, ghost m: map<int, int>)
    requires t.Valid() && Holds(t, m) && record in Spec.Ids(t.tree) && record.key == key
    modifies record`data
    ensures t.Valid() && Holds(t, m[key := s])
  {
    LinkedKeys(t.tree, null);
    assert allocated(Spec.Ids(t.tree));
    t.SetData(record, s);
  }

  method AddKey(t: RBTree, key: int, s: int, ghost m: map<int, int>)
    requires t.Valid() && Holds(t, m) && key !in m
    modifies t, t.Repr()
    ensures t.Valid() && Holds(t, m[key := s])
    ensures fresh(t.Repr() - old(t.Repr()))
  {
    ghost var before := t.tree;
    var n := t.Insert(key, s, false);
    Spec.InsertKeys(before, key, n);
    assert SameData(Spec.Ids(before));
  }
}
