/** The nodes of src/nfa.h and the arena allocator of src/nfa_alloc.c: free cells form a ring, and a
    full arena is followed by one twice its size of which only the upper half is used. */
module NfaAlloc {
  import opened Bytes
  import opened Regex
  import opened BranchLists

  /** A pointer to a cell: arenas are numbered one after another, from 1. */
  type Addr = nat

  const NULL: Addr := 0

  /** The tagged union of a node: its type with what that type carries. */
  datatype Value =
    | ANY
    | LITERAL(c: Letter)
    | RANGE(cs: set<Byte>)
    | SPLIT
    | EPSILON
    | ACCEPTING
    | TREE(branches: BranchList<Addr>)

  datatype NFA = NFA(parent: Addr, out1: Addr, out2: Addr, id: nat, value: Value,
                     done: bool, visited: bool, accepts: bool, reachable: seq<Addr>) {
    predicate Bare() { !done && !visited && !accepts && reachable == [] }
  }

  /** The pool part of a cell. */
  datatype Link = Link(free: bool, next: Addr, prev: Addr)

  /** What calloc leaves in a cell. Type 0 is none of the types, but it is never read: new_nfa sets
      the type of every cell it hands out. */
  const ZERO := NFA(NULL, NULL, NULL, 0, ACCEPTING, false, false, false, [])

  // ---------------------------------------------------------------- rings

  ghost predicate Distinct(r: seq<Addr>) { forall i, j :: 0 <= i < j < |r| ==> r[i] != r[j] }

  ghost predicate Within(links: seq<Link>, r: seq<Addr>) {
    forall i :: 0 <= i < |r| ==> 0 < r[i] < |links| && links[r[i]].free
  }

  /** Neighbours point at each other, and the first cell back at the last. */
  ghost predicate Chain(links: seq<Link>, r: seq<Addr>)
    requires Within(links, r) && r != []
  {
    && (forall i :: 0 <= i < |r| - 1 ==> links[r[i]].next == r[i + 1] && links[r[i + 1]].prev == r[i])
    && links[r[0]].prev == r[|r| - 1]
  }

  /** A closed ring that starts at the free pointer. */
  ghost predicate Ring(links: seq<Link>, free: Addr, r: seq<Addr>) {
    && Distinct(r) && Within(links, r)
    && if r == [] then free == NULL
       else free == r[0] && Chain(links, r) && links[r[|r| - 1]].next == r[0]
  }

  /** After an expansion the next pointer of the last cell still points past the arena. */
  ghost predicate OpenRing(links: seq<Link>, free: Addr, r: seq<Addr>) {
    && Distinct(r) && Within(links, r) && r != [] && free == r[0] && Chain(links, r)
    && (|r| == 1 ==> links[r[0]].next == r[0])
  }

  /** Cells in use and cells in the ring are different cells, as many as the current arena has. */
  ghost predicate Sized(cells: nat, links: seq<Link>, pool: Addr, poolSize: nat, ring: seq<Addr>, used: set<Addr>) {
    && cells == |links| == pool + poolSize && 0 < pool && 0 < poolSize
    && (forall a :: a in used ==> 0 < a < |links| && !links[a].free)
    && |used| + |ring| == poolSize
  }

  class NFACtrl {
    var nodes: seq<NFA>     // the node part of all cells
    var links: seq<Link>    // the pool part of all cells
    var free: Addr
    var pool: Addr          // the first cell of the current arena
    var poolSize: nat
    var nextSeqId: nat
    ghost var ring: seq<Addr>
    ghost var used: set<Addr>

    ghost predicate Valid()
      reads this
    {
      Sized(|nodes|, links, pool, poolSize, ring, used) && Ring(links, free, ring)
    }

    /** nfa_alloc_init on a new control block. */
    constructor (num: nat)
      requires 0 < num
      ensures Valid() && used == {} && poolSize == num && nextSeqId == 1
      ensures forall a :: 0 <= a < |nodes| ==> nodes[a] == ZERO
    {
      nodes := seq(num + 1, _ => ZERO);
      free, pool, poolSize, nextSeqId := 1, 1, num, 1;
      var ls := NFACtrl.LinkFirst(num);
      links := ls;
      ring, used := seq(num, i => i + 1), {};
    }

    /** The links of the first arena. */
    static method LinkFirst(num: nat) returns (ls: seq<Link>)
      requires 0 < num
      ensures |ls| == num + 1
      ensures forall k :: 1 <= k <= num ==>
                ls[k] == Link(true, if k == num then 1 else k + 1, if k == 1 then num else k - 1)
    {
      ls := seq(num + 1, _ => Link(false, NULL, NULL));
      ls := ls[1 := Link(true, NULL, NULL)];
      if num == 1 {
        ls := ls[1 := Link(true, 1, 1)];
      } else {
        ls := ls[1 := Link(true, 2, num)];
        var prev := 1;
        for i := 2 to num
          invariant |ls| == num + 1 && prev == i - 1
          invariant ls[1] == Link(true, 2, num)
          invariant forall k :: 2 <= k < i ==> ls[k] == Link(true, k + 1, k - 1)
        {
          ls := ls[i := Link(true, i + 1, prev)];
          prev := i;
        }
        ls := ls[num := Link(true, 1, prev)];
      }
    }

    /** nfa_alloc_expand: links the upper half of a new arena. */
    method Expand()
      requires Valid() && free == NULL
      modifies this`nodes, this`links, this`free, this`pool, this`poolSize, this`ring
      ensures Sized(|nodes|, links, pool, poolSize, ring, used) && OpenRing(links, free, ring)
      ensures poolSize == 2 * old(poolSize)
      ensures old(nodes) <= nodes && forall a :: |old(nodes)| <= a < |nodes| ==> nodes[a] == ZERO
      ensures forall i :: 0 <= i < |ring| ==> ring[i] !in used
    {
      hide OpenRing;
      hide UpperLinked;
      var size := poolSize;
      var base := |links|;
      var upper := LinkUpper(base, size);
      assert forall a :: a in used ==> (links + upper)[a] == links[a];
      UpperRing(links, upper, size);
      nodes := nodes + seq(2 * size, _ => ZERO);
      links, free, pool, poolSize := links + upper, base + size, base, 2 * size;
      ring := Consecutive(base + size, size);
    }

    /** The links of the new arena, which starts at base; the last cell's next is left past its end. */
    method LinkUpper(base: Addr, size: nat) returns (ls: seq<Link>)
      requires size > 0
      ensures |ls| == 2 * size
      ensures UpperLinked(base, ls, size)
    {
      ls := seq(2 * size, _ => Link(false, NULL, NULL));
      if size == 1 {
        ls := ls[size := Link(true, base + size, base + size)];
      } else {
        ls := ls[size := Link(true, base + size + 1, base + 2 * size - 1)];
        var prev := base + size;
        for i := size + 1 to 2 * size
          invariant |ls| == 2 * size && prev == base + i - 1
          invariant ls[size] == Link(true, base + size + 1, base + 2 * size - 1)
          invariant forall k :: size < k < i ==> ls[k] == Link(true, base + k + 1, base + k - 1)
        {
          ls := ls[i := Link(true, base + i + 1, prev)];
          prev := base + i;
        }
      }
    }

    /** nfa_alloc: hands out a cell that was not in use. */
    method Alloc() returns (a: Addr)
      requires Valid()
      modifies this`nodes, this`links, this`free, this`pool, this`poolSize, this`ring, this`used
      ensures Valid() && a !in old(used) && used == old(used) + {a} && a != NULL
      ensures old(nodes) <= nodes && forall a :: |old(nodes)| <= a < |nodes| ==> nodes[a] == ZERO
    {
      if free == NULL {
        Expand();
      }
      a := TakeFirst();
    }

    /** Takes the first cell out of the ring, which closes it if it was open. */
    method TakeFirst() returns (a: Addr)
      requires Sized(|nodes|, links, pool, poolSize, ring, used) && OpenRing(links, free, ring)
      requires forall i :: 0 <= i < |ring| ==> ring[i] !in used
      modifies this`links, this`free, this`ring, this`used
      ensures Valid() && a !in old(used) && used == old(used) + {a} && a != NULL
    {
      ghost var r, before := ring, links;
      a := free;
      links := links[free := links[free].(free := false)];
      if links[free].prev == free {
        free := NULL;
        assert |r| == 1;
      } else {
        var next, prev := links[free].next, links[free].prev;
        assert |r| > 1 && before[r[0]].next == r[1];
        links := links[next := links[next].(prev := prev)];
        links := links[prev := links[prev].(next := next)];
        free := next;
        Unlinked(before, links, r);
      }
      ring, used := r[1..], used + {a};
    }

    /** nfa_dealloc: the cell goes behind the first free one. */
    method Dealloc(a: Addr)
      requires Valid() && a in used
      modifies this`links, this`free, this`ring, this`used
      ensures Valid() && used == old(used) - {a}
    {
      ghost var before, r := links, ring;
      links := links[a := links[a].(free := true)];
      if free == NULL {
        free := a;
        links := links[a := Link(true, a, a)];
        ring := [a];
      } else {
        InsertSecond(a);
      }
      used := used - {a};
    }

    method InsertSecond(a: Addr)
      requires |links| > a > 0 && links[a].free && free != NULL && a !in ring && Ring(links, free, ring)
      modifies this`links, this`ring
      ensures Ring(links, free, ring) && |ring| == |old(ring)| + 1 && |links| == |old(links)|
      ensures forall b :: 0 <= b < |links| ==> links[b].free == old(links[b].free)
    {
      ghost var before, r := links, ring;
      assert r[0] == free && (|r| > 1 ==> before[r[0]].next == r[1]);
      links := links[a := links[a].(prev := free, next := links[free].next)];
      var next := links[free].next;
      links := links[next := links[next].(prev := a)];
      links := links[free := links[free].(next := a)];
      Inserted(before, links, r, a);
      ring := [r[0], a] + r[1..];
    }
  }

  /** The addresses first, first + 1, ... */
  ghost function Consecutive(first: Addr, n: nat): (r: seq<Addr>)
    ensures |r| == n && forall i :: 0 <= i < n ==> r[i] == first + i
  {
    seq(n, i => first + i)
  }

  ghost predicate UpperLinked(base: Addr, ls: seq<Link>, size: nat) {
    && 0 < size && |ls| == 2 * size
    && ls[size] == (if size == 1 then Link(true, base + size, base + size)
                    else Link(true, base + size + 1, base + 2 * size - 1))
    && forall k :: size < k < 2 * size ==> ls[k] == Link(true, base + k + 1, base + k - 1)
  }

  lemma UpperRing(links: seq<Link>, upper: seq<Link>, size: nat)
    requires UpperLinked(|links|, upper, size)
    ensures OpenRing(links + upper, |links| + size, Consecutive(|links| + size, size))
  {
    var base, all, r := |links|, links + upper, Consecutive(|links| + size, size);
    forall i | 0 <= i < size ensures all[r[i]] == upper[size + i] {
      assert r[i] == base + (size + i);
    }
    assert Within(all, r) && Distinct(r);
    forall i | 0 <= i < size - 1 ensures all[r[i]].next == r[i + 1] && all[r[i + 1]].prev == r[i] {
      assert all[r[i]] == upper[size + i] && all[r[i + 1]] == upper[size + i + 1];
    }
    assert all[r[0]].prev == r[size - 1];
  }

  /** Taking the first cell out closes the ring, whether or not it was open. */
  lemma Unlinked(before: seq<Link>, links: seq<Link>, r: seq<Addr>)
    requires Distinct(r) && Within(before, r) && |r| > 1 && Chain(before, r) && |links| == |before|
    requires var next, prev := r[1], r[|r| - 1];
             forall a :: 0 <= a < |links| && a != r[0] ==>
               && links[a].free == before[a].free
               && links[a].next == (if a == prev then next else before[a].next)
               && links[a].prev == (if a == next then prev else before[a].prev)
    ensures Ring(links, r[1], r[1..])
  {
    var q := r[1..];
    forall i | 0 <= i < |q| ensures q[i] == r[i + 1] && 0 < q[i] < |links| && q[i] != r[0] && links[q[i]].free {
      assert before[r[i + 1]].free;
    }
    forall i | 0 <= i < |q| - 1 ensures links[q[i]].next == q[i + 1] && links[q[i + 1]].prev == q[i] {
      assert before[r[i + 1]].next == r[i + 2] && before[r[i + 2]].prev == r[i + 1];
    }
  }

  /** The cell a has gone in behind the first one. */
  ghost predicate LinkedSecond(before: seq<Link>, links: seq<Link>, r: seq<Addr>, a: Addr) {
    && r != [] && Ring(before, r[0], r) && 0 < a < |before| && before[a].free && a !in r && |links| == |before|
    && var free, next := r[0], before[r[0]].next;
       && links[a] == Link(true, next, free)
       && forall b :: 0 <= b < |links| && b != a ==>
            && links[b].free == before[b].free
            && links[b].next == (if b == free then a else before[b].next)
            && links[b].prev == (if b == next then a else before[b].prev)
  }

  lemma Inserted(before: seq<Link>, links: seq<Link>, r: seq<Addr>, a: Addr)
    requires LinkedSecond(before, links, r, a)
    ensures Ring(links, r[0], [r[0], a] + r[1..])
  {
    var q := [r[0], a] + r[1..];
    var n := |r|;
    assert Within(links, q) && Distinct(q) by { InsertedWithin(before, links, r, a); }
    InsertedChain(before, links, r, a);
    assert forall i :: 2 <= i < n + 1 ==> q[i] == r[i - 1];
    hide LinkedSecond;
    assert Chain(links, q);
  }

  lemma InsertedWithin(before: seq<Link>, links: seq<Link>, r: seq<Addr>, a: Addr)
    requires LinkedSecond(before, links, r, a)
    ensures Within(links, [r[0], a] + r[1..]) && Distinct([r[0], a] + r[1..])
  {
    var q := [r[0], a] + r[1..];
    assert forall i :: 0 <= i < |r| ==> r[i] != a && 0 < r[i] < |links| && links[r[i]].free;
    assert forall i :: 2 <= i < |r| + 1 ==> q[i] == r[i - 1];
  }

  lemma InsertedChain(before: seq<Link>, links: seq<Link>, r: seq<Addr>, a: Addr)
    requires LinkedSecond(before, links, r, a)
    ensures Within(links, r) && links[r[0]].next == a && links[a].prev == r[0]
    ensures |r| > 1 ==> links[a].next == r[1] && links[r[1]].prev == a
    ensures forall i :: 2 <= i < |r| ==> links[r[i - 1]].next == r[i] && links[r[i]].prev == r[i - 1]
    ensures var last := if |r| == 1 then a else r[|r| - 1]; links[last].next == r[0] && links[r[0]].prev == last
  {
    assert forall i :: 0 <= i < |r| ==> r[i] != a && 0 < r[i] < |links| && links[r[i]].free;
    assert |r| > 1 ==> before[r[0]].next == r[1];
    forall i | 2 <= i < |r| ensures links[r[i - 1]].next == r[i] && links[r[i]].prev == r[i - 1] {
      assert before[r[i - 1]].next == r[i] && before[r[i]].prev == r[i - 1];
      assert r[i - 1] != r[0] && r[i] != r[1];
    }
  }
}
