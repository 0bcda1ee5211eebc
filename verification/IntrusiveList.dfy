/** The circular doubly linked list of list.h: a head node and entries linked through nodes embedded in them. */
module IntrusiveList {

  /** A `struct list_node`; `owner` is what `container_of` finds. */
  class ListNode<T> {
    var next: ListNode?<T>
    var prev: ListNode?<T>
    const owner: T

    constructor (owner: T)
      ensures this.owner == owner
    {
      this.owner := owner;
      next, prev := null, null;
    }
  }

  /** `s` without its element at `k`. */
  function Without<A>(s: seq<A>, k: nat): (r: seq<A>)
    requires k < |s|
    ensures |r| == |s| - 1
    ensures forall i | 0 <= i < k :: r[i] == s[i]
    ensures forall i | k <= i < |r| :: r[i] == s[i + 1]
  {
    s[..k] + s[k + 1..]
  }

  /** `s` with `a` put in so that it stands at `k`. */
  function Insert<A>(s: seq<A>, k: nat, a: A): (r: seq<A>)
    requires k <= |s|
    ensures |r| == |s| + 1 && r[k] == a
    ensures forall i | 0 <= i < k :: r[i] == s[i]
    ensures forall i | k <= i < |s| :: r[i + 1] == s[i]
  {
    s[..k] + [a] + s[k..]
  }

  lemma DropSecond<A>(s: seq<A>, all: seq<A>, k: nat)
    requires |s| > 1 && 1 <= k < |all| && s[1..] == all[k..]
    ensures s[1] == all[k] && Without(s, 1)[1..] == all[k + 1..]
    ensures all[1..k] + [s[1]] == all[1..k + 1]
    ensures |s| - 1 == |all| - k && (|s| > 2 ==> s[2] == all[k + 1])
  {
    assert |s| > 2 ==> s[2] == s[1..][1] && all[k + 1] == all[k..][1];
    assert s[1] == s[1..][0] && all[k..][0] == all[k];
    assert Without(s, 1)[1..] == s[1..][1..] && all[k..][1..] == all[k + 1..];
  }

  predicate Distinct<A(==)>(s: seq<A>) {
    forall i, j | 0 <= i < j < |s| :: s[i] != s[j]
  }

  /** A `struct list_head`. */
  class ListHead<T> {
    const n: ListNode<T>
    /** the head node and then the entries' nodes, first to last */
    ghost var ring: seq<ListNode<T>>

    /** The links form one cycle through distinct nodes, and `prev` undoes `next`. */
    ghost predicate Valid()
      reads this, ring
    {
      && |ring| > 0 && ring[0] == n
      && Distinct(ring)
      && (forall i {:trigger ring[i].next} | 0 <= i < |ring| ::
            ring[i].next == if i + 1 == |ring| then ring[0] else ring[i + 1])
      && (forall i {:trigger ring[i].prev} | 0 <= i < |ring| ::
            ring[i].prev == if i == 0 then ring[|ring| - 1] else ring[i - 1])
    }

    /** The sequence the list stands for. */
    ghost function Entries(): (r: seq<ListNode<T>>)
      requires Valid()
      reads this, ring
    {
      ring[1..]
    }

    constructor (owner: T)
      ensures Valid() && Entries() == [] && fresh(n)
    {
      n := new ListNode(owner);
      ring := [n];
      new;
      n.next, n.prev := n, n;
    }

    /** `list_head_init` */
    method Init()
      modifies this, n
      ensures Valid() && Entries() == []
    {
      n.next, n.prev := n, n;
      ring := [n];
    }

    /** `list_empty` */
    method IsEmpty() returns (empty: bool)
      requires Valid()
      ensures empty <==> Entries() == []
    {
      empty := n.next == n;
    }

    /** `list_add`: prepend. */
    method Add(x: ListNode<T>)
      requires Valid() && x !in ring
      modifies this, ring, x
      ensures Valid() && Entries() == [x] + old(Entries())
    {
      x.next := n.next;
      x.prev := n;
      n.next.prev := x;
      n.next := x;
      ring := Insert(ring, 1, x);
    }

    /** `list_add_tail`: append. */
    method AddTail(x: ListNode<T>)
      requires Valid() && x !in ring
      modifies this, ring, x
      ensures Valid() && ring == old(ring) + [x]
      ensures Entries() == old(Entries()) + [x]
    {
      x.next := n;
      x.prev := n.prev;
      n.prev.next := x;
      n.prev := x;
      ring := ring + [x];
    }

    /** `list_add_before`: insert in front of the entry that stands at `k` behind the head. */
    method AddBefore(x: ListNode<T>, p: ListNode<T>, ghost k: nat)
      requires Valid() && x !in ring && 0 < k < |ring| && ring[k] == p
      modifies this, ring, x
      ensures Valid() && ring == Insert(old(ring), k, x)
    {
      x.next := p;
      x.prev := p.prev;
      p.prev := x;
      x.prev.next := x;
      ring := Insert(ring, k, x);
    }

    /** `list_add_after`: insert behind the entry that stands at `k` behind the head. */
    method AddAfter(x: ListNode<T>, p: ListNode<T>, ghost k: nat)
      requires Valid() && x !in ring && 0 < k < |ring| && ring[k] == p
      modifies this, ring, x
      ensures Valid() && ring == Insert(old(ring), k + 1, x)
    {
      x.next := p.next;
      x.prev := p;
      p.next := x;
      x.next.prev := x;
      ring := Insert(ring, k + 1, x);
    }

    /** `list_del`: the entry leaves the list; its own links are not touched. */
    method Del(x: ListNode<T>, ghost k: nat)
      requires Valid() && k + 1 < |ring| && ring[k + 1] == x
      modifies this, ring
      ensures Valid() && Entries() == Without(old(Entries()), k)
      ensures ring == Without(old(ring), k + 1)
      ensures x.next == old(x.next) && x.prev == old(x.prev)
    {
      x.next.prev := x.prev;
      x.prev.next := x.next;
      ring := Without(ring, k + 1);
    }

    /** `list_pop`: the first entry, taken off the list, or nothing. */
    method Pop() returns (first: ListNode?<T>)
      requires Valid()
      modifies this, ring
      ensures Valid()
      ensures if first == null then old(Entries()) == [] && Entries() == [] else old(Entries()) == [first] + Entries()
    {
      var empty := IsEmpty();
      if empty {
        return null;
      }
      first := n.next;
      Del(first, 0);
    }

    /** `list_for_each`: visits every entry once, in order, and ends. */
    method ForEach() returns (visited: seq<ListNode<T>>)
      requires Valid()
      ensures visited == Entries()
    {
      visited := [];
      var i: ListNode<T> := n.next;
      while i != n
        invariant visited <= Entries()
        invariant i == if |visited| < |Entries()| then Entries()[|visited|] else n
        decreases |Entries()| - |visited|
      {
        visited := visited + [i];
        i := i.next;
      }
    }

    /** The body of a deleting traversal: the first of the remaining entries `all[k..]` goes. */
    method DeleteFirst(i: ListNode<T>, ghost all: seq<ListNode<T>>, ghost k: nat)
      requires Valid() && 1 <= k < |all| && ring[1..] == all[k..] && i == all[k]
      modifies this, ring
      ensures Valid() && ring[1..] == all[k + 1..]
      ensures i.next == old(i.next) && old(i.next) == if k + 1 == |all| then n else all[k + 1]
    {
      hide Distinct;
      hide Without;
      assert |ring| == |all| - k + 1;
      DropSecond(ring, all, k);
      Del(i, 0);
    }

    /** `list_for_each_safe` with a body that deletes the entry: each is visited once, in order, and none is left. */
    method DeleteEach() returns (visited: seq<ListNode<T>>)
      requires Valid()
      modifies this, ring
      ensures Valid() && Entries() == [] && visited == old(Entries())
    {
      assert forall j | 1 <= j < |ring| :: ring[j] != n;
      ghost var all := ring;
      ghost var k := 1;
      visited := [];
      var i: ListNode<T> := n.next;
      var nxt: ListNode<T> := i.next;
      hide Valid;
      while i != n
        invariant Valid() && 1 <= k <= |all| && ring[1..] == all[k..]
        invariant visited == all[1..k]
        invariant i == (if k == |all| then n else all[k]) && nxt == i.next
        decreases |all| - k
      {
        DeleteFirst(i, all, k);
        visited := visited + [i];
        i := nxt;
        nxt := i.next;
        k := k + 1;
      }
    }
  }
}
