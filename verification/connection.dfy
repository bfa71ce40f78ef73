/** The connection pool (connection.c): a fixed array of connections whose
    unused cells form a singly linked free list, taken from and returned to
    at its head. An address in the array is modelled by the cell's index,
    and `NULL` by `Nil`. The size computation for `get_huge_pages` and its
    failure exit are not part of this model. */
module Connection {
  import opened Util

  /** `enum connection_state` (connection.h:11-18). */
  const CONNECTION_USED: int := 0
  const CONNECTION_AGAIN: int := 1
  const CONNECTION_ESTABLISHED: int := 2
  const CONNECTION_WAIT_FOR_REPLY: int := 3
  const CONNECTION_RCV_REPLY_AGAIN: int := 4
  const CONNECTION_UNUSED: int := 5

  /** `NULL` as a `next` or `head` link. */
  const Nil: int := -1

  /** The pool's view of a `connection_t` (connection.h:20-28): its state
      and its free-list link. The socket, timestamp, item and buffer fields
      are the application's. */
  datatype Conn = Conn(state: int, next: int)

  /** The free list starting at `head` is exactly the cells `free`, in
      order: each links to the one after it, the last links to `Nil`, and no
      cell appears twice. */
  ghost predicate FreeList(m: seq<Conn>, head: int, free: seq<int>) {
    && (forall i :: 0 <= i < |free| ==> 0 <= free[i] < |m|)
    && (forall i, j :: 0 <= i < j < |free| ==> free[i] != free[j])
    && (if free == [] then head == Nil else head == free[0])
    && (forall i :: 0 <= i < |free| - 1 ==> m[free[i]].next == free[i + 1])
    && (free != [] ==> m[free[|free| - 1]].next == Nil)
  }

  /** Exactly the cells on the free list are marked unused. */
  ghost predicate Marked(m: seq<Conn>, free: seq<int>) {
    forall i :: 0 <= i < |m| ==> (m[i].state == CONNECTION_UNUSED <==> i in free)
  }

  /** Taking the head cell off a non-empty free list and overwriting it
      leaves the rest a free list starting at the head's old successor. */
  lemma PopKeepsFreeList(m: seq<Conn>, head: int, free: seq<int>, c: Conn)
    requires FreeList(m, head, free) && free != []
    ensures FreeList(m[head := c], m[head].next, free[1..])
  {
    var m', f := m[head := c], free[1..];
    forall i | 0 <= i < |f| - 1
      ensures m'[f[i]].next == f[i + 1]
    {
      assert f[i] == free[i + 1] != free[0];
    }
    if f != [] {
      assert m[free[0]].next == free[1];
      assert f[|f| - 1] == free[|free| - 1] != free[0];
    }
  }

  /** Linking a cell that is not on the free list in front of its head
      gives a free list one longer. */
  lemma PushKeepsFreeList(m: seq<Conn>, head: int, free: seq<int>, x: int, c: Conn)
    requires FreeList(m, head, free) && 0 <= x < |m| && x !in free && c.next == head
    ensures FreeList(m[x := c], x, [x] + free)
  {
    var m', f := m[x := c], [x] + free;
    forall i | 0 <= i < |f| - 1
      ensures m'[f[i]].next == f[i + 1]
    {
      if i > 0 {
        assert f[i] == free[i - 1] != x;
      }
    }
    forall i, j | 0 <= i < j < |f|
      ensures f[i] != f[j]
    {
      if i == 0 {
        assert f[j] == free[j - 1] && free[j - 1] in free;
      }
    }
    if free != [] {
      assert f[|f| - 1] == free[|free| - 1] != x;
    }
  }

  /** The cells of a new pool of `n` connections: all unused, each linked
      to the next and the last to `Nil`, so the free list is the whole
      array in order (connection.c:30-35 with the last cell marked too). */
  function Created(n: nat): (m: seq<Conn>)
    requires n >= 1
    ensures |m| == n && FreeList(m, 0, seq(n, i => i)) && Marked(m, seq(n, i => i))
  {
    var m := seq(n, i => Conn(CONNECTION_UNUSED, if i < n - 1 then i + 1 else Nil));
    var f: seq<int> := seq(n, i => i);
    assert forall i :: 0 <= i < n ==> i in f by {
      forall i | 0 <= i < n ensures i in f {
        assert f[i] == i;
      }
    }
    m
  }

  /** connection_create_pool as written (connection.c:30-35): the loop stops
      before the last cell, whose state keeps whatever the fresh huge pages
      held (`prior`); only its link is set. */
  function CreatedAsWritten(n: nat, prior: Conn): (m: seq<Conn>)
    requires n >= 1
    ensures |m| == n
  {
    seq(n, i => if i < n - 1 then Conn(CONNECTION_UNUSED, i + 1) else Conn(prior.state, Nil))
  }

  /** With zero-filled pages the last cell is on the free list but reads as
      `CONNECTION_USED`, so the states no longer say which cells are free. */
  lemma CreatedAsWrittenLeavesLastUnmarked(n: nat)
    requires n >= 1
    ensures var m := CreatedAsWritten(n, Conn(0, 0));
      FreeList(m, 0, seq(n, i => i)) && m[n - 1].state == CONNECTION_USED
      && !Marked(m, seq(n, i => i))
  {
    var m, f := CreatedAsWritten(n, Conn(0, 0)), seq(n, i => i);
    assert f[n - 1] == n - 1 && (n - 1) in f;
    forall i, j | 0 <= i < j < |f|
      ensures f[i] != f[j]
    {
      assert f[i] == i && f[j] == j;
    }
    forall i | 0 <= i < |f| - 1
      ensures m[f[i]].next == f[i + 1]
    {
      assert f[i] == i && f[i + 1] == i + 1;
    }
  }

  /** `connection_pool_t` (connection.h:30-35). */
  class Pool {
    const mem: array<Conn>
    var head: int
    var numTotal: int
    var numFree: int
    /** The free cells, from the head. */
    ghost var free: seq<int>

    /** The free list is well formed, holds `num_free_elements` cells and
        exactly the cells marked unused. */
    ghost predicate Valid()
      reads this, mem
    {
      && numTotal == mem.Length
      && FreeList(mem[..], head, free)
      && Marked(mem[..], free)
      && numFree == |free|
    }

    /** connection_create_pool (connection.c:9-42), with every cell marked
        unused: a pool of `n` free connections whose free list runs
        `mem[0] -> mem[1] -> ... -> mem[n-1] -> NULL`. The C code writes
        `mem[n - 1]`, so the pool must not be empty. */
    constructor (n: nat)
      requires n >= 1
      ensures Valid() && fresh(mem)
      ensures mem[..] == Created(n) && head == 0 && numTotal == n && numFree == n
      ensures free == seq(n, i => i)
    {
      var a := new Conn[n];
      for i := 0 to n - 1
        modifies a
        invariant forall j :: 0 <= j < i ==> a[j] == Conn(CONNECTION_UNUSED, j + 1)
      {
        a[i] := Conn(CONNECTION_UNUSED, i + 1);
      }
      a[n - 1] := Conn(CONNECTION_UNUSED, Nil);
      assert a[..] == Created(n);
      mem := a;
      head := 0;
      numTotal := n;
      numFree := n;
      free := seq(n, i => i);
    }

    /** connection_allocate (connection.c:44-64): `NULL`, with no free cell
        left, when the free list is empty; otherwise the head cell, taken
        off the list, marked `CONNECTION_USED` and unlinked. */
    method Allocate() returns (r: Option<int>)
      requires Valid()
      modifies this, mem
      ensures Valid() && numTotal == old(numTotal)
      ensures r.None? <==> old(free) == []
      ensures r.None? ==> numFree == 0 && unchanged(this, mem)
      ensures r.Some? ==>
        && r.value == old(head) == old(free[0])
        && mem[..] == old(mem[..])[r.value := Conn(CONNECTION_USED, Nil)]
        && free == old(free[1..]) && numFree == old(numFree) - 1
    {
      if head == Nil {
        return None;
      }
      var c := head;
      PopKeepsFreeList(mem[..], head, free, Conn(CONNECTION_USED, Nil));
      head := mem[c].next;
      mem[c] := Conn(CONNECTION_USED, Nil);
      numFree := numFree - 1;
      free := free[1..];
      return Some(c);
    }

    /** connection_deallocate (connection.c:66-79): the cell goes back on
        the head of the free list, marked `CONNECTION_UNUSED`. Returning a
        cell that is already free would corrupt the list, so callers return
        only cells they allocated. */
    method Deallocate(c: int)
      requires Valid() && 0 <= c < mem.Length && mem[c].state != CONNECTION_UNUSED
      modifies this, mem
      ensures Valid() && numTotal == old(numTotal)
      ensures head == c && free == [c] + old(free) && numFree == old(numFree) + 1
      ensures mem[..] == old(mem[..])[c := Conn(CONNECTION_UNUSED, old(head))]
    {
      PushKeepsFreeList(mem[..], head, free, c, Conn(CONNECTION_UNUSED, head));
      if head == Nil {
        head := c;
        mem[c] := Conn(mem[c].state, Nil);
      } else {
        mem[c] := Conn(mem[c].state, head);
        head := c;
      }
      mem[c] := Conn(CONNECTION_UNUSED, mem[c].next);
      numFree := numFree + 1;
      free := [c] + free;
    }
  }
}
