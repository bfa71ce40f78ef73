/** The complete binary tree index over the live items (complete_bin_tree.c).

    Items are addressed by integer references into one arena. Each item owns
    three link fields, `left`, `right` and `parent`, kept here as maps from a
    reference to the reference it holds. `Sentinel` is an ordinary arena
    entry standing for the C `_sentinel` object: it is the "no child / no
    parent" marker, and the code writes its `parent` link like any other.
    `Null` is the C NULL that a removed item's links are set to.

    The abstract value of the tree is `slots`: the item at level-order
    sequence number `k` is `slots[k - 1]`. `Valid()` is the refinement
    relation between the links and `slots`: the children of slot `k` are
    slots `2k` and `2k + 1`, the parent of slot `k > 1` is slot `k / 2`. */
module CompleteBinTree {
  import opened Util

  type Ref = int

  const Null: Ref := -1
  const Sentinel: Ref := 0

  /** References that denote items (the sentinel and NULL do not). */
  predicate IsItem(x: Ref) { x >= 1 }

  /** The item at sequence number `k` in `s`, or the sentinel when slot `k`
      is unoccupied. */
  function At(s: seq<Ref>, k: int): Ref {
    if 1 <= k <= |s| then s[k - 1] else Sentinel
  }

  ghost predicate Distinct(s: seq<Ref>) {
    forall i, j :: 0 <= i < j < |s| ==> s[i] != s[j]
  }

  /** Position of `x` in `s`. */
  function IndexOf(s: seq<Ref>, x: Ref): (i: nat)
    requires x in s
    ensures i < |s| && s[i] == x
    ensures forall j :: 0 <= j < i ==> s[j] != x
  {
    if s[0] == x then 0 else 1 + IndexOf(s[1..], x)
  }

  /** The slots after the item at sequence number `k` is deleted: the last
      item moves into slot `k` and the highest slot disappears. */
  function RemoveSlot(s: seq<Ref>, k: nat): (r: seq<Ref>)
    requires 1 <= k <= |s|
  {
    if k == |s| then s[..|s| - 1] else s[..|s| - 1][k - 1 := s[|s| - 1]]
  }

  /** Occupancy of the slots after a delete, slot by slot. */
  lemma AtRemoveSlot(s: seq<Ref>, k: nat, j: int)
    requires 1 <= k <= |s|
    ensures At(RemoveSlot(s, k), j) ==
      if j == k && k < |s| then s[|s| - 1]
      else if 1 <= j < |s| then s[j - 1]
      else Sentinel
  {
  }

  /** Deleting keeps the slots distinct and removes exactly the deleted item. */
  lemma RemoveSlotContents(s: seq<Ref>, k: nat)
    requires 1 <= k <= |s| && Distinct(s)
    ensures Distinct(RemoveSlot(s, k))
    ensures forall y :: y in RemoveSlot(s, k) <==> y in s && y != s[k - 1]
  {
    var r := RemoveSlot(s, k);
    forall y | y in s && y != s[k - 1] ensures y in r {
      var i :| 0 <= i < |s| && s[i] == y;
      if i == |s| - 1 {
        assert r[k - 1] == y;
      } else {
        assert r[i] == y;
      }
    }
  }

  /** The links of the item in slot `k` agree with the slot layout. */
  ghost predicate LinkedAt(s: seq<Ref>, l: map<Ref, Ref>, r: map<Ref, Ref>, p: map<Ref, Ref>, k: int)
    requires 1 <= k <= |s|
  {
    var x := s[k - 1];
    && x in l && x in r && x in p
    && l[x] == At(s, 2 * k)
    && r[x] == At(s, 2 * k + 1)
    && (k > 1 ==> p[x] == At(s, k / 2))
  }

  /** The links form the complete binary tree whose level order is `s`. The
      root's parent link is either the root itself (a first root,
      complete_bin_tree.c:23) or the sentinel (a root promoted by a delete,
      complete_bin_tree.c:77). */
  ghost predicate Shaped(s: seq<Ref>, root: Ref, l: map<Ref, Ref>, r: map<Ref, Ref>, p: map<Ref, Ref>) {
    && (forall i :: 0 <= i < |s| ==> IsItem(s[i]))
    && Distinct(s)
    && root == At(s, 1)
    && (forall k :: 1 <= k <= |s| ==> LinkedAt(s, l, r, p, k))
    && (|s| > 0 ==> s[0] in p && (p[s[0]] == s[0] || p[s[0]] == Sentinel))
  }

  /** For `stop <= i`, `x >> i` is at most `x >> stop`. */
  lemma {:induction false} ShiftedBelow(x: nat, stop: nat, i: nat)
    requires stop <= i
    ensures x / Pow2(i) <= x / Pow2(stop)
    decreases i
  {
    if i > stop {
      ShiftedBelow(x, stop, i - 1);
      ShiftOnce(x, i - 1);
    }
  }

  /** One step of SearchItem's walk at bit `i >= stop`: the C test
      `k & (1 << i)` picks the child slot `2 * here + bit`, which is at most
      the slot where the walk ends. */
  lemma DescendStep(k: nat, stop: nat, i: nat)
    requires stop <= i
    ensures k / Pow2(i) <= k / Pow2(stop)
    ensures k / Pow2(i) == 2 * (k / Pow2(i + 1)) + (if BitAnd(k, Pow2(i)) != 0 then 1 else 0)
  {
    PathStep(k, i);
    ShiftedBelow(k, stop, i);
    AndPow2IsBit(k, i);
    if Bit(k, i) == 0 {
      assert BitAnd(k, Pow2(i)) == 0;
    } else {
      assert BitAnd(k, Pow2(i)) == Pow2(i) > 0;
    }
  }

  /** The random draw as written, `rand() % n_items` (complete_bin_tree.c:167). */
  function DrawAsWritten(r: nat, n: nat): nat
    requires n > 0
  {
    r % n
  }

  /** The draw as written can produce 0, which is no sequence number (the
      walk would take `log2(0)`), and can never produce the last slot `n`. */
  lemma DrawAsWrittenMisses(n: nat)
    requires n > 0
    ensures DrawAsWritten(0, n) == 0
    ensures forall r: nat :: DrawAsWritten(r, n) != n
  {
  }

  /** The intended draw: a sequence number in `1..n`. */
  function Draw(r: nat, n: nat): (k: nat)
    requires n > 0
    ensures 1 <= k <= n
  {
    r % n + 1
  }

  /** Every slot can be drawn. */
  lemma DrawCoversAllSlots(n: nat, k: nat)
    requires 1 <= k <= n
    ensures Draw(k - 1, n) == k
  {
  }

  /** The link writes of InsertItem for the new slot `n = |s| + 1`: a first
      item becomes the root and its own parent; otherwise it becomes the left
      (even `n`) or right (odd `n`) child of slot `n / 2`. Either way it gets
      sentinel children, and the result is the tree of `s + [it]`. */
  lemma AppendKeepsShape(s: seq<Ref>, l0: map<Ref, Ref>, r0: map<Ref, Ref>, p0: map<Ref, Ref>,
                         it: Ref, l: map<Ref, Ref>, r: map<Ref, Ref>, p: map<Ref, Ref>)
    requires Shaped(s, At(s, 1), l0, r0, p0) && IsItem(it) && it !in s
    requires |s| == 0 ==> l == l0[it := Sentinel] && r == r0[it := Sentinel] && p == p0[it := it]
    requires |s| > 0 ==>
      var n, px := |s| + 1, s[(|s| + 1) / 2 - 1];
      && p == p0[it := px]
      && (n % 2 == 0 ==> l == l0[px := it][it := Sentinel] && r == r0[it := Sentinel])
      && (n % 2 == 1 ==> l == l0[it := Sentinel] && r == r0[px := it][it := Sentinel])
    ensures Shaped(s + [it], At(s + [it], 1), l, r, p)
  {
    var t := s + [it];
    forall k | 1 <= k <= |t|
      ensures LinkedAt(t, l, r, p, k)
    {
      if k < |t| {
        assert LinkedAt(s, l0, r0, p0, k);
        assert s[k - 1] != it;
      }
    }
    if |s| > 0 {
      assert LinkedAt(s, l0, r0, p0, 1);
    }
  }

  /** The child links of slot `j`. */
  ghost predicate ChildrenAt(t: seq<Ref>, l: map<Ref, Ref>, r: map<Ref, Ref>, j: int)
    requires 1 <= j <= |t|
  {
    t[j - 1] in l && t[j - 1] in r && l[t[j - 1]] == At(t, 2 * j) && r[t[j - 1]] == At(t, 2 * j + 1)
  }

  /** The parent link of slot `j > 1`. */
  ghost predicate ParentAt(t: seq<Ref>, p: map<Ref, Ref>, j: int)
    requires 1 < j <= |t|
  {
    t[j - 1] in p && p[t[j - 1]] == At(t, j / 2)
  }

  /** The three link maps all have an entry for `x`. */
  predicate Keyed(l: map<Ref, Ref>, r: map<Ref, Ref>, p: map<Ref, Ref>, x: Ref) {
    x in l && x in r && x in p
  }

  /** Detaching the last slot `n` from its parent `n / 2`: the C test
      `succ->_parent->_left == succ` is a test of the parity of `n`. */
  lemma DetachTestIsParity(s: seq<Ref>, l0: map<Ref, Ref>, r0: map<Ref, Ref>, p0: map<Ref, Ref>)
    requires Shaped(s, At(s, 1), l0, r0, p0) && |s| > 1
    ensures Keyed(l0, r0, p0, s[|s| / 2 - 1]) && Keyed(l0, r0, p0, s[|s| - 1])
    ensures p0[s[|s| - 1]] == s[|s| / 2 - 1]
    ensures l0[s[|s| / 2 - 1]] == s[|s| - 1] <==> |s| % 2 == 0
  {
    assert LinkedAt(s, l0, r0, p0, |s|);
    assert LinkedAt(s, l0, r0, p0, |s| / 2);
  }

  /** DeleteItem of the only item (complete_bin_tree.c:63-65): the tree
      becomes empty. */
  lemma DeleteLastRootKeepsShape(s: seq<Ref>, l0: map<Ref, Ref>, r0: map<Ref, Ref>, p0: map<Ref, Ref>,
                                 l: map<Ref, Ref>, r: map<Ref, Ref>, p: map<Ref, Ref>)
    requires Shaped(s, At(s, 1), l0, r0, p0) && |s| == 1
    ensures Shaped(RemoveSlot(s, 1), Sentinel, l, r, p)
  {
    assert RemoveSlot(s, 1) == [];
  }

  /** DeleteItem of the last slot `n > 1` (complete_bin_tree.c:84-89): its
      parent's link to it is reset to the sentinel. */
  lemma DeleteLastKeepsShape(s: seq<Ref>, l0: map<Ref, Ref>, r0: map<Ref, Ref>, p0: map<Ref, Ref>,
                             l: map<Ref, Ref>, r: map<Ref, Ref>, p: map<Ref, Ref>)
    requires Shaped(s, At(s, 1), l0, r0, p0) && |s| > 1
    requires Keyed(l0, r0, p0, s[|s| / 2 - 1]) && Keyed(l0, r0, p0, s[|s| - 1])
    requires
      var it, ip := s[|s| - 1], s[|s| / 2 - 1];
      var l1 := if l0[ip] == it then l0[ip := Sentinel] else l0;
      var r1 := if l0[ip] == it then r0 else r0[ip := Sentinel];
      l == l1[it := Null] && r == r1[it := Null] && p == p0[it := Null]
    ensures Shaped(RemoveSlot(s, |s|), At(s, 1), l, r, p)
  {
    var n, it := |s|, s[|s| - 1];
    var t := RemoveSlot(s, n);
    RemoveSlotContents(s, n);
    DetachTestIsParity(s, l0, r0, p0);
    forall j | 1 <= j <= |t|
      ensures LinkedAt(t, l, r, p, j)
    {
      assert LinkedAt(s, l0, r0, p0, j);
      assert t[j - 1] == s[j - 1] != it;
      AtRemoveSlot(s, n, 2 * j);
      AtRemoveSlot(s, n, 2 * j + 1);
      AtRemoveSlot(s, n, j / 2);
    }
    assert s[0] != it;
  }

  /** DeleteItem of the root when other items remain
      (complete_bin_tree.c:66-81): the last item is detached and takes the
      root's place, with the sentinel as its parent. */
  lemma DeleteRootKeepsShape(s: seq<Ref>, l0: map<Ref, Ref>, r0: map<Ref, Ref>, p0: map<Ref, Ref>,
                             l: map<Ref, Ref>, r: map<Ref, Ref>, p: map<Ref, Ref>)
    requires Shaped(s, At(s, 1), l0, r0, p0) && |s| > 1
    requires Keyed(l0, r0, p0, s[|s| / 2 - 1]) && Keyed(l0, r0, p0, s[0])
    requires
      var it, succ, sp := s[0], s[|s| - 1], s[|s| / 2 - 1];
      var l1 := if l0[sp] == succ then l0[sp := Sentinel] else l0;
      var r1 := if l0[sp] == succ then r0 else r0[sp := Sentinel];
      var l2 := l1[succ := l1[it]];
      var r2 := r1[succ := r1[it]];
      var p2 := p0[succ := Sentinel][l2[succ] := succ][r2[succ] := succ];
      l == l2[it := Null] && r == r2[it := Null] && p == p2[it := Null]
    ensures Shaped(RemoveSlot(s, 1), s[|s| - 1], l, r, p)
  {
    var n, it, succ, sp := |s|, s[0], s[|s| - 1], s[|s| / 2 - 1];
    var t := RemoveSlot(s, 1);
    RemoveSlotContents(s, 1);
    DetachTestIsParity(s, l0, r0, p0);
    assert LinkedAt(s, l0, r0, p0, 1);
    var l1 := if l0[sp] == succ then l0[sp := Sentinel] else l0;
    var r1 := if l0[sp] == succ then r0 else r0[sp := Sentinel];
    assert l1[it] == At(t, 2) && r1[it] == At(t, 3) by {
      AtRemoveSlot(s, 1, 2);
      AtRemoveSlot(s, 1, 3);
    }
    assert t[0] == succ;
    forall j | 1 <= j <= |t|
      ensures LinkedAt(t, l, r, p, j)
    {
      AtRemoveSlot(s, 1, 2 * j);
      AtRemoveSlot(s, 1, 2 * j + 1);
      AtRemoveSlot(s, 1, j / 2);
      if j > 1 {
        assert LinkedAt(s, l0, r0, p0, j);
        assert t[j - 1] == s[j - 1];
        if j / 2 == 1 {
          assert t[j - 1] == At(t, 2) || t[j - 1] == At(t, 3);
        } else {
          assert t[j - 1] != At(t, 2) && t[j - 1] != At(t, 3);
        }
      }
    }
    assert t[0] != At(t, 2) && t[0] != At(t, 3);
  }

  /** The child link writes of DeleteItem for an inner slot `k`,
      `1 < k < n` (complete_bin_tree.c:92-105): the last item is detached
      from its parent, put in the place of the deleted item under that
      item's parent, and given the deleted item's children. */
  ghost predicate InnerChildWrites(s: seq<Ref>, l0: map<Ref, Ref>, r0: map<Ref, Ref>, p0: map<Ref, Ref>,
                                   k: nat, l: map<Ref, Ref>, r: map<Ref, Ref>)
    requires 1 < k < |s|
    requires Keyed(l0, r0, p0, s[|s| / 2 - 1]) && Keyed(l0, r0, p0, s[k / 2 - 1]) && Keyed(l0, r0, p0, s[k - 1])
  {
    var it, succ, sp, ip := s[k - 1], s[|s| - 1], s[|s| / 2 - 1], s[k / 2 - 1];
    var l1 := if l0[sp] == succ then l0[sp := Sentinel] else l0;
    var r1 := if l0[sp] == succ then r0 else r0[sp := Sentinel];
    var l2 := if l1[ip] == it then l1[ip := succ] else l1;
    var r2 := if l1[ip] == it then r1 else r1[ip := succ];
    l == l2[succ := l2[it]][it := Null] && r == r2[succ := r2[it]][it := Null]
  }

  /** The link writes of DeleteItem for an inner slot `k`, `1 < k < n`
      (complete_bin_tree.c:91-110, 115-118), on the three link maps: the
      last item `succ` is unhooked from its parent and takes over the links
      of the deleted item `it`, whose own links are cleared. */
  method RelinkInner(ghost s: seq<Ref>, l0: map<Ref, Ref>, r0: map<Ref, Ref>, p0: map<Ref, Ref>, ghost k: nat,
                     it: Ref, succ: Ref)
    returns (l: map<Ref, Ref>, r: map<Ref, Ref>, p: map<Ref, Ref>)
    requires 1 < k < |s| && it == s[k - 1] && succ == s[|s| - 1] && it != succ
    requires Keyed(l0, r0, p0, s[|s| / 2 - 1]) && Keyed(l0, r0, p0, s[k / 2 - 1])
    requires Keyed(l0, r0, p0, s[k - 1]) && Keyed(l0, r0, p0, s[|s| - 1])
    requires p0[s[|s| - 1]] == s[|s| / 2 - 1] && p0[s[k - 1]] == s[k / 2 - 1]
    ensures InnerChildWrites(s, l0, r0, p0, k, l, r)
    ensures
      var it, succ := s[k - 1], s[|s| - 1];
      p == p0[succ := p0[it]][l[succ] := succ][r[succ] := succ][it := Null]
  {
    l, r, p := l0, r0, p0;
    var sp := p[succ];
    if l[sp] == succ {
      l := l[sp := Sentinel];
    } else {
      r := r[sp := Sentinel];
    }
    var ip := p[it];
    if l[ip] == it {
      l := l[ip := succ];
    } else {
      r := r[ip := succ];
    }
    l := l[succ := l[it]];
    r := r[succ := r[it]];
    p := p[succ := p[it]];
    p := p[l[succ] := succ];
    p := p[r[succ] := succ];
    l, r, p := l[it := Null], r[it := Null], p[it := Null];
  }

  /** After those writes, a slot other than `k` has the right children. */
  lemma DeleteInnerChildrenAt(s: seq<Ref>, l0: map<Ref, Ref>, r0: map<Ref, Ref>, p0: map<Ref, Ref>,
                              k: nat, l: map<Ref, Ref>, r: map<Ref, Ref>, j: nat)
    requires Shaped(s, At(s, 1), l0, r0, p0) && 1 < k < |s|
    requires Keyed(l0, r0, p0, s[|s| / 2 - 1]) && Keyed(l0, r0, p0, s[k / 2 - 1]) && Keyed(l0, r0, p0, s[k - 1])
    requires InnerChildWrites(s, l0, r0, p0, k, l, r)
    requires 1 <= j < |s| && j != k
    ensures ChildrenAt(RemoveSlot(s, k), l, r, j)
  {
    var n, it, succ, sp, ip := |s|, s[k - 1], s[|s| - 1], s[|s| / 2 - 1], s[k / 2 - 1];
    var t := RemoveSlot(s, k);
    DetachTestIsParity(s, l0, r0, p0);
    assert LinkedAt(s, l0, r0, p0, k / 2);
    var l1 := if l0[sp] == succ then l0[sp := Sentinel] else l0;
    var r1 := if l0[sp] == succ then r0 else r0[sp := Sentinel];
    assert l1[ip] == it <==> k % 2 == 0;
    var l2 := if l1[ip] == it then l1[ip := succ] else l1;
    var r2 := if l1[ip] == it then r1 else r1[ip := succ];
    AtRemoveSlot(s, k, 2 * j);
    AtRemoveSlot(s, k, 2 * j + 1);
    var x := s[j - 1];
    assert LinkedAt(s, l0, r0, p0, j);
    assert t[j - 1] == x && x != it && x != succ;
    assert l[x] == l2[x] && r[x] == r2[x];
    if j != k / 2 {
      assert x != ip;
    }
    if j != n / 2 {
      assert x != sp;
    }
  }

  /** After those writes, every slot has the right children. */
  lemma DeleteInnerChildren(s: seq<Ref>, l0: map<Ref, Ref>, r0: map<Ref, Ref>, p0: map<Ref, Ref>,
                            k: nat, l: map<Ref, Ref>, r: map<Ref, Ref>)
    requires Shaped(s, At(s, 1), l0, r0, p0) && 1 < k < |s|
    requires Keyed(l0, r0, p0, s[|s| / 2 - 1]) && Keyed(l0, r0, p0, s[k / 2 - 1]) && Keyed(l0, r0, p0, s[k - 1])
    requires InnerChildWrites(s, l0, r0, p0, k, l, r)
    ensures forall j :: 1 <= j <= |s| - 1 ==> ChildrenAt(RemoveSlot(s, k), l, r, j)
  {
    var n, it, succ, sp, ip := |s|, s[k - 1], s[|s| - 1], s[|s| / 2 - 1], s[k / 2 - 1];
    var t := RemoveSlot(s, k);
    DetachTestIsParity(s, l0, r0, p0);
    assert LinkedAt(s, l0, r0, p0, k);
    assert LinkedAt(s, l0, r0, p0, k / 2);
    var l1 := if l0[sp] == succ then l0[sp := Sentinel] else l0;
    var r1 := if l0[sp] == succ then r0 else r0[sp := Sentinel];
    assert l1[ip] == it <==> k % 2 == 0;
    var l2 := if l1[ip] == it then l1[ip := succ] else l1;
    var r2 := if l1[ip] == it then r1 else r1[ip := succ];
    assert l2[it] == At(t, 2 * k) && r2[it] == At(t, 2 * k + 1) by {
      AtRemoveSlot(s, k, 2 * k);
      AtRemoveSlot(s, k, 2 * k + 1);
    }
    assert t[k - 1] == succ;
    forall j | 1 <= j <= |t|
      ensures ChildrenAt(t, l, r, j)
    {
      if j != k {
        DeleteInnerChildrenAt(s, l0, r0, p0, k, l, r, j);
      }
    }
  }

  /** The parent links after DeleteItem of an inner slot `k`
      (complete_bin_tree.c:106-109): the moved item takes the deleted item's
      parent, and the children it inherited point back to it. */
  lemma DeleteInnerParents(s: seq<Ref>, l0: map<Ref, Ref>, r0: map<Ref, Ref>, p0: map<Ref, Ref>,
                           k: nat, p: map<Ref, Ref>)
    requires Shaped(s, At(s, 1), l0, r0, p0) && 1 < k < |s|
    requires Keyed(l0, r0, p0, s[k - 1])
    requires
      var it, succ, t := s[k - 1], s[|s| - 1], RemoveSlot(s, k);
      p == p0[succ := p0[it]][At(t, 2 * k) := succ][At(t, 2 * k + 1) := succ][it := Null]
    ensures forall j :: 1 < j <= |s| - 1 ==> ParentAt(RemoveSlot(s, k), p, j)
    ensures s[0] in p && p[s[0]] == p0[s[0]]
  {
    var n, it, succ := |s|, s[k - 1], s[|s| - 1];
    var t := RemoveSlot(s, k);
    RemoveSlotContents(s, k);
    assert LinkedAt(s, l0, r0, p0, k);
    assert t[k - 1] == succ;
    forall j | 1 < j <= |t|
      ensures ParentAt(t, p, j)
    {
      AtRemoveSlot(s, k, j / 2);
      if j != k {
        assert LinkedAt(s, l0, r0, p0, j);
        assert t[j - 1] == s[j - 1];
      }
      if j / 2 == k {
        assert t[j - 1] == At(t, 2 * k) || t[j - 1] == At(t, 2 * k + 1);
      } else {
        assert t[j - 1] != At(t, 2 * k) && t[j - 1] != At(t, 2 * k + 1);
      }
    }
    assert t[0] == s[0] && s[0] != At(t, 2 * k) && s[0] != At(t, 2 * k + 1);
  }

  /** DeleteItem of an inner slot `k`, `1 < k < n`, keeps the shape. */
  lemma DeleteInnerKeepsShape(s: seq<Ref>, l0: map<Ref, Ref>, r0: map<Ref, Ref>, p0: map<Ref, Ref>,
                              k: nat, l: map<Ref, Ref>, r: map<Ref, Ref>, p: map<Ref, Ref>)
    requires Shaped(s, At(s, 1), l0, r0, p0) && 1 < k < |s|
    requires Keyed(l0, r0, p0, s[|s| / 2 - 1]) && Keyed(l0, r0, p0, s[k / 2 - 1]) && Keyed(l0, r0, p0, s[k - 1])
    requires InnerChildWrites(s, l0, r0, p0, k, l, r)
    requires
      var it, succ := s[k - 1], s[|s| - 1];
      p == p0[succ := p0[it]][l[succ] := succ][r[succ] := succ][it := Null]
    ensures Shaped(RemoveSlot(s, k), At(s, 1), l, r, p)
    ensures Keyed(l, r, p, s[k - 1]) && l[s[k - 1]] == Null && r[s[k - 1]] == Null && p[s[k - 1]] == Null
  {
    var t := RemoveSlot(s, k);
    RemoveSlotContents(s, k);
    DeleteInnerChildren(s, l0, r0, p0, k, l, r);
    assert t[k - 1] == s[|s| - 1];
    assert ChildrenAt(t, l, r, k);
    DeleteInnerParents(s, l0, r0, p0, k, p);
    forall j | 1 <= j <= |t|
      ensures LinkedAt(t, l, r, p, j)
    {
      assert ChildrenAt(t, l, r, j);
      if j > 1 {
        assert ParentAt(t, p, j);
      } else {
        assert t[0] == s[0];
      }
    }
    assert t[0] == s[0];
  }

  /** The outcome of complete_bin_tree_get_random_item's retry loop
      (complete_bin_tree.c:166-169) on the random numbers `draws`: the first
      drawn item that is active, or `None` when the draws run out first. */
  function FirstActiveDraw(s: seq<Ref>, draws: seq<nat>, active: set<Ref>): (r: Option<Ref>)
    requires |s| > 0
    ensures r.Some? ==> r.value in s && r.value in active
    decreases |draws|
  {
    if |draws| == 0 then None
    else
      var x := s[Draw(draws[0], |s|) - 1];
      if x in active then Some(x) else FirstActiveDraw(s, draws[1..], active)
  }

  /** The loop gives up only when no draw lands on an active item, and
      stops at the first one that does. */
  lemma {:induction false} FirstActiveDrawSpec(s: seq<Ref>, draws: seq<nat>, active: set<Ref>)
    requires |s| > 0
    ensures FirstActiveDraw(s, draws, active).None? <==>
      forall j :: 0 <= j < |draws| ==> s[Draw(draws[j], |s|) - 1] !in active
    ensures forall j :: 0 <= j < |draws| && s[Draw(draws[j], |s|) - 1] in active ==>
      FirstActiveDraw(s, draws, active).Some?
    decreases |draws|
  {
    if |draws| > 0 {
      FirstActiveDrawSpec(s, draws[1..], active);
      forall j | 1 <= j < |draws|
        ensures draws[j] == draws[1..][j - 1]
      {
      }
    }
  }

  /** When every item is active the first draw is taken. */
  lemma FirstActiveDrawAllActive(s: seq<Ref>, draws: seq<nat>, active: set<Ref>)
    requires |s| > 0 && |draws| > 0
    requires forall i :: 0 <= i < |s| ==> s[i] in active
    ensures FirstActiveDraw(s, draws, active) == Some(s[Draw(draws[0], |s|) - 1])
  {
  }

  class Tree {
    var root: Ref
    var nItems: nat
    var left: map<Ref, Ref>
    var right: map<Ref, Ref>
    var parent: map<Ref, Ref>
    ghost var slots: seq<Ref>

    ghost predicate Valid()
      reads this
    {
      nItems == |slots| && Shaped(slots, root, left, right, parent)
    }

    /** The empty tree: `root` is the sentinel, whose links start out NULL. */
    constructor ()
      ensures Valid() && slots == [] && root == Sentinel
    {
      root := Sentinel;
      nItems := 0;
      left := map[Sentinel := Null];
      right := map[Sentinel := Null];
      parent := map[Sentinel := Null];
      slots := [];
    }

    /** The root-to-slot walk shared by SearchItem and InsertItem
        (complete_bin_tree.c:27-37, 128-136): from the root, consume the bits
        of `k` from just below its highest set bit down to bit `stop`,
        following `right` on a 1 and `left` on a 0. It ends at slot
        `k >> stop`. */
    method Descend(k: nat, stop: nat) returns (it: Ref)
      requires Valid() && k >= 1 && stop <= Log2(k)
      requires k / Pow2(stop) <= nItems
      ensures 1 <= k / Pow2(stop) && it == slots[k / Pow2(stop) - 1]
    {
      var nEdges := Log2(k);
      ShiftToTop(k);
      ShiftedBelow(k, stop, nEdges);
      it := root;
      var i: int := nEdges as int - 1;
      while i >= stop
        invariant stop - 1 <= i < nEdges
        invariant 1 <= k / Pow2(i + 1) <= nItems
        invariant it == slots[k / Pow2(i + 1) - 1]
        decreases i
      {
        assert LinkedAt(slots, left, right, parent, k / Pow2(i + 1));
        DescendStep(k, stop, i);
        if BitAnd(k, Pow2(i)) != 0 {
          it := right[it];
        } else {
          it := left[it];
        }
        i := i - 1;
      }
    }

    /** SearchItem: the item with sequence number `k`. */
    method Search(k: nat) returns (it: Ref)
      requires Valid() && 1 <= k <= nItems
      ensures it == slots[k - 1]
    {
      it := root;
      if k == 1 {
        return;
      }
      assert Pow2(0) == 1;
      it := Descend(k, 0);
    }

    /** InsertItem: the new item takes sequence number `nItems + 1`. */
    method Insert(it: Ref)
      requires Valid() && IsItem(it) && it !in slots
      modifies this
      ensures Valid()
      ensures slots == old(slots) + [it] && nItems == old(nItems) + 1
    {
      ghost var s, l0, r0, p0 := slots, left, right, parent;
      ghost var n := |s| + 1;
      ghost var px := Sentinel;
      if root == Sentinel {
        root := it;
        parent := parent[it := root];
      } else {
        var nextSeq := nItems + 1;
        assert Pow2(1) == 2;
        var temp := Descend(nextSeq, 1);
        AndPow2IsBit(nextSeq, 0);
        assert Pow2(0) == 1 && (BitAnd(nextSeq, 1) != 0 <==> n % 2 == 1);
        if BitAnd(nextSeq, 1) != 0 {
          right := right[temp := it];
        } else {
          left := left[temp := it];
        }
        parent := parent[it := temp];
        px := temp;
      }
      left := left[it := Sentinel];
      right := right[it := Sentinel];
      nItems := nItems + 1;
      slots := s + [it];
      AppendKeepsShape(s, l0, r0, p0, it, left, right, parent);
    }

    /** DeleteItem: the last item (sequence number `nItems`) takes the place
        of `it`, and `it`'s links are cleared to NULL. */
    method Delete(it: Ref)
      requires Valid() && it in slots
      modifies this
      ensures Valid()
      ensures slots == RemoveSlot(old(slots), IndexOf(old(slots), it) + 1)
      ensures nItems == old(nItems) - 1
      ensures Keyed(left, right, parent, it) && left[it] == Null && right[it] == Null && parent[it] == Null
    {
      var succ := Search(nItems);
      if it == root {
        DeleteRoot(it, succ);
      } else {
        DeleteBelowRoot(it, succ);
      }
    }

    /** The `it == root` half of DeleteItem (complete_bin_tree.c:62-81). */
    method DeleteRoot(it: Ref, succ: Ref)
      requires Valid() && it in slots && it == root && succ == slots[nItems - 1]
      modifies this
      ensures Valid()
      ensures slots == RemoveSlot(old(slots), IndexOf(old(slots), it) + 1)
      ensures nItems == old(nItems) - 1
      ensures Keyed(left, right, parent, it) && left[it] == Null && right[it] == Null && parent[it] == Null
    {
      ghost var s, l0, r0, p0 := slots, left, right, parent;
      ghost var n := |s|;
      assert IndexOf(s, it) == 0;
      var l, r, p := left, right, parent;
      if succ == it {
        root := Sentinel;
        DeleteLastRootKeepsShape(s, l0, r0, p0, l[it := Null], r[it := Null], p[it := Null]);
      } else {
        DetachTestIsParity(s, l0, r0, p0);
        assert LinkedAt(s, l0, r0, p0, 1);
        var sp := p[succ];
        if l[sp] == succ {
          l := l[sp := Sentinel];
        } else {
          r := r[sp := Sentinel];
        }
        root := succ;
        l := l[succ := l[it]];
        r := r[succ := r[it]];
        p := p[succ := Sentinel];
        p := p[l[succ] := succ];
        p := p[r[succ] := succ];
        DeleteRootKeepsShape(s, l0, r0, p0, l[it := Null], r[it := Null], p[it := Null]);
      }
      l := l[it := Null];
      r := r[it := Null];
      p := p[it := Null];
      left, right, parent := l, r, p;
      nItems := nItems - 1;
      slots := RemoveSlot(s, 1);
    }

    /** The `it != root` half of DeleteItem (complete_bin_tree.c:83-118):
        either `it` is the last item and is unhooked from its parent, or the
        last item is unhooked from its parent and takes over `it`'s links. */
    method DeleteBelowRoot(it: Ref, succ: Ref)
      requires Valid() && it in slots && it != root && succ == slots[nItems - 1]
      modifies this
      ensures Valid()
      ensures slots == RemoveSlot(old(slots), IndexOf(old(slots), it) + 1)
      ensures nItems == old(nItems) - 1
      ensures Keyed(left, right, parent, it) && left[it] == Null && right[it] == Null && parent[it] == Null
    {
      if succ == it {
        DeleteLastBelowRoot(it);
      } else {
        DeleteInner(it, succ);
      }
    }

    /** `it` is the last item and not the root: its parent's link to it
        becomes the sentinel (complete_bin_tree.c:84-90, 115-118). */
    method DeleteLastBelowRoot(it: Ref)
      requires Valid() && it in slots && it != root && it == slots[nItems - 1]
      modifies this
      ensures Valid()
      ensures slots == RemoveSlot(old(slots), IndexOf(old(slots), it) + 1)
      ensures nItems == old(nItems) - 1
      ensures Keyed(left, right, parent, it) && left[it] == Null && right[it] == Null && parent[it] == Null
    {
      ghost var s, l0, r0, p0 := slots, left, right, parent;
      ghost var n, k := |s|, IndexOf(s, it) + 1;
      ghost var t := RemoveSlot(s, k);
      assert LinkedAt(s, l0, r0, p0, k);
      assert LinkedAt(s, l0, r0, p0, k / 2);
      DetachTestIsParity(s, l0, r0, p0);
      var l, r, p := left, right, parent;
      var ip := p[it];
      if l[ip] == it {
        l := l[ip := Sentinel];
      } else {
        r := r[ip := Sentinel];
      }
      DeleteLastKeepsShape(s, l0, r0, p0, l[it := Null], r[it := Null], p[it := Null]);
      left, right, parent := l[it := Null], r[it := Null], p[it := Null];
      nItems := nItems - 1;
      slots := t;
    }

    /** `it` is neither the root nor the last item `succ`: `succ` is
        unhooked from its parent and takes over `it`'s parent and children,
        which get `succ` as their parent (complete_bin_tree.c:91-110,
        115-118). */
    method DeleteInner(it: Ref, succ: Ref)
      requires Valid() && it in slots && it != root && succ == slots[nItems - 1] && succ != it
      modifies this
      ensures Valid()
      ensures slots == RemoveSlot(old(slots), IndexOf(old(slots), it) + 1)
      ensures nItems == old(nItems) - 1
      ensures Keyed(left, right, parent, it) && left[it] == Null && right[it] == Null && parent[it] == Null
    {
      ghost var s, l0, r0, p0 := slots, left, right, parent;
      ghost var k := IndexOf(s, it) + 1;
      assert LinkedAt(s, l0, r0, p0, k);
      assert LinkedAt(s, l0, r0, p0, k / 2);
      DetachTestIsParity(s, l0, r0, p0);
      var l, r, p := RelinkInner(s, left, right, parent, k, it, succ);
      DeleteInnerKeepsShape(s, l0, r0, p0, k, l, r, p);
      left, right, parent := l, r, p;
      nItems := nItems - 1;
      slots := RemoveSlot(s, k);
    }

    /** complete_bin_tree_get_random_item with the intended draw: draw
        sequence numbers until the item there is active. The random numbers
        are the parameter `draws`, and `active` is the set of items whose
        `active` flag is set. */
    method RandomItem(draws: seq<nat>, active: set<Ref>) returns (r: Option<Ref>)
      requires Valid() && nItems > 0
      ensures r == FirstActiveDraw(slots, draws, active)
    {
      var j := 0;
      while j < |draws|
        invariant 0 <= j <= |draws|
        invariant FirstActiveDraw(slots, draws, active) == FirstActiveDraw(slots, draws[j..], active)
      {
        var sq := Draw(draws[j], nItems);
        var it := Search(sq);
        assert draws[j..][1..] == draws[j + 1..];
        if it in active {
          return Some(it);
        }
        j := j + 1;
      }
      return None;
    }
  }
}
