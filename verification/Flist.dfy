/** The intrusive circular list (fio4emu/flist.h). A list is a head node and, as ghost data, the sequence of
    entries around it; every operation is the matching sequence operation and writes only the nodes it names. */
module Flist {

  class Node {
    var next: Node?
    var prev: Node?

    constructor ()
      ensures next == null && prev == null
    {
      next, prev := null, null;
    }
  }

  /** The node after the i-th entry. */
  ghost function After(head: Node, s: seq<Node>, i: int): Node
    requires -1 <= i < |s|
  {
    if i + 1 < |s| then s[i + 1] else head
  }

  /** The node before the i-th entry. */
  ghost function Before(head: Node, s: seq<Node>, i: int): Node
    requires 0 <= i <= |s|
  {
    if i > 0 then s[i - 1] else head
  }

  ghost predicate Linked(head: Node, s: seq<Node>, i: int)
    requires 0 <= i < |s|
    reads s[i]
  {
    s[i].next == After(head, s, i) && s[i].prev == Before(head, s, i)
  }

  ghost predicate Distinct(s: seq<Node>) {
    forall i, j :: 0 <= i < |s| && 0 <= j < |s| && s[i] == s[j] ==> i == j
  }

  lemma DistinctSplice(a: seq<Node>, t: seq<Node>, b: seq<Node>)
    requires Distinct(a + b) && Distinct(t) && forall x :: x in t ==> x !in a + b
    ensures Distinct(a + t + b)
  {
    var s, r, n, m := a + b, a + t + b, |a|, |a| + |t|;
    forall i, j | 0 <= i < |r| && 0 <= j < |r| && r[i] == r[j] ensures i == j {
      assert n <= i < m ==> r[i] == t[i - n] && r[i] in t;
      assert n <= j < m ==> r[j] == t[j - n] && r[j] in t;
      var i', j' := if i < n then i else i - |t|, if j < n then j else j - |t|;
      assert !(n <= i < m) ==> r[i] == s[i'] && r[i] in s;
      assert !(n <= j < m) ==> r[j] == s[j'] && r[j] in s;
    }
  }

  /** Going forward from the head visits s and returns; next and prev are inverse to each other. */
  ghost predicate IsList(head: Node, s: seq<Node>)
    reads head, s
  {
    && head !in s
    && Distinct(s)
    && head.next == After(head, s, -1)
    && head.prev == Before(head, s, |s|)
    && (forall i :: 0 <= i < |s| ==> Linked(head, s, i))
  }

  /** INIT_FLIST_HEAD */
  method InitHead(head: Node)
    modifies head
    ensures IsList(head, [])
  {
    head.next := head;
    head.prev := head;
  }

  /** flist_add */
  method Add(entry: Node, head: Node, ghost s: seq<Node>)
    requires IsList(head, s) && entry != head && entry !in s
    modifies entry, head, s
    ensures IsList(head, [entry] + s)
  {
    var next := head.next;
    next.prev := entry;
    entry.next := next;
    entry.prev := head;
    head.next := entry;
    ghost var r := [entry] + s;
    forall i | 0 <= i < |r| ensures Linked(head, r, i) {
      if i > 0 { assert r[i] == s[i - 1] && old(Linked(head, s, i - 1)); }
    }
  }

  /** flist_add_tail */
  method AddTail(entry: Node, head: Node, ghost s: seq<Node>)
    requires IsList(head, s) && entry != head && entry !in s
    modifies entry, head, s
    ensures IsList(head, s + [entry])
  {
    var prev := head.prev;
    head.prev := entry;
    entry.next := head;
    entry.prev := prev;
    prev.next := entry;
    ghost var r := s + [entry];
    forall i | 0 <= i < |r| ensures Linked(head, r, i) {
      if i < |s| { assert r[i] == s[i] && old(Linked(head, s, i)); }
    }
  }

  /** flist_del */
  method Delete(entry: Node, ghost head: Node, ghost s: seq<Node>, ghost k: nat)
    requires IsList(head, s) && k < |s| && s[k] == entry
    modifies head, s
    ensures IsList(head, s[..k] + s[k+1..])
    ensures entry.next == null && entry.prev == null
  {
    Unlink(entry, head, s, k);
    entry.next := null;
    entry.prev := null;
  }

  /** flist_del_init */
  method DeleteInit(entry: Node, ghost head: Node, ghost s: seq<Node>, ghost k: nat)
    requires IsList(head, s) && k < |s| && s[k] == entry
    modifies head, s
    ensures IsList(head, s[..k] + s[k+1..]) && IsList(entry, [])
  {
    Unlink(entry, head, s, k);
    InitHead(entry);
  }

  /** __flist_del on the neighbours of an entry. */
  method Unlink(entry: Node, ghost head: Node, ghost s: seq<Node>, ghost k: nat)
    requires IsList(head, s) && k < |s| && s[k] == entry
    modifies head, s
    ensures IsList(head, s[..k] + s[k+1..])
    ensures entry != head && entry !in s[..k] + s[k+1..]
  {
    assert Linked(head, s, k);
    var prev, next := entry.prev, entry.next;
    next.prev := prev;
    prev.next := next;
    ghost var r := s[..k] + s[k+1..];
    assert forall i :: 0 <= i < |r| ==> r[i] == s[if i < k then i else i + 1];
    forall i | 0 <= i < |r| ensures Linked(head, r, i) {
      assert old(Linked(head, s, if i < k then i else i + 1));
    }
  }

  /** flist_empty */
  method Empty(head: Node, ghost s: seq<Node>) returns (e: bool)
    requires IsList(head, s)
    ensures e == (s == [])
  {
    e := head.next == head;
  }

  /** __flist_splice of a non-empty list between two neighbours. */
  method SpliceBetween(list: Node, ghost t: seq<Node>, prev: Node, next: Node,
                       ghost head: Node, ghost a: seq<Node>, ghost b: seq<Node>)
    requires IsList(list, t) && t != [] && IsList(head, a + b)
    requires list != head && list !in a + b && head !in t && forall x :: x in t ==> x !in a + b
    requires prev == Before(head, a, |a|) && next == After(head, b, -1)
    modifies head, a, b, t
    ensures IsList(head, a + t + b)
    ensures list.next == t[0] && list.prev == t[|t| - 1] && t[0].prev == prev
    ensures list !in a + t + b
  {
    DistinctSplice(a, t, b);
    ghost var s, r, n, m := a + b, a + t + b, |a|, |a| + |t|;
    assert Distinct(r) && head !in r && list !in r;
    var first, last := list.next, list.prev;
    assert r[n] == t[0] == first && r[m - 1] == t[|t| - 1] == last;
    assert n > 0 ==> r[n - 1] == prev && s[n - 1] == prev;
    assert m < |r| ==> r[m] == next && s[n] == next;
    first.prev := prev;
    prev.next := first;
    last.next := next;
    next.prev := last;
    forall i | 0 <= i < |r| ensures Linked(head, r, i) {
      if i < n { assert r[i] == s[i] && old(Linked(head, s, i)); }
      else if i < n + |t| { assert r[i] == t[i - n] && old(Linked(list, t, i - n)); }
      else { assert r[i] == s[i - |t|] && old(Linked(head, s, i - |t|)); }
    }
  }

  /** Two well-formed lists with no node in common. */
  ghost predicate Separate(list: Node, t: seq<Node>, head: Node, s: seq<Node>)
    reads list, t, head, s
  {
    && IsList(list, t) && IsList(head, s)
    && list != head && list !in s && head !in t && forall x :: x in t ==> x !in s
  }

  /** A head left behind by a splice still points at the entries, which no longer point back: it heads
      neither the old list nor an empty one. */
  ghost predicate Stale(list: Node, t: seq<Node>)
    requires t != []
    reads list, t
  {
    list.next == t[0] && list.prev == t[|t| - 1] && t[0].prev != list && !IsList(list, t) && !IsList(list, [])
  }

  /** flist_splice */
  method Splice(list: Node, head: Node, ghost t: seq<Node>, ghost s: seq<Node>)
    requires Separate(list, t, head, s)
    modifies head, s, t
    ensures IsList(head, t + s)
    ensures list.next == old(list.next) && list.prev == old(list.prev)
    ensures if t == [] then IsList(list, []) else Stale(list, t)
  {
    if list.next != list {
      assert [] + s == s && [] + t + s == t + s;
      SpliceBetween(list, t, head, head.next, head, [], s);
      assert t[0].prev != list && !Linked(list, t, 0);
    } else {
      assert t == [] && t + s == s;
    }
  }

  /** flist_splice_tail */
  method SpliceTail(list: Node, head: Node, ghost t: seq<Node>, ghost s: seq<Node>)
    requires Separate(list, t, head, s)
    modifies head, s, t
    ensures IsList(head, s + t)
    ensures list.next == old(list.next) && list.prev == old(list.prev)
    ensures if t == [] then IsList(list, []) else Stale(list, t)
  {
    if list.next != list {
      assert s + [] == s && s + t + [] == s + t;
      SpliceBetween(list, t, head.prev, head, head, s, []);
      assert t[0].prev != list && !Linked(list, t, 0);
    } else {
      assert t == [] && s + t == s;
    }
  }

  /** flist_splice_init */
  method SpliceInit(list: Node, head: Node, ghost t: seq<Node>, ghost s: seq<Node>)
    requires Separate(list, t, head, s)
    modifies list, head, s, t
    ensures IsList(head, t + s)
    ensures IsList(list, [])
  {
    if list.next != list {
      assert [] + s == s && [] + t + s == t + s;
      SpliceBetween(list, t, head, head.next, head, [], s);
      assert IsList(head, t + s) && list !in t + s;
      InitHead(list);
    } else {
      assert t == [] && t + s == s;
    }
  }

  /** flist_splice_tail_init */
  method SpliceTailInit(list: Node, head: Node, ghost t: seq<Node>, ghost s: seq<Node>)
    requires Separate(list, t, head, s)
    modifies list, head, s, t
    ensures IsList(head, s + t)
    ensures IsList(list, [])
  {
    if list.next != list {
      assert s + [] == s && s + t + [] == s + t;
      SpliceBetween(list, t, head.prev, head, head, s, []);
      InitHead(list);
    } else {
      assert t == [] && s + t == s;
    }
  }
}
