/** The write history kept for verification (fio4emu/iolog.c): a search tree of written ranges,
    or a plain list when a random map rules overlaps out. */
module VerifyHistory {

  import opened Bits
  import opened Options

  /** An io_piece; `id` is its address. */
  datatype Piece = Piece(id: nat, file: nat, offset: nat, len: nat)

  /** A non-empty range that ends within the 64-bit offsets. */
  predicate Extent(p: Piece) {
    p.len > 0 && p.offset + p.len < TWO_64
  }

  /** The two ranges share a byte. */
  predicate Overlap(a: Piece, b: Piece) {
    a.file == b.file && a.offset < b.offset + b.len && b.offset < a.offset + a.len
  }

  predicate Before(a: Piece, b: Piece) {
    a.file < b.file || (a.file == b.file && a.offset + a.len <= b.offset)
  }

  /** Sorted and pairwise disjoint. */
  predicate Sorted(s: seq<Piece>) {
    forall i, j :: 0 <= i < j < |s| ==> Before(s[i], s[j])
  }

  predicate Extents(s: seq<Piece>) {
    forall q :: q in s ==> Extent(q)
  }

  datatype Tree = Leaf | Node(left: Tree, piece: Piece, right: Tree)

  function InOrder(t: Tree): seq<Piece> {
    match t
    case Leaf => []
    case Node(l, p, r) => InOrder(l) + [p] + InOrder(r)
  }

  // ----- the history after one write, and after many -----

  function Filter(s: seq<Piece>, keep: Piece -> bool): seq<Piece> {
    if s == [] then []
    else if keep(s[0]) then [s[0]] + Filter(s[1..], keep)
    else Filter(s[1..], keep)
  }

  function Below(p: Piece): Piece -> bool {
    (q: Piece) => Before(q, p)
  }
  function Above(p: Piece): Piece -> bool {
    (q: Piece) => Before(p, q)
  }
  function Except(p: Piece): Piece -> bool {
    (q: Piece) => q != p
  }

  /** Logging `p` keeps what lies wholly below and wholly above it. */
  function Logged(s: seq<Piece>, p: Piece): seq<Piece> {
    Filter(s, Below(p)) + [p] + Filter(s, Above(p))
  }

  lemma {:induction false} FilterMembers(s: seq<Piece>, keep: Piece -> bool)
    ensures forall q :: q in Filter(s, keep) <==> q in s && keep(q)
  {
    if s != [] {
      FilterMembers(s[1..], keep);
      assert s == [s[0]] + s[1..];
    }
  }

  lemma {:induction false} FilterConcat(a: seq<Piece>, b: seq<Piece>, keep: Piece -> bool)
    ensures Filter(a + b, keep) == Filter(a, keep) + Filter(b, keep)
  {
    if a == [] {
      assert a + b == b;
    } else {
      var first := if keep(a[0]) then [a[0]] else [];
      calc {
        Filter(a + b, keep);
        { assert (a + b)[0] == a[0] && (a + b)[1..] == a[1..] + b; }
        first + Filter(a[1..] + b, keep);
        { FilterConcat(a[1..], b, keep); }
        first + (Filter(a[1..], keep) + Filter(b, keep));
        Filter(a, keep) + Filter(b, keep);
      }
    }
  }

  lemma {:induction false} FilterAll(s: seq<Piece>, keep: Piece -> bool)
    requires forall q :: q in s ==> keep(q)
    ensures Filter(s, keep) == s
  {
    if s != [] { FilterAll(s[1..], keep); }
  }

  lemma {:induction false} FilterNone(s: seq<Piece>, keep: Piece -> bool)
    requires forall q :: q in s ==> !keep(q)
    ensures Filter(s, keep) == []
  {
    if s != [] { FilterNone(s[1..], keep); }
  }

  lemma {:induction false} FilterSorted(s: seq<Piece>, keep: Piece -> bool)
    requires Sorted(s)
    ensures Sorted(Filter(s, keep))
  {
    if s != [] {
      FilterSorted(s[1..], keep);
      FilterMembers(s[1..], keep);
      forall q | q in Filter(s[1..], keep) ensures Before(s[0], q) {
        var i :| 1 <= i < |s| && s[i] == q;
      }
    }
  }

  /** Two extents overlap exactly when neither lies before the other. */
  lemma OverlapOrOrdered(a: Piece, b: Piece)
    requires Extent(a) && Extent(b)
    ensures Overlap(a, b) <==> !Before(a, b) && !Before(b, a)
    ensures !(Before(a, b) && Before(b, a))
  {}

  /** What Logged means: sorted and disjoint again, holding the new piece and
      exactly the old pieces that do not overlap it. */
  lemma LoggedContents(s: seq<Piece>, p: Piece)
    requires Sorted(s) && Extents(s) && Extent(p)
    ensures Sorted(Logged(s, p)) && Extents(Logged(s, p))
    ensures forall q :: q in Logged(s, p) <==> q == p || (q in s && !Overlap(q, p))
  {
    var lo, hi := Filter(s, Below(p)), Filter(s, Above(p));
    FilterMembers(s, Below(p));
    FilterMembers(s, Above(p));
    FilterSorted(s, Below(p));
    FilterSorted(s, Above(p));
    forall q | q in s ensures Overlap(q, p) <==> !Before(q, p) && !Before(p, q) {
      OverlapOrOrdered(q, p);
    }
    SortedAround(lo, p, hi);
  }

  lemma SortedAround(lo: seq<Piece>, p: Piece, hi: seq<Piece>)
    requires Sorted(lo) && Sorted(hi) && Extent(p)
    requires forall q :: q in lo ==> Before(q, p)
    requires forall q :: q in hi ==> Before(p, q)
    ensures Sorted(lo + [p] + hi)
  {
    var s := lo + [p] + hi;
    forall i, j | 0 <= i < j < |s| ensures Before(s[i], s[j]) {
      if i < |lo| { assert s[i] in lo; }
      if j > |lo| { assert s[j] in hi; }
    }
  }

  /** The history after a whole run of writes into an empty tree. */
  function History(writes: seq<Piece>): seq<Piece> {
    if writes == [] then [] else Logged(History(writes[..|writes| - 1]), writes[|writes| - 1])
  }

  /** Write `i` is later overwritten, in whole or in part. */
  ghost predicate Overwritten(writes: seq<Piece>, i: nat)
    requires i < |writes|
  {
    exists j :: i < j < |writes| && Overlap(writes[i], writes[j])
  }

  lemma OverwrittenStep(earlier: seq<Piece>, w: Piece, i: nat)
    requires i < |earlier|
    ensures Overwritten(earlier + [w], i) <==> Overwritten(earlier, i) || Overlap(earlier[i], w)
  {
    var writes := earlier + [w];
    if Overwritten(earlier, i) {
      var j :| i < j < |earlier| && Overlap(earlier[i], earlier[j]);
      assert Overlap(writes[i], writes[j]);
    }
    if Overlap(earlier[i], w) {
      assert Overlap(writes[i], writes[|earlier|]);
    }
  }

  /** Over a whole run the history holds exactly the writes that no later write touched. */
  lemma {:induction false} HistoryIsLatestWrites(writes: seq<Piece>, q: Piece)
    requires Extents(writes)
    ensures Sorted(History(writes)) && Extents(History(writes))
    ensures q in History(writes) <==> exists i: nat :: i < |writes| && writes[i] == q && !Overwritten(writes, i)
  {
    if writes != [] {
      var n := |writes| - 1;
      var w, earlier := writes[n], writes[..n];
      forall x | x in earlier ensures x in writes {}
      HistoryIsLatestWrites(earlier, q);
      LoggedContents(History(earlier), w);
      assert !Overwritten(writes, n);
      forall i: nat | i < n { OverwrittenStep(earlier, w, i); }
      assert writes == earlier + [w];
      if q != w && q in History(earlier) && !Overlap(q, w) {
        var i: nat :| i < n && earlier[i] == q && !Overwritten(earlier, i);
        assert writes[i] == q && !Overwritten(writes, i);
      }
      if i: nat :| i < |writes| && writes[i] == q && !Overwritten(writes, i) {
        assert i < n ==> earlier[i] == q;
      }
    }
  }

  // ----- the walk -----

  /** The position reached by the walk: the path back up to the root. */
  datatype Path =
    | Root
    | WentLeft(up: Path, piece: Piece, right: Tree)
    | WentRight(up: Path, left: Tree, piece: Piece)

  function Plug(path: Path, t: Tree): Tree {
    match path
    case Root => t
    case WentLeft(up, p, r) => Plug(up, Node(t, p, r))
    case WentRight(up, l, p) => Plug(up, Node(l, p, t))
  }

  ghost function Lower(path: Path): seq<Piece> {
    match path
    case Root => []
    case WentLeft(up, _, _) => Lower(up)
    case WentRight(up, l, p) => Lower(up) + (InOrder(l) + [p])
  }

  ghost function Upper(path: Path): seq<Piece> {
    match path
    case Root => []
    case WentLeft(up, p, r) => [p] + InOrder(r) + Upper(up)
    case WentRight(up, _, _) => Upper(up)
  }

  lemma {:induction false} PlugInOrder(path: Path, t: Tree)
    ensures InOrder(Plug(path, t)) == Lower(path) + InOrder(t) + Upper(path)
  {
    match path
    case Root =>
    case WentLeft(up, p, r) => PlugInOrder(up, Node(t, p, r));
    case WentRight(up, l, p) => PlugInOrder(up, Node(l, p, t));
  }

  /** A tree with the given in-order content, to show that one exists. */
  function Spine(s: seq<Piece>): (t: Tree)
    ensures InOrder(t) == s
  {
    if s == [] then Leaf else Node(Leaf, s[0], Spine(s[1..]))
  }

  /** rb_erase and rb_insert_color may reshape the tree in any way that keeps its content. */
  method Rebalanced(s: seq<Piece>) returns (t: Tree)
    ensures InOrder(t) == s
  {
    assert InOrder(Spine(s)) == s;
    t :| InOrder(t) == s;
  }

  /** Where a descent for `p` can end: at a piece that overlaps it, or at the empty link where it belongs,
      with everything below on its left, everything above on its right, and nothing overlapping. */
  ghost predicate Reached(tree: Tree, p: Piece, path: Path, at: Tree) {
    && Plug(path, at) == tree
    && (at.Node? ==> Overlap(at.piece, p))
    && (at.Leaf? ==> forall q :: q in InOrder(tree) ==> !Overlap(q, p))
    && (at.Leaf? ==> forall q :: q in Lower(path) ==> Before(q, p))
    && (at.Leaf? ==> forall q :: q in Upper(path) ==> Before(p, q))
  }

  /** In a sorted tree the left subtree lies before the piece at its root and the right one after it. */
  lemma NeighboursOrdered(lo: seq<Piece>, at: Tree, hi: seq<Piece>)
    requires at.Node? && Sorted(lo + InOrder(at) + hi)
    ensures forall q :: q in InOrder(at.left) ==> Before(q, at.piece)
    ensures forall q :: q in InOrder(at.right) ==> Before(at.piece, q)
  {
    var s := lo + InOrder(at) + hi;
    var l := InOrder(at.left);
    var k := |lo| + |l|;
    assert s[k] == at.piece;
    forall q | q in l ensures Before(q, at.piece) {
      var i :| 0 <= i < |l| && l[i] == q;
      assert s[|lo| + i] == q;
    }
    forall q | q in InOrder(at.right) ensures Before(at.piece, q) {
      var i :| 0 <= i < |InOrder(at.right)| && InOrder(at.right)[i] == q;
      assert s[k + 1 + i] == q;
    }
  }

  /** Going left past a piece after `p`, or right past one before it, keeps everything passed in order. */
  lemma {:induction false} DescentKeepsOrder(tree: Tree, p: Piece, path: Path, at: Tree)
    requires Sorted(InOrder(tree)) && Extents(InOrder(tree)) && Plug(path, at) == tree && at.Node?
    requires forall q :: q in Lower(path) ==> Before(q, p)
    requires forall q :: q in Upper(path) ==> Before(p, q)
    ensures Extent(at.piece)
    ensures Before(p, at.piece) ==> forall q :: q in Upper(WentLeft(path, at.piece, at.right)) ==> Before(p, q)
    ensures Before(at.piece, p) ==> forall q :: q in Lower(WentRight(path, at.left, at.piece)) ==> Before(q, p)
  {
    PlugInOrder(path, at);
    NeighboursOrdered(Lower(path), at, Upper(path));
  }

  /** One descent from the root: it stops at the first piece on the path that overlaps `p`, or at the
      empty link where `p` belongs. Reaching the link shows that nothing in the whole tree overlaps,
      although only one path was looked at. */
  method Walk(tree: Tree, p: Piece) returns (path: Path, at: Tree)
    requires Sorted(InOrder(tree)) && Extents(InOrder(tree)) && Extent(p)
    ensures Reached(tree, p, path, at)
  {
    path, at := Root, tree;
    while at.Node?
      invariant Plug(path, at) == tree
      invariant forall q :: q in Lower(path) ==> Before(q, p)
      invariant forall q :: q in Upper(path) ==> Before(p, q)
      decreases at
    {
      var here := at.piece;
      DescentKeepsOrder(tree, p, path, at);
      if p.file < here.file {
        path, at := WentLeft(path, here, at.right), at.left;
      } else if p.file > here.file {
        path, at := WentRight(path, at.left, here), at.right;
      } else if p.offset < here.offset {
        if U64(p.offset + p.len) > here.offset { return; }
        path, at := WentLeft(path, here, at.right), at.left;
      } else if p.offset > here.offset {
        if U64(here.offset + here.len) > p.offset { return; }
        path, at := WentRight(path, at.left, here), at.right;
      } else {
        return;
      }
    }
    PlugInOrder(path, at);
    forall q | q in InOrder(tree) ensures !Overlap(q, p) {
      OverlapOrOrdered(q, p);
    }
  }

  // ----- erasing one piece -----

  function Minus(s: seq<Piece>, k: nat): seq<Piece>
    requires k < |s|
  {
    s[..k] + s[k+1..]
  }

  lemma {:induction false} MinusIsFilter(s: seq<Piece>, k: nat)
    requires k < |s| && s[k] !in Minus(s, k)
    ensures Minus(s, k) == Filter(s, Except(s[k]))
  {
    var lo, hi, keep := s[..k], s[k+1..], Except(s[k]);
    assert s == lo + ([s[k]] + hi);
    FilterConcat(lo, [s[k]] + hi, keep);
    FilterConcat([s[k]], hi, keep);
    FilterNone([s[k]], keep);
    FilterAll(lo, keep);
    FilterAll(hi, keep);
  }

  lemma MinusKeeps(s: seq<Piece>, k: nat)
    requires k < |s| && Sorted(s)
    ensures Sorted(Minus(s, k))
    ensures forall q :: q in s <==> q == s[k] || q in Minus(s, k)
  {
    var r := Minus(s, k);
    forall q | q in s && q != s[k] ensures q in r {
      var i :| 0 <= i < |s| && s[i] == q;
      assert i < k ==> r[i] == q;
      assert i > k ==> r[i-1] == q;
    }
    forall q | q in r ensures q in s {
      var i :| 0 <= i < |r| && r[i] == q;
      assert q == if i < k then s[i] else s[i+1];
    }
  }

  /** Erasing an overlapped piece does not change what logging `p` will leave. */
  lemma MinusLogged(s: seq<Piece>, k: nat, p: Piece)
    requires k < |s| && Extent(s[k]) && Extent(p) && Overlap(s[k], p)
    ensures Logged(Minus(s, k), p) == Logged(s, p)
  {
    var a, b := s[..k], s[k+1..];
    assert s == a + [s[k]] + b;
    OverlapOrOrdered(s[k], p);
    forall keep | keep == Below(p) || keep == Above(p)
      ensures Filter(s, keep) == Filter(a + b, keep)
    {
      FilterNone([s[k]], keep);
      FilterConcat(a, [s[k]], keep);
      FilterConcat(a + [s[k]], b, keep);
      FilterConcat(a, b, keep);
    }
  }

  /** With nothing overlapping, linking at the end of the walk is what Logged asks for. */
  lemma LinkLogged(lo: seq<Piece>, p: Piece, hi: seq<Piece>)
    requires Extent(p) && Extents(lo) && Extents(hi)
    requires forall q :: q in lo ==> Before(q, p)
    requires forall q :: q in hi ==> Before(p, q)
    ensures Logged(lo + hi, p) == lo + [p] + hi
  {
    FilterConcat(lo, hi, Below(p));
    FilterConcat(lo, hi, Above(p));
    forall q | q in lo ensures !Before(p, q) { OverlapOrOrdered(q, p); }
    forall q | q in hi ensures !Before(q, p) { OverlapOrOrdered(q, p); }
    FilterAll(lo, Below(p));
    FilterNone(hi, Below(p));
    FilterNone(lo, Above(p));
    FilterAll(hi, Above(p));
  }

  /** The pieces whose memory logging `p` gives back: overlapped and no longer in flight. */
  ghost function Freed(s: seq<Piece>, p: Piece, inFlight: set<nat>): set<nat> {
    set q | q in s && Overlap(q, p) && q.id !in inFlight :: q.id
  }

  /** The overlapped pieces still in flight: erased, but their memory is not given back. */
  ghost function Stranded(s: seq<Piece>, p: Piece, inFlight: set<nat>): set<nat> {
    set q | q in s && Overlap(q, p) && q.id in inFlight :: q.id
  }

  /** The pieces whose links are all null, once `at` is unlinked. */
  function Unlinked(bare: set<nat>, path: Path, at: Tree): set<nat>
    requires at.Node?
  {
    if path.Root? && Alone(at) then bare + {at.piece.id} else bare - {at.piece.id}
  }

  /** The piece at the root has no children. */
  predicate Alone(at: Tree) {
    at.Node? && at.left == Leaf && at.right == Leaf
  }

  /** The history holds one piece, and p overlaps it. */
  ghost predicate Lone(s: seq<Piece>, p: Piece) {
    |s| == 1 && Overlap(s[0], p)
  }

  ghost predicate UniqueIds(s: seq<Piece>) {
    forall i, j :: 0 <= i < |s| && 0 <= j < |s| && s[i].id == s[j].id ==> i == j
  }

  /** Ids of a sequence of pieces. */
  ghost function Ids(s: seq<Piece>): set<nat> {
    set q | q in s :: q.id
  }

  /** A history in good order: tree content sorted and disjoint, one piece per address, all of them live. */
  ghost predicate WellKept(s: seq<Piece>, list: seq<Piece>, live: set<nat>) {
    && Sorted(s) && Extents(s)
    && UniqueIds(s + list)
    && forall q :: q in s + list ==> q.id in live
  }

  /** How far the restarts have come: starting from content `s0`, overlapped pieces are gone,
      and what logging `p` will leave is still the same. */
  ghost predicate Pruning(s0: seq<Piece>, s: seq<Piece>, p: Piece, list: seq<Piece>) {
    && Sorted(s) && Extents(s) && Extent(p)
    && UniqueIds(s + list)
    && (forall q :: q in s ==> q in s0)
    && Logged(s, p) == Logged(s0, p)
  }

  lemma UniqueMinus(s: seq<Piece>, k: nat, list: seq<Piece>)
    requires k < |s| && UniqueIds(s + list)
    ensures UniqueIds(Minus(s, k) + list)
  {
    var a, b := s + list, Minus(s, k) + list;
    forall i, j | 0 <= i < |b| && 0 <= j < |b| && b[i].id == b[j].id ensures i == j {
      var i', j' := if i < k then i else i + 1, if j < k then j else j + 1;
      assert a[i'] == b[i] && a[j'] == b[j];
    }
  }

  lemma PruneOne(s0: seq<Piece>, s: seq<Piece>, k: nat, p: Piece, list: seq<Piece>)
    requires Pruning(s0, s, p, list) && k < |s| && Overlap(s[k], p)
    ensures Pruning(s0, Minus(s, k), p, list)
  {
    MinusKeeps(s, k);
    MinusLogged(s, k, p);
    UniqueMinus(s, k, list);
  }

  lemma UniqueInsert(lo: seq<Piece>, p: Piece, hi: seq<Piece>, list: seq<Piece>)
    requires UniqueIds(lo + hi + list)
    requires forall q :: q in lo + hi + list ==> q.id != p.id
    ensures UniqueIds(lo + [p] + hi + list)
  {
    var a, b := lo + hi + list, lo + [p] + hi + list;
    forall i, j | 0 <= i < |b| && 0 <= j < |b| && b[i].id == b[j].id ensures i == j {
      var i', j' := if i < |lo| then i else i - 1, if j < |lo| then j else j - 1;
      assert i != |lo| ==> b[i] == a[i'] && a[i'] in a;
      assert j != |lo| ==> b[j] == a[j'] && a[j'] in a;
    }
  }

  lemma PruneDone(s0: seq<Piece>, lo: seq<Piece>, hi: seq<Piece>, p: Piece, list: seq<Piece>)
    requires Pruning(s0, lo + hi, p, list)
    requires forall q :: q in lo ==> Before(q, p)
    requires forall q :: q in hi ==> Before(p, q)
    requires forall q :: q in s0 + list ==> q.id != p.id
    ensures lo + [p] + hi == Logged(s0, p)
    ensures Sorted(lo + [p] + hi) && Extents(lo + [p] + hi) && UniqueIds(lo + [p] + hi + list)
    ensures forall q :: q in lo + [p] + hi ==> q == p || q in s0
  {
    assert forall q :: q in lo || q in hi ==> q in lo + hi;
    LinkLogged(lo, p, hi);
    assert Sorted(lo) && Sorted(hi) by {
      assert lo == (lo + hi)[..|lo|] && hi == (lo + hi)[|lo|..];
    }
    SortedAround(lo, p, hi);
    UniqueInsert(lo, p, hi, list);
  }

  lemma UniqueAppend(s: seq<Piece>, p: Piece)
    requires UniqueIds(s) && forall q :: q in s ==> q.id != p.id
    ensures UniqueIds(s + [p])
  {
    assert forall i :: 0 <= i < |s| ==> s[i] in s;
  }

  lemma MinusMiddle(s: seq<Piece>, s': seq<Piece>, lo: seq<Piece>, l: seq<Piece>, p: Piece, r: seq<Piece>, hi: seq<Piece>)
    requires s == lo + (l + [p] + r) + hi && s' == lo + (l + r) + hi
    ensures |lo| + |l| < |s| && s[|lo| + |l|] == p && s' == Minus(s, |lo| + |l|)
  {
    assert s[..|lo| + |l|] == lo + l;
    assert s[|lo| + |l| + 1..] == r + hi;
  }

  /** The two subtrees of an erased node as one tree. */
  function Joined(l: Tree, r: Tree): Tree {
    match l
    case Leaf => r
    case Node(a, p, b) => Node(a, p, Joined(b, r))
  }

  lemma {:induction false} JoinedInOrder(l: Tree, r: Tree)
    ensures InOrder(Joined(l, r)) == InOrder(l) + InOrder(r)
  {
    match l
    case Leaf =>
    case Node(a, p, b) => JoinedInOrder(b, r);
  }

  lemma {:induction false} EraseInOrder(path: Path, at: Tree)
    requires at.Node?
    ensures var s, k := InOrder(Plug(path, at)), |Lower(path)| + |InOrder(at.left)|;
      k < |s| && s[k] == at.piece && InOrder(Plug(path, Joined(at.left, at.right))) == Minus(s, k)
  {
    var s, s' := InOrder(Plug(path, at)), InOrder(Plug(path, Joined(at.left, at.right)));
    PlugInOrder(path, at);
    JoinedInOrder(at.left, at.right);
    PlugInOrder(path, Joined(at.left, at.right));
    MinusMiddle(s, s', Lower(path), InOrder(at.left), at.piece, InOrder(at.right), Upper(path));
  }

  /** Removing one piece from a sequence with unique ids. */
  lemma MinusUnique(s: seq<Piece>, k: nat)
    requires k < |s| && UniqueIds(s)
    ensures UniqueIds(Minus(s, k))
    ensures forall q :: q in Minus(s, k) <==> q in s && q != s[k]
    ensures Ids(Minus(s, k)) == Ids(s) - {s[k].id}
  {
    var r := Minus(s, k);
    assert s + [] == s && r + [] == r;
    UniqueMinus(s, k, []);
    forall q | q in s && q != s[k] ensures q in r && q.id != s[k].id {
      var i :| 0 <= i < |s| && s[i] == q;
      assert i < k ==> r[i] == q;
      assert i > k ==> r[i-1] == q;
    }
    forall q | q in r ensures q in s && q != s[k] {
      var i :| 0 <= i < |r| && r[i] == q;
      assert q == s[if i < k then i else i + 1];
    }
  }

  lemma MinusLeft(a: seq<Piece>, b: seq<Piece>, k: nat)
    requires k < |a|
    ensures Minus(a + b, k) == Minus(a, k) + b
  {
    assert (a + b)[..k] == a[..k] && (a + b)[k + 1..] == a[k + 1..] + b;
  }

  lemma MinusRight(a: seq<Piece>, b: seq<Piece>, k: nat)
    requires k < |b|
    ensures Minus(a + b, |a| + k) == a + Minus(b, k) && (a + b)[|a| + k] == b[k]
  {
    assert (a + b)[..|a| + k] == a + b[..k] && (a + b)[|a| + k + 1..] == b[k + 1..];
  }

  lemma RemoveFromTree(s: seq<Piece>, list: seq<Piece>, live: set<nat>, k: nat)
    requires WellKept(s, list, live) && k < |s|
    ensures WellKept(Minus(s, k), list, live - {s[k].id})
    ensures forall q :: q in Minus(s, k) <==> q in s && q != s[k]
    ensures s[k] !in list
    ensures Ids(Minus(s, k) + list) == Ids(s + list) - {s[k].id}
  {
    MinusKeeps(s, k);
    MinusUnique(s + list, k);
    MinusLeft(s, list, k);
    assert forall q :: q in s + list <==> q in s || q in list;
    assert forall q :: q in Minus(s, k) ==> q in Minus(s, k) + list;
    assert forall q :: q in list ==> q in Minus(s, k) + list;
  }

  lemma RemoveFromList(s: seq<Piece>, list: seq<Piece>, live: set<nat>, k: nat)
    requires WellKept(s, list, live) && k < |list|
    ensures WellKept(s, Minus(list, k), live - {list[k].id})
    ensures forall q :: q in Minus(list, k) <==> q in list && q != list[k]
    ensures list[k] !in s
    ensures Ids(s + Minus(list, k)) == Ids(s + list) - {list[k].id}
  {
    MinusUnique(s + list, |s| + k);
    MinusRight(s, list, k);
    assert forall q :: q in s + list <==> q in s || q in list;
    assert forall q :: q in Minus(list, k) ==> q in s + Minus(list, k);
    assert forall q :: q in s ==> q in s + Minus(list, k);
  }

  /** From s and list to s' and list' exactly the piece p is gone. */
  ghost predicate Removed(s: seq<Piece>, list: seq<Piece>, s': seq<Piece>, list': seq<Piece>,
                          live: set<nat>, p: Piece)
  {
    && WellKept(s', list', live - {p.id})
    && Ids(s' + list') == Ids(s + list) - {p.id}
    && |s'| + |list'| == |s| + |list| - 1
  }

  lemma Held(s: seq<Piece>, list: seq<Piece>, p: Piece)
    ensures p in s + list ==> p.id in Ids(s + list)
  {}

  /** The state of the restart loop: what is gone so far was overlapped, and its memory was given back
      unless still in flight. */
  ghost predicate Erasing(s0: seq<Piece>, s: seq<Piece>, p: Piece, list: seq<Piece>,
                          inFlight: set<nat>, live0: set<nat>, live: set<nat>)
  {
    && Pruning(s0, s, p, list)
    && live == live0 - (Freed(s0, p, inFlight) - Freed(s, p, inFlight))
  }

  lemma FreedWithin(s0: seq<Piece>, s: seq<Piece>, p: Piece, inFlight: set<nat>)
    requires forall q :: q in s ==> q in s0
    ensures Freed(s, p, inFlight) <= Freed(s0, p, inFlight)
  {}

  lemma FreedMinus(s: seq<Piece>, k: nat, p: Piece, inFlight: set<nat>, list: seq<Piece>)
    requires k < |s| && Sorted(s) && UniqueIds(s + list) && Overlap(s[k], p)
    ensures Freed(Minus(s, k), p, inFlight) == Freed(s, p, inFlight) - (if s[k].id in inFlight then {} else {s[k].id})
  {
    MinusKeeps(s, k);
    var r := Minus(s, k);
    forall q | q in r ensures q.id != s[k].id {
      var i :| 0 <= i < |r| && r[i] == q;
      var i' := if i < k then i else i + 1;
      assert (s + list)[i'] == q && (s + list)[k] == s[k];
    }
  }

  lemma EraseOne(s0: seq<Piece>, s: seq<Piece>, k: nat, p: Piece, list: seq<Piece>,
                 inFlight: set<nat>, live0: set<nat>, live: set<nat>)
    requires Erasing(s0, s, p, list, inFlight, live0, live) && k < |s| && Overlap(s[k], p)
    ensures Erasing(s0, Minus(s, k), p, list, inFlight, live0, if s[k].id in inFlight then live else live - {s[k].id})
  {
    PruneOne(s0, s, k, p, list);
    FreedMinus(s, k, p, inFlight, list);
    FreedWithin(s0, s, p, inFlight);
    assert s[k] in s;
  }

  /** Linking the new piece where the last descent ended completes the logging. */
  lemma {:induction false} LinkDone(s0: seq<Piece>, tree: Tree, path: Path, p: Piece, list: seq<Piece>)
    requires Pruning(s0, InOrder(tree), p, list) && Reached(tree, p, path, Leaf)
    requires forall q :: q in s0 + list ==> q.id != p.id
    ensures var s := InOrder(Plug(path, Node(Leaf, p, Leaf)));
      s == Logged(s0, p) && |s| == |InOrder(tree)| + 1 && Sorted(s) && Extents(s) && UniqueIds(s + list)
  {
    var lo, hi := Lower(path), Upper(path);
    assert InOrder(tree) == lo + hi by { PlugInOrder(path, Leaf); }
    PruneDone(s0, lo, hi, p, list);
    assert InOrder(Node(Leaf, p, Leaf)) == [p];
    assert InOrder(Plug(path, Node(Leaf, p, Leaf))) == lo + [p] + hi by { PlugInOrder(path, Node(Leaf, p, Leaf)); }
  }

  /** No piece the history still holds has been given back. */
  lemma LoggedIsLive(s: seq<Piece>, p: Piece, list: seq<Piece>, inFlight: set<nat>, live: set<nat>)
    requires Sorted(s) && Extents(s) && Extent(p) && UniqueIds(s + list)
    requires p.id !in live && forall q :: q in s + list ==> q.id in live
    ensures forall q :: q in Logged(s, p) + list ==> q.id in live + {p.id} - Freed(s, p, inFlight)
  {
    LoggedContents(s, p);
    var all := s + list;
    forall q, f | q in all && f in s && Overlap(f, p) && (q in list || !Overlap(q, p)) ensures q.id != f.id {
      var j :| 0 <= j < |s| && s[j] == f;
      if q in list {
        var i :| 0 <= i < |list| && list[i] == q;
        assert all[|s| + i] == q && all[j] == f;
      } else {
        var i :| 0 <= i < |s| && s[i] == q;
        assert all[i] == q && all[j] == f;
      }
    }
  }

  /** The pieces of the old history are those still held, those freed and those stranded. */
  lemma LoggedOwners(s: seq<Piece>, p: Piece, list: seq<Piece>, inFlight: set<nat>)
    requires Sorted(s) && Extents(s) && Extent(p) && UniqueIds(s + list)
    requires p.id !in Ids(s + list)
    ensures Ids(s + list) + {p.id} - Freed(s, p, inFlight) == Ids(Logged(s, p) + list) + Stranded(s, p, inFlight)
    ensures Ids(Logged(s, p) + list) !! Stranded(s, p, inFlight)
    ensures Stranded(s, p, inFlight) <= Ids(s + list)
  {
    LoggedContents(s, p);
    var all, kept := s + list, Logged(s, p) + list;
    forall q, f | q in all && f in all && q.id == f.id ensures q == f {
      var i :| 0 <= i < |all| && all[i] == q;
      var j :| 0 <= j < |all| && all[j] == f;
    }
    forall i, j | 0 <= i < |s| && 0 <= j < |list| ensures s[i] != list[j] {
      assert all[i] == s[i] && all[|s| + j] == list[j];
    }
    assert forall q :: q in kept <==> q == p || (q in s && !Overlap(q, p)) || q in list;
    assert forall q :: q in all <==> q in s || q in list;
  }

  lemma {:induction false} IdsAtMost(s: seq<Piece>)
    ensures |Ids(s)| <= |s|
  {
    if s == [] {
      assert Ids(s) == {};
    } else {
      IdsAtMost(s[1..]);
      assert Ids(s) == {s[0].id} + Ids(s[1..]) by { IdsSplit(s); }
    }
  }

  lemma {:induction false} IdsCount(s: seq<Piece>)
    requires UniqueIds(s)
    ensures |Ids(s)| == |s|
  {
    if s == [] {
      assert Ids(s) == {};
    } else {
      IdsCount(s[1..]);
      assert Ids(s) == {s[0].id} + Ids(s[1..]) by { IdsSplit(s); }
      forall q | q in s[1..] ensures q.id != s[0].id {
        var i :| 1 <= i < |s| && s[i] == q;
      }
    }
  }

  lemma IdsSplit(s: seq<Piece>)
    requires s != []
    ensures Ids(s) == {s[0].id} + Ids(s[1..])
  {
    assert forall q :: q in s <==> q == s[0] || q in s[1..];
  }

  /** A piece erased earlier is counted out a second time. Whatever that leaves in the tree, if the count is
      right afterwards then some live piece is neither held nor known to be waiting for its completion. */
  lemma OrphanLosesPiece(s: seq<Piece>, s': seq<Piece>, list: seq<Piece>, orphans: set<nat>, id: nat)
    requires UniqueIds(s + list) && Ids(s + list) !! orphans && id in orphans && |s'| == |s| - 1
    ensures Ids(s + list) + orphans - {id} - Ids(s' + list) - (orphans - {id}) != {}
  {
    var live, kept := Ids(s + list) + orphans - {id}, Ids(s' + list) + (orphans - {id});
    IdsCount(s + list);
    IdsAtMost(s' + list);
    assert |live| == |s + list| + |orphans| - 1;
    assert |kept| <= |s' + list| + |orphans| - 1;
    if live <= kept {
      SubsetSize(live, kept);
      assert false;
    }
  }

  lemma SubsetSize(a: set<nat>, b: set<nat>)
    requires a <= b
    ensures |a| <= |b|
  {
    assert b == a + (b - a);
  }

  lemma {:induction false} Overwriting(a: Piece, b: Piece, inFlight: set<nat>)
    requires Overlap(a, b) && a.id != b.id && a.id in inFlight
    ensures Logged([], a) == [a] && Logged([a], b) == [b] && Filter([b], Except(a)) == [b]
    ensures Stranded([a], b, inFlight) == {a.id}
  {
    FilterNone([a], Below(b));
    FilterNone([a], Above(b));
    FilterAll([b], Except(a));
    assert a in [a];
  }

  /** The only piece of a tree is its root and has no children. */
  lemma LoneTree(path: Path, at: Tree)
    requires at.Node? && |InOrder(Plug(path, at))| == 1
    ensures path.Root? && Alone(at) && InOrder(Plug(path, at)) == [at.piece]
  {
    NoPiecesNoTree(at.left);
    NoPiecesNoTree(at.right);
    PlugInOrder(path, at);
  }

  lemma NoPiecesNoTree(t: Tree)
    ensures InOrder(t) == [] <==> t == Leaf
  {}

  /** How the restart loop goes on: nothing erased yet, or a lone piece erased bare. */
  ghost predicate Bared(s0: seq<Piece>, s: seq<Piece>, p: Piece, bare: set<nat>) {
    || s == s0
    || (|s| < |s0| && (Lone(s0, p) ==> s0[0].id in bare))
  }

  lemma BaredOne(s0: seq<Piece>, path: Path, at: Tree, p: Piece, bare: set<nat>)
    requires Bared(s0, InOrder(Plug(path, at)), p, bare) && at.Node?
    ensures var k := |Lower(path)| + |InOrder(at.left)|;
      && k < |InOrder(Plug(path, at))|
      && Bared(s0, Minus(InOrder(Plug(path, at)), k), p, Unlinked(bare, path, at))
  {
    EraseInOrder(path, at);
    if Lone(s0, p) { LoneTree(path, at); }
  }

  class VerifyLog {
    var tree: Tree
    var list: seq<Piece>
    var histLen: int
    var inFlight: set<nat>
    var live: set<nat>
    var bare: set<nat>            // pieces erased as the only node, so that all their links are null
    ghost var orphans: set<nat>   // pieces erased while in flight

    ghost predicate Valid()
      reads this
    {
      && histLen == |InOrder(tree)| + |list|
      && WellKept(InOrder(tree), list, live)
      && live == Ids(InOrder(tree) + list) + orphans
      && Ids(InOrder(tree) + list) !! orphans
    }

    constructor ()
      ensures Valid() && tree == Leaf && list == [] && histLen == 0
      ensures inFlight == live == bare == orphans == {}
    {
      tree, list, histLen, inFlight, live, bare, orphans := Leaf, [], 0, {}, {}, {}, {};
    }

    /** log_io_piece. `p.id` is the address calloc returned. */
    method LogIoPiece(p: Piece, randomMap: bool)
      requires Valid() && Extent(p) && p.id !in live
      modifies this
      ensures Valid() && inFlight == old(inFlight) + {p.id}
      ensures randomMap ==> tree == old(tree) && list == old(list) + [p] && live == old(live) + {p.id}
      ensures !randomMap ==> list == old(list) && InOrder(tree) == Logged(old(InOrder(tree)), p)
      ensures !randomMap ==> live == old(live) + {p.id} - Freed(old(InOrder(tree)), p, old(inFlight))
      ensures orphans ==
        if randomMap then old(orphans) else old(orphans) + Stranded(old(InOrder(tree)), p, old(inFlight))
      ensures !randomMap && Lone(old(InOrder(tree)), p) ==> old(InOrder(tree))[0].id in bare
    {
      live := live + {p.id};
      if randomMap {
        UniqueAppend(InOrder(tree) + list, p);
        assert InOrder(tree) + (list + [p]) == InOrder(tree) + list + [p];
        inFlight := inFlight + {p.id};
        list := list + [p];
        histLen := histLen + 1;
        return;
      }
      LoggedIsLive(InOrder(tree), p, list, inFlight, old(live));
      LoggedOwners(InOrder(tree), p, list, inFlight);
      orphans := orphans + Stranded(InOrder(tree), p, inFlight);
      SortIn(p);
      inFlight := inFlight + {p.id};
      histLen := histLen + 1;
    }

    /** A run of writes into an empty tree leaves the latest ones. */
    method LogAll(writes: seq<Piece>)
      requires Valid() && InOrder(tree) == [] && Extents(writes)
      requires forall i, j :: 0 <= i < j < |writes| ==> writes[i].id != writes[j].id
      requires forall i :: 0 <= i < |writes| ==> writes[i].id !in live
      modifies this
      ensures Valid() && InOrder(tree) == History(writes) && list == old(list)
      ensures forall q ::
        q in InOrder(tree) <==> exists i: nat :: i < |writes| && writes[i] == q && !Overwritten(writes, i)
    {
      for n := 0 to |writes|
        invariant Valid() && InOrder(tree) == History(writes[..n]) && list == old(list)
        invariant forall i :: n <= i < |writes| ==> writes[i].id !in live
      {
        assert writes[..n + 1][..n] == writes[..n];
        LogIoPiece(writes[n], false);
      }
      assert writes[..|writes|] == writes;
      forall q
        ensures q in InOrder(tree) <==> exists i: nat :: i < |writes| && writes[i] == q && !Overwritten(writes, i)
      {
        HistoryIsLatestWrites(writes, q);
      }
    }

    /** Descend, erasing and restarting as needed, then link the new piece. */
    method SortIn(p: Piece)
      requires Sorted(InOrder(tree)) && Extents(InOrder(tree)) && UniqueIds(InOrder(tree) + list)
      requires Extent(p) && forall q :: q in InOrder(tree) + list ==> q.id != p.id
      modifies this
      ensures list == old(list) && inFlight == old(inFlight) && orphans == old(orphans)
      ensures InOrder(tree) == Logged(old(InOrder(tree)), p)
      ensures Sorted(InOrder(tree)) && Extents(InOrder(tree)) && UniqueIds(InOrder(tree) + list)
      ensures histLen - old(histLen) == |InOrder(tree)| - 1 - |old(InOrder(tree))|
      ensures live == old(live) - Freed(old(InOrder(tree)), p, inFlight)
      ensures Lone(old(InOrder(tree)), p) ==> old(InOrder(tree))[0].id in bare
    {
      var path := EraseOverlaps(p);
      LinkDone(old(InOrder(tree)), tree, path, p, list);
      tree := Rebalanced(InOrder(Plug(path, Node(Leaf, p, Leaf))));
    }

    /** The restart loop: erase overlapped pieces until a descent meets none. */
    method EraseOverlaps(p: Piece) returns (path: Path)
      requires Pruning(InOrder(tree), InOrder(tree), p, list)
      modifies this
      ensures list == old(list) && inFlight == old(inFlight) && orphans == old(orphans)
      ensures Pruning(old(InOrder(tree)), InOrder(tree), p, list)
      ensures Reached(tree, p, path, Leaf)
      ensures histLen - old(histLen) == |InOrder(tree)| - |old(InOrder(tree))|
      ensures live == old(live) - Freed(old(InOrder(tree)), p, inFlight)
      ensures Lone(old(InOrder(tree)), p) ==> old(InOrder(tree))[0].id in bare
    {
      ghost var s0 := InOrder(tree);
      var at;
      path, at := Walk(tree, p);
      while at.Node?
        invariant Reached(tree, p, path, at)
        invariant Erasing(s0, InOrder(tree), p, list, inFlight, old(live), live)
        invariant histLen - old(histLen) == |InOrder(tree)| - |s0|
        invariant list == old(list) && inFlight == old(inFlight) && orphans == old(orphans)
        invariant Bared(s0, InOrder(tree), p, bare)
        decreases |InOrder(tree)|
      {
        EraseInOrder(path, at);
        EraseOne(s0, InOrder(tree), |Lower(path)| + |InOrder(at.left)|, p, list, inFlight, old(live), live);
        BaredOne(s0, path, at, p, bare);
        Erase(path, at);
        path, at := Walk(tree, p);
      }
      assert Freed(InOrder(tree), p, inFlight) == {};
    }

    /** rb_erase of the piece at the end of the path; its memory is given back unless it is in flight. */
    method Erase(path: Path, at: Tree)
      requires at.Node? && Plug(path, at) == tree
      modifies this
      ensures list == old(list) && inFlight == old(inFlight) && orphans == old(orphans) && histLen == old(histLen) - 1
      ensures var k := |Lower(path)| + |InOrder(at.left)|;
        && k < |old(InOrder(tree))| && old(InOrder(tree))[k] == at.piece
        && InOrder(tree) == Minus(old(InOrder(tree)), k)
      ensures live == if at.piece.id in inFlight then old(live) else old(live) - {at.piece.id}
      ensures bare == Unlinked(old(bare), path, at)
    {
      EraseInOrder(path, at);
      bare := Unlinked(bare, path, at);
      histLen := histLen - 1;
      tree := Rebalanced(InOrder(Plug(path, Joined(at.left, at.right))));
      if at.piece.id !in inFlight {
        live := live - {at.piece.id};
      }
    }

    /** Live pieces that are neither held nor waiting for their completion. */
    ghost function Lost(): set<nat>
      reads this
    {
      live - Ids(InOrder(tree) + list) - orphans
    }

    /** unlog_io_piece. The history stays in order exactly if the piece is still linked. A piece erased while in
        flight keeps its flag and its links, so rb_erase runs on it a second time: links that are all null make
        it empty the tree, and for other links `stale` stands for the tree that results. Whatever that is, the
        count is then wrong or a piece is lost. */
    method UnlogIoPiece(p: Piece, stale: Tree)
      requires Valid() && (p in InOrder(tree) + list || p.id in orphans)
      modifies this
      ensures Valid() <==> p.id !in old(orphans)
      ensures histLen == old(histLen) - 1 && inFlight == old(inFlight)
      ensures live == old(live) - {p.id} && orphans == old(orphans) - {p.id}
      ensures p.id !in old(orphans) ==>
        InOrder(tree) == Filter(old(InOrder(tree)), Except(p)) && list == Filter(old(list), Except(p))
      ensures p.id in old(orphans) ==>
        && tree == (if p.id in old(bare) then Leaf else stale) && list == old(list)
        && (histLen != |InOrder(tree)| + |list| || Lost() != {})
    {
      Held(InOrder(tree), list, p);
      if p in InOrder(tree) || p in list {
        Unlink(p);
      } else {
        tree := if p.id in bare then Leaf else stale;
        if |InOrder(tree)| == |old(InOrder(tree))| - 1 {
          OrphanLosesPiece(old(InOrder(tree)), InOrder(tree), list, orphans, p.id);
        }
      }
      live := live - {p.id};
      bare := bare - {p.id};
      orphans := orphans - {p.id};
      histLen := histLen - 1;
    }

    /** rb_erase or flist_del, as the piece's flags say. */
    method Unlink(p: Piece)
      requires WellKept(InOrder(tree), list, live) && p in InOrder(tree) + list
      modifies this`tree, this`list
      ensures InOrder(tree) == Filter(old(InOrder(tree)), Except(p)) && list == Filter(old(list), Except(p))
      ensures Removed(old(InOrder(tree)), old(list), InOrder(tree), list, live, p)
    {
      if p in InOrder(tree) {
        var k :| 0 <= k < |InOrder(tree)| && InOrder(tree)[k] == p;
        RemoveFromTree(InOrder(tree), list, live, k);
        MinusIsFilter(InOrder(tree), k);
        FilterAll(list, Except(p));
        tree := Rebalanced(Minus(InOrder(tree), k));
      } else {
        var k :| 0 <= k < |list| && list[k] == p;
        RemoveFromList(InOrder(tree), list, live, k);
        MinusIsFilter(list, k);
        FilterAll(InOrder(tree), Except(p));
        list := Minus(list, k);
      }
    }

    /** io_completed for the piece of the completed unit, if it has one: a write that reached the device is no
        longer in flight, one that failed is taken out of the history. */
    method Complete(p: Option<Piece>, error: bool, stale: Tree)
      requires Valid() && (error && p.Some? ==> p.value in InOrder(tree) + list || p.value.id in orphans)
      modifies this
      ensures Valid() <==> !(error && p.Some? && p.value.id in old(orphans))
      ensures inFlight == if p.Some? && !error then old(inFlight) - {p.value.id} else old(inFlight)
      ensures p.None? || !error ==>
        tree == old(tree) && list == old(list) && live == old(live) && orphans == old(orphans)
      ensures error && p.Some? ==> live == old(live) - {p.value.id} && orphans == old(orphans) - {p.value.id}
      ensures error && p.Some? ==> histLen == old(histLen) - 1
      ensures error && p.Some? && p.value.id !in old(orphans) ==>
        InOrder(tree) == Filter(old(InOrder(tree)), Except(p.value)) && list == Filter(old(list), Except(p.value))
      ensures error && p.Some? && p.value.id in old(orphans) ==>
        && tree == (if p.value.id in old(bare) then Leaf else stale) && list == old(list)
        && (histLen != |InOrder(tree)| + |list| || Lost() != {})
    {
      if p.None? { return; }
      if error {
        UnlogIoPiece(p.value, stale);
      } else {
        inFlight := inFlight - {p.value.id};
      }
    }

    /** prune_io_piece_log: the first tree piece until the tree is empty, then the list. What is still live
        afterwards is exactly what was overwritten while in flight. */
    method Prune()
      requires Valid()
      modifies this
      ensures Valid() && InOrder(tree) == [] && list == [] && histLen == 0
      ensures live == orphans == old(orphans)
    {
      while InOrder(tree) != []
        invariant Valid() && orphans == old(orphans)
        decreases |InOrder(tree)|
      {
        RemoveFromTree(InOrder(tree), list, live, 0);
        live := live - {InOrder(tree)[0].id};
        tree := Rebalanced(Minus(InOrder(tree), 0));
        histLen := histLen - 1;
      }
      while list != []
        invariant Valid() && InOrder(tree) == [] && orphans == old(orphans)
        decreases |list|
      {
        RemoveFromList(InOrder(tree), list, live, 0);
        live := live - {list[0].id};
        list := Minus(list, 0);
        histLen := histLen - 1;
      }
    }
  }

  /** Any two overlapping writes in flight, of which the overwritten one then fails: its second erasure empties
      the tree, so the other write is live but will not be verified, and no count shows it. */
  method FailedOverwriteLosesOther(a: Piece, b: Piece, stale: Tree) returns (log: VerifyLog)
    requires Extent(a) && Extent(b) && Overlap(a, b) && a.id != b.id
    ensures fresh(log) && !log.Valid()
    ensures log.tree == Leaf && log.list == [] && log.histLen == 0
    ensures log.live == log.Lost() == {b.id}
  {
    Overwriting(a, b, {a.id});
    log := new VerifyLog();
    log.LogIoPiece(a, false);
    log.LogIoPiece(b, false);
    log.Complete(Some(a), true, stale);
  }
}
