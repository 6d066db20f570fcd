/** The page buffer of the SSD firmware (buffer/buffer.c): a free list, a recency list and a chained hash
    index over 1500 buffers, and the buffer lists of host commands. */
module BufferCache {
  import opened Lists
  import opened Options

  const BUFFER_NUMBER: nat := 1500
  const HASH_TABLE_SIZE: nat := 1000
  const HCMDS: nat := 256
  const NO_PAGE: nat := 0xffff_ffff
  const INVALID_ID: nat := 0xffff_ffff

  function HashCode(key: nat): (h: nat)
    ensures h < HASH_TABLE_SIZE
  {
    key % HASH_TABLE_SIZE
  }

  /** Pages less than a table apart fall into different chains. */
  lemma HashSpreads(p: nat, q: nat)
    requires p < q < p + HASH_TABLE_SIZE
    ensures HashCode(p) != HashCode(q)
  {
    var n := HASH_TABLE_SIZE;
    assert p == n * (p / n) + p % n && q == n * (q / n) + q % n;
  }

  /** Cutting one entry out of a list without duplicates. */
  lemma {:induction false} CutOne(s: seq<nat>, i: nat)
    requires NoDup(s) && i < |s|
    ensures s[..i] + s[i+1..] == Without(s, s[i])
  {
    if i == 0 {
      assert s[0] !in s[1..];
      WithoutAbsent(s[1..], s[0]);
    } else {
      assert NoDup(s[1..]) && s[0] !in s[1..];
      CutOne(s[1..], i - 1);
      assert s[i] == s[1..][i - 1] && s[i] in s[1..];
      assert s[..i] + s[i+1..] == [s[0]] + (s[1..][..i - 1] + s[1..][i..]);
    }
  }

  lemma {:induction false} WithoutAbsent(s: seq<nat>, b: nat)
    requires b !in s
    ensures Without(s, b) == s
  {
    if s != [] { WithoutAbsent(s[1..], b); }
  }

  // ----- the index -----

  /** The hash chains hold exactly the buffers of the recency list, each in the chain of its page. */
  ghost predicate Indexed(lpn: seq<nat>, lru: seq<nat>, chains: seq<seq<nat>>) {
    && |lpn| == BUFFER_NUMBER && |chains| == HASH_TABLE_SIZE
    && (forall b :: b in lru ==> b < BUFFER_NUMBER)
    && (forall h :: 0 <= h < HASH_TABLE_SIZE ==> NoDup(chains[h]))
    && (forall h, b :: 0 <= h < HASH_TABLE_SIZE && b in chains[h] ==> b in lru && HashCode(lpn[b]) == h)
    && (forall b :: b in lru ==> b in chains[HashCode(lpn[b])])
  }

  ghost predicate DistinctPages(lpn: seq<nat>, lru: seq<nat>) {
    && (forall b :: b in lru ==> b < |lpn|)
    && (forall b, c :: b in lru && c in lru && lpn[b] == lpn[c] ==> b == c)
  }

  /** The pages held, most recently allocated first. */
  ghost function Pages(lpn: seq<nat>, lru: seq<nat>): (p: seq<nat>)
    requires forall b :: b in lru ==> b < |lpn|
    ensures |p| == |lru|
  {
    seq(|lru|, i requires 0 <= i < |lru| => assert lru[i] in lru; lpn[lru[i]])
  }

  lemma HeldPages(lpn: seq<nat>, lru: seq<nat>, p: nat)
    requires forall b :: b in lru ==> b < |lpn|
    ensures p in Pages(lpn, lru) <==> exists b :: b in lru && lpn[b] == p
  {
    if p in Pages(lpn, lru) {
      var i :| 0 <= i < |lru| && Pages(lpn, lru)[i] == p;
      assert lru[i] in lru;
    }
    if b :| b in lru && lpn[b] == p {
      var i :| 0 <= i < |lru| && lru[i] == b;
      assert Pages(lpn, lru)[i] == p;
    }
  }

  /** The chains without buffer b. */
  ghost function Retired(lpn: seq<nat>, chains: seq<seq<nat>>, b: nat): seq<seq<nat>>
    requires b < |lpn| && |chains| == HASH_TABLE_SIZE
  {
    chains[HashCode(lpn[b]) := Without(chains[HashCode(lpn[b])], b)]
  }

  /** The chains with buffer b under page p. */
  ghost function Published(chains: seq<seq<nat>>, b: nat, p: nat): seq<seq<nat>>
    requires |chains| == HASH_TABLE_SIZE
  {
    chains[HashCode(p) := chains[HashCode(p)] + [b]]
  }

  /** Publishing buffer b, off the recency list so far, under page p. */
  lemma PublishKeepsIndex(lpn: seq<nat>, lru: seq<nat>, chains: seq<seq<nat>>, b: nat, p: nat, lru': seq<nat>)
    requires Indexed(lpn, lru, chains) && b < BUFFER_NUMBER && b !in lru
    requires lru' == [b] + lru
    ensures Indexed(lpn[b := p], lru', Published(chains, b, p))
    ensures Pages(lpn[b := p], lru') == [p] + Pages(lpn, lru)
  {
    var h := HashCode(p);
    var lpn', chains' := lpn[b := p], chains[h := chains[h] + [b]];
    assert b !in chains[h];
    forall k | 0 <= k < HASH_TABLE_SIZE ensures NoDup(chains'[k]) {
      assert k == h ==> chains'[k] == chains[h] + [b];
    }
    forall k, c | 0 <= k < HASH_TABLE_SIZE && c in chains'[k] ensures c in lru' && HashCode(lpn'[c]) == k {
      assert c != b ==> c in chains[k];
    }
    forall c | c in lru' ensures c in chains'[HashCode(lpn'[c])] {
      assert c != b ==> c in lru && c in chains[HashCode(lpn[c])];
    }
    assert forall i :: 0 <= i < |lru| ==> lru[i] in lru;
  }

  /** Pages stay distinct exactly if the page was not held yet. */
  lemma PublishDistinct(lpn: seq<nat>, lru: seq<nat>, b: nat, p: nat, lru': seq<nat>)
    requires DistinctPages(lpn, lru) && b < |lpn| && b !in lru && lru' == [b] + lru
    ensures DistinctPages(lpn[b := p], lru') <==> p !in Pages(lpn, lru)
  {
    HeldPages(lpn, lru, p);
    assert forall c :: c in lru' <==> c == b || c in lru;
    if c :| c in lru && lpn[c] == p {
      assert lpn[b := p][c] == lpn[b := p][b];
    }
  }

  /** Taking buffer b off the recency list and out of its chain. */
  lemma RetireKeepsIndex(lpn: seq<nat>, lru: seq<nat>, chains: seq<seq<nat>>, b: nat, lru': seq<nat>)
    requires Indexed(lpn, lru, chains) && DistinctPages(lpn, lru) && NoDup(lru) && lru == lru' + [b]
    ensures b !in lru'
    ensures b < |lpn| && Indexed(lpn, lru', Retired(lpn, chains, b))
    ensures DistinctPages(lpn, lru') && NoDup(lru')
    ensures Pages(lpn, lru') == Pages(lpn, lru)[..|lru'|]
  {
    assert lru[|lru'|] == b && b in lru;
    assert forall i :: 0 <= i < |lru'| ==> lru'[i] == lru[i];
    assert b !in lru';
    WithoutNoDup(chains[HashCode(lpn[b])], b);
    assert forall c :: c in lru <==> c in lru' || c == b;
  }

  /** Retiring the oldest buffer and publishing it again under page p. */
  lemma RecycleKeepsIndex(lpn: seq<nat>, lru: seq<nat>, chains: seq<seq<nat>>, b: nat, lru': seq<nat>, p: nat)
    requires Indexed(lpn, lru, chains) && DistinctPages(lpn, lru) && NoDup(lru) && lru == lru' + [b]
    requires b < BUFFER_NUMBER
    ensures Indexed(lpn[b := p], [b] + lru', Published(Retired(lpn, chains, b), b, p))
    ensures Pages(lpn[b := p], [b] + lru') == [p] + Pages(lpn, lru)[..|lru'|]
    ensures DistinctPages(lpn[b := p], [b] + lru') <==> p !in Pages(lpn, lru)[..|lru'|]
  {
    RetireKeepsIndex(lpn, lru, chains, b, lru');
    PublishKeepsIndex(lpn, lru', Retired(lpn, chains, b), b, p, [b] + lru');
    PublishDistinct(lpn, lru', b, p, [b] + lru');
  }

  /** Each buffer is on exactly one of the two lists. */
  ghost predicate Parted(free: seq<nat>, lru: seq<nat>) {
    && NoDup(free + lru)
    && |free| + |lru| == BUFFER_NUMBER
    && forall b :: b in free + lru <==> 0 <= b < BUFFER_NUMBER
  }

  lemma MoveFree(free: seq<nat>, lru: seq<nat>)
    requires Parted(free, lru) && free != []
    ensures free[0] < BUFFER_NUMBER && free[0] !in lru
    ensures Parted(free[1..], [free[0]] + lru)
  {
    var a, b, k := free + lru, free[1..] + ([free[0]] + lru), |free| - 1;
    assert a[0] == free[0] && a[0] in a;
    assert forall i :: 0 <= i < |lru| ==> lru[i] == a[|free| + i];
    Rotated(a, b, k);
  }

  lemma AllHeld(lru: seq<nat>)
    ensures Parted([], lru)
       <==> NoDup(lru) && |lru| == BUFFER_NUMBER && forall b :: b in lru <==> 0 <= b < BUFFER_NUMBER
  {
    assert [] + lru == lru;
  }

  lemma RotateOldest(lru: seq<nat>, lru': seq<nat>, b: nat)
    requires Parted([], lru) && lru == lru' + [b]
    ensures b < BUFFER_NUMBER && NoDup(lru) && Parted([], [b] + lru')
  {
    AllHeld(lru);
    AllHeld([b] + lru');
    assert lru[|lru'|] == b && b in lru;
    RotatedBack(lru, [b] + lru', |lru'|);
  }

  /** Moving the first element behind the next k ones keeps the elements and their distinctness. */
  lemma Rotated(a: seq<nat>, b: seq<nat>, k: nat)
    requires NoDup(a) && k < |a| && b == a[1..k + 1] + [a[0]] + a[k + 1..]
    ensures NoDup(b) && forall x :: x in a <==> x in b
  {
    forall i, j | 0 <= i < j < |b| ensures b[i] != b[j] {
      var i' := if i < k then i + 1 else if i == k then 0 else i;
      var j' := if j < k then j + 1 else if j == k then 0 else j;
      assert b[i] == a[i'] && b[j] == a[j'] && i' != j';
    }
    forall x | x in a ensures x in b {
      var i :| 0 <= i < |a| && a[i] == x;
      assert x == b[if i == 0 then k else if i <= k then i - 1 else i];
    }
  }

  /** Moving element k to the front. */
  lemma RotatedBack(a: seq<nat>, b: seq<nat>, k: nat)
    requires NoDup(a) && |a| == |b| && k == |a| - 1 && b == [a[k]] + a[..k]
    ensures NoDup(b) && forall x :: x in a <==> x in b
  {
    forall x | x in a ensures x in b {
      var i :| 0 <= i < |a| && a[i] == x;
      assert x == b[if i == k then 0 else i + 1];
    }
  }

  // ----- first in, first out -----

  /** What an allocation does to the pages held, newest first: a full cache drops the oldest. */
  ghost function Allocated(pages: seq<nat>, p: nat, capacity: nat): seq<nat>
    requires capacity >= 1
  {
    [p] + (if |pages| < capacity then pages else pages[..capacity - 1])
  }

  ghost function AllocatedAll(ps: seq<nat>, capacity: nat): seq<nat>
    requires capacity >= 1
  {
    if ps == [] then [] else Allocated(AllocatedAll(ps[..|ps| - 1], capacity), ps[|ps| - 1], capacity)
  }

  /** The n latest of a sequence of pages, newest first. */
  ghost predicate Latest(held: seq<nat>, ps: seq<nat>, capacity: nat) {
    && |held| == (if |ps| < capacity then |ps| else capacity)
    && forall i :: 0 <= i < |held| ==> held[i] == ps[|ps| - 1 - i]
  }

  lemma LatestStep(held: seq<nat>, ps: seq<nat>, p: nat, capacity: nat)
    requires capacity >= 1 && Latest(held, ps, capacity)
    ensures Latest(Allocated(held, p, capacity), ps + [p], capacity)
  {}

  /** After any sequence of allocations the cache holds exactly the latest pages, up to its capacity. */
  lemma {:induction false} HoldsTheLatest(ps: seq<nat>, capacity: nat)
    requires capacity >= 1
    ensures Latest(AllocatedAll(ps, capacity), ps, capacity)
  {
    if ps != [] {
      var n := |ps| - 1;
      HoldsTheLatest(ps[..n], capacity);
      LatestStep(AllocatedAll(ps[..n], capacity), ps[..n], ps[n], capacity);
      assert ps == ps[..n] + [ps[n]];
    }
  }

  /** The pages held after a string of requests, each allocated on a miss only. */
  ghost function Served(pages: seq<nat>, requests: seq<nat>, capacity: nat): seq<nat>
    requires capacity >= 1
  {
    if requests == [] then pages
    else
      var n := |requests| - 1;
      var held := Served(pages, requests[..n], capacity);
      if requests[n] in held then held else Allocated(held, requests[n], capacity)
  }

  /** The requests that missed. */
  ghost function Misses(pages: seq<nat>, requests: seq<nat>, capacity: nat): seq<nat>
    requires capacity >= 1
  {
    if requests == [] then []
    else
      var n := |requests| - 1;
      var missed := Misses(pages, requests[..n], capacity);
      if requests[n] in Served(pages, requests[..n], capacity) then missed else missed + [requests[n]]
  }

  lemma {:induction false} ServedFromEmpty(requests: seq<nat>, capacity: nat)
    requires capacity >= 1
    ensures Served([], requests, capacity) == AllocatedAll(Misses([], requests, capacity), capacity)
  {
    if requests != [] {
      var n := |requests| - 1;
      ServedFromEmpty(requests[..n], capacity);
      var missed := Misses([], requests[..n], capacity);
      assert (missed + [requests[n]])[..|missed|] == missed;
    }
  }

  /** The last pages of a sequence, as many as fit. */
  ghost function Recent(ps: seq<nat>, capacity: nat): seq<nat> {
    if |ps| <= capacity then ps else ps[|ps| - capacity..]
  }

  lemma LatestAreRecent(held: seq<nat>, ps: seq<nat>, capacity: nat, p: nat)
    requires Latest(held, ps, capacity)
    ensures p in held <==> p in Recent(ps, capacity)
  {
    var r := Recent(ps, capacity);
    assert forall i :: 0 <= i < |r| ==> r[i] == held[|r| - 1 - i];
    if p in held {
      var i :| 0 <= i < |held| && held[i] == p;
      assert r[|r| - 1 - i] == p;
    }
  }

  /** A request misses exactly if it is not among the latest misses, as many as fit in the cache. */
  lemma {:induction false} MissesExactlyWhen(requests: seq<nat>, p: nat, capacity: nat)
    requires capacity >= 1
    ensures var m := Misses([], requests, capacity);
      Misses([], requests + [p], capacity) == if p in Recent(m, capacity) then m else m + [p]
  {
    var m := Misses([], requests, capacity);
    assert (requests + [p])[..|requests|] == requests;
    ServedFromEmpty(requests, capacity);
    HoldsTheLatest(m, capacity);
    LatestAreRecent(Served([], requests, capacity), m, capacity, p);
  }

  // ----- the commands' buffers -----

  /** Some command lists the buffer. */
  ghost predicate Listed(hcmd: seq<seq<nat>>, b: nat) {
    exists h :: 0 <= h < |hcmd| && b in hcmd[h]
  }

  /** Every command lists resident buffers only. */
  ghost predicate ListsResident(hcmd: seq<seq<nat>>, lru: seq<nat>) {
    forall b: nat :: Listed(hcmd, b) ==> b in lru
  }

  /** Every buffer on a command's list holds the page it held before. */
  ghost predicate ListsKeep(hcmd: seq<seq<nat>>, lpn: seq<nat>, lpn': seq<nat>) {
    forall b: nat :: Listed(hcmd, b) && b < |lpn| == |lpn'| ==> lpn'[b] == lpn[b]
  }

  lemma StillResident(hcmd: seq<seq<nat>>, lru: seq<nat>, lru': seq<nat>, b: nat)
    requires lru' == [b] + lru || (exists rest :: lru == rest + [b] && lru' == [b] + rest)
    ensures ListsResident(hcmd, lru) ==> ListsResident(hcmd, lru')
  {
    forall c | c in lru ensures c in lru' {
      if lru' != [b] + lru {
        var rest :| lru == rest + [b] && lru' == [b] + rest;
      }
    }
  }

  lemma ListsKeepExactlyWhen(hcmd: seq<seq<nat>>, lpn: seq<nat>, b: nat, p: nat)
    requires b < |lpn|
    ensures ListsKeep(hcmd, lpn, lpn[b := p]) <==> !Listed(hcmd, b) || lpn[b] == p
  {
    assert lpn[b := p][b] == p;
  }

  class Cache {
    var lpn: seq<nat>
    var free: seq<nat>
    var lru: seq<nat>
    var chains: seq<seq<nat>>
    var hcmd: seq<seq<nat>>
    var cnt: seq<nat>

    ghost predicate Valid()
      reads this
    {
      Consistent() && DistinctPages(lpn, lru)
    }

    /** Everything but the distinctness of pages. */
    ghost predicate Consistent()
      reads this
    {
      && Indexed(lpn, lru, chains)
      && Parted(free, lru)
      && CommandsValid()
    }

    ghost predicate CommandsValid()
      reads this
    {
      && |hcmd| == HCMDS && |cnt| == HCMDS
      && (forall h :: 0 <= h < HCMDS ==> cnt[h] == |hcmd[h]|)
      && (forall h, b :: 0 <= h < HCMDS && b in hcmd[h] ==> b < BUFFER_NUMBER)
      && (forall h :: 0 <= h < HCMDS ==> NoDup(hcmd[h]))
      && (forall g, h, b :: 0 <= g < HCMDS && 0 <= h < HCMDS && b in hcmd[g] && b in hcmd[h] ==> g == h)
    }

    ghost function Held(): seq<nat>
      requires Consistent()
      reads this
    {
      Pages(lpn, lru)
    }

    /** L2P_init_buffer */
    constructor ()
      ensures Valid() && Held() == []
      ensures free == seq(BUFFER_NUMBER, i => i) && hcmd == seq(HCMDS, _ => []) && ListsResident(hcmd, lru)
    {
      lpn := seq(BUFFER_NUMBER, _ => NO_PAGE);
      lru := [];
      chains := seq(HASH_TABLE_SIZE, _ => []);
      hcmd := seq(HCMDS, _ => []);
      cnt := seq(HCMDS, _ => 0);
      free := seq(BUFFER_NUMBER, i => i);
      new;
      forall b | 0 <= b < BUFFER_NUMBER ensures b in free { assert free[b] == b; }
    }

    /** search_hash_table_entry */
    method Search(key: nat) returns (r: Option<nat>)
      requires Indexed(lpn, lru, chains)
      ensures r.Some? ==> r.value in lru && lpn[r.value] == key
      ensures r.None? ==> forall b :: b in lru ==> lpn[b] != key
    {
      var chain := chains[HashCode(key)];
      var i := 0;
      while i < |chain|
        invariant i <= |chain| && forall j :: 0 <= j < i ==> chain[j] < |lpn| && lpn[chain[j]] != key
      {
        assert chain[i] in chains[HashCode(key)] && chain[i] in lru;
        if lpn[chain[i]] == key { return Some(chain[i]); }
        i := i + 1;
      }
      return None;
    }

    /** L2P_check_buf_hit: finds a page exactly when it is resident, and moves nothing. */
    method CheckHit(page: nat) returns (id: nat)
      requires Valid()
      ensures page in Held() ==> id in lru && lpn[id] == page
      ensures page !in Held() ==> id == INVALID_ID
    {
      HeldPages(lpn, lru, page);
      var r := Search(page);
      if r.None? { return INVALID_ID; }
      return r.value;
    }

    /** delete_hash_table_entry: the entry of the buffer holding the page goes; without one nothing changes. */
    method DeleteEntry(key: nat)
      requires Indexed(lpn, lru, chains) && DistinctPages(lpn, lru)
      modifies this`chains
      ensures forall b :: b in lru && lpn[b] == key ==>
        chains == old(chains)[HashCode(key) := Without(old(chains)[HashCode(key)], b)]
      ensures (forall b :: b in lru ==> lpn[b] != key) ==> chains == old(chains)
    {
      var chain := chains[HashCode(key)];
      var i := 0;
      while i < |chain|
        invariant i <= |chain| && forall j :: 0 <= j < i ==> chain[j] < |lpn| && lpn[chain[j]] != key
        invariant chains == old(chains)
      {
        assert chain[i] in chains[HashCode(key)] && chain[i] in lru;
        if lpn[chain[i]] == key {
          CutOne(chain, i);
          chains := chains[HashCode(key) := chain[..i] + chain[i+1..]];
          return;
        }
        i := i + 1;
      }
    }

    /** insert_hash_table_entry */
    method InsertEntry(key: nat, b: nat)
      requires |chains| == HASH_TABLE_SIZE
      modifies this`chains
      ensures var h := HashCode(key); chains == old(chains)[h := old(chains)[h] + [b]]
    {
      var h := HashCode(key);
      chains := chains[h := chains[h] + [b]];
    }

    /** L2P_allocate_buf. A free buffer is used while there is one; otherwise the buffer allocated longest ago is
        taken from its page, and no other page is touched. The cache stays in order exactly if no buffer that
        is kept holds the page already, so in particular on a miss. The commands keep their pages exactly if
        the buffer taken is on no command's list or holds the page already. */
    method Allocate(page: nat) returns (id: nat)
      requires Valid()
      modifies this`lpn, this`free, this`lru, this`chains
      ensures Consistent() && Held() == Allocated(old(Held()), page, BUFFER_NUMBER)
      ensures Valid() <==> page !in Held()[1..]
      ensures page !in old(Held()) ==> Valid()
      ensures lru != [] && id == lru[0] < BUFFER_NUMBER && lpn == old(lpn)[id := page]
      ensures ListsKeep(hcmd, old(lpn), lpn) <==> !Listed(hcmd, id) || old(lpn)[id] == page
      ensures ListsResident(hcmd, old(lru)) ==>
        ListsResident(hcmd, lru) && (old(free) != [] ==> ListsKeep(hcmd, old(lpn), lpn))
      ensures old(free) != [] ==> id == old(free)[0] && free == old(free)[1..] && lru == [id] + old(lru)
      ensures old(free) == [] ==>
        old(lru) != [] && id == old(lru)[|old(lru)| - 1] && lru == [id] + old(lru)[..|old(lru)| - 1]
    {
      if free == [] {
        id := TakeOldest(page);
        assert old(lru) == old(lru)[..BUFFER_NUMBER - 1] + [id];
        StillResident(hcmd, old(lru), lru, id);
      } else {
        id := TakeFree(page);
        StillResident(hcmd, old(lru), lru, id);
      }
      ListsKeepExactlyWhen(hcmd, old(lpn), id, page);
    }

    /** The branch for a free buffer. */
    method TakeFree(page: nat) returns (id: nat)
      requires Valid() && free != []
      modifies this`lpn, this`free, this`lru, this`chains
      ensures Consistent() && Held() == [page] + old(Held())
      ensures DistinctPages(lpn, lru) <==> page !in Held()[1..]
      ensures id == old(free)[0] < BUFFER_NUMBER && id !in old(lru)
      ensures free == old(free)[1..] && lru == [id] + old(lru) && lpn == old(lpn)[id := page]
    {
      id := free[0];
      MoveFree(free, lru);
      PublishKeepsIndex(lpn, lru, chains, id, page, [id] + lru);
      PublishDistinct(lpn, lru, id, page, [id] + lru);
      free := free[1..];
      lru := [id] + lru;
      InsertEntry(page, id);
      lpn := lpn[id := page];
    }

    /** The branch for a full cache. */
    method TakeOldest(page: nat) returns (id: nat)
      requires Valid() && free == []
      modifies this`lpn, this`lru, this`chains
      ensures Consistent() && Held() == [page] + old(Held())[..BUFFER_NUMBER - 1]
      ensures DistinctPages(lpn, lru) <==> page !in Held()[1..]
      ensures id == old(lru)[BUFFER_NUMBER - 1] && lru == [id] + old(lru)[..BUFFER_NUMBER - 1]
      ensures id < BUFFER_NUMBER && lpn == old(lpn)[id := page]
    {
      var n := |lru| - 1;
      id := lru[n];
      ghost var rest := lru[..n];
      assert lru == rest + [id];
      RotateOldest(lru, rest, id);
      RecycleKeepsIndex(lpn, lru, chains, id, rest, page);
      assert lru[n] in lru;
      DeleteEntry(lpn[id]);
      lpn := lpn[id := page];
      InsertEntry(page, id);
      lru := [id] + lru[..n];
    }

    /** Serving page requests in the intended way, allocating on a miss only: what is held afterwards is the
        first-in-first-out simulation of the whole request string. */
    method Serve(requests: seq<nat>) returns (missed: seq<nat>)
      requires Valid()
      modifies this`lpn, this`free, this`lru, this`chains
      ensures Valid() && Held() == Served(old(Held()), requests, BUFFER_NUMBER)
      ensures missed == Misses(old(Held()), requests, BUFFER_NUMBER)
      ensures old(Held()) == [] ==> Latest(Held(), missed, BUFFER_NUMBER)
      ensures requests != [] ==> requests[|requests| - 1] in Held()
    {
      missed := [];
      for n := 0 to |requests|
        invariant Valid() && Held() == Served(old(Held()), requests[..n], BUFFER_NUMBER)
        invariant missed == Misses(old(Held()), requests[..n], BUFFER_NUMBER)
        invariant n > 0 ==> requests[n - 1] in Held()
      {
        assert requests[..n + 1][..n] == requests[..n];
        var id := CheckHit(requests[n]);
        if id == INVALID_ID {
          id := Allocate(requests[n]);
          missed := missed + [requests[n]];
        }
      }
      assert requests[..|requests|] == requests;
      if old(Held()) == [] {
        ServedFromEmpty(requests, BUFFER_NUMBER);
        HoldsTheLatest(missed, BUFFER_NUMBER);
      }
    }

    // ----- command buffer lists -----

    /** L2P_hcmd_add_buffer, called with the page the buffer already holds, for a buffer on no command list. */
    method AddToCommand(h: nat, b: nat, page: nat)
      requires Valid() && h < HCMDS && b < BUFFER_NUMBER && lpn[b] == page
      requires forall g :: 0 <= g < HCMDS ==> b !in hcmd[g]
      modifies this`lpn, this`hcmd, this`cnt
      ensures Valid() && lpn == old(lpn) && Held() == old(Held())
      ensures hcmd == old(hcmd)[h := old(hcmd)[h] + [b]]
      ensures b in lru && ListsResident(old(hcmd), lru) ==> ListsResident(hcmd, lru)
    {
      lpn := lpn[b := page];
      assert lpn == old(lpn);
      hcmd := hcmd[h := hcmd[h] + [b]];
      cnt := cnt[h := cnt[h] + 1];
      assert forall c: nat :: Listed(hcmd, c) ==> c == b || Listed(old(hcmd), c);
    }

    /** L2P_hcmd_get_buffer and L2P_hcmd_buf_get_lpn: buffer and page at an offset of the command's list; beyond
        its count the source returns no value. */
    method CommandBuffer(h: nat, offset: nat) returns (r: Option<(nat, nat)>)
      requires Valid() && h < HCMDS
      ensures r.None? <==> offset >= cnt[h]
      ensures r.Some? ==> r.value.0 == hcmd[h][offset] < BUFFER_NUMBER && r.value.1 == lpn[r.value.0]
    {
      var tmp := 0;
      while tmp < |hcmd[h]|
        invariant tmp <= offset && tmp <= |hcmd[h]|
      {
        if offset <= tmp {
          var id := hcmd[h][tmp];
          assert id in hcmd[h];
          return Some((id, lpn[id]));
        }
        tmp := tmp + 1;
      }
      return None;
    }

    /** L2P_hcmd_free_buf: deletes from the tail until the list is empty. */
    method FreeCommand(h: nat)
      requires Valid() && h < HCMDS
      modifies this`hcmd, this`cnt
      ensures Valid() && hcmd == old(hcmd)[h := []] && Held() == old(Held())
    {
      while hcmd[h] != []
        invariant |hcmd| == HCMDS && cnt == old(cnt) && forall g :: 0 <= g < HCMDS && g != h ==> hcmd[g] == old(hcmd)[g]
        decreases |hcmd[h]|
      {
        hcmd := hcmd[h := hcmd[h][..|hcmd[h]| - 1]];
      }
      assert hcmd == old(hcmd)[h := []];
      cnt := cnt[h := 0];
    }
  }

  /** Allocating pages 0, 1, ... until no buffer is free; the oldest buffer holds page 0. */
  method Filled() returns (c: Cache, b: nat)
    ensures fresh(c) && c.Valid() && c.free == [] && c.hcmd == seq(HCMDS, _ => [])
    ensures BUFFER_NUMBER !in c.Held()
    ensures |c.lru| == BUFFER_NUMBER && c.lru[BUFFER_NUMBER - 1] == b < BUFFER_NUMBER && c.lpn[b] == 0
  {
    c := new Cache();
    for n := 0 to BUFFER_NUMBER
      invariant c.Valid() && |c.Held()| == n && forall i :: 0 <= i < n ==> c.Held()[i] == n - 1 - i
      invariant fresh(c) && c.hcmd == seq(HCMDS, _ => [])
    {
      b := c.Allocate(n);
    }
    b := c.lru[BUFFER_NUMBER - 1];
    assert b in c.lru && c.Held()[BUFFER_NUMBER - 1] == c.lpn[b];
  }

  /** A full cache whose oldest buffer is on a command's list: the next miss takes the buffer, and the command
      then reads another page at the same offset. */
  method EvictedUnderCommand() returns (c: Cache, b: nat, before: Option<(nat, nat)>, after: Option<(nat, nat)>)
    ensures fresh(c) && c.Valid()
    ensures before == Some((b, 0)) && after == Some((b, BUFFER_NUMBER))
  {
    c, b := Filled();
    c.AddToCommand(0, b, 0);
    before := c.CommandBuffer(0, 0);
    var id := c.Allocate(BUFFER_NUMBER);
    after := c.CommandBuffer(0, 0);
  }
}
