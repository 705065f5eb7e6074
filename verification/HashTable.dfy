/** Open addressing with counted home buckets: what the bucket table of the hash map (shmap.c) means. */
module HashTable {
  import opened Bits

  type U32 = x: nat | x < 0x1_0000_0000

  /** Element index plus one (0: free), hash of that element's key, and number of elements whose home this bucket is. */
  datatype Bucket = Bucket(loc: nat, hash: U32, cnt: nat)

  datatype Elem = Elem(k: int, v: int)

  /** The home bucket: the highest `hbits` bits of the hash. */
  function Home(h: U32, hbits: nat): (bid: nat)
    requires 1 <= hbits <= 32
    ensures bid < Pow2(hbits)
  {
    HomeBound(h, hbits);
    h / Pow2(32 - hbits)
  }

  lemma HomeBound(h: U32, hbits: nat)
    requires 1 <= hbits <= 32
    ensures h / Pow2(32 - hbits) < Pow2(hbits)
  {
    var p, q := Pow2(32 - hbits), Pow2(hbits);
    SmallPowers();
    Pow2Add(hbits, 32 - hbits);
    DivBounds(h, p);
    if h / p >= q {
      MulMonotone(q, h / p, p);
    }
  }

  predicate IsMember(x: Bucket, hbits: nat, bid: nat)
    requires 1 <= hbits <= 32
  {
    x.loc != 0 && Home(x.hash, hbits) == bid
  }

  /** The used slots whose element has its home in bucket `bid`. */
  function Members(b: seq<Bucket>, hbits: nat, bid: nat): set<nat>
    requires 1 <= hbits <= 32
  {
    set l: nat | l < |b| && IsMember(b[l], hbits, bid)
  }

  ghost predicate Counted(b: seq<Bucket>, hbits: nat)
    requires 1 <= hbits <= 32
  {
    forall bid: nat :: bid < |b| ==> b[bid].cnt == |Members(b, hbits, bid)|
  }

  /** The used slots are in bijection with the registered elements: `pos` maps each element index to its slot. */
  ghost predicate Indexed(b: seq<Bucket>, data: seq<Elem>, hf: int -> U32, pos: map<nat, nat>) {
    (forall i :: i in pos ==> i < |data| && pos[i] < |b| && b[pos[i]].loc == i + 1 && b[pos[i]].hash == hf(data[i].k))
    && (forall l: nat :: l < |b| && b[l].loc != 0 ==> b[l].loc - 1 in pos && pos[b[l].loc - 1] == l)
  }

  ghost predicate Unregistered(data: seq<Elem>, pos: map<nat, nat>, key: int) {
    forall i :: i in pos && i < |data| ==> data[i].k != key
  }

  /** What a used slot points to. */
  lemma SlotElement(b: seq<Bucket>, data: seq<Elem>, hf: int -> U32, pos: map<nat, nat>, l: nat)
    requires Indexed(b, data, hf, pos) && l < |b| && b[l].loc != 0
    ensures var i := b[l].loc - 1;
            i in pos && pos[i] == l && i < |data| && b[l].hash == hf(data[i].k)
            && forall key :: Unregistered(data, pos, key) ==> data[i].k != key
  {
  }

  ghost predicate DistinctKeys(data: seq<Elem>) {
    forall i, j :: 0 <= i < j < |data| ==> data[i].k != data[j].k
  }

  /* ---- walking the table from a home bucket, wrapping around at the end ---- */

  /** Steps from slot `from` to slot `l`. */
  function Dist(l: nat, from: nat, n: nat): int {
    if l >= from then l - from else l - from + n
  }

  /** The slot after `l`: the index mask is the table size less one. */
  function NextSlot(l: nat, hmask: nat): nat {
    (l + 1) % (hmask + 1)
  }

  lemma NextDist(l: nat, from: nat, n: nat)
    requires l < n && from < n
    ensures NextSlot(l, n - 1) < n
    ensures Dist(l, from, n) + 1 < n ==> Dist(NextSlot(l, n - 1), from, n) == Dist(l, from, n) + 1
  {
  }

  /** The members met in the first `s` steps. */
  function Seen(b: seq<Bucket>, hbits: nat, bid: nat, s: int): set<nat>
    requires 1 <= hbits <= 32
  {
    set l: nat | l < |b| && IsMember(b[l], hbits, bid) && Dist(l, bid, |b|) < s
  }

  lemma SeenStep(b: seq<Bucket>, hbits: nat, bid: nat, l: nat, s: int)
    requires 1 <= hbits <= 32 && bid < |b| && l < |b| && s == Dist(l, bid, |b|)
    ensures l !in Seen(b, hbits, bid, s)
            && Seen(b, hbits, bid, s + 1) == Seen(b, hbits, bid, s) + (if IsMember(b[l], hbits, bid) then {l} else {})
            && |Seen(b, hbits, bid, s + 1)| == |Seen(b, hbits, bid, s)| + if IsMember(b[l], hbits, bid) then 1 else 0
  {
    assert Seen(b, hbits, bid, s + 1) == Seen(b, hbits, bid, s) + if IsMember(b[l], hbits, bid) then {l} else {};
  }

  lemma SeenBounds(b: seq<Bucket>, hbits: nat, bid: nat, s: int)
    requires 1 <= hbits <= 32 && bid < |b|
    ensures Seen(b, hbits, bid, 0) == {}
    ensures Seen(b, hbits, bid, s) <= Members(b, hbits, bid)
    ensures s >= |b| ==> Seen(b, hbits, bid, s) == Members(b, hbits, bid)
  {
  }

  lemma {:induction false} SubsetCard<T>(a: set<T>, b: set<T>)
    requires a <= b
    ensures |a| <= |b| && (|a| == |b| ==> a == b)
  {
    if a != {} {
      var x :| x in a;
      SubsetCard(a - {x}, b - {x});
    }
  }

  ghost predicate Matches(b: seq<Bucket>, data: seq<Elem>, l: nat, h: U32, key: int) {
    l < |b| && b[l].hash == h && 0 < b[l].loc <= |data| && data[b[l].loc - 1].k == key
  }

  /** A lookup for `key` at slot `l`, `s` steps from home: it has counted the members met so far and none matched. */
  ghost predicate Walk(b: seq<Bucket>, data: seq<Elem>, hbits: nat, h: U32, key: int, l: nat, s: nat, hcnt: nat) {
    1 <= hbits <= 32 && |b| == Pow2(hbits) && l < |b| && Counted(b, hbits) && s <= |b|
    && var bid := Home(h, hbits);
       (s < |b| ==> s == Dist(l, bid, |b|)) && hcnt == |Seen(b, hbits, bid, s)|
       && NoneMatches(b, data, Seen(b, hbits, bid, s), h, key)
  }

  ghost predicate NoneMatches(b: seq<Bucket>, data: seq<Elem>, slots: set<nat>, h: U32, key: int) {
    forall l :: l in slots ==> !Matches(b, data, l, h, key)
  }

  lemma WalkStart(b: seq<Bucket>, data: seq<Elem>, hbits: nat, h: U32, key: int)
    requires 1 <= hbits <= 32 && |b| == Pow2(hbits) && Counted(b, hbits)
    ensures Walk(b, data, hbits, h, key, Home(h, hbits), 0, 0)
  {
    SeenBounds(b, hbits, Home(h, hbits), 0);
  }

  /** As long as members are missing, the walk has not gone around. */
  lemma WalkGoesOn(b: seq<Bucket>, data: seq<Elem>, hbits: nat, h: U32, key: int, l: nat, s: nat, hcnt: nat)
    requires Walk(b, data, hbits, h, key, l, s, hcnt)
    ensures l < |b| && s <= |b| && hcnt <= b[Home(h, hbits)].cnt
    ensures hcnt < b[Home(h, hbits)].cnt ==> s < |b|
  {
    var bid := Home(h, hbits);
    SeenBounds(b, hbits, bid, s);
    SubsetCard(Seen(b, hbits, bid, s), Members(b, hbits, bid));
  }

  lemma NotHere(b: seq<Bucket>, data: seq<Elem>, hbits: nat, l: nat, h: U32, key: int)
    requires 1 <= hbits <= 32 && l < |b| && b[l].loc <= |data|
    requires b[l].hash != h || b[l].loc == 0 || data[b[l].loc - 1].k != key
    ensures !Matches(b, data, l, h, key)
  {
  }

  lemma NoneMatchesStep(b: seq<Bucket>, data: seq<Elem>, slots: set<nat>, l: nat, member: bool, h: U32, key: int)
    requires NoneMatches(b, data, slots, h, key) && (member ==> !Matches(b, data, l, h, key))
    ensures NoneMatches(b, data, slots + (if member then {l} else {}), h, key)
  {
  }

  lemma WalkStep(b: seq<Bucket>, data: seq<Elem>, hbits: nat, h: U32, key: int, l: nat, s: nat, hcnt: nat)
    requires Walk(b, data, hbits, h, key, l, s, hcnt) && s < |b|
    requires IsMember(b[l], hbits, Home(h, hbits)) ==> !Matches(b, data, l, h, key)
    ensures NextSlot(l, |b| - 1) < |b|
    ensures Walk(b, data, hbits, h, key, NextSlot(l, |b| - 1), s + 1,
                 hcnt + if IsMember(b[l], hbits, Home(h, hbits)) then 1 else 0)
  {
    var bid := Home(h, hbits);
    SeenStep(b, hbits, bid, l, s);
    NextDist(l, bid, |b|);
    hide Seen, IsMember, NextSlot, NoneMatches, Counted, Home, Dist, Pow2;
    NoneMatchesStep(b, data, Seen(b, hbits, bid, s), l, IsMember(b[l], hbits, bid), h, key);
  }

  /** All members seen: the key is not registered. */
  lemma WalkEnd(b: seq<Bucket>, data: seq<Elem>, hbits: nat, key: int, l: nat, s: nat, hcnt: nat,
                hf: int -> U32, pos: map<nat, nat>)
    requires Walk(b, data, hbits, hf(key), key, l, s, hcnt) && hcnt >= b[Home(hf(key), hbits)].cnt
    requires Indexed(b, data, hf, pos)
    ensures Unregistered(data, pos, key)
  {
    var h := hf(key);
    var bid := Home(h, hbits);
    SeenBounds(b, hbits, bid, s);
    SubsetCard(Seen(b, hbits, bid, s), Members(b, hbits, bid));
    forall i | i in pos
      ensures data[i].k != key
    {
      if data[i].k == key {
        assert IsMember(b[pos[i]], hbits, bid) && pos[i] in Members(b, hbits, bid);
        assert Matches(b, data, pos[i], h, key);
      }
    }
  }

  /* ---- probing for a free slot ---- */

  lemma {:induction false} ValuesCard(m: map<nat, nat>)
    ensures |m.Values| <= |m|
  {
    if m != map[] {
      var k :| k in m;
      var r := m - {k};
      ValuesCard(r);
      assert m.Keys == r.Keys + {k};
      assert m.Values <= r.Values + {m[k]} by {
        forall v | v in m.Values
          ensures v in r.Values + {m[k]}
        {
          var j :| j in m && m[j] == v;
          assert j != k ==> j in r && r[j] == v;
        }
      }
      SubsetCard(m.Values, r.Values + {m[k]});
    }
  }

  /** The first `n` indices. */
  function Below(n: nat): (r: set<nat>)
    ensures |r| == n && forall x: nat :: x in r <==> x < n
  {
    if n == 0 then {} else Below(n - 1) + {n - 1}
  }

  /** Fewer registered elements than slots leave a free slot. */
  lemma FreeSlot(b: seq<Bucket>, data: seq<Elem>, hf: int -> U32, pos: map<nat, nat>)
    requires Indexed(b, data, hf, pos) && |pos| < |b|
    ensures exists l: nat :: l < |b| && b[l].loc == 0
  {
    if forall l: nat :: l < |b| ==> b[l].loc != 0 {
      var all := Below(|b|);
      forall l | l in all
        ensures l in pos.Values
      {
        assert b[l].loc - 1 in pos;
      }
      ValuesCard(pos);
      SubsetCard(all, pos.Values);
      assert false;
    }
  }

  /** The slots of the first `s` steps are all used. */
  ghost predicate Probed(b: seq<Bucket>, bid: nat, l: nat, s: nat) {
    bid < |b| && l < |b| && s == Dist(l, bid, |b|)
    && forall x: nat :: x < |b| && Dist(x, bid, |b|) < s ==> b[x].loc != 0
  }

  lemma ProbeStart(b: seq<Bucket>, bid: nat)
    requires bid < |b|
    ensures Probed(b, bid, bid, 0)
  {
  }

  lemma ProbeStep(b: seq<Bucket>, data: seq<Elem>, hf: int -> U32, pos: map<nat, nat>, bid: nat, l: nat, s: nat)
    requires Probed(b, bid, l, s) && b[l].loc != 0 && Indexed(b, data, hf, pos) && |pos| < |b|
    ensures s + 1 < |b| && NextSlot(l, |b| - 1) < |b| && Probed(b, bid, NextSlot(l, |b| - 1), s + 1)
  {
    FreeSlot(b, data, hf, pos);
    var free: nat :| free < |b| && b[free].loc == 0;
    forall x: nat | x < |b| && Dist(x, bid, |b|) < s + 1
      ensures b[x].loc != 0
    {
      assert Dist(x, bid, |b|) == s ==> x == l;
    }
    NextDist(l, bid, |b|);
  }

  /* ---- updates ---- */

  function Registered(b: seq<Bucket>, bid: nat, l: nat, h: U32, loc: nat): seq<Bucket>
    requires bid < |b| && l < |b|
  {
    var c := b[bid := b[bid].(cnt := b[bid].cnt + 1)];
    c[l := Bucket(loc + 1, h, c[l].cnt)]
  }

  lemma RegisteredCells(b: seq<Bucket>, bid: nat, l: nat, h: U32, loc: nat)
    requires bid < |b| && l < |b|
    ensures var c := b[bid := b[bid].(cnt := b[bid].cnt + 1)];
            Registered(b, bid, l, h, loc) == c[l := c[l].(loc := loc + 1, hash := h)]
  {
  }

  lemma RegisteredMembers(b: seq<Bucket>, hbits: nat, bid: nat, l: nat, h: U32, loc: nat, x: nat)
    requires 1 <= hbits <= 32 && bid < |b| && l < |b| && b[l].loc == 0 && Home(h, hbits) == bid
    ensures var c := Registered(b, bid, l, h, loc);
            Members(c, hbits, x) == Members(b, hbits, x) + (if x == bid then {l} else {}) && l !in Members(b, hbits, x)
  {
    var c := Registered(b, bid, l, h, loc);
    assert forall y: nat :: y < |b| && y != l ==> c[y].loc == b[y].loc && c[y].hash == b[y].hash;
  }

  lemma RegisteredCounted(b: seq<Bucket>, hbits: nat, bid: nat, l: nat, h: U32, loc: nat)
    requires 1 <= hbits <= 32 && bid < |b| && l < |b| && b[l].loc == 0 && Home(h, hbits) == bid && Counted(b, hbits)
    ensures Counted(Registered(b, bid, l, h, loc), hbits)
  {
    forall x: nat | x < |b|
      ensures Registered(b, bid, l, h, loc)[x].cnt == |Members(Registered(b, bid, l, h, loc), hbits, x)|
    {
      RegisteredMembers(b, hbits, bid, l, h, loc, x);
    }
  }

  lemma RegisteredIndexed(b: seq<Bucket>, data: seq<Elem>, full: seq<Elem>, hf: int -> U32, pos: map<nat, nat>,
                          bid: nat, l: nat, loc: nat)
    requires Indexed(b, data, hf, pos) && data <= full && loc < |full| && loc !in pos
    requires bid < |b| && l < |b| && b[l].loc == 0
    ensures Indexed(Registered(b, bid, l, hf(full[loc].k), loc), full, hf, pos[loc := l])
  {
  }

  function Freed(b: seq<Bucket>, bid: nat, l: nat): seq<Bucket>
    requires bid < |b| && l < |b| && b[bid].cnt > 0
  {
    var c := b[bid := b[bid].(cnt := b[bid].cnt - 1)];
    c[l := c[l].(loc := 0)]
  }

  lemma FreedMembers(b: seq<Bucket>, hbits: nat, bid: nat, l: nat, x: nat)
    requires 1 <= hbits <= 32 && bid < |b| && l < |b| && b[bid].cnt > 0 && IsMember(b[l], hbits, bid)
    ensures Members(Freed(b, bid, l), hbits, x) == Members(b, hbits, x) - (if x == bid then {l} else {})
    ensures l in Members(b, hbits, bid)
  {
    var c := Freed(b, bid, l);
    assert forall y: nat :: y < |b| && y != l ==> c[y].loc == b[y].loc && c[y].hash == b[y].hash;
  }

  lemma FreedCounted(b: seq<Bucket>, hbits: nat, bid: nat, l: nat)
    requires 1 <= hbits <= 32 && bid < |b| && l < |b| && IsMember(b[l], hbits, bid) && Counted(b, hbits)
    ensures b[bid].cnt > 0 && Counted(Freed(b, bid, l), hbits)
  {
    assert l in Members(b, hbits, bid);
    hide Members, IsMember;
    forall x: nat | x < |b|
      ensures Freed(b, bid, l)[x].cnt == |Members(Freed(b, bid, l), hbits, x)|
    {
      FreedMembers(b, hbits, bid, l, x);
    }
  }

  lemma FreedIndexed(b: seq<Bucket>, data: seq<Elem>, hf: int -> U32, pos: map<nat, nat>, bid: nat, l: nat)
    requires Indexed(b, data, hf, pos) && bid < |b| && l < |b| && b[bid].cnt > 0 && b[l].loc != 0
    ensures Indexed(Freed(b, bid, l), data, hf, pos - {b[l].loc - 1})
  {
  }

  /** Slot `t` now points to element index `to`. */
  function Redirected(b: seq<Bucket>, t: nat, to: nat): seq<Bucket>
    requires t < |b|
  {
    b[t := b[t].(loc := to + 1)]
  }

  lemma RedirectedCounted(b: seq<Bucket>, hbits: nat, t: nat, to: nat)
    requires 1 <= hbits <= 32 && Counted(b, hbits) && t < |b| && b[t].loc != 0
    ensures Counted(Redirected(b, t, to), hbits)
  {
    var c := Redirected(b, t, to);
    assert forall y: nat :: y < |b| ==> (c[y].loc == 0 <==> b[y].loc == 0);
    assert forall y: nat :: y < |b| ==> c[y].hash == b[y].hash && c[y].cnt == b[y].cnt;
    forall x: nat | x < |b|
      ensures c[x].cnt == |Members(c, hbits, x)|
    {
      assert Members(c, hbits, x) == Members(b, hbits, x);
    }
  }

  /** The last element moves to the free index `to`, and its slot follows. */
  function TailMoved(data: seq<Elem>, to: nat): seq<Elem>
    requires to < |data|
  {
    data[to := data[|data| - 1]][..|data| - 1]
  }

  lemma TailIndexed(b: seq<Bucket>, data: seq<Elem>, hf: int -> U32, pos: map<nat, nat>, to: nat)
    requires Indexed(b, data, hf, pos) && to < |data| - 1 && to !in pos && |data| - 1 in pos
    ensures var n := |data| - 1;
            Indexed(Redirected(b, pos[n], to), TailMoved(data, to), hf, (pos - {n})[to := pos[n]])
  {
    var n := |data| - 1;
    var t := pos[n];
    var c, d, p := Redirected(b, t, to), TailMoved(data, to), (pos - {n})[to := t];
    forall i | i in p
      ensures i < |d| && p[i] < |c| && c[p[i]].loc == i + 1 && c[p[i]].hash == hf(d[i].k)
    {
      if i != to {
        assert i in pos && pos[i] != t;
      }
    }
  }

  /** The registration after the element at `n - 1` has moved to `to`. */
  function MovedPos(pos: map<nat, nat>, n: nat, to: nat): map<nat, nat>
    requires to < n - 1 && n - 1 in pos
  {
    (pos - {n - 1})[to := pos[n - 1]]
  }

  lemma KeysMoved(pos: map<nat, nat>, n: nat, to: nat)
    requires to < n && pos.Keys == Below(n) - {to}
    ensures to < n - 1 ==> n - 1 in pos && to !in pos && MovedPos(pos, n, to).Keys == Below(n - 1)
    ensures to == n - 1 ==> n - 1 !in pos && pos.Keys == Below(n - 1)
  {
    assert n - 1 in pos.Keys <==> to < n - 1;
    assert to !in pos.Keys;
    if to < n - 1 {
      assert forall x: nat :: x in MovedPos(pos, n, to).Keys <==> x in Below(n - 1);
    }
  }

  lemma TailStep(b: seq<Bucket>, data: seq<Elem>, hf: int -> U32, pos: map<nat, nat>, hbits: nat, to: nat)
    requires Indexed(b, data, hf, pos) && 1 <= hbits <= 32 && Counted(b, hbits)
    requires to < |data| - 1 && to !in pos && |data| - 1 in pos
    ensures var n := |data| - 1; var t := pos[n];
            t < |b| && var c := b[t := b[t].(loc := to + 1)];
            Indexed(c, TailMoved(data, to), hf, MovedPos(pos, |data|, to)) && Counted(c, hbits)
  {
    SlotOf(b, data, hf, pos, |data| - 1);
    TailIndexed(b, data, hf, pos, to);
    RedirectedCounted(b, hbits, pos[|data| - 1], to);
  }

  lemma SlotOf(b: seq<Bucket>, data: seq<Elem>, hf: int -> U32, pos: map<nat, nat>, i: nat)
    requires Indexed(b, data, hf, pos) && i in pos
    ensures pos[i] < |b| && b[pos[i]].loc == i + 1
  {
  }

  /** Looking up the last element's own key finds it. */
  lemma TailFound(data: seq<Elem>, pos: map<nat, nat>, loc: nat)
    requires DistinctKeys(data) && data != [] && |data| - 1 in pos
    requires loc == 0 ==> Unregistered(data, pos, data[|data| - 1].k)
    requires loc > 0 ==> loc <= |data| && data[loc - 1].k == data[|data| - 1].k
    ensures loc == |data|
  {
    var n := |data| - 1;
    assert forall i :: 0 <= i < n ==> data[i].k != data[n].k;
  }

  lemma LastIndexed(b: seq<Bucket>, data: seq<Elem>, hf: int -> U32, pos: map<nat, nat>)
    requires Indexed(b, data, hf, pos) && data != [] && |data| - 1 !in pos
    ensures Indexed(b, data[..|data| - 1], hf, pos)
  {
  }

  /* ---- the element block as a finite map ---- */

  /** The block lists the entries of `m`, each once. */
  ghost predicate Lists(data: seq<Elem>, m: map<int, int>) {
    DistinctKeys(data) && |data| == |m|
    && (forall i :: 0 <= i < |data| ==> data[i].k in m && m[data[i].k] == data[i].v)
    && (forall k :: k in m ==> HasKey(data, k))
  }

  ghost predicate HasKey(data: seq<Elem>, k: int) {
    exists i :: 0 <= i < |data| && data[i].k == k
  }

  lemma ListsFacts(data: seq<Elem>, m: map<int, int>)
    requires Lists(data, m)
    ensures |data| == |m| && DistinctKeys(data)
  {
  }

  lemma ListsAt(data: seq<Elem>, m: map<int, int>, i: nat)
    requires Lists(data, m) && i < |data|
    ensures data[i].k in m && m[data[i].k] == data[i].v
  {
  }

  /** With every element registered, a key that no registered element has is not in the map. */
  lemma ListsAbsent(data: seq<Elem>, m: map<int, int>, pos: map<nat, nat>, k: int)
    requires Lists(data, m) && pos.Keys == Below(|data|) && Unregistered(data, pos, k)
    ensures k !in m && !HasKey(data, k)
  {
    forall i | 0 <= i < |data|
      ensures data[i].k != k
    {
      assert i in pos.Keys;
    }
  }

  /** The first elements are registered: the next one's key is new. */
  lemma NextUnregistered(data: seq<Elem>, pos: map<nat, nat>, i: nat)
    requires DistinctKeys(data) && pos.Keys == Below(i) && i < |data|
    ensures Unregistered(data, pos, data[i].k)
  {
    forall j | j in pos && j < |data|
      ensures data[j].k != data[i].k
    {
      assert j in pos.Keys;
    }
  }

  lemma BelowStep(pos: map<nat, nat>, i: nat)
    requires pos.Keys == Below(i)
    ensures |pos| == i && i !in pos && Below(i) + {i} == Below(i + 1)
  {
    assert |pos.Keys| == |pos|;
    assert i !in pos.Keys;
  }

  lemma IndexedValue(b: seq<Bucket>, data: seq<Elem>, hf: int -> U32, pos: map<nat, nat>, i: nat, v: int)
    requires Indexed(b, data, hf, pos) && i < |data|
    ensures Indexed(b, data[i := Elem(data[i].k, v)], hf, pos)
  {
  }

  lemma ListsAdded(data: seq<Elem>, m: map<int, int>, k: int, v: int)
    requires Lists(data, m) && !HasKey(data, k)
    ensures k !in m && Lists(data + [Elem(k, v)], m[k := v])
  {
    var d := data + [Elem(k, v)];
    assert m[k := v].Keys == m.Keys + {k};
    forall j | j in m[k := v]
      ensures HasKey(d, j)
    {
      if j == k {
        assert d[|data|].k == k;
      } else {
        var i :| 0 <= i < |data| && data[i].k == j;
        assert d[i].k == j;
      }
    }
  }

  lemma ListsOverwritten(data: seq<Elem>, m: map<int, int>, i: nat, v: int)
    requires Lists(data, m) && i < |data|
    ensures var k := data[i].k; k in m && Lists(data[i := Elem(k, v)], m[k := v])
  {
    var k := data[i].k;
    var d := data[i := Elem(k, v)];
    assert m[k := v].Keys == m.Keys;
    forall j | j in m[k := v]
      ensures HasKey(d, j)
    {
      var x :| 0 <= x < |data| && data[x].k == j;
      assert d[x].k == j;
    }
  }

  /** Removal: the last element takes the place of the one at `i`. */
  lemma ListsRemoved(data: seq<Elem>, m: map<int, int>, i: nat)
    requires Lists(data, m) && i < |data|
    ensures Lists(TailMoved(data, i), m - {data[i].k})
  {
    var k, n := data[i].k, |data| - 1;
    var d := TailMoved(data, i);
    assert (m - {k}).Keys == m.Keys - {k};
    forall j | j in m - {k}
      ensures HasKey(d, j)
    {
      var x :| 0 <= x < |data| && data[x].k == j;
      assert d[if x == n then i else x].k == j;
    }
  }

  function Turned<T>(s: seq<T>, q: nat): seq<T>
    requires q <= |s|
  {
    s[q..] + s[..q]
  }

  lemma ListsTurned(data: seq<Elem>, m: map<int, int>, q: nat)
    requires Lists(data, m) && q <= |data|
    ensures Lists(Turned(data, q), m)
  {
    var d := Turned(data, q);
    var n := |data|;
    assert forall x :: 0 <= x < n ==> d[x] == data[if x < n - q then x + q else x - (n - q)];
    forall j | j in m
      ensures HasKey(d, j)
    {
      var x :| 0 <= x < n && data[x].k == j;
      assert d[if x < q then x + (n - q) else x - q].k == j;
    }
  }
}
