/** The hash map: open addressing without tombstones, elements kept dense (shmap.c). */
module SHMap {
  import opened Bits
  import opened HashGrowth
  import opened HashTable
  import opened Wrappers

  const MAX_ELEMS: nat := 0xffff_ffff
  const THRESHOLD_PCT := 90

  class HMap {
    /** The hash function: any. */
    const hashf: int -> U32
    const elemSize: nat
    const hdr0: nat
    var headerSize: nat
    var hbits: nat
    var hmask: nat
    var threshold: nat
    var b: seq<Bucket>
    var data: seq<Elem>
    /** Slot of each registered element. */
    ghost var pos: map<nat, nat>
    /** The finite map that the object stands for. */
    ghost var contents: map<int, int>

    /** A table of 2^hbits buckets that counts and indexes the registered elements. */
    ghost predicate Table()
      reads this
    {
      1 <= hbits <= 32 && |b| == Pow2(hbits) && hmask == |b| - 1 && Counted(b, hbits) && Indexed(b, data, hashf, pos)
    }

    ghost predicate Sized()
      reads this
    {
      1 <= hbits <= 32 && elemSize > 0 && headerSize == HdrSize(hdr0, elemSize, Pow2(hbits))
      && (threshold == Pct(Pow2(hbits), THRESHOLD_PCT) || (hbits == 32 && threshold == MAX_ELEMS))
      && |data| <= threshold
    }

    ghost predicate Valid()
      reads this
    {
      Table() && Sized() && pos.Keys == Below(|data|) && Lists(data, contents)
    }

    function NextSlot(l: nat): nat
      reads this
    {
      HashTable.NextSlot(l, hmask)
    }

    /** Enters element `loc` with key `key` into the table. No registered element has that key, so the probe never ends
        on a slot to overwrite. */
    method RegHash(key: int, h32: U32, loc: nat, ghost full: seq<Elem>)
      requires Table() && |pos| < |b| && h32 == hashf(key)
      requires data <= full && loc < |full| && full[loc].k == key && loc !in pos
      requires Unregistered(data, pos, key)
      modifies this`b, this`pos
      ensures pos.Keys == old(pos).Keys + {loc} && |b| == old(|b|)
      ensures Counted(b, hbits) && Indexed(b, full, hashf, pos)
    {
      hide Counted, DistinctKeys, HashTable.NextSlot, Home, Indexed, Pow2, Probed, Registered, Unregistered;
      var bid := Home(h32, hbits);
      var l: nat := bid;
      var overwrite := false;
      ghost var s: nat := 0;
      ProbeStart(b, bid);
      while b[l].loc != 0 && !overwrite
        invariant !overwrite && l < |b| && Probed(b, bid, l, s)
        invariant b == old(b) && pos == old(pos) && Table()
        decreases |b| - s
      {
        ProbeStep(b, data, hashf, pos, bid, l, s);
        SlotElement(b, data, hashf, pos, l);
        overwrite := b[l].hash == h32 && data[b[l].loc - 1].k == key;
        if !overwrite {
          l, s := NextSlot(l), s + 1;
        }
      }
      RegisteredCounted(b, hbits, bid, l, h32, loc);
      RegisteredIndexed(b, data, full, hashf, pos, bid, l, loc);
      RegisteredCells(b, bid, l, h32, loc);
      pos := pos[loc := l];
      if !overwrite {
        b := b[bid := b[bid].(cnt := b[bid].cnt + 1)];
      }
      b := b[l := b[l].(loc := loc + 1, hash := h32)];
    }

    /** Looks `key` up among the registered elements: location (0: none) and slot. */
    method LookUp(h: U32, key: int) returns (loc: nat, tl: nat)
      requires Table() && h == hashf(key)
      ensures loc == 0 ==> Unregistered(data, pos, key)
      ensures loc > 0 ==> loc - 1 in pos && loc <= |data| && data[loc - 1].k == key && pos[loc - 1] == tl < |b|
    {
      hide Counted, HashTable.NextSlot, Home, Indexed, Matches, Pow2, Unregistered, Walk;
      var bid := Home(h, hbits);
      loc, tl := 0, 0;
      var hmax := b[bid].cnt;
      var hcnt: nat, l: nat := 0, bid;
      ghost var s: nat := 0;
      WalkStart(b, data, hbits, h, key);
      while hcnt < hmax
        invariant hcnt <= hmax && l < |b| && Walk(b, data, hbits, h, key, l, s, hcnt)
        decreases |b| - s
      {
        WalkGoesOn(b, data, hbits, h, key, l, s, hcnt);
        if b[l].loc != 0 && Home(b[l].hash, hbits) == bid {
          SlotElement(b, data, hashf, pos, l);
          if b[l].hash == h {
            if data[b[l].loc - 1].k == key {
              return b[l].loc, l;
            }
          }
          NotHere(b, data, hbits, l, h, key);
          WalkStep(b, data, hbits, h, key, l, s, hcnt);
          hcnt := hcnt + 1;
        } else {
          WalkStep(b, data, hbits, h, key, l, s, hcnt);
        }
        WalkGoesOn(b, data, hbits, h, key, NextSlot(l), s + 1, hcnt);
        l, s := NextSlot(l), s + 1;
      }
      WalkEnd(b, data, hbits, key, l, s, hcnt, hashf, pos);
    }

    /** Sets mask and threshold, clears the buckets and registers every element again. */
    method Rehash()
      requires 1 <= hbits <= 32 && DistinctKeys(data) && |data| < Pow2(hbits)
      modifies this`hmask, this`threshold, this`b, this`pos
      ensures Table() && pos.Keys == Below(|data|) && threshold == Pct(Pow2(hbits), THRESHOLD_PCT)
    {
      hide Below, Counted, DistinctKeys, HdrSize, Home, Indexed, Lists, Pct, Pow2, Turn, Unregistered;
      var nbuckets := Pow2(hbits);
      hmask := if hbits == 32 then 0xffff_ffff else nbuckets - 1;
      SmallPowers();
      threshold := Pct(nbuckets, THRESHOLD_PCT);
      b := seq(nbuckets, _ => Bucket(0, 0, 0));
      pos := map[];
      EmptyTable(b, data, hashf, hbits);
      var i := 0;
      while i < |data|
        invariant i <= |data| && Table() && pos.Keys == Below(i) && threshold == Pct(nbuckets, THRESHOLD_PCT)
      {
        NextUnregistered(data, pos, i);
        BelowStep(pos, i);
        RegHash(data[i].k, hashf(data[i].k), i, data);
        i := i + 1;
      }
    }

    /** Makes room for one more element. Refused only for a map that is completely full. */
    method InsertCheck() returns (ok: bool)
      requires Valid()
      modifies this`headerSize, this`hbits, this`hmask, this`threshold, this`b, this`data, this`pos
      ensures Valid() && (ok <==> |contents| < MAX_ELEMS) && (ok ==> |data| < threshold)
    {
      hide Below, Counted, DistinctKeys, HdrSize, Home, Indexed, Lists, Pct, Pow2, Turn, Unregistered;
      ThresholdBounds(hbits);
      ListsFacts(data, contents);
      if |data| < threshold {
        return true;
      }
      if hbits == 32 {
        threshold := MAX_ELEMS;
        return |data| != threshold;
      }
      Grow();
      ok := true;
    }

    /** Twice as many buckets: the header grows, and the element block turns so that one short move suffices. */
    method Grow()
      requires Valid() && hbits < 32 && |data| >= threshold
      modifies this`headerSize, this`hbits, this`hmask, this`threshold, this`b, this`data, this`pos
      ensures Valid() && |data| < threshold && hbits == old(hbits) + 1
      ensures Grown(old(headerSize), headerSize, elemSize, old(data), data)
    {
      hide Below, Counted, DistinctKeys, HdrSize, Home, Indexed, Lists, Pct, Pow2, Turn, Unregistered;
      ThresholdBounds(hbits);
      ThresholdBounds(hbits + 1);
      var hs1 := headerSize;
      var h2bits := hbits + 1;
      var hs2 := HdrSize(hdr0, elemSize, Pow2(h2bits));
      Pow2Monotone(hbits, h2bits);
      HdrGrows(hdr0, elemSize, Pow2(hbits), Pow2(h2bits));
      GrownLists(hs1, hs2, elemSize, data, contents);
      data := Turned(data, Turn(hs1, hs2, elemSize, |data|));
      ListsFacts(data, contents);
      headerSize := hs2;
      hbits := h2bits;
      Rehash();
    }

    /** An empty map with room for `initSize` elements. */
    constructor (hashf: int -> U32, elemSize: nat, hdr0: nat, initSize: nat)
      requires elemSize > 0 && initSize <= 0x1_0000_0000
      ensures Valid() && contents == map[] && this.hashf == hashf
    {
      this.hashf, this.elemSize, this.hdr0 := hashf, elemSize, hdr0;
      data, contents, pos := [], map[], map[];
      new;
      var bits := Slog2Ceil(initSize);
      CeilAtMost32(initSize, bits);
      hbits := if bits != 0 then bits else 1;
      headerSize := HdrSize(hdr0, elemSize, Pow2(hbits));
      Rehash();
    }

    method Insert(k: int, v: int) returns (ok: bool)
      requires Valid()
      modifies this
      ensures Valid() && ok == (old(|contents|) < MAX_ELEMS)
      ensures contents == if ok then old(contents)[k := v] else old(contents)
    {
      hide Below, Counted, DistinctKeys, HdrSize, Home, Indexed, Lists, Pct, Pow2, Turn, Unregistered;
      ok := InsertCheck();
      if !ok {
        return;
      }
      var loc, _ := LookUp(hashf(k), k);
      if loc == 0 {
        Append(k, v);
      } else {
        SetValue(loc - 1, v);
      }
    }

    /** A new element at the end of the block. */
    method Append(k: int, v: int)
      requires Valid() && |data| < threshold && Unregistered(data, pos, k)
      modifies this
      ensures Valid() && contents == old(contents)[k := v]
    {
      hide Below, Counted, DistinctKeys, HdrSize, Home, Indexed, Lists, Pct, Pow2, Turn, Unregistered;
      ThresholdBounds(hbits);
      SmallPowers();
      var i := |data|;
      BelowStep(pos, i);
      ListsAbsent(data, contents, pos, k);
      ListsAdded(data, contents, k, v);
      RegHash(k, hashf(k), i, data + [Elem(k, v)]);
      data := data + [Elem(k, v)];
      contents := contents[k := v];
    }

    method SetValue(i: nat, v: int)
      requires Valid() && i < |data|
      modifies this`data, this`contents
      ensures Valid() && contents == old(contents)[old(data)[i].k := v]
    {
      hide Below, Counted, DistinctKeys, HdrSize, Home, Indexed, Lists, Pct, Pow2, Turn, Unregistered;
      ListsOverwritten(data, contents, i, v);
      IndexedValue(b, data, hashf, pos, i, v);
      contents := contents[data[i].k := v];
      data := data[i := Elem(data[i].k, v)];
    }

    /** `incf` combines the stored value with the new one. */
    method Inc(k: int, v: int, incf: (int, int) -> int) returns (ok: bool)
      requires Valid()
      modifies this
      ensures Valid() && ok == (old(|contents|) < MAX_ELEMS)
      ensures var m := old(contents);
              contents == if !ok then m else if k in m then m[k := incf(m[k], v)] else m[k := v]
    {
      hide Below, Counted, DistinctKeys, HdrSize, Home, Indexed, Lists, Pct, Pow2, Turn, Unregistered;
      ok := InsertCheck();
      if !ok {
        return;
      }
      var loc, _ := LookUp(hashf(k), k);
      if loc == 0 {
        ListsAbsent(data, contents, pos, k);
        ok := Insert(k, v);
      } else {
        ListsAt(data, contents, loc - 1);
        SetValue(loc - 1, incf(data[loc - 1].v, v));
      }
    }

    /** Removes `key`; the last element takes the place of the removed one. */
    method Del(key: int) returns (ok: bool)
      requires Valid()
      modifies this
      ensures Valid() && ok == (key in old(contents)) && contents == old(contents) - {key}
    {
      hide Below, Counted, DistinctKeys, HdrSize, Home, HashTable.NextSlot, Indexed, Lists, Matches, Pct, Pow2,
           Unregistered, Walk;
      var h := hashf(key);
      var bid := Home(h, hbits);
      var hmax := b[bid].cnt;
      var hcnt: nat, l: nat := 0, bid;
      ghost var s: nat := 0;
      WalkStart(b, data, hbits, h, key);
      while hcnt < hmax
        invariant unchanged(this) && hcnt <= hmax && l < |b| && Walk(b, data, hbits, h, key, l, s, hcnt)
        decreases |b| - s
      {
        WalkGoesOn(b, data, hbits, h, key, l, s, hcnt);
        if b[l].loc != 0 && Home(b[l].hash, hbits) == bid {
          SlotElement(b, data, hashf, pos, l);
          if b[l].hash == h {
            if data[b[l].loc - 1].k == key {
              Remove(bid, l, key);
              return true;
            }
          }
          NotHere(b, data, hbits, l, h, key);
          WalkStep(b, data, hbits, h, key, l, s, hcnt);
          hcnt := hcnt + 1;
        } else {
          WalkStep(b, data, hbits, h, key, l, s, hcnt);
        }
        WalkGoesOn(b, data, hbits, h, key, NextSlot(l), s + 1, hcnt);
        l, s := NextSlot(l), s + 1;
      }
      WalkEnd(b, data, hbits, key, l, s, hcnt, hashf, pos);
      ListsAbsent(data, contents, pos, key);
      ok := false;
    }

    /** Frees slot `l` of home `bid` and closes the hole in the element block. */
    method Remove(bid: nat, l: nat, key: int)
      requires Valid() && bid < |b| && l < |b| && IsMember(b[l], hbits, bid)
      requires b[l].loc <= |data| && data[b[l].loc - 1].k == key
      modifies this
      ensures Valid() && key in old(contents) && contents == old(contents) - {key}
    {
      hide Below, Counted, DistinctKeys, Freed, HdrSize, Home, Indexed, Lists, Pct, Pow2, Unregistered;
      var l0 := b[l].loc;
      ListsFacts(data, contents);
      ListsAt(data, contents, l0 - 1);
      ListsRemoved(data, contents, l0 - 1);
      Unlink(bid, l);
      contents := contents - {key};
      CloseHole(l0);
    }

    /** Fills the free place `l0 - 1` of the block with the last element, whose slot is found by looking its key up. */
    method CloseHole(l0: nat)
      requires Table() && DistinctKeys(data) && 1 <= l0 <= |data| && pos.Keys == Below(|data|) - {l0 - 1}
      modifies this`b, this`data, this`pos
      ensures Table() && pos.Keys == Below(|data|) && data == TailMoved(old(data), l0 - 1)
    {
      hide Below, Counted, DistinctKeys, Home, Indexed, MovedPos, Pow2, Unregistered;
      var ss := |data|;
      KeysMoved(pos, ss, l0 - 1);
      if ss > 1 && ss != l0 {
        var tail := data[ss - 1];
        var tloc, tl := LookUp(hashf(tail.k), tail.k);
        TailFound(data, pos, tloc);
        TailStep(b, data, hashf, pos, hbits, l0 - 1);
        data := data[l0 - 1 := tail];
        b := b[tl := b[tl].(loc := l0)];
        pos := MovedPos(pos, ss, l0 - 1);
      } else {
        LastIndexed(b, data, hashf, pos);
      }
      data := data[..ss - 1];
    }

    /** Takes slot `l` out of the table; its element stays in the block, unregistered. */
    method Unlink(bid: nat, l: nat)
      requires Table() && bid < |b| && l < |b| && IsMember(b[l], hbits, bid)
      modifies this`b, this`pos
      ensures Table() && |b| == old(|b|) && pos == old(pos) - {old(b)[l].loc - 1}
    {
      hide Counted, Home, Indexed, Pow2;
      FreedCounted(b, hbits, bid, l);
      FreedIndexed(b, data, hashf, pos, bid, l);
      pos := pos - {b[l].loc - 1};
      b := b[bid := b[bid].(cnt := b[bid].cnt - 1)];
      b := b[l := b[l].(loc := 0)];
    }

    method At(k: int) returns (r: Option<int>)
      requires Valid()
      ensures r == if k in contents then Some(contents[k]) else None
    {
      hide Below, Counted, DistinctKeys, HdrSize, Home, Indexed, Lists, Pct, Pow2, Turn, Unregistered;
      var loc, _ := LookUp(hashf(k), k);
      if loc == 0 {
        ListsAbsent(data, contents, pos, k);
      } else {
        ListsAt(data, contents, loc - 1);
      }
      r := if loc == 0 then None else Some(data[loc - 1].v);
    }
  }

  /* ---- whole runs ---- */

  datatype Op = Insert(k: int, v: int) | Inc(k: int, v: int) | Del(k: int) | At(k: int)

  datatype Reply = Done(ok: bool) | Found(value: Option<int>)

  /** What one operation does to a plain finite map that is full at MAX_ELEMS entries. */
  function Step(m: map<int, int>, op: Op, incf: (int, int) -> int): (map<int, int>, Reply) {
    match op
    case Insert(k, v) => if |m| < MAX_ELEMS then (m[k := v], Done(true)) else (m, Done(false))
    case Inc(k, v) =>
      if |m| < MAX_ELEMS then (if k in m then m[k := incf(m[k], v)] else m[k := v], Done(true)) else (m, Done(false))
    case Del(k) => (m - {k}, Done(k in m))
    case At(k) => (m, Found(if k in m then Some(m[k]) else None))
  }

  function Run(ops: seq<Op>, incf: (int, int) -> int): (map<int, int>, seq<Reply>) {
    if ops == [] then
      (map[], [])
    else
      var (m, rs) := Run(ops[..|ops| - 1], incf);
      var (m', r) := Step(m, ops[|ops| - 1], incf);
      (m', rs + [r])
  }

  method Apply(hm: HMap, op: Op, incf: (int, int) -> int) returns (r: Reply)
    requires hm.Valid()
    modifies hm
    ensures hm.Valid() && (hm.contents, r) == Step(old(hm.contents), op, incf)
  {
    hide Counted, Indexed;
    match op
    case Insert(k, v) =>
      var ok := hm.Insert(k, v);
      r := Done(ok);
    case Inc(k, v) =>
      var ok := hm.Inc(k, v, incf);
      r := Done(ok);
    case Del(k) =>
      var ok := hm.Del(k);
      r := Done(ok);
    case At(k) =>
      var value := hm.At(k);
      r := Found(value);
  }

  /** Every run of operations on a new map, whatever the hash function: the replies and the entries left are those of a
      plain finite map. */
  method Simulate(hashf: int -> U32, elemSize: nat, hdr0: nat, initSize: nat, ops: seq<Op>, incf: (int, int) -> int)
    returns (hm: HMap, rs: seq<Reply>)
    requires elemSize > 0 && initSize <= 0x1_0000_0000
    ensures hm.Valid() && (hm.contents, rs) == Run(ops, incf)
  {
    hide Run, Step;
    hm := new HMap(hashf, elemSize, hdr0, initSize);
    rs := [];
    RunEmpty(incf);
    for i := 0 to |ops|
      invariant fresh(hm) && hm.Valid() && (hm.contents, rs) == Run(ops[..i], incf)
    {
      RunSteps(ops, i, incf);
      var r := Apply(hm, ops[i], incf);
      rs := rs + [r];
    }
    assert ops[..|ops|] == ops;
  }

  lemma RunEmpty(incf: (int, int) -> int)
    ensures Run([], incf) == (map[], [])
  {
  }

  lemma RunSteps(ops: seq<Op>, i: nat, incf: (int, int) -> int)
    requires i < |ops|
    ensures var (m, rs) := Run(ops[..i], incf);
            var (m', r) := Step(m, ops[i], incf);
            Run(ops[..i + 1], incf) == (m', rs + [r])
  {
    hide Step;
    assert ops[..i + 1][..i] == ops[..i];
  }

  lemma EmptyTable(b: seq<Bucket>, data: seq<Elem>, hf: int -> U32, hbits: nat)
    requires 1 <= hbits <= 32 && forall l :: 0 <= l < |b| ==> b[l] == Bucket(0, 0, 0)
    ensures Counted(b, hbits) && Indexed(b, data, hf, map[])
  {
    forall x: nat | x < |b|
      ensures b[x].cnt == |Members(b, hbits, x)|
    {
      assert Members(b, hbits, x) == {};
    }
  }

  lemma CeilAtMost32(n: nat, e: nat)
    requires IsCeil(n, e) && n <= 0x1_0000_0000
    ensures e <= 32
  {
    SmallPowers();
    if e > 33 {
      Pow2Monotone(32, e - 1);
    }
  }
}
