/** The photo ring of photo-provider/cache.c.
  *
  * `Ring` is the specification: photos are numbered from 0 in the order in which they were
  * stored since the last flush, so a logical position is an index into `pushed`, and the
  * source's `tail` is |pushed|. `PhotoCache` is the source's struct, with its array indexed
  * modulo the capacity; every method is proved to do to the array what the function of the
  * same name does to the Ring.
  */
module PhotoRing {
  import opened Basics

  /** A fetched photo: its memfd, the registration (client_id) it was fetched under, its metadata. */
  datatype Photo = Photo(fd: nat, registration: nat, meta: string)

  /** history_depth and the effective cache_depth; `Configured` replaces a cache_depth of 0 by 1. */
  datatype Depths = Depths(history: nat, prefetch: nat) {
    ghost predicate Valid() { 1 <= prefetch }

    function Capacity(): nat { history + 1 + prefetch }
  }

  function Configured(cacheDepth: nat, historyDepth: nat): (d: Depths)
    ensures d.Valid() && 2 <= d.Capacity()
    ensures d.history == historyDepth && d.prefetch == Max(1, cacheDepth)
  {
    Depths(historyDepth, if cacheDepth != 0 then cacheDepth else 1)
  }

  datatype Ring = Ring(head: nat, cursor: int, pushed: seq<Photo>) {
    function Tail(): nat { |pushed| }

    function Occupied(): int { Tail() - head }

    /** What every reachable ring satisfies; see CacheProtocol.Exec. */
    ghost predicate Valid(d: Depths) {
      && d.Valid()
      && head <= Tail()
      && Occupied() <= d.Capacity()
      && -1 <= cursor < Tail()
      && (if cursor < 0 then head == 0 else head <= cursor)
    }

    /** The photos whose descriptors the ring holds open, oldest first. */
    function Live(): seq<Photo>
      requires head <= Tail()
    {
      pushed[head..]
    }
  }

  const EMPTY_RING := Ring(0, -1, [])

  predicate ShouldFetch(d: Depths, r: Ring) {
    && r.Tail() - r.cursor - 1 < d.prefetch
    && (r.Occupied() < d.Capacity() || r.head < r.cursor)
  }

  predicate CanPop(r: Ring) { r.cursor + 1 < r.Tail() }

  predicate CanPopPrev(r: Ring) { r.head < r.cursor }

  function Fds(photos: seq<Photo>): (fds: seq<nat>)
    ensures |fds| == |photos|
    ensures forall i :: 0 <= i < |photos| ==> fds[i] == photos[i].fd
  {
    seq(|photos|, i requires 0 <= i < |photos| => photos[i].fd)
  }

  lemma FdsNext(photos: seq<Photo>, from: nat, i: nat)
    requires from <= i < |photos|
    ensures Fds(photos[from..i + 1]) == Fds(photos[from..i]) + [photos[i].fd]
  {
  }

  /** Outcome of storing a fetched photo: the new ring, the descriptors closed on the way
    * (an evicted one, or the fetched one when there is no room), and whether it was stored. */
  datatype Placement = Placement(ring: Ring, closed: seq<nat>, stored: bool)

  function Place(d: Depths, r: Ring, p: Photo): (q: Placement)
    requires r.Valid(d)
    ensures q.ring.Valid(d) && q.ring.cursor == r.cursor
  {
    if r.Occupied() < d.Capacity() then Placement(r.(pushed := r.pushed + [p]), [], true)
    else if r.head < r.cursor then
      Placement(Ring(r.head + 1, r.cursor, r.pushed + [p]), [r.pushed[r.head].fd], true)
    else Placement(r, [p.fd], false)
  }

  lemma SliceAppend(photos: seq<Photo>, head: nat, p: Photo)
    requires head <= |photos|
    ensures (photos + [p])[head..] == photos[head..] + [p]
    ensures head < |photos| ==>
      photos[head..][0] == photos[head] && (photos + [p])[head + 1..] == photos[head..][1..] + [p]
  {
  }

  /** What storing does to the live photos and closes. */
  lemma PlacedLive(d: Depths, r: Ring, p: Photo)
    requires r.Valid(d)
    ensures var q, live := Place(d, r, p), r.Live();
      if !q.stored then q.ring == r && q.closed == [p.fd]
      else if r.Occupied() < d.Capacity() then q.closed == [] && q.ring.Live() == live + [p]
      else live != [] && q.closed == [live[0].fd] && q.ring.Live() == live[1..] + [p]
  {
    SliceAppend(r.pushed, r.head, p);
  }

  // ---------------------------------------------------------------------------------------
  // The list zipper the ring implements
  // ---------------------------------------------------------------------------------------

  datatype Zipper = Zipper(history: seq<Photo>, current: Option<Photo>, prefetch: seq<Photo>)

  function Forward(z: Zipper): Zipper
    requires z.prefetch != []
  {
    Zipper(z.history + AsSeq(z.current), Some(z.prefetch[0]), z.prefetch[1..])
  }

  function Backward(z: Zipper): Zipper
    requires z.history != []
  {
    var last := |z.history| - 1;
    Zipper(z.history[..last], Some(z.history[last]), AsSeq(z.current) + z.prefetch)
  }

  /** The ranges [head, cursor), cursor and (cursor, tail) as three lists. */
  function ViewZipper(d: Depths, r: Ring): Zipper
    requires r.Valid(d)
  {
    if r.cursor < 0 then Zipper([], None, r.pushed) else ZipperAt(r.pushed, r.head, r.cursor)
  }

  /** A fetch is due exactly while fewer than prefetch photos wait to be delivered and there is room, or
    * history to make room. */
  lemma ShouldFetchIff(d: Depths, r: Ring)
    requires r.Valid(d)
    ensures var z := ViewZipper(d, r);
      ShouldFetch(d, r) <==>
        |z.prefetch| < d.prefetch && (|r.Live()| < d.history + 1 + d.prefetch || z.history != [])
  {
  }

  /** Moving the border between two adjacent slices by one element. */
  lemma SliceMoves(photos: seq<Photo>, from: nat, n: nat)
    requires from <= n < |photos|
    ensures photos[from..n + 1] == photos[from..n] + [photos[n]]
    ensures photos[n..] == [photos[n]] + photos[n + 1..]
    ensures photos[from..n + 1][..n - from] == photos[from..n] && photos[from..n + 1][n - from] == photos[n]
    ensures photos[n..][1..] == photos[n + 1..] && photos[n..][0] == photos[n]
  {
  }

  /** The zipper with its current photo at position c. */
  function ZipperAt(photos: seq<Photo>, from: nat, c: nat): Zipper
    requires from <= c < |photos|
  {
    Zipper(photos[from..c], Some(photos[c]), photos[c + 1..])
  }

  lemma ZipperMoves(photos: seq<Photo>, from: nat, c: nat)
    requires from <= c && c + 1 < |photos|
    ensures ZipperAt(photos, from, c).prefetch != [] && ZipperAt(photos, from, c + 1).history != []
    ensures ZipperAt(photos, from, c + 1) == Forward(ZipperAt(photos, from, c))
    ensures ZipperAt(photos, from, c) == Backward(ZipperAt(photos, from, c + 1))
  {
    SliceMoves(photos, from, c);
    SliceMoves(photos, from, c + 1);
  }

  lemma PopIsForward(d: Depths, r: Ring)
    requires r.Valid(d)
    ensures CanPop(r) <==> ViewZipper(d, r).prefetch != []
    ensures CanPop(r) ==> r.(cursor := r.cursor + 1).Valid(d)
    ensures CanPop(r) ==>
      ViewZipper(d, r.(cursor := r.cursor + 1)) == Forward(ViewZipper(d, r))
  {
    if CanPop(r) && 0 <= r.cursor {
      ZipperMoves(r.pushed, r.head, r.cursor);
    }
  }

  lemma PopPrevIsBackward(d: Depths, r: Ring)
    requires r.Valid(d)
    ensures CanPopPrev(r) <==> ViewZipper(d, r).history != []
    ensures CanPopPrev(r) ==> r.(cursor := r.cursor - 1).Valid(d)
    ensures CanPopPrev(r) ==>
      ViewZipper(d, r.(cursor := r.cursor - 1)) == Backward(ViewZipper(d, r))
  {
    if CanPopPrev(r) {
      ZipperMoves(r.pushed, r.head, r.cursor - 1);
    }
  }

  lemma AppendBehind(photos: seq<Photo>, head: nat, c: nat, p: Photo)
    requires head <= c < |photos|
    ensures (photos + [p])[head..c] == photos[head..c] && (photos + [p])[c] == photos[c]
    ensures (photos + [p])[c + 1..] == photos[c + 1..] + [p]
    ensures head < c ==> (photos + [p])[head + 1..c] == photos[head..c][1..]
  {
  }

  /** Storing appends to the prefetched list, dropping at most the oldest history entry, and only
    * when the ring is full; without history to drop, the ring is left alone. */
  lemma PlaceOnZipper(d: Depths, r: Ring, p: Photo)
    requires r.Valid(d)
    ensures var z, q := ViewZipper(d, r), Place(d, r, p);
      && (q.stored <==> r.Occupied() < d.Capacity() || z.history != [])
      && (!q.stored ==> q.ring == r && q.closed == [p.fd])
      && (q.stored ==> ViewZipper(d, q.ring) == Zipper(
                         if r.Occupied() < d.Capacity() then z.history else z.history[1..],
                         z.current, z.prefetch + [p]))
  {
    if 0 <= r.cursor {
      AppendBehind(r.pushed, r.head, r.cursor, p);
    }
  }

  // ---------------------------------------------------------------------------------------
  // The array
  // ---------------------------------------------------------------------------------------

  /** `struct entry`: fd == -1 is Free. */
  datatype Entry = Free | Held(photo: Photo)

  datatype PopResult = Blocked | DupFailed | Delivered(photo: Photo)

  function Slot(pos: nat, cap: nat): (i: nat)
    requires 0 < cap
    ensures i < cap
  {
    pos % cap
  }

  lemma SlotsDistinct(p: nat, q: nat, cap: nat)
    requires 0 < cap && p < q < p + cap
    ensures Slot(p, cap) != Slot(q, cap)
  {
    ModDistinct(p, q, cap);
  }

  lemma SlotTaken(head: nat, i: nat, cap: nat)
    requires head <= i < head + cap
    ensures forall p: nat {:trigger Slot(p, cap)} :: head <= p < head + cap && p != i ==> Slot(p, cap) != Slot(i, cap)
  {
    forall p: nat {:trigger Slot(p, cap)} | head <= p < head + cap && p != i
      ensures Slot(p, cap) != Slot(i, cap)
    {
      if p < i { SlotsDistinct(p, i, cap); } else { SlotsDistinct(i, p, cap); }
    }
  }

  lemma SlotPeriodic(p: nat, cap: nat)
    requires 0 < cap
    ensures Slot(p + cap, cap) == Slot(p, cap)
  {
    ModAddModulus(p, cap);
  }

  /** Any cap consecutive positions reach every slot. */
  lemma SlotsCovered(head: nat, cap: nat, k: nat) returns (pos: nat)
    requires k < cap
    ensures head <= pos < head + cap && Slot(pos, cap) == k
  {
    var q := head / cap;
    assert head == cap * q + head % cap;
    assert cap * (q + 1) == cap * q + cap;
    var n := if head % cap <= k then q else q + 1;
    pos := cap * n + k;
    DivModUnique(cap, n, k, pos / cap, pos % cap);
  }

  class PhotoCache {
    const depths: Depths
    const buf: array<Entry>
    var head: nat
    var cursor: int
    var tail: nat
    var generation: nat
    var shutdown: bool
    /** Photos stored since the last flush; the array holds those from `head` on. */
    ghost var pushed: seq<Photo>
    /** Descriptors handed to close(2), in order. */
    ghost var closed: seq<nat>

    ghost function View(): Ring
      reads this
    {
      Ring(head, cursor, pushed)
    }

    /** Position p of the current window [head, head + cap) sits in its slot, or its slot is Free. */
    ghost predicate SlotsMatch()
      requires 0 < buf.Length
      reads this, buf
    {
      forall p: nat {:trigger Slot(p, buf.Length)} :: head <= p < head + buf.Length ==>
        buf[Slot(p, buf.Length)] == if p < |pushed| then Held(pushed[p]) else Free
    }

    ghost predicate Valid()
      reads this, buf
    {
      && View().Valid(depths)
      && tail == |pushed|
      && buf.Length == depths.Capacity()
      && generation < UINT32_MODULUS
      && SlotsMatch()
    }

    constructor (cacheDepth: nat, historyDepth: nat)
      ensures Valid() && fresh(buf)
      ensures View() == EMPTY_RING && generation == 0 && !shutdown && closed == []
      ensures depths == Configured(cacheDepth, historyDepth)
    {
      var d := Configured(cacheDepth, historyDepth);
      depths := d;
      buf := new Entry[d.Capacity()](_ => Free);
      head, cursor, tail := 0, -1, 0;
      generation, shutdown := 0, false;
      pushed, closed := [], [];
    }

    /** entry_close. */
    method CloseEntry(i: nat)
      requires i < buf.Length
      modifies buf, this`closed
      ensures buf[..] == old(buf[..])[i := Free]
      ensures closed == old(closed) + if old(buf[i]).Held? then [old(buf[i]).photo.fd] else []
    {
      if buf[i].Held? {
        closed := closed + [buf[i].photo.fd];
      }
      buf[i] := Free;
    }

    /** The loop of flush_locked. */
    method CloseAll()
      requires Valid()
      modifies this`closed, buf
      ensures forall k :: 0 <= k < buf.Length ==> buf[k] == Free
      ensures closed == old(closed) + Fds(old(View().Live()))
    {
      var i := head;
      ghost var cap := buf.Length;
      while i < tail
        invariant head <= i <= tail
        invariant forall p: nat {:trigger Slot(p, cap)} :: head <= p < head + cap ==>
          buf[Slot(p, cap)] == if i <= p < |pushed| then Held(pushed[p]) else Free
        invariant closed == old(closed) + Fds(pushed[head..i])
      {
        ghost var before := buf[..];
        SlotTaken(head, i, cap);
        CloseEntry(i % buf.Length);
        assert buf[..] == before[Slot(i, cap) := Free];
        FdsNext(pushed, head, i);
        i := i + 1;
      }
      assert pushed[head..tail] == View().Live();
      forall k | 0 <= k < cap
        ensures buf[k] == Free
      {
        var p := SlotsCovered(head, cap, k);
      }
    }

    method FlushLocked()
      requires Valid()
      modifies this`head, this`cursor, this`tail, this`pushed, this`closed, buf
      ensures Valid() && View() == EMPTY_RING
      ensures closed == old(closed) + Fds(old(View().Live()))
    {
      CloseAll();
      head, tail, cursor := 0, 0, -1;
      pushed := [];
    }

    /** pp_cache_invalidate. */
    method Invalidate()
      requires Valid()
      modifies this`head, this`cursor, this`tail, this`pushed, this`closed, this`generation, buf
      ensures Valid() && View() == EMPTY_RING
      ensures generation == (old(generation) + 1) % UINT32_MODULUS
      ensures closed == old(closed) + Fds(old(View().Live()))
    {
      FlushLocked();
      generation := (generation + 1) % UINT32_MODULUS;
    }

    /** The eviction loop: drops the oldest photo while the ring is full and it is not the
      * current one. */
    method MakeRoom()
      requires Valid()
      modifies this`head, this`closed, buf
      ensures Valid()
      ensures if old(View().Occupied() >= depths.Capacity() && CanPopPrev(View()))
              then head == old(head) + 1 && closed == old(closed) + [old(pushed[head].fd)]
              else head == old(head) && closed == old(closed) && buf[..] == old(buf[..])
    {
      while tail - head >= buf.Length && head < cursor
        invariant Valid()
        invariant if head == old(head) then closed == old(closed) && buf[..] == old(buf[..])
                  else
                    && head == old(head) + 1 && tail - head < buf.Length
                    && old(View().Occupied() >= depths.Capacity() && head < cursor)
                    && closed == old(closed) + [old(pushed[head].fd)]
        decreases cursor - head
      {
        ghost var before, cap := buf[..], buf.Length;
        SlotTaken(head, head, cap);
        SlotPeriodic(head, cap);
        CloseEntry(head % buf.Length);
        assert buf[..] == before[Slot(head, cap) := Free];
        head := head + 1;
      }
    }

    /** Stores at `tail`; the slot is not open. */
    method Store(p: Photo)
      requires Valid() && tail - head < buf.Length
      modifies this`tail, this`pushed, buf
      ensures Valid() && View() == old(View()).(pushed := old(pushed) + [p])
      ensures old(buf[Slot(tail, buf.Length)]) == Free
    {
      SlotTaken(head, tail, buf.Length);
      assert buf[Slot(tail, buf.Length)] == Free;
      buf[tail % buf.Length] := Held(p);
      pushed := pushed + [p];
      tail := tail + 1;
    }

    /** The locked tail of one worker_main iteration, for a successful fetch started at
      * generation gen. */
    method Commit(gen: nat, p: Photo) returns (stored: bool)
      requires Valid()
      modifies this`head, this`tail, this`pushed, this`closed, buf
      ensures Valid()
      ensures gen != generation || shutdown ==>
        !stored && View() == old(View()) && closed == old(closed) + [p.fd] && buf[..] == old(buf[..])
      ensures gen == generation && !shutdown ==>
        var q := Place(depths, old(View()), p);
        stored == q.stored && View() == q.ring && closed == old(closed) + q.closed
    {
      if gen != generation || shutdown {
        closed := closed + [p.fd];
        return false;
      }
      MakeRoom();
      if tail - head >= buf.Length {
        closed := closed + [p.fd];
        return false;
      }
      Store(p);
      stored := true;
    }

    /** One evaluation of pp_cache_pop's wait condition and, when it lets the pop through, the
      * rest of its locked section; dupOk is the outcome of dup(2). */
    method TryPop(dupOk: bool) returns (r: PopResult)
      requires Valid()
      modifies this`cursor
      ensures Valid()
      ensures r == Blocked <==> old(!CanPop(View()))
      ensures View() == if r == Blocked then old(View()) else old(View()).(cursor := old(cursor) + 1)
      ensures r != Blocked ==>
        r == if dupOk then Delivered(old(pushed)[old(cursor) + 1]) else DupFailed
    {
      if cursor + 1 >= tail {
        return Blocked;
      }
      cursor := cursor + 1;
      var e := buf[Slot(cursor, buf.Length)];
      r := if dupOk then Delivered(e.photo) else DupFailed;
    }

    /** pp_cache_pop_prev. */
    method PopPrev(dupOk: bool) returns (r: PopResult)
      requires Valid()
      modifies this`cursor
      ensures Valid()
      ensures r == Blocked <==> old(!CanPopPrev(View()))
      ensures View() == if r == Blocked then old(View()) else old(View()).(cursor := old(cursor) - 1)
      ensures r != Blocked ==>
        r == if dupOk then Delivered(old(pushed)[old(cursor) - 1]) else DupFailed
    {
      if cursor <= head {
        return Blocked;
      }
      cursor := cursor - 1;
      var e := buf[Slot(cursor, buf.Length)];
      r := if dupOk then Delivered(e.photo) else DupFailed;
    }
  }
}
