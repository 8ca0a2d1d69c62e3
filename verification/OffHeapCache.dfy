/**
 Off-heap chunks under a byte quota (OffHeapCacheManager in runtime/distributed_model_cache.py).

 An allocation takes three separate steps under the lock: reserve the bytes, then publish
 the chunk or roll the reservation back. The chunk dictionary is a sequence of entries.
 */
module OffHeapCache {
  import opened Basics

  datatype Chunk = Chunk(id: string, data: seq<int>)

  predicate Has(chunks: seq<Chunk>, id: string) {
    chunks != [] && (chunks[0].id == id || Has(chunks[1..], id))
  }

  function SizeOf(chunks: seq<Chunk>, id: string): int {
    if chunks == [] then 0 else if chunks[0].id == id then |chunks[0].data| else SizeOf(chunks[1..], id)
  }

  /** Assignment to a key: in place if present, else at the end. */
  function Put(chunks: seq<Chunk>, id: string, data: seq<int>): seq<Chunk> {
    if chunks == [] then [Chunk(id, data)]
    else if chunks[0].id == id then [Chunk(id, data)] + chunks[1..]
    else [chunks[0]] + Put(chunks[1..], id, data)
  }

  function Drop(chunks: seq<Chunk>, id: string): seq<Chunk> {
    if chunks == [] then []
    else if chunks[0].id == id then chunks[1..]
    else [chunks[0]] + Drop(chunks[1..], id)
  }

  function Stored(chunks: seq<Chunk>): int {
    if chunks == [] then 0 else |chunks[0].data| + Stored(chunks[1..])
  }

  predicate UniqueIds(chunks: seq<Chunk>) {
    chunks == [] || (!Has(chunks[1..], chunks[0].id) && UniqueIds(chunks[1..]))
  }

  lemma {:induction false} PutSpec(chunks: seq<Chunk>, id: string, data: seq<int>, other: string)
    ensures Stored(Put(chunks, id, data)) == Stored(chunks) - SizeOf(chunks, id) + |data|
    ensures Has(Put(chunks, id, data), other) <==> other == id || Has(chunks, other)
    ensures SizeOf(Put(chunks, id, data), other) == if other == id then |data| else SizeOf(chunks, other)
    ensures UniqueIds(chunks) ==> UniqueIds(Put(chunks, id, data))
  {
    if chunks != [] && chunks[0].id != id {
      PutSpec(chunks[1..], id, data, other);
      PutSpec(chunks[1..], id, data, chunks[0].id);
    }
  }

  lemma {:induction false} DropSpec(chunks: seq<Chunk>, id: string, other: string)
    requires UniqueIds(chunks)
    ensures Stored(Drop(chunks, id)) == Stored(chunks) - SizeOf(chunks, id)
    ensures Has(Drop(chunks, id), other) <==> other != id && Has(chunks, other)
    ensures UniqueIds(Drop(chunks, id))
  {
    if chunks != [] && chunks[0].id != id {
      DropSpec(chunks[1..], id, other);
      DropSpec(chunks[1..], id, chunks[0].id);
    }
  }

  lemma {:induction false} SizeBounds(chunks: seq<Chunk>, id: string)
    ensures 0 <= SizeOf(chunks, id) <= Stored(chunks)
    ensures !Has(chunks, id) ==> SizeOf(chunks, id) == 0
  {
    if chunks != [] {
      SizeBounds(chunks[1..], id);
    }
  }

  lemma {:induction false} HasExactly(chunks: seq<Chunk>, id: string)
    ensures Has(chunks, id) <==> exists c :: c in chunks && c.id == id
  {
    if chunks != [] {
      HasExactly(chunks[1..], id);
      assert forall c :: c in chunks <==> c == chunks[0] || c in chunks[1..];
    }
  }

  /** An assignment replaces what the key held and nothing else. */
  lemma {:induction false} PutExactly(chunks: seq<Chunk>, id: string, data: seq<int>, c: Chunk)
    requires UniqueIds(chunks)
    ensures c in Put(chunks, id, data) <==> c == Chunk(id, data) || (c in chunks && c.id != id)
  {
    if chunks != [] {
      HasExactly(chunks[1..], chunks[0].id);
      if chunks[0].id != id {
        PutExactly(chunks[1..], id, data, c);
      }
    }
  }

  lemma {:induction false} DropExactly(chunks: seq<Chunk>, id: string, c: Chunk)
    requires UniqueIds(chunks)
    ensures c in Drop(chunks, id) <==> c in chunks && c.id != id
  {
    if chunks != [] {
      HasExactly(chunks[1..], chunks[0].id);
      if chunks[0].id != id {
        DropExactly(chunks[1..], id, c);
      }
    }
  }

  /** The size of a chunk is the number of its bytes. */
  lemma {:induction false} SizeExactly(chunks: seq<Chunk>, c: Chunk)
    requires UniqueIds(chunks) && c in chunks
    ensures SizeOf(chunks, c.id) == |c.data|
  {
    if c != chunks[0] {
      HasExactly(chunks[1..], chunks[0].id);
      SizeExactly(chunks[1..], c);
    }
  }

  class OffHeapCacheManager {
    const maxQuota: int
    var used: int
    var chunks: seq<Chunk>

    constructor (maxQuota: int)
      ensures this.maxQuota == maxQuota && used == 0 && chunks == []
    {
      this.maxQuota, used, chunks := maxQuota, 0, [];
    }

    /** The manager together with allocations in flight and overwritten bytes, which no field holds. */
    ghost function Seen(flight: seq<Pending>, overwritten: int): Heap reads this {
      Heap(maxQuota, used, chunks, flight, overwritten)
    }

    /** First step: refuse a held id or an overdrawn quota, else take the bytes. */
    method Reserve(id: string, data: seq<int>) returns (ok: bool)
      modifies this`used
      ensures ok <==> (forall c :: c in chunks ==> c.id != id) && old(used) + |data| <= maxQuota
      ensures ok <==> CanReserve(maxQuota, old(used), chunks, id, |data|)
      ensures used == if ok then old(used) + |data| else old(used)
      ensures forall flight, lost ::
        Apply(old(Seen(flight, lost)), DoReserve(id, data)) ==
        Seen(if ok then flight + [Pending(id, data)] else flight, lost)
    {
      HasExactly(chunks, id);
      if Has(chunks, id) { return false; }
      if used + |data| > maxQuota { return false; }
      used := used + |data|;
      return true;
    }

    method Publish(id: string, data: seq<int>)
      modifies this`chunks
      ensures chunks == Put(old(chunks), id, data)
      ensures UniqueIds(old(chunks)) ==>
        forall c :: c in chunks <==> c == Chunk(id, data) || (c in old(chunks) && c.id != id)
      ensures forall flight, lost, k: nat :: k < |flight| && flight[k] == Pending(id, data) && data != [] ==>
        Apply(old(Seen(flight, lost)), DoPublish(k)) == Seen(Remove(flight, k), lost + SizeOf(old(chunks), id))
    {
      if UniqueIds(chunks) {
        forall c: Chunk {
          PutExactly(chunks, id, data, c);
        }
      }
      chunks := Put(chunks, id, data);
    }

    method RollBack(id: string, data: seq<int>)
      modifies this`used
      ensures used == old(used) - |data|
      ensures forall flight, lost, k: nat :: k < |flight| && flight[k] == Pending(id, data) ==>
        Apply(old(Seen(flight, lost)), DoRollBack(k)) == Seen(Remove(flight, k), lost)
    {
      used := used - |data|;
    }

    /** Reserve, then publish or roll back; shared memory may fail, and always fails for no bytes. */
    method AllocateChunk(id: string, data: seq<int>, memoryWorks: bool) returns (ok: bool)
      modifies this
      ensures ok <==>
        (forall c :: c in old(chunks) ==> c.id != id) && old(used) + |data| <= maxQuota && memoryWorks && data != []
      ensures used == old(used) + (if ok then |data| else 0)
      ensures chunks == if ok then Put(old(chunks), id, data) else old(chunks)
      ensures ok && UniqueIds(old(chunks)) ==>
        forall c :: c in chunks <==> c == Chunk(id, data) || c in old(chunks)
    {
      ok := Reserve(id, data);
      if ok {
        if memoryWorks && data != [] {
          Publish(id, data);
        } else {
          RollBack(id, data);
          ok := false;
        }
      }
    }

    method FreeChunk(id: string)
      modifies this
      ensures chunks == (if Has(old(chunks), id) then Drop(old(chunks), id) else old(chunks))
      ensures used == old(used) - SizeOf(old(chunks), id)
      ensures UniqueIds(old(chunks)) ==>
        && (forall c :: c in chunks <==> c in old(chunks) && c.id != id)
        && (forall c :: c in old(chunks) && c.id == id ==> used == old(used) - |c.data|)
        && ((forall c :: c in old(chunks) ==> c.id != id) ==> used == old(used))
      ensures forall flight, lost :: Apply(old(Seen(flight, lost)), DoFree(id)) == Seen(flight, lost)
    {
      SizeBounds(chunks, id);
      HasExactly(chunks, id);
      if UniqueIds(chunks) {
        forall c: Chunk {
          DropExactly(chunks, id, c);
        }
        forall c | c in chunks && c.id == id
          ensures SizeOf(chunks, id) == |c.data|
        {
          SizeExactly(chunks, c);
        }
      }
      if Has(chunks, id) {
        var size := SizeOf(chunks, id);
        chunks := Drop(chunks, id);
        used := used - size;
      }
    }
  }

  predicate CanReserve(maxQuota: int, used: int, chunks: seq<Chunk>, id: string, size: nat) {
    !Has(chunks, id) && used + size <= maxQuota
  }

  // ------------------------------------------------------------- interleaving

  /** A reservation that has been neither published nor rolled back. */
  datatype Pending = Pending(id: string, data: seq<int>)

  /** The manager, the allocations in flight, and the bytes of chunks overwritten so far. */
  datatype Heap = Heap(maxQuota: int, used: int, chunks: seq<Chunk>, flight: seq<Pending>, overwritten: int)

  datatype Move =
    | DoReserve(id: string, data: seq<int>)
    | DoPublish(k: nat)
    | DoRollBack(k: nat)
    | DoFree(id: string)

  /** Shared memory of no bytes cannot be created, so an empty allocation only rolls back. */
  predicate Enabled(h: Heap, m: Move) {
    match m
    case DoPublish(k) => k < |h.flight| && h.flight[k].data != []
    case DoRollBack(k) => k < |h.flight|
    case _ => true
  }

  function Remove(s: seq<Pending>, k: nat): seq<Pending>
    requires k < |s|
  {
    s[..k] + s[k + 1..]
  }

  function Apply(h: Heap, m: Move): Heap
    requires Enabled(h, m)
  {
    match m
    case DoReserve(id, data) =>
      if CanReserve(h.maxQuota, h.used, h.chunks, id, |data|)
      then h.(used := h.used + |data|, flight := h.flight + [Pending(id, data)])
      else h
    case DoPublish(k) =>
      var p := h.flight[k];
      h.(chunks := Put(h.chunks, p.id, p.data), flight := Remove(h.flight, k),
         overwritten := h.overwritten + SizeOf(h.chunks, p.id))
    case DoRollBack(k) =>
      h.(used := h.used - |h.flight[k].data|, flight := Remove(h.flight, k))
    case DoFree(id) =>
      if Has(h.chunks, id) then h.(used := h.used - SizeOf(h.chunks, id), chunks := Drop(h.chunks, id)) else h
  }

  function InFlight(s: seq<Pending>): int {
    if s == [] then 0 else |s[0].data| + InFlight(s[1..])
  }

  lemma {:induction false} InFlightConcat(a: seq<Pending>, b: seq<Pending>)
    ensures InFlight(a + b) == InFlight(a) + InFlight(b)
  {
    if a == [] {
      assert a + b == b;
    } else {
      assert (a + b)[1..] == a[1..] + b;
      InFlightConcat(a[1..], b);
    }
  }

  lemma InFlightRemove(s: seq<Pending>, k: nat)
    requires k < |s|
    ensures InFlight(Remove(s, k)) == InFlight(s) - |s[k].data|
  {
    assert s == s[..k] + ([s[k]] + s[k + 1..]);
    InFlightConcat(s[..k], [s[k]] + s[k + 1..]);
    InFlightConcat([s[k]], s[k + 1..]);
    InFlightConcat(s[..k], s[k + 1..]);
    assert [s[k]][1..] == [];
  }

  lemma {:induction false} InFlightNonNegative(s: seq<Pending>)
    ensures InFlight(s) >= 0
  {
    if s != [] {
      InFlightNonNegative(s[1..]);
    }
  }

  /** Every used byte is stored, in flight, or was lost to an overwrite; the quota holds. */
  predicate Accounted(h: Heap) {
    && UniqueIds(h.chunks) && h.overwritten >= 0
    && h.used == Stored(h.chunks) + InFlight(h.flight) + h.overwritten
    && h.used <= Max(0, h.maxQuota)
  }

  lemma MoveKeepsAccounts(h: Heap, m: Move)
    requires Accounted(h) && Enabled(h, m)
    ensures Accounted(Apply(h, m))
  {
    match m {
      case DoReserve(id, data) => InFlightConcat(h.flight, [Pending(id, data)]);
      case DoPublish(k) =>
        PutSpec(h.chunks, h.flight[k].id, h.flight[k].data, "");
        SizeBounds(h.chunks, h.flight[k].id);
        InFlightRemove(h.flight, k);
      case DoRollBack(k) => InFlightRemove(h.flight, k);
      case DoFree(id) =>
        DropSpec(h.chunks, id, "");
        SizeBounds(h.chunks, id);
    }
  }

  /** Nothing in flight is held already, and no two allocations in flight share an id. */
  predicate Disjoint(h: Heap) {
    && (forall i :: 0 <= i < |h.flight| ==> !Has(h.chunks, h.flight[i].id))
    && FlightDistinct(h)
  }

  predicate FlightDistinct(h: Heap) {
    forall i, j :: 0 <= i < j < |h.flight| ==> h.flight[i].id != h.flight[j].id
  }

  lemma MoveKeepsDisjoint(h: Heap, m: Move)
    requires Accounted(h) && Enabled(h, m) && Disjoint(h) && FlightDistinct(Apply(h, m))
    ensures Disjoint(Apply(h, m)) && Apply(h, m).overwritten == h.overwritten
  {
    var x := Apply(h, m);
    match m {
      case DoPublish(k) =>
        SizeBounds(h.chunks, h.flight[k].id);
        forall i | 0 <= i < |x.flight|
          ensures !Has(x.chunks, x.flight[i].id)
        {
          var j := if i < k then i else i + 1;
          assert x.flight[i] == h.flight[j];
          PutSpec(h.chunks, h.flight[k].id, h.flight[k].data, h.flight[j].id);
        }
      case DoFree(id) =>
        forall i | 0 <= i < |x.flight|
          ensures !Has(x.chunks, x.flight[i].id)
        {
          DropSpec(h.chunks, id, x.flight[i].id);
        }
      case _ =>
    }
  }

  ghost predicate IsRun(moves: seq<Move>, heaps: seq<Heap>, maxQuota: int) {
    && |heaps| == |moves| + 1 && heaps[0] == Heap(maxQuota, 0, [], [], 0)
    && forall i :: 0 <= i < |moves| ==> Enabled(heaps[i], moves[i]) && heaps[i + 1] == Apply(heaps[i], moves[i])
  }

  /** In every interleaving the quota is never exceeded and every byte is accounted for; if no
      two allocations in flight ever share a chunk id, used is exactly stored plus in flight. */
  lemma {:induction false} QuotaAlongRun(moves: seq<Move>, heaps: seq<Heap>, maxQuota: int, n: nat)
    requires IsRun(moves, heaps, maxQuota) && n <= |moves|
    ensures Accounted(heaps[n]) && heaps[n].maxQuota == maxQuota
    ensures (forall i :: 0 <= i <= n ==> FlightDistinct(heaps[i])) ==>
      Disjoint(heaps[n]) && heaps[n].used == Stored(heaps[n].chunks) + InFlight(heaps[n].flight)
    ensures (forall i :: 0 <= i <= n ==> FlightDistinct(heaps[i])) ==> heaps[n].overwritten == 0
  {
    if n > 0 {
      QuotaAlongRun(moves, heaps, maxQuota, n - 1);
      MoveKeepsAccounts(heaps[n - 1], moves[n - 1]);
      if forall i :: 0 <= i <= n ==> FlightDistinct(heaps[i]) {
        MoveKeepsDisjoint(heaps[n - 1], moves[n - 1]);
      }
    }
  }

  // ------------------------------------------------ when bytes are lost, exactly

  /** Every chunk holds bytes. */
  predicate NoneEmpty(chunks: seq<Chunk>) {
    chunks == [] || (chunks[0].data != [] && NoneEmpty(chunks[1..]))
  }

  lemma {:induction false} HeldHasBytes(chunks: seq<Chunk>, id: string)
    requires NoneEmpty(chunks)
    ensures Has(chunks, id) <==> SizeOf(chunks, id) > 0
  {
    if chunks != [] && chunks[0].id != id {
      HeldHasBytes(chunks[1..], id);
    }
  }

  lemma {:induction false} PutDropNoneEmpty(chunks: seq<Chunk>, id: string, data: seq<int>)
    requires NoneEmpty(chunks)
    ensures data != [] ==> NoneEmpty(Put(chunks, id, data))
    ensures NoneEmpty(Drop(chunks, id))
  {
    if chunks != [] {
      PutDropNoneEmpty(chunks[1..], id, data);
    }
  }

  lemma {:induction false} RunsStoreNoneEmpty(moves: seq<Move>, heaps: seq<Heap>, maxQuota: int, n: nat)
    requires IsRun(moves, heaps, maxQuota) && n <= |moves|
    ensures NoneEmpty(heaps[n].chunks)
  {
    if n > 0 {
      RunsStoreNoneEmpty(moves, heaps, maxQuota, n - 1);
      var h, m := heaps[n - 1], moves[n - 1];
      match m {
        case DoPublish(k) => PutDropNoneEmpty(h.chunks, h.flight[k].id, h.flight[k].data);
        case DoFree(id) => PutDropNoneEmpty(h.chunks, id, []);
        case _ =>
      }
    }
  }

  /** This publish finds its id stored already. */
  predicate Overwrites(h: Heap, m: Move) {
    m.DoPublish? && m.k < |h.flight| && Has(h.chunks, h.flight[m.k].id)
  }

  lemma {:induction false} LostIff(moves: seq<Move>, heaps: seq<Heap>, maxQuota: int, n: nat)
    requires IsRun(moves, heaps, maxQuota) && n <= |moves|
    ensures heaps[n].overwritten >= 0
    ensures heaps[n].overwritten == 0 <==> forall i :: 0 <= i < n ==> !Overwrites(heaps[i], moves[i])
  {
    if n > 0 {
      LostIff(moves, heaps, maxQuota, n - 1);
      var h, m := heaps[n - 1], moves[n - 1];
      RunsStoreNoneEmpty(moves, heaps, maxQuota, n - 1);
      if m.DoPublish? {
        HeldHasBytes(h.chunks, h.flight[m.k].id);
        SizeBounds(h.chunks, h.flight[m.k].id);
      }
    }
  }

  /** In every interleaving, used is exactly stored plus in flight if and only if no publish so far
      found its id stored already. */
  lemma AccountIsExact(moves: seq<Move>, heaps: seq<Heap>, maxQuota: int, n: nat)
    requires IsRun(moves, heaps, maxQuota) && n <= |moves|
    ensures heaps[n].used == Stored(heaps[n].chunks) + InFlight(heaps[n].flight)
       <==> forall i :: 0 <= i < n ==> !Overwrites(heaps[i], moves[i])
  {
    QuotaAlongRun(moves, heaps, maxQuota, n);
    LostIff(moves, heaps, maxQuota, n);
  }

  /** Whenever two allocations in flight share an id and both publish, the first one's bytes, at
      least one, stay on the books although they are stored nowhere. */
  lemma SharedIdLeaks(h: Heap, i: nat, j: nat)
    requires Accounted(h) && i < j < |h.flight| && h.flight[i].id == h.flight[j].id
    requires Enabled(h, DoPublish(i)) && Enabled(h, DoPublish(j))
    ensures Enabled(Apply(h, DoPublish(j)), DoPublish(i))
    ensures var x := Apply(Apply(h, DoPublish(j)), DoPublish(i));
      x.used >= Stored(x.chunks) + InFlight(x.flight) + |h.flight[j].data| > Stored(x.chunks) + InFlight(x.flight)
  {
    var y := Apply(h, DoPublish(j));
    MoveKeepsAccounts(h, DoPublish(j));
    assert y.flight[i] == h.flight[i];
    MoveKeepsAccounts(y, DoPublish(i));
    PutSpec(h.chunks, h.flight[j].id, h.flight[j].data, h.flight[i].id);
    SizeBounds(h.chunks, h.flight[j].id);
  }

  lemma RunSnoc(moves: seq<Move>, heaps: seq<Heap>, maxQuota: int, m: Move, x: Heap)
    requires IsRun(moves, heaps, maxQuota) && Enabled(heaps[|moves|], m) && x == Apply(heaps[|moves|], m)
    ensures IsRun(moves + [m], heaps + [x], maxQuota)
  {
    var ms, hs := moves + [m], heaps + [x];
    forall i | 0 <= i < |ms|
      ensures Enabled(hs[i], ms[i]) && hs[i + 1] == Apply(hs[i], ms[i])
    {
      assert hs[i] == heaps[i];
    }
  }

  /** Such a state is reached from the empty manager by two callers that reserve before either
      publishes, for any id and any data that fit the quota twice. */
  lemma SharedIdReachable(id: string, data: seq<int>, maxQuota: int) returns (moves: seq<Move>, heaps: seq<Heap>)
    requires data != [] && 2 * |data| <= maxQuota
    ensures IsRun(moves, heaps, maxQuota)
    ensures heaps[|moves|] == Heap(maxQuota, 2 * |data|, [], [Pending(id, data), Pending(id, data)], 0)
  {
    var p := Pending(id, data);
    var one, two := Heap(maxQuota, |data|, [], [p], 0), Heap(maxQuota, 2 * |data|, [], [p, p], 0);
    assert [] + [p] == [p] && [p] + [p] == [p, p];
    RunSnoc([], [Heap(maxQuota, 0, [], [], 0)], maxQuota, DoReserve(id, data), one);
    moves, heaps := [] + [DoReserve(id, data)], [Heap(maxQuota, 0, [], [], 0)] + [one];
    RunSnoc(moves, heaps, maxQuota, DoReserve(id, data), two);
    moves, heaps := moves + [DoReserve(id, data)], heaps + [two];
  }

  /** And both publish: as many bytes are on the books for good as are stored. */
  lemma LeakIsReachable(id: string, data: seq<int>, maxQuota: int) returns (moves: seq<Move>, heaps: seq<Heap>)
    requires data != [] && 2 * |data| <= maxQuota
    ensures IsRun(moves, heaps, maxQuota)
    ensures heaps[|moves|] == Heap(maxQuota, 2 * |data|, [Chunk(id, data)], [], |data|)
  {
    var p, c := Pending(id, data), Chunk(id, data);
    var one, both := Heap(maxQuota, 2 * |data|, [c], [p], 0), Heap(maxQuota, 2 * |data|, [c], [], |data|);
    moves, heaps := SharedIdReachable(id, data, maxQuota);
    assert Remove([p, p], 1) == [p] && Remove([p], 0) == [];
    RunSnoc(moves, heaps, maxQuota, DoPublish(1), one);
    moves, heaps := moves + [DoPublish(1)], heaps + [one];
    RunSnoc(moves, heaps, maxQuota, DoPublish(0), both);
    moves, heaps := moves + [DoPublish(0)], heaps + [both];
  }
}
