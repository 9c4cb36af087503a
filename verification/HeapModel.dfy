/** The evaluator's abstract heap: a bump allocator over a map from base addresses to byte regions.
    Addresses and sizes are unbounded here; wrap-around of machine words is not modelled. */
module HeapModel {
  import opened Wrappers
  import opened Results

  datatype HeapError = MemoryLimitExceeded | InvalidPointer | OutOfBoundsAccess | TypeError

  datatype Region = Region(data: seq<byte>, mutable: bool)

  datatype Heap = Heap(regions: map<nat, Region>, next: nat, total: nat, limit: nat)

  const FIRST_ADDRESS: nat := 0x1000

  function Empty(limit: nat): Heap {
    Heap(map[], FIRST_ADDRESS, 0, limit)
  }

  function Zeros(n: nat): (s: seq<byte>)
    ensures |s| == n && forall i | 0 <= i < n :: s[i] == 0
  {
    seq(n, i => 0)
  }

  /** The least multiple of `align` that is not below an address. */
  function AlignUp(address: nat, align: nat): nat
    requires align > 0
  {
    ((address + align - 1) / align) * align
  }

  function Allocate(h: Heap, size: nat, align: nat, mutable: bool): (Heap, Result<nat, HeapError>)
    requires align > 0
  {
    if h.total + size > h.limit then (h, Err(MemoryLimitExceeded))
    else
      var base := AlignUp(h.next, align);
      (Heap(h.regions[base := Region(Zeros(size), mutable)], base + size, h.total + size, h.limit), Ok(base))
  }

  function Read(h: Heap, base: nat, offset: nat, size: nat): Result<seq<byte>, HeapError> {
    if base !in h.regions then Err(InvalidPointer)
    else if offset + size > |h.regions[base].data| then Err(OutOfBoundsAccess)
    else Ok(h.regions[base].data[offset..offset + size])
  }

  function Splice(data: seq<byte>, offset: nat, bytes: seq<byte>): (r: seq<byte>)
    requires offset + |bytes| <= |data|
    ensures |r| == |data|
  {
    data[..offset] + bytes + data[offset + |bytes|..]
  }

  function Write(h: Heap, base: nat, offset: nat, bytes: seq<byte>): (Heap, Result<(), HeapError>) {
    if base !in h.regions then (h, Err(InvalidPointer))
    else if !h.regions[base].mutable then (h, Err(TypeError))
    else if offset + |bytes| > |h.regions[base].data| then (h, Err(OutOfBoundsAccess))
    else
      var region := h.regions[base];
      (h.(regions := h.regions[base := region.(data := Splice(region.data, offset, bytes))]), Ok(()))
  }

  function Deallocate(h: Heap, base: nat): Heap {
    if base in h.regions
    then h.(regions := h.regions - {base}, total := SaturatingSub(h.total, |h.regions[base].data|))
    else h
  }

  // ---------------------------------------------------------------------------
  // Sum of the live sizes
  // ---------------------------------------------------------------------------

  ghost function LiveBytes(m: map<nat, Region>): nat {
    if m == map[] then 0
    else
      var k :| k in m;
      |m[k].data| + LiveBytes(m - {k})
  }

  lemma {:induction false} LiveBytesRemove(m: map<nat, Region>, k: nat)
    requires k in m
    ensures LiveBytes(m) == |m[k].data| + LiveBytes(m - {k})
    decreases |m|
  {
    var j :| j in m && LiveBytes(m) == |m[j].data| + LiveBytes(m - {j});
    if j != k {
      LiveBytesRemove(m - {j}, k);
      LiveBytesRemove(m - {k}, j);
      assert m - {j} - {k} == m - {k} - {j};
    }
  }

  lemma {:induction false} LiveBytesUpdate(m: map<nat, Region>, k: nat, r: Region)
    ensures LiveBytes(m[k := r]) == LiveBytes(m - {k}) + |r.data|
  {
    LiveBytesRemove(m[k := r], k);
    assert m[k := r] - {k} == m - {k};
  }

  // ---------------------------------------------------------------------------
  // Invariant
  // ---------------------------------------------------------------------------

  predicate Disjoint(m: map<nat, Region>) {
    forall a, b | a in m && b in m && a < b && m[a].data != [] :: a + |m[a].data| <= b
  }

  /** Live regions end below the next address and do not overlap; the counter is the sum of the live sizes, within the limit. */
  ghost predicate Valid(h: Heap) {
    && (forall b | b in h.regions :: b + |h.regions[b].data| <= h.next)
    && Disjoint(h.regions)
    && h.total == LiveBytes(h.regions)
    && h.total <= h.limit
  }

  /** The aligned address is a multiple of the alignment and the first one not below the address. */
  lemma {:induction false} AlignUpLaws(address: nat, align: nat)
    requires align > 0
    ensures address <= AlignUp(address, align) < address + align
    ensures AlignUp(address, align) % align == 0
  {
    var d: int := align;
    var q: int, r: int := (address + d - 1) / d, (address + d - 1) % d;
    assert address + d - 1 == d * q + r;
    assert q * d == d * q;
    MultipleHasNoRemainder(q, d);
  }

  lemma {:induction false} AlignUpIsLeast(address: nat, align: nat, m: nat)
    requires align > 0 && address <= m && m % align == 0
    ensures AlignUp(address, align) <= m
  {
    hide AlignUp;
    AlignUpLaws(address, align);
    var least := AlignUp(address, align);
    MultiplesWithinOneStep(least / align, m / align, align);
  }

  /** Multiples less than one step apart are in the order of their factors. */
  lemma {:induction false} MultiplesWithinOneStep(q: int, n: int, d: int)
    requires d > 0
    ensures d * q < d * n + d ==> d * q <= d * n
  {
    var gap: int := q - n;
    assert d * gap == d * q - d * n;
    assert gap >= 1 ==> d * gap >= d;
    assert gap <= 0 ==> d * gap <= 0;
  }

  lemma {:induction false} MultipleHasNoRemainder(q: int, d: int)
    requires d > 0
    ensures (q * d) % d == 0
  {
    var x: int := q * d;
    var gap: int := x / d - q;
    assert x == d * (x / d) + x % d;
    assert d * gap == d * (x / d) - d * q;
    assert gap <= -1 ==> d * gap <= -d;
    assert gap >= 1 ==> d * gap >= d;
  }

  /** A new region is aligned as asked, zeroed, the first such place beyond everything live, and replaces at most an empty
      region; the next address is right behind it. */
  lemma {:induction false} AllocateValid(h: Heap, size: nat, align: nat, mutable: bool)
    requires Valid(h) && align > 0
    ensures var (h', r) := Allocate(h, size, align, mutable);
      && Valid(h')
      && h.next <= h'.next
      && (r.Ok? <==> LiveBytes(h.regions) + size <= h.limit)
      && (r.Ok? ==>
           && r.value % align == 0 && h.next <= r.value < h.next + align
           && h'.next == r.value + size && h'.total == h.total + size
           && (r.value in h.regions ==> h.regions[r.value].data == [])
           && h'.regions == h.regions[r.value := Region(Zeros(size), mutable)])
      && (r.Err? ==> h' == h)
  {
    AlignUpLaws(h.next, align);
    var (h', r) := Allocate(h, size, align, mutable);
    if r.Ok? {
      LiveBytesUpdate(h.regions, r.value, Region(Zeros(size), mutable));
      if r.value in h.regions {
        LiveBytesRemove(h.regions, r.value);
      } else {
        assert h.regions - {r.value} == h.regions;
      }
    }
  }

  /** A write succeeds exactly inside a live mutable region, the end included. It then changes the bytes written there
      and nothing else; when it fails it changes nothing. */
  lemma {:induction false} WriteSucceedsIff(h: Heap, base: nat, offset: nat, bytes: seq<byte>)
    ensures var (h', r) := Write(h, base, offset, bytes);
      && h'.regions.Keys == h.regions.Keys && h'.(regions := h.regions) == h
      && (forall b | b in h.regions && b != base :: h'.regions[b] == h.regions[b])
      && (r.Ok? <==> base in h.regions && h.regions[base].mutable && offset + |bytes| <= |h.regions[base].data|)
      && (r.Err? ==>
           && h' == h
           && r.error == if base !in h.regions then InvalidPointer
                         else if !h.regions[base].mutable then TypeError
                         else OutOfBoundsAccess)
      && (r.Ok? ==>
           && h'.regions[base].mutable && |h'.regions[base].data| == |h.regions[base].data|
           && forall k | 0 <= k < |h.regions[base].data| ::
                h'.regions[base].data[k] ==
                if offset <= k < offset + |bytes| then bytes[k - offset] else h.regions[base].data[k])
  {
  }

  lemma {:induction false} WriteValid(h: Heap, base: nat, offset: nat, bytes: seq<byte>)
    requires Valid(h)
    ensures Valid(Write(h, base, offset, bytes).0)
  {
    var (h', r) := Write(h, base, offset, bytes);
    if r.Ok? {
      LiveBytesUpdate(h.regions, base, h'.regions[base]);
      LiveBytesRemove(h.regions, base);
    }
  }

  /** Freeing takes away that region alone and gives back exactly its size: the saturating subtraction never saturates. */
  lemma {:induction false} DeallocateValid(h: Heap, base: nat)
    requires Valid(h)
    ensures Valid(Deallocate(h, base))
    ensures Deallocate(h, base).regions == h.regions - {base} && Deallocate(h, base).next == h.next
    ensures Deallocate(h, base).total == h.total - if base in h.regions then |h.regions[base].data| else 0
  {
    if base in h.regions {
      LiveBytesRemove(h.regions, base);
    }
  }

  // ---------------------------------------------------------------------------
  // Runs
  // ---------------------------------------------------------------------------

  datatype Op =
    | AllocateOp(size: nat, align: nat, mutable: bool)
    | WriteOp(base: nat, offset: nat, bytes: seq<byte>)
    | DeallocateOp(base: nat)

  predicate Legal(op: Op) {
    op.AllocateOp? ==> op.align > 0
  }

  function Step(h: Heap, op: Op): Heap
    requires Legal(op)
  {
    match op
    case AllocateOp(size, align, mutable) => Allocate(h, size, align, mutable).0
    case WriteOp(base, offset, bytes) => Write(h, base, offset, bytes).0
    case DeallocateOp(base) => Deallocate(h, base)
  }

  predicate AllLegal(ops: seq<Op>) {
    forall i | 0 <= i < |ops| :: Legal(ops[i])
  }

  /** The heap after a run, oldest operation first. */
  function Run(h: Heap, ops: seq<Op>): Heap
    requires AllLegal(ops)
  {
    if ops == [] then h else Step(Run(h, ops[..|ops| - 1]), ops[|ops| - 1])
  }

  lemma {:induction false} StepValid(h: Heap, op: Op)
    requires Valid(h) && Legal(op)
    ensures Valid(Step(h, op)) && h.next <= Step(h, op).next && Step(h, op).limit == h.limit
  {
    match op
    case AllocateOp(size, align, mutable) => AllocateValid(h, size, align, mutable);
    case WriteOp(base, offset, bytes) => WriteValid(h, base, offset, bytes);
    case DeallocateOp(base) => DeallocateValid(h, base);
  }

  /** Every reachable heap keeps its regions disjoint and its books in order. */
  lemma {:induction false} ReachableValid(limit: nat, ops: seq<Op>)
    requires AllLegal(ops)
    ensures Valid(Run(Empty(limit), ops)) && Run(Empty(limit), ops).limit == limit
  {
    if ops != [] {
      ReachableValid(limit, ops[..|ops| - 1]);
      StepValid(Run(Empty(limit), ops[..|ops| - 1]), ops[|ops| - 1]);
    }
  }

  /** No address below 0x1000 is ever live. */
  lemma {:induction false} LowAddressesNeverLive(limit: nat, ops: seq<Op>, base: nat)
    requires AllLegal(ops)
    ensures 0x1000 <= Run(Empty(limit), ops).next
    ensures base in Run(Empty(limit), ops).regions ==> 0x1000 <= base
  {
    if ops != [] {
      var n := |ops| - 1;
      LowAddressesNeverLive(limit, ops[..n], base);
      ReachableValid(limit, ops[..n]);
      if ops[n].AllocateOp? {
        AllocateValid(Run(Empty(limit), ops[..n]), ops[n].size, ops[n].align, ops[n].mutable);
      }
    }
  }

  /** The first request gets exactly 0x1000 when its alignment divides it. */
  lemma {:induction false} FirstAddress(limit: nat, size: nat, align: nat, mutable: bool)
    requires 0 < align && 0x1000 % align == 0 && size <= limit
    ensures Allocate(Empty(limit), size, align, mutable).1 == Ok(0x1000)
  {
    AlignUpLaws(0x1000, align);
    AlignUpIsLeast(0x1000, align, 0x1000);
  }

  // ---- dangling bases ----

  /** A base below the next address that is not live stays dead for the rest of every run. */
  lemma {:induction false} DeadStaysDead(h: Heap, base: nat, ops: seq<Op>)
    requires Valid(h) && AllLegal(ops)
    requires base !in h.regions && base < h.next
    ensures base !in Run(h, ops).regions && Valid(Run(h, ops)) && base < Run(h, ops).next
  {
    if ops != [] {
      var n := |ops| - 1;
      DeadStaysDead(h, base, ops[..n]);
      var before := Run(h, ops[..n]);
      StepValid(before, ops[n]);
      if ops[n].AllocateOp? {
        AllocateValid(before, ops[n].size, ops[n].align, ops[n].mutable);
      }
    }
  }

  /** A freed base can become valid again exactly when it is the next address, which a non-empty region's base never is. */
  lemma {:induction false} FreedBaseReturnsIff(h: Heap, base: nat)
    requires Valid(h) && base in h.regions
    ensures var freed := Deallocate(h, base);
      && ((exists ops :: AllLegal(ops) && base in Run(freed, ops).regions) <==> base == h.next)
      && (h.regions[base].data != [] ==> base < h.next)
  {
    var freed := Deallocate(h, base);
    DeallocateValid(h, base);
    if base < h.next {
      forall ops | AllLegal(ops) ensures base !in Run(freed, ops).regions {
        DeadStaysDead(freed, base, ops);
      }
    } else {
      var again := [AllocateOp(0, 1, false)];
      assert again[..0] == [];
      AlignUpLaws(freed.next, 1);
      assert Run(freed, again[..0]) == freed;
      assert Run(freed, again) == Step(freed, again[0]);
      assert base in Run(freed, again).regions;
    }
  }

  // ---- shape and contents as functions of the history ----

  /** The last operation that allocated a base, by its index; -1 when none did. */
  function Birth(limit: nat, ops: seq<Op>, base: nat): (i: int)
    requires AllLegal(ops)
    ensures -1 <= i < |ops| && (i >= 0 ==> ops[i].AllocateOp?)
  {
    if ops == [] then -1
    else
      var n := |ops| - 1;
      var op := ops[n];
      if op.AllocateOp? && Allocate(Run(Empty(limit), ops[..n]), op.size, op.align, op.mutable).1 == Ok(base) then n
      else Birth(limit, ops[..n], base)
  }

  /** A live region keeps the alignment, size and mutability of the request that made it; a read-only one stays zero. */
  lemma {:induction false} RegionFollowsRequest(limit: nat, ops: seq<Op>, base: nat)
    requires AllLegal(ops)
    requires base in Run(Empty(limit), ops).regions
    ensures var i := Birth(limit, ops, base);
      var region := Run(Empty(limit), ops).regions[base];
      && i >= 0
      && base % ops[i].align == 0
      && |region.data| == ops[i].size
      && region.mutable == ops[i].mutable
      && (!region.mutable ==> forall k | 0 <= k < |region.data| :: region.data[k] == 0)
    decreases |ops|
  {
    hide LiveBytes, AlignUp, Valid;
    if ops != [] {
      var n := |ops| - 1;
      var before := Run(Empty(limit), ops[..n]);
      var op := ops[n];
      ReachableValid(limit, ops[..n]);
      if op.AllocateOp? {
        AlignUpLaws(before.next, op.align);
      }
      if base in before.regions {
        RegionFollowsRequest(limit, ops[..n], base);
      }
    }
  }

  /** What a byte of a live region should hold according to the history alone: the last write that covered it,
      or zero when the region was allocated after every such write. */
  function Remembered(limit: nat, ops: seq<Op>, base: nat, offset: nat): byte
    requires AllLegal(ops)
  {
    if ops == [] then 0
    else
      var n := |ops| - 1;
      var before := Run(Empty(limit), ops[..n]);
      match ops[n]
      case AllocateOp(size, align, mutable) =>
        if Allocate(before, size, align, mutable).1 == Ok(base) then 0 else Remembered(limit, ops[..n], base, offset)
      case WriteOp(b, start, bytes) =>
        if b == base && Write(before, b, start, bytes).1.Ok? && start <= offset < start + |bytes| then bytes[offset - start]
        else Remembered(limit, ops[..n], base, offset)
      case DeallocateOp(_) => Remembered(limit, ops[..n], base, offset)
  }

  /** One operation carries every byte to the value the history then remembers. */
  lemma {:induction false} StepRemembers(limit: nat, ops: seq<Op>, base: nat, offset: nat)
    requires AllLegal(ops) && ops != []
    requires base in Run(Empty(limit), ops).regions
    requires offset < |Run(Empty(limit), ops).regions[base].data|
    requires var before := Run(Empty(limit), ops[..|ops| - 1]);
      base in before.regions && offset < |before.regions[base].data| ==>
        before.regions[base].data[offset] == Remembered(limit, ops[..|ops| - 1], base, offset)
    ensures Run(Empty(limit), ops).regions[base].data[offset] == Remembered(limit, ops, base, offset)
  {
    hide LiveBytes, AlignUp;
    var before := Run(Empty(limit), ops[..|ops| - 1]);
    var last := ops[|ops| - 1];
    match last
    case AllocateOp(size, align, mutable) =>
    case WriteOp(b, start, bytes) =>
      if Write(before, b, start, bytes).1.Ok? {
        SpliceAt(before.regions[b].data, start, bytes, if b == base then offset else 0);
      }
    case DeallocateOp(b) =>
  }

  lemma {:induction false} SpliceAt(data: seq<byte>, start: nat, bytes: seq<byte>, i: nat)
    requires start + |bytes| <= |data|
    ensures i < |data| ==>
      Splice(data, start, bytes)[i] == if start <= i < start + |bytes| then bytes[i - start] else data[i]
  {
  }

  /** Every byte of every live region of every reachable heap is the one last written there, or zero. */
  lemma {:induction false} ContentsRemembered(limit: nat, ops: seq<Op>, base: nat, offset: nat)
    requires AllLegal(ops)
    requires base in Run(Empty(limit), ops).regions
    requires offset < |Run(Empty(limit), ops).regions[base].data|
    ensures Run(Empty(limit), ops).regions[base].data[offset] == Remembered(limit, ops, base, offset)
    decreases |ops|
  {
    hide Step, Remembered, LiveBytes;
    if ops != [] {
      var before := Run(Empty(limit), ops[..|ops| - 1]);
      if base in before.regions && offset < |before.regions[base].data| {
        ContentsRemembered(limit, ops[..|ops| - 1], base, offset);
      }
      StepRemembers(limit, ops, base, offset);
    }
  }

  /** A read returns exactly the remembered bytes of its range, and fails only for the reason it reports. */
  lemma {:induction false} ReadReturnsRemembered(limit: nat, ops: seq<Op>, base: nat, offset: nat, size: nat)
    requires AllLegal(ops)
    ensures var h := Run(Empty(limit), ops);
      match Read(h, base, offset, size)
      case Ok(bytes) =>
        |bytes| == size && forall i | 0 <= i < size :: bytes[i] == Remembered(limit, ops, base, offset + i)
      case Err(e) =>
        if base !in h.regions then e == InvalidPointer
        else e == OutOfBoundsAccess && offset + size > |h.regions[base].data|
  {
    hide Run, Remembered, LiveBytes;
    var h := Run(Empty(limit), ops);
    if base in h.regions && offset + size <= |h.regions[base].data| {
      var got := h.regions[base].data[offset..offset + size];
      forall i | 0 <= i < size ensures got[i] == Remembered(limit, ops, base, offset + i) {
        ContentsRemembered(limit, ops, base, offset + i);
      }
    }
  }

  // ---------------------------------------------------------------------------
  // The mutable heap
  // ---------------------------------------------------------------------------

  /** The heap as the evaluator owns it: every operation changes the fields in place. */
  class Memory {
    var allocations: map<nat, Region>
    var nextAddr: nat
    var totalAllocated: nat
    const limit: nat

    ghost function Contents(): Heap
      reads this
    {
      Heap(allocations, nextAddr, totalAllocated, limit)
    }

    constructor (limit: nat)
      ensures Contents() == Empty(limit)
    {
      this.limit := limit;
      allocations, nextAddr, totalAllocated := map[], FIRST_ADDRESS, 0;
    }

    method AllocateRegion(size: nat, align: nat, mutable: bool) returns (r: Result<nat, HeapError>)
      requires Valid(Contents()) && align > 0
      modifies this
      ensures Valid(Contents())
      ensures (Contents(), r) == Allocate(old(Contents()), size, align, mutable)
    {
      AllocateValid(Contents(), size, align, mutable);
      if totalAllocated + size > limit {
        return Err(MemoryLimitExceeded);
      }
      var aligned := AlignUp(nextAddr, align);
      allocations := allocations[aligned := Region(Zeros(size), mutable)];
      totalAllocated := totalAllocated + size;
      nextAddr := aligned + size;
      return Ok(aligned);
    }

    method ReadBytes(base: nat, offset: nat, size: nat) returns (r: Result<seq<byte>, HeapError>)
      ensures r == Read(Contents(), base, offset, size)
    {
      if base !in allocations {
        return Err(InvalidPointer);
      }
      var end := offset + size;
      if end > |allocations[base].data| {
        return Err(OutOfBoundsAccess);
      }
      return Ok(allocations[base].data[offset..end]);
    }

    method WriteBytes(base: nat, offset: nat, bytes: seq<byte>) returns (r: Result<(), HeapError>)
      requires Valid(Contents())
      modifies this`allocations
      ensures Valid(Contents())
      ensures (Contents(), r) == Write(old(Contents()), base, offset, bytes)
    {
      WriteValid(Contents(), base, offset, bytes);
      if base !in allocations {
        return Err(InvalidPointer);
      }
      var region := allocations[base];
      if !region.mutable {
        return Err(TypeError);
      }
      var end := offset + |bytes|;
      if end > |region.data| {
        return Err(OutOfBoundsAccess);
      }
      var data := region.data[..offset] + bytes + region.data[end..];
      allocations := allocations[base := region.(data := data)];
      return Ok(());
    }

    method DeallocateRegion(base: nat)
      requires Valid(Contents())
      modifies this
      ensures Valid(Contents())
      ensures Contents() == Deallocate(old(Contents()), base)
      ensures base !in allocations
    {
      DeallocateValid(Contents(), base);
      if base in allocations {
        totalAllocated := SaturatingSub(totalAllocated, |allocations[base].data|);
        allocations := allocations - {base};
      }
    }
  }
}
