/**
 The ring buffer of descriptors that is recycled along the GPU time line:
 CFencedRingBuffer of include/d3d12translationlayer/ImmediateContext.hpp.
 */
module RingBuffer {
  import opened Arithmetic

  const LEDGER_SIZE := 16

  datatype LedgerEntry = LedgerEntry(fence: nat, count: nat)

  /** One stretch the tail moved over: slots handed out, or padding in front of the wrap. */
  datatype Window = Window(start: nat, count: nat, fence: nat, padding: bool)

  /** The fields of the ring buffer. */
  datatype Ring = Ring(size: nat, head: nat, tail: nat, ledger: seq<LedgerEntry>, mask: seq<bool>, index: nat)

  // ---------------------------------------------------------------------------------
  // Live windows and the ledger
  // ---------------------------------------------------------------------------------

  /** The windows lie one behind the other from lo to hi, in the order of their fences. */
  ghost predicate Chained(ws: seq<Window>, n: nat, lo: nat, hi: nat)
    requires n <= |ws|
  {
    if n == 0 then lo == hi
    else
      var w := ws[n - 1];
      w.count > 0 && w.start + w.count == hi && Chained(ws, n - 1, lo, w.start)
      && (n > 1 ==> ws[n - 2].fence <= w.fence)
  }

  /** What the first n windows took under one fence value. */
  ghost function Taken(ws: seq<Window>, n: nat, fence: nat): nat
    requires n <= |ws|
  {
    if n == 0 then 0
    else Taken(ws, n - 1, fence) + (if ws[n - 1].fence == fence then ws[n - 1].count else 0)
  }

  /** What the first n windows took under fences up to a value. */
  ghost function TakenThrough(ws: seq<Window>, n: nat, fence: nat): nat
    requires n <= |ws|
  {
    if n == 0 then 0
    else TakenThrough(ws, n - 1, fence) + (if ws[n - 1].fence <= fence then ws[n - 1].count else 0)
  }

  /** An entry of the ledger is due when it is in use and its fence is reached. */
  ghost predicate Due(r: Ring, i: nat, fence: nat)
    requires i < |r.ledger| == |r.mask|
  {
    r.mask[i] && r.ledger[i].fence <= fence
  }

  ghost function DueCounts(r: Ring, n: nat, fence: nat): nat
    requires n <= |r.ledger| == |r.mask|
  {
    if n == 0 then 0
    else DueCounts(r, n - 1, fence) + (if Due(r, n - 1, fence) then r.ledger[n - 1].count else 0)
  }

  ghost predicate Recorded(r: Ring, i: nat, fence: nat)
    requires i < |r.ledger| == |r.mask|
  {
    r.mask[i] && r.ledger[i].fence == fence
  }

  ghost predicate Booked(r: Ring, fence: nat)
    requires Shape(r)
  {
    exists i :: 0 <= i < LEDGER_SIZE && Recorded(r, i, fence)
  }

  ghost predicate Shape(r: Ring) {
    r.size > 0 && |r.ledger| == |r.mask| == LEDGER_SIZE && r.index < LEDGER_SIZE
  }

  /** Two entries in use carry the same fence. */
  ghost predicate SameFence(r: Ring, i: nat, j: nat)
    requires Shape(r) && i < LEDGER_SIZE && j < LEDGER_SIZE
  {
    r.mask[i] && r.mask[j] && r.ledger[i].fence == r.ledger[j].fence
  }

  ghost predicate NoFenceTwice(r: Ring)
    requires Shape(r)
  {
    forall i, j :: 0 <= i < j < LEDGER_SIZE ==> !SameFence(r, i, j)
  }

  /** The ledger books: every entry in use counts what was taken under its fence, no fence is
      booked twice, only the current entry may carry the latest fence, and an entry not in
      use is blank. */
  ghost predicate Books(r: Ring, ws: seq<Window>, last: nat)
    requires Shape(r)
  {
    && (forall i :: 0 <= i < LEDGER_SIZE && r.mask[i] ==> r.ledger[i].count == Taken(ws, |ws|, r.ledger[i].fence))
    && (forall i :: 0 <= i < LEDGER_SIZE && r.mask[i] ==>
          r.ledger[i].fence <= last && (i != r.index ==> r.ledger[i].fence < last))
    && NoFenceTwice(r)
    && (forall i :: 0 <= i < LEDGER_SIZE && !r.mask[i] ==> r.ledger[i] == LedgerEntry(0, 0))
    && (forall k :: 0 <= k < |ws| ==> Booked(r, ws[k].fence))
  }

  /** The window does not wrap around the end of the buffer. */
  ghost predicate Contiguous(w: Window, size: nat)
    requires size > 0
  {
    w.start % size + w.count <= size
  }

  ghost predicate AllLive(ws: seq<Window>, size: nat, last: nat, released: nat)
    requires size > 0
  {
    forall k :: 0 <= k < |ws| ==> released < ws[k].fence <= last && Contiguous(ws[k], size)
  }

  lemma RestIsLive(ws: seq<Window>, size: nat, last: nat, released: nat, p: nat, fence: nat)
    requires size > 0 && p <= |ws| && AllLive(ws, size, last, released)
    requires forall k :: p <= k < |ws| ==> ws[k].fence > fence
    ensures AllLive(ws[p..], size, last, fence)
  {
    forall k | 0 <= k < |ws| - p
      ensures ws[p..][k] == ws[p + k]
    {
    }
  }

  /** last is the largest fence used so far, released the largest completed value seen. */
  ghost predicate Inv(r: Ring, ws: seq<Window>, last: nat, released: nat) {
    && Shape(r)
    && r.size <= r.head && r.tail <= r.head
    && Chained(ws, |ws|, r.head - r.size, r.tail)
    && Books(r, ws, last)
    && AllLive(ws, r.size, last, released)
  }

  // ---------------------------------------------------------------------------------
  // The due entries count exactly the due windows
  // ---------------------------------------------------------------------------------

  /** Sum over the due entries among the first m of what the first n windows took there. */
  ghost function DueTaken(r: Ring, ws: seq<Window>, n: nat, m: nat, fence: nat): nat
    requires m <= |r.ledger| == |r.mask| && n <= |ws|
  {
    if m == 0 then 0
    else DueTaken(r, ws, n, m - 1, fence) + (if Due(r, m - 1, fence) then Taken(ws, n, r.ledger[m - 1].fence) else 0)
  }

  lemma {:induction false} DueTakenStep(r: Ring, ws: seq<Window>, n: nat, m: nat, fence: nat)
    requires Shape(r) && NoFenceTwice(r) && n < |ws| && m <= LEDGER_SIZE
    ensures DueTaken(r, ws, n + 1, m, fence) == DueTaken(r, ws, n, m, fence)
      + (if exists i :: 0 <= i < m && Due(r, i, fence) && Recorded(r, i, ws[n].fence) then ws[n].count else 0)
  {
    if m > 0 {
      DueTakenStep(r, ws, n, m - 1, fence);
      forall i | 0 <= i < m - 1 && Recorded(r, m - 1, ws[n].fence)
        ensures !Recorded(r, i, ws[n].fence)
      {
        assert !SameFence(r, i, m - 1);
      }
    }
  }

  lemma {:induction false} DueTakenIsTakenThrough(r: Ring, ws: seq<Window>, n: nat, fence: nat)
    requires Shape(r) && NoFenceTwice(r) && n <= |ws|
    requires forall k :: 0 <= k < |ws| ==> Booked(r, ws[k].fence)
    ensures DueTaken(r, ws, n, LEDGER_SIZE, fence) == TakenThrough(ws, n, fence)
  {
    if n == 0 {
      NothingTaken(r, ws, LEDGER_SIZE, fence);
    } else {
      DueTakenIsTakenThrough(r, ws, n - 1, fence);
      DueTakenStep(r, ws, n - 1, LEDGER_SIZE, fence);
      var i :| 0 <= i < LEDGER_SIZE && Recorded(r, i, ws[n - 1].fence);
      assert Due(r, i, fence) <==> ws[n - 1].fence <= fence;
    }
  }

  lemma {:induction false} NothingTaken(r: Ring, ws: seq<Window>, m: nat, fence: nat)
    requires Shape(r) && m <= LEDGER_SIZE
    ensures DueTaken(r, ws, 0, m, fence) == 0
  {
    if m > 0 {
      NothingTaken(r, ws, m - 1, fence);
    }
  }

  lemma {:induction false} DueCountsAreDueTaken(r: Ring, ws: seq<Window>, m: nat, fence: nat)
    requires Shape(r) && m <= LEDGER_SIZE
    requires forall i :: 0 <= i < LEDGER_SIZE && r.mask[i] ==> r.ledger[i].count == Taken(ws, |ws|, r.ledger[i].fence)
    ensures DueCounts(r, m, fence) == DueTaken(r, ws, |ws|, m, fence)
  {
    if m > 0 {
      DueCountsAreDueTaken(r, ws, m - 1, fence);
    }
  }

  /** Releasing the due entries gives back exactly what the due windows took. */
  lemma DueIsTaken(r: Ring, ws: seq<Window>, last: nat, fence: nat)
    requires Shape(r) && Books(r, ws, last)
    ensures DueCounts(r, LEDGER_SIZE, fence) == TakenThrough(ws, |ws|, fence)
  {
    DueCountsAreDueTaken(r, ws, LEDGER_SIZE, fence);
    DueTakenIsTakenThrough(r, ws, |ws|, fence);
  }

  // ---------------------------------------------------------------------------------
  // Releasing a prefix
  // ---------------------------------------------------------------------------------

  lemma {:induction false} FencesAreSorted(ws: seq<Window>, n: nat, lo: nat, hi: nat, i: nat, j: nat)
    requires n <= |ws| && Chained(ws, n, lo, hi) && i <= j < n
    ensures ws[i].fence <= ws[j].fence
  {
    if j < n - 1 {
      FencesAreSorted(ws, n - 1, lo, ws[n - 1].start, i, j);
    } else if i < j {
      FencesAreSorted(ws, n - 1, lo, ws[n - 1].start, i, j - 1);
    }
  }

  lemma {:induction false} AllDue(ws: seq<Window>, n: nat, lo: nat, hi: nat, fence: nat)
    requires n <= |ws| && Chained(ws, n, lo, hi) && forall k :: 0 <= k < n ==> ws[k].fence <= fence
    ensures lo <= hi && TakenThrough(ws, n, fence) == hi - lo
  {
    if n > 0 {
      AllDue(ws, n - 1, lo, ws[n - 1].start, fence);
    }
  }

  /** The due windows are a prefix, and what they took is its length. */
  lemma {:induction false} DuePrefix(ws: seq<Window>, n: nat, lo: nat, hi: nat, fence: nat) returns (p: nat)
    requires n <= |ws| && Chained(ws, n, lo, hi)
    ensures p <= n
    ensures forall k :: 0 <= k < p ==> ws[k].fence <= fence
    ensures forall k :: p <= k < n ==> ws[k].fence > fence
    ensures lo + TakenThrough(ws, n, fence) <= hi
    ensures Chained(ws[p..], n - p, lo + TakenThrough(ws, n, fence), hi)
  {
    if n == 0 {
      p := 0;
    } else if ws[n - 1].fence <= fence {
      p := n;
      forall k | 0 <= k < n ensures ws[k].fence <= fence {
        FencesAreSorted(ws, n, lo, hi, k, n - 1);
      }
      AllDue(ws, n, lo, hi, fence);
    } else {
      p := DuePrefix(ws, n - 1, lo, ws[n - 1].start, fence);
      assert ws[p..][n - 1 - p] == ws[n - 1];
    }
  }

  lemma {:induction false} TakenAfterDrop(ws: seq<Window>, p: nat, n: nat, fence: nat)
    requires p <= n <= |ws| && forall k :: 0 <= k < p ==> ws[k].fence != fence
    ensures Taken(ws[p..], n - p, fence) == Taken(ws, n, fence)
  {
    if n > p {
      TakenAfterDrop(ws, p, n - 1, fence);
    } else {
      NoneTaken(ws, n, fence);
    }
  }

  lemma {:induction false} NoneTaken(ws: seq<Window>, n: nat, fence: nat)
    requires n <= |ws| && forall k :: 0 <= k < n ==> ws[k].fence != fence
    ensures Taken(ws, n, fence) == 0
  {
    if n > 0 {
      NoneTaken(ws, n - 1, fence);
    }
  }

  /** r with the due entries blanked and their counts given back. */
  ghost predicate ReleasedRing(r: Ring, r': Ring, fence: nat)
    requires Shape(r)
  {
    && Shape(r') && r'.size == r.size && r'.tail == r.tail && r'.index == r.index
    && r'.head == r.head + DueCounts(r, LEDGER_SIZE, fence)
    && (forall i :: 0 <= i < LEDGER_SIZE ==>
          if Due(r, i, fence) then !r'.mask[i] && r'.ledger[i] == LedgerEntry(0, 0)
          else r'.mask[i] == r.mask[i] && r'.ledger[i] == r.ledger[i])
  }

  lemma ReleasedBooks(r: Ring, r': Ring, ws: seq<Window>, last: nat, fence: nat, p: nat)
    requires Shape(r) && Books(r, ws, last) && ReleasedRing(r, r', fence) && p <= |ws|
    requires forall k :: 0 <= k < p ==> ws[k].fence <= fence
    requires forall k :: p <= k < |ws| ==> ws[k].fence > fence
    ensures Books(r', ws[p..], last)
  {
    forall i | 0 <= i < LEDGER_SIZE && r'.mask[i]
      ensures r'.ledger[i].count == Taken(ws[p..], |ws[p..]|, r'.ledger[i].fence)
    {
      TakenAfterDrop(ws, p, |ws|, r.ledger[i].fence);
    }
    forall i, j | 0 <= i < j < LEDGER_SIZE
      ensures !SameFence(r', i, j)
    {
      assert !SameFence(r, i, j);
    }
    forall k | 0 <= k < |ws[p..]|
      ensures Booked(r', ws[p..][k].fence)
    {
      assert Booked(r, ws[p + k].fence);
      var i :| 0 <= i < LEDGER_SIZE && Recorded(r, i, ws[p + k].fence);
      assert Recorded(r', i, ws[p..][k].fence);
    }
  }

  /** Releasing drops the due windows, a prefix, and keeps the invariant. */
  lemma ReleaseKeepsInv(r: Ring, r': Ring, ws: seq<Window>, last: nat, released: nat, fence: nat) returns (p: nat)
    requires Inv(r, ws, last, released) && released <= fence && ReleasedRing(r, r', fence)
    ensures p <= |ws| && Inv(r', ws[p..], last, fence)
    ensures forall k :: 0 <= k < p ==> ws[k].fence <= fence
  {
    DueIsTaken(r, ws, last, fence);
    p := DuePrefix(ws, |ws|, r.head - r.size, r.tail, fence);
    ReleasedBooks(r, r', ws, last, fence, p);
    RestIsLive(ws, r.size, last, released, p, fence);
  }

  // ---------------------------------------------------------------------------------
  // Taking slots
  // ---------------------------------------------------------------------------------

  lemma {:induction false} ChainedPrefix(a: seq<Window>, b: seq<Window>, n: nat, lo: nat, hi: nat)
    requires n <= |a| <= |b| && a == b[..|a|] && Chained(a, n, lo, hi)
    ensures Chained(b, n, lo, hi)
  {
    if n > 0 {
      ChainedPrefix(a, b, n - 1, lo, a[n - 1].start);
    }
  }

  lemma {:induction false} TakenPrefix(a: seq<Window>, b: seq<Window>, n: nat, fence: nat)
    requires n <= |a| <= |b| && a == b[..|a|]
    ensures Taken(a, n, fence) == Taken(b, n, fence)
  {
    if n > 0 {
      TakenPrefix(a, b, n - 1, fence);
    }
  }

  /** r after a window was booked on the current entry. */
  ghost function TakeRing(r: Ring, count: nat): Ring
    requires Shape(r)
  {
    var e := r.ledger[r.index];
    r.(tail := r.tail + count, ledger := r.ledger[r.index := LedgerEntry(e.fence, e.count + count)])
  }

  lemma TakeBooks(r: Ring, ws: seq<Window>, last: nat, w: Window)
    requires Shape(r) && Books(r, ws, last) && Recorded(r, r.index, w.fence)
    ensures Books(TakeRing(r, w.count), ws + [w], last)
  {
    var r', ws' := TakeRing(r, w.count), ws + [w];
    forall i | 0 <= i < LEDGER_SIZE && r'.mask[i]
      ensures r'.ledger[i].count == Taken(ws', |ws'|, r'.ledger[i].fence)
    {
      TakenPrefix(ws, ws', |ws|, r.ledger[i].fence);
      assert i < r.index ==> !SameFence(r, i, r.index);
      assert r.index < i ==> !SameFence(r, r.index, i);
    }
    forall i, j | 0 <= i < j < LEDGER_SIZE
      ensures !SameFence(r', i, j)
    {
      assert !SameFence(r, i, j);
    }
    forall k | 0 <= k < |ws'|
      ensures Booked(r', ws'[k].fence)
    {
      if k < |ws| {
        assert Booked(r, ws[k].fence);
        var i :| 0 <= i < LEDGER_SIZE && Recorded(r, i, ws[k].fence);
        assert Recorded(r', i, ws'[k].fence);
      } else {
        assert Recorded(r', r.index, ws'[k].fence);
      }
    }
  }

  /** Booking a window at the tail under the latest fence keeps the invariant. */
  lemma TakeKeepsInv(r: Ring, ws: seq<Window>, last: nat, released: nat, w: Window)
    requires Inv(r, ws, last, released) && Recorded(r, r.index, last) && released < last
    requires w.start == r.tail && w.fence == last && w.count > 0
    requires r.tail + w.count <= r.head && Contiguous(w, r.size)
    ensures Inv(TakeRing(r, w.count), ws + [w], last, released)
  {
    TakeBooks(r, ws, last, w);
    ChainedPrefix(ws, ws + [w], |ws|, r.head - r.size, r.tail);
  }

  /** r after MoveToNextLedgerEntry, which advances the index even when it fails. */
  ghost function MoveRing(r: Ring, fence: nat): Ring
    requires Shape(r)
  {
    var i := (r.index + 1) % LEDGER_SIZE;
    if r.mask[i] then r.(index := i)
    else r.(index := i, mask := r.mask[i := true], ledger := r.ledger[i := LedgerEntry(fence, 0)])
  }

  /** Moving on under a fence above the current entry's keeps the invariant, whether or not
      the next entry was available. */
  lemma MoveKeepsInv(r: Ring, ws: seq<Window>, last: nat, released: nat, fence: nat)
    requires Inv(r, ws, last, released) && last <= fence && r.ledger[r.index].fence < fence
    ensures Inv(MoveRing(r, fence), ws, fence, released)
    ensures !r.mask[(r.index + 1) % LEDGER_SIZE] ==> Recorded(MoveRing(r, fence), (r.index + 1) % LEDGER_SIZE, fence)
  {
    var r' := MoveRing(r, fence);
    forall i | 0 <= i < LEDGER_SIZE && r.mask[i]
      ensures r.ledger[i].fence < fence
    {
    }
    forall i, j | 0 <= i < j < LEDGER_SIZE
      ensures !SameFence(r', i, j)
    {
      assert !SameFence(r, i, j);
    }
    forall k | 0 <= k < |ws|
      ensures Booked(r', ws[k].fence) && ws[k].fence < fence
    {
      assert Booked(r, ws[k].fence);
      var i :| 0 <= i < LEDGER_SIZE && Recorded(r, i, ws[k].fence);
      assert Recorded(r', i, ws[k].fence);
    }
    NoneTaken(ws, |ws|, fence);
    assert Books(r', ws, fence);
  }

  /** A repeated fence is booked on the entry that carries it already. */
  lemma SameFenceIsCurrent(r: Ring, ws: seq<Window>, last: nat, released: nat, fence: nat)
    requires Inv(r, ws, last, released) && last <= fence && 0 < fence && fence <= r.ledger[r.index].fence
    ensures fence == last && Recorded(r, r.index, last)
  {
    assert r.mask[r.index];
  }

  // ---------------------------------------------------------------------------------
  // What the invariant means for the slots
  // ---------------------------------------------------------------------------------

  lemma {:induction false} ChainedBounds(ws: seq<Window>, n: nat, lo: nat, hi: nat, i: nat, j: nat)
    requires n <= |ws| && Chained(ws, n, lo, hi) && i < j < n
    ensures lo <= ws[i].start && ws[i].start + ws[i].count <= ws[j].start && ws[j].start + ws[j].count <= hi
  {
    if j < n - 1 {
      ChainedBounds(ws, n - 1, lo, ws[n - 1].start, i, j);
      ChainedStart(ws, n - 1, lo, ws[n - 1].start, j);
    } else {
      ChainedStart(ws, n - 1, lo, ws[n - 1].start, i);
    }
  }

  lemma {:induction false} ChainedStart(ws: seq<Window>, n: nat, lo: nat, hi: nat, i: nat)
    requires n <= |ws| && Chained(ws, n, lo, hi) && i < n
    ensures lo <= ws[i].start && ws[i].start + ws[i].count <= hi
  {
    if i < n - 1 {
      ChainedStart(ws, n - 1, lo, ws[n - 1].start, i);
    } else {
      ChainedOrder(ws, n - 1, lo, ws[n - 1].start);
    }
  }

  lemma {:induction false} ChainedOrder(ws: seq<Window>, n: nat, lo: nat, hi: nat)
    requires n <= |ws| && Chained(ws, n, lo, hi)
    ensures lo <= hi
  {
    if n > 0 {
      ChainedOrder(ws, n - 1, lo, ws[n - 1].start);
    }
  }

  /** Two windows that are still live never share a slot of the buffer, wherever the tail
      has wrapped in between. */
  lemma LiveWindowsAreDisjoint(r: Ring, ws: seq<Window>, last: nat, released: nat, i: nat, j: nat, x: int)
    requires Inv(r, ws, last, released) && i < j < |ws|
    ensures !(ws[i].start % r.size <= x < ws[i].start % r.size + ws[i].count
              && ws[j].start % r.size <= x < ws[j].start % r.size + ws[j].count)
  {
    ChainedBounds(ws, |ws|, r.head - r.size, r.tail, i, j);
    WithinOneTurn(ws[i].start, ws[j].start, r.size);
  }

  lemma WithinOneTurn(a: nat, b: nat, size: nat)
    requires size > 0 && a <= b <= a + size
    ensures
      || b % size == a % size + (b - a)
      || b % size == a % size + (b - a) - size
      || (b == a + size && b % size == a % size)
  {
    var q, t := a / size, b / size;
    assert a == size * q + a % size && b == size * t + b % size;
    Monotone(size, t, q - 1);
    Monotone(size, q + 2, t);
    assert size * (q - 1) == size * q - size && size * (q + 1) == size * q + size;
    assert size * (q + 2) == size * q + 2 * size;
    assert t == q || t == q + 1;
  }

  /** The counts of the ledger add up to what lies between the freed end and the tail. */
  lemma LedgerCountsTheSpan(r: Ring, ws: seq<Window>, last: nat, released: nat)
    requires Inv(r, ws, last, released)
    ensures DueCounts(r, LEDGER_SIZE, last) == r.tail - (r.head - r.size)
  {
    DueIsTaken(r, ws, last, last);
    AllDue(ws, |ws|, r.head - r.size, r.tail, last);
  }

  // ---------------------------------------------------------------------------------
  // The buffer itself
  // ---------------------------------------------------------------------------------

  /** Whether a request can be met: there is an entry to book it on, and it fits between the
      tail and the head, behind the padding if it would wrap. */
  ghost predicate CanTake(r: Ring, numItems: nat, fence: nat)
    requires Shape(r)
  {
    || numItems == 0
    || ((fence <= r.ledger[r.index].fence || !r.mask[(r.index + 1) % LEDGER_SIZE])
        && Fits(r.size, r.head, r.tail, numItems))
  }

  ghost predicate Fits(size: nat, head: nat, tail: nat, numItems: nat)
    requires size > 0
  {
    StartFor(tail, size, numItems) + numItems <= head
  }

  /** A request fits exactly if some contiguous slots between tail and head are free for it; it
      gets the first of them. */
  lemma FitsExactlyWhen(size: nat, head: nat, tail: nat, numItems: nat, start: nat)
    requires 0 < numItems <= size
    ensures tail <= start && start % size + numItems <= size && start + numItems <= head ==>
      Fits(size, head, tail, numItems) && StartFor(tail, size, numItems) <= start
    ensures tail <= StartFor(tail, size, numItems) && StartFor(tail, size, numItems) % size + numItems <= size
  {
    PaddingReachesTheEnd(tail, size);
    if tail <= start < StartFor(tail, size, numItems) {
      DivModUnique(start, size, tail / size, tail % size + (start - tail));
    }
  }

  /** was plus at most one stretch of padding. */
  ghost predicate Padded(was: seq<Window>, now: seq<Window>) {
    now == was || exists w :: now == was + [w] && w.padding
  }

  lemma PaddingReachesTheEnd(tail: nat, size: nat)
    requires size > 0
    ensures (tail + (size - tail % size)) % size == 0
    ensures Contiguous(Window(tail, size - tail % size, 0, true), size)
  {
    var q := tail / size;
    assert tail + (size - tail % size) == size * q + size == size * (q + 1);
    DivModUnique(size * (q + 1), size, q + 1, 0);
  }

  class CFencedRingBuffer {
    const m_Size: nat
    var m_Head: nat
    var m_Tail: nat
    const m_Ledger: array<LedgerEntry>
    // One bit for every ledger entry.
    var m_LedgerMask: seq<bool>
    var m_LedgerIndex: nat

    ghost var Live: seq<Window>  // what was handed out and not yet given back, oldest first
    ghost var Last: nat          // the largest fence used so far
    ghost var Released: nat      // the largest completed value seen so far

    ghost function Fields(): Ring
      reads this, m_Ledger
    {
      Ring(m_Size, m_Head, m_Tail, m_Ledger[..], m_LedgerMask, m_LedgerIndex)
    }

    ghost predicate Valid()
      reads this, m_Ledger
    {
      Inv(Fields(), Live, Last, Released)
    }

    constructor (size: nat)
      requires size > 0
      ensures Valid() && m_Size == size && fresh(m_Ledger)
      ensures Live == [] && Last == 0 && Released == 0
      ensures forall n: nat, fence :: 0 < fence && n <= size ==> CanTake(Fields(), n, fence)
    {
      m_Size, m_Head, m_Tail := size, size, 0;
      m_Ledger := new LedgerEntry[LEDGER_SIZE](_ => LedgerEntry(0, 0));
      m_LedgerMask := seq(LEDGER_SIZE, i => i == 0);
      m_LedgerIndex := 0;
      Live, Last, Released := [], 0, 0;
    }

    method MoveToNextLedgerEntry(fence: nat) returns (ok: bool)
      requires Valid() && Last <= fence && Released < fence && m_Ledger[m_LedgerIndex].fence < fence
      modifies this`m_LedgerIndex, this`m_LedgerMask, this`Last, m_Ledger
      ensures Valid() && Last == fence && Fields() == MoveRing(old(Fields()), fence)
      ensures ok <==> !old(m_LedgerMask[(m_LedgerIndex + 1) % LEDGER_SIZE])
      ensures ok ==> Recorded(Fields(), m_LedgerIndex, fence)
    {
      MoveKeepsInv(Fields(), Live, Last, Released, fence);
      m_LedgerIndex := (m_LedgerIndex + 1) % LEDGER_SIZE;
      ok := !m_LedgerMask[m_LedgerIndex];
      if ok {
        m_LedgerMask := m_LedgerMask[m_LedgerIndex := true];
        m_Ledger[m_LedgerIndex] := LedgerEntry(fence, 0);
      }
      Last := fence;
    }

    /** Books a window on the current entry and moves the tail. */
    method Take(numItems: nat, ghost padding: bool)
      requires Valid() && numItems > 0 && Released < Last && Recorded(Fields(), m_LedgerIndex, Last)
      requires m_Tail + numItems <= m_Head && m_Tail % m_Size + numItems <= m_Size
      modifies this`m_Tail, this`Live, m_Ledger
      ensures Valid() && Fields() == TakeRing(old(Fields()), numItems)
      ensures Live == old(Live) + [Window(old(m_Tail), numItems, Last, padding)]
    {
      ghost var w := Window(m_Tail, numItems, Last, padding);
      TakeKeepsInv(Fields(), Live, Last, Released, w);
      var e := m_Ledger[m_LedgerIndex];
      m_Ledger[m_LedgerIndex] := LedgerEntry(e.fence, e.count + numItems);
      m_Tail := m_Tail + numItems;
      assert Fields() == TakeRing(old(Fields()), numItems);
      Live := Live + [w];
    }

    /** Takes the slots at the tail if the head leaves room for them. */
    method TakeHere(numItems: nat, ghost padding: bool) returns (ok: bool, offset: nat)
      requires Valid() && 0 < numItems && Released < Last && Recorded(Fields(), m_LedgerIndex, Last)
      requires m_Tail % m_Size + numItems <= m_Size || m_Tail % m_Size == 0
      modifies this`m_Tail, this`Live, m_Ledger
      ensures Valid() && (ok <==> old(m_Tail) + numItems <= m_Head)
      ensures ok ==> Live == old(Live) + [Window(old(m_Tail), numItems, Last, padding)]
      ensures ok ==> offset == old(m_Tail) % m_Size && offset + numItems <= m_Size
      ensures ok ==> m_Tail == old(m_Tail) + numItems && Recorded(Fields(), m_LedgerIndex, Last)
      ensures !ok ==> Live == old(Live)
    {
      ok, offset := m_Tail + numItems <= m_Head, 0xFFFF_FFFF;
      ChainedOrder(Live, |Live|, m_Head - m_Size, m_Tail);
      if ok {
        offset := m_Tail % m_Size;
        Take(numItems, padding);
      }
    }

    /** A request that would wrap throws the rest of the buffer away first. */
    method PadIfNeeded(numItems: nat, fence: nat) returns (ok: bool)
      requires Valid() && 0 < numItems && fence == Last && Released < fence
      requires Recorded(Fields(), m_LedgerIndex, fence)
      modifies this`m_Tail, this`m_LedgerIndex, this`m_LedgerMask, this`Live, this`Last, m_Ledger
      ensures Valid() && Last == fence
      ensures ok <==>
        StartFor(old(m_Tail), m_Size, numItems) == old(m_Tail) || StartFor(old(m_Tail), m_Size, numItems) <= m_Head
      ensures ok ==> m_Tail == StartFor(old(m_Tail), m_Size, numItems)
      ensures ok ==> m_Tail % m_Size + numItems <= m_Size || m_Tail % m_Size == 0
      ensures ok ==> Live == WithPadding(old(Live), old(m_Tail), m_Size, numItems, fence)
      ensures ok ==> Recorded(Fields(), m_LedgerIndex, fence)
      ensures !ok ==> Padded(old(Live), Live)
      decreases numItems, 0
    {
      ok := true;
      var tailLocation := m_Tail % m_Size;
      if tailLocation + numItems > m_Size {
        PaddingIsRequest(Live, m_Tail, m_Size, numItems, fence);
        var rest, dummy := m_Size - tailLocation, 0;
        ok, dummy := Allocate(rest, fence, true);
        assert ok ==> Live == WithRequest(old(Live), old(m_Tail), m_Size, rest, fence, true);
      }
    }

    /** The rest of Allocate, once the fence has an entry: allocations need to be contiguous. */
    method TakeContiguous(numItems: nat, fence: nat, ghost padding: bool) returns (ok: bool, offset: nat)
      requires Valid() && 0 < numItems && fence == Last && Released < fence
      requires Recorded(Fields(), m_LedgerIndex, fence)
      modifies this`m_Tail, this`m_LedgerIndex, this`m_LedgerMask, this`Live, this`Last, m_Ledger
      ensures Valid() && Last == fence
      ensures ok <==> Fits(m_Size, m_Head, old(m_Tail), numItems)
      ensures ok ==>
        Live == WithRequest(old(Live), old(m_Tail), m_Size, numItems, fence, padding)
        && offset == Live[|Live| - 1].start % m_Size && offset + numItems <= m_Size
      ensures ok && old(m_Tail) % m_Size + numItems <= m_Size ==>
        m_Tail == old(m_Tail) + numItems && Recorded(Fields(), m_LedgerIndex, fence)
      ensures !ok ==> Padded(old(Live), Live)
      decreases numItems, 1
    {
      var padded := PadIfNeeded(numItems, fence);
      if !padded {
        return false, 0;
      }
      ok, offset := TakeHere(numItems, padding);
    }

    /** Makes sure that the current ledger entry is the one of a fence, moving on if need be. */
    method EntryFor(fence: nat) returns (ok: bool)
      requires Valid() && 0 < fence && Last <= fence && Released < fence
      modifies this`m_LedgerIndex, this`m_LedgerMask, this`Last, m_Ledger
      ensures Valid() && Last == fence
      ensures forall n: nat :: 0 < n ==>
        (CanTake(old(Fields()), n, fence) <==> ok && Fits(m_Size, m_Head, m_Tail, n))
      ensures ok ==> Recorded(Fields(), m_LedgerIndex, fence)
    {
      ok := true;
      if fence > m_Ledger[m_LedgerIndex].fence {
        ok := MoveToNextLedgerEntry(fence);
      } else {
        SameFenceIsCurrent(Fields(), Live, Last, Released, fence);
      }
    }

    /** Hands out numItems contiguous slots that the work signalled with a fence may use. */
    method Allocate(numItems: nat, fence: nat, ghost padding: bool := false) returns (ok: bool, offset: nat)
      requires Valid() && 0 < fence && Last <= fence && Released < fence
      modifies this`m_Tail, this`m_LedgerIndex, this`m_LedgerMask, this`Live, this`Last, m_Ledger
      ensures Valid() && Last == if numItems == 0 then old(Last) else fence
      ensures ok <==> CanTake(old(Fields()), numItems, fence)
      ensures numItems == 0 ==> Live == old(Live)
      ensures ok && numItems > 0 ==>
        Live == WithRequest(old(Live), old(m_Tail), m_Size, numItems, fence, padding)
        && offset == Live[|Live| - 1].start % m_Size && offset + numItems <= m_Size
      ensures ok && numItems > 0 && old(m_Tail) % m_Size + numItems <= m_Size ==>
        m_Tail == old(m_Tail) + numItems && Recorded(Fields(), m_LedgerIndex, fence)
      ensures !ok ==> Padded(old(Live), Live)
      decreases numItems, 2
    {
      if numItems == 0 {
        return true, m_Tail % m_Size;
      }
      var moved := EntryFor(fence);
      if !moved {
        return false, 0;
      }
      ok, offset := TakeContiguous(numItems, fence, padding);
    }

    /** Blanks the entries whose fence is reached and adds their counts to the head. */
    method ReleaseDue(completed: nat)
      requires Shape(Fields())
      modifies this`m_Head, this`m_LedgerMask, m_Ledger
      ensures ReleasedRing(old(Fields()), Fields(), completed)
    {
      ghost var r := Fields();
      var i := 0;
      while i < LEDGER_SIZE
        invariant i <= LEDGER_SIZE && Releasing(r, Fields(), completed, i)
      {
        var entry := m_Ledger[i];
        if m_LedgerMask[i] && entry.fence <= completed {
          m_Head := m_Head + entry.count;
          m_Ledger[i] := LedgerEntry(0, 0);
          m_LedgerMask := m_LedgerMask[i := false];
        }
        i := i + 1;
        if forall j :: 0 <= j < LEDGER_SIZE ==> !m_LedgerMask[j] {
          NothingElseIsDue(r, Fields(), completed, i);
          break;
        }
      }
    }

    /** Gives back the windows whose fence the GPU has reached, and no others. */
    method Deallocate(completed: nat) returns (ghost p: nat)
      requires Valid() && Released <= completed
      modifies this`m_Head, this`m_LedgerMask, this`Live, this`Released, m_Ledger
      ensures Valid() && Released == completed
      ensures p <= |old(Live)| && Live == old(Live)[p..]
      ensures forall k :: 0 <= k < p ==> old(Live)[k].fence <= completed
      ensures forall k :: 0 <= k < |Live| ==> Live[k].fence > completed
    {
      ghost var r := Fields();
      ReleaseDue(completed);
      p := ReleaseKeepsInv(r, Fields(), Live, Last, Released, completed);
      Live, Released := Live[p..], completed;
    }
  }

  /** The first n entries have been looked at, and released if due. */
  ghost predicate Releasing(r: Ring, now: Ring, fence: nat, n: nat)
    requires Shape(r) && n <= LEDGER_SIZE
  {
    && Shape(now) && now.size == r.size && now.tail == r.tail && now.index == r.index
    && now.head == r.head + DueCounts(r, n, fence)
    && (forall i :: 0 <= i < LEDGER_SIZE ==>
          if i < n && Due(r, i, fence) then !now.mask[i] && now.ledger[i] == LedgerEntry(0, 0)
          else now.mask[i] == r.mask[i] && now.ledger[i] == r.ledger[i])
  }

  lemma NothingElseIsDue(r: Ring, now: Ring, fence: nat, n: nat)
    requires Shape(r) && n <= LEDGER_SIZE && Releasing(r, now, fence, n)
    requires forall j :: 0 <= j < LEDGER_SIZE ==> !now.mask[j]
    ensures ReleasedRing(r, now, fence)
  {
    SameCounts(r, fence, n, LEDGER_SIZE);
  }

  lemma {:induction false} SameCounts(r: Ring, fence: nat, n: nat, m: nat)
    requires Shape(r) && n <= m <= LEDGER_SIZE && forall j :: n <= j < LEDGER_SIZE ==> !Due(r, j, fence)
    ensures DueCounts(r, n, fence) == DueCounts(r, m, fence)
  {
    if n < m {
      SameCounts(r, fence, n, m - 1);
    }
  }

  /** Where a request is met: at the tail, or if it would wrap there, at the next beginning of
      the buffer. */
  function StartFor(tail: nat, size: nat, numItems: nat): nat
    requires size > 0
  {
    if tail % size + numItems > size then tail + (size - tail % size) else tail
  }

  /** The live windows when the rest of the buffer has been thrown away if need be. */
  ghost function WithPadding(ws: seq<Window>, tail: nat, size: nat, numItems: nat, fence: nat): seq<Window>
    requires size > 0
  {
    if tail % size + numItems > size then ws + [Window(tail, size - tail % size, fence, true)] else ws
  }

  /** Throwing the rest of the buffer away is a request for it, which is met at the tail. */
  lemma PaddingIsRequest(ws: seq<Window>, tail: nat, size: nat, numItems: nat, fence: nat)
    requires size > 0 && tail % size + numItems > size
    ensures var rest := size - tail % size;
      && StartFor(tail, size, rest) == tail && StartFor(tail, size, numItems) == tail + rest
      && (tail + rest) % size == 0
      && WithRequest(ws, tail, size, rest, fence, true) == WithPadding(ws, tail, size, numItems, fence)
  {
    PaddingReachesTheEnd(tail, size);
  }

  /** The live windows after a request was met. */
  ghost function WithRequest(ws: seq<Window>, tail: nat, size: nat, numItems: nat, fence: nat,
      padding: bool): seq<Window>
    requires size > 0
  {
    WithPadding(ws, tail, size, numItems, fence) + [Window(StartFor(tail, size, numItems), numItems, fence, padding)]
  }
}
