/** Commitments and the priority queue that orders them by block number (op-plasma/dastate.go, with Go's
    container/heap). */
module CommQueue {
  import opened Bytes

  /** The encoded commitment. */
  type Key = seq<Byte>

  datatype ChallengeStatus = Uninitialized | Active | Resolved | Expired

  class Commitment {
    const key: Key
    const blockNumber: DWord        // block where the commitment is included
    var expiresAt: DWord            // block after which it can no longer be challenged, or if challenged, resolved
    var challengeStatus: ChallengeStatus
    var canonical: bool             // whether it was derived as part of the canonical chain
    var input: seq<Byte>            // the input if it was resolved on chain

    constructor (key: Key, expiresAt: DWord, blockNumber: DWord, canonical: bool)
      ensures this.key == key && this.blockNumber == blockNumber
      ensures this.expiresAt == expiresAt && this.canonical == canonical
      ensures challengeStatus == Uninitialized && input == []
    {
      this.key, this.blockNumber := key, blockNumber;
      this.expiresAt, this.canonical := expiresAt, canonical;
      challengeStatus, input := Uninitialized, [];
    }
  }

  type Queue = seq<Commitment>

  function Parent(i: nat): (p: nat)
    requires i > 0
    ensures p < i
  {
    (i - 1) / 2
  }

  /** No commitment comes before its parent. */
  ghost predicate IsHeap(q: Queue) {
    forall i: nat {:trigger Parent(i)} | 0 < i < |q| :: q[Parent(i)].blockNumber <= q[i].blockNumber
  }

  /** The first item has the lowest block number. */
  lemma {:induction false} FirstIsLowest(q: Queue, i: nat)
    requires IsHeap(q) && i < |q|
    ensures q[0].blockNumber <= q[i].blockNumber
  {
    if i > 0 {
      FirstIsLowest(q, Parent(i));
    }
  }

  function Swap(q: Queue, i: nat, j: nat): (r: Queue)
    requires i < |q| && j < |q|
    ensures |r| == |q| && multiset(r) == multiset(q)
  {
    q[i := q[j]][j := q[i]]
  }

  /** A heap but for item j, which may be too low for its place. */
  ghost predicate HeapButUp(q: Queue, j: nat) {
    && (forall i: nat {:trigger Parent(i)} | 0 < i < |q| && i != j :: q[Parent(i)].blockNumber <= q[i].blockNumber)
    && (j > 0 ==> forall i: nat {:trigger Parent(i)} | 0 < i < |q| && Parent(i) == j ::
          q[Parent(j)].blockNumber <= q[i].blockNumber)
  }

  /** heap.up. */
  method Up(q0: Queue, j0: nat) returns (q: Queue)
    requires j0 < |q0| && HeapButUp(q0, j0)
    ensures IsHeap(q) && |q| == |q0| && multiset(q) == multiset(q0)
  {
    hide HeapButUp, IsHeap, Swap, Parent;
    q := q0;
    var j: nat := j0;
    while j > 0 && q[j].blockNumber < q[Parent(j)].blockNumber
      invariant j < |q| == |q0| && HeapButUp(q, j) && multiset(q) == multiset(q0)
    {
      var i := Parent(j);
      UpStep(q, j);
      q := Swap(q, i, j);
      j := i;
    }
    UpEnd(q, j);
  }

  lemma UpStep(q: Queue, j: nat)
    requires 0 < j < |q| && HeapButUp(q, j) && q[j].blockNumber < q[Parent(j)].blockNumber
    ensures HeapButUp(Swap(q, Parent(j), j), Parent(j))
  {
  }

  lemma UpEnd(q: Queue, j: nat)
    requires j < |q| && HeapButUp(q, j) && (j > 0 ==> q[Parent(j)].blockNumber <= q[j].blockNumber)
    ensures IsHeap(q)
  {
  }

  /** The first n items form a heap but for item i, which may be too high for its place. */
  ghost predicate HeapButDown(q: Queue, n: nat, i: nat)
    requires n <= |q|
  {
    && (forall k: nat {:trigger Parent(k)} | 0 < k < n && Parent(k) != i ::
         q[Parent(k)].blockNumber <= q[k].blockNumber)
    && (i > 0 ==> forall k: nat {:trigger Parent(k)} | 0 < k < n && Parent(k) == i ::
          q[Parent(i)].blockNumber <= q[k].blockNumber)
  }

  lemma DownStep(q: Queue, n: nat, i: nat, j: nat)
    requires n <= |q| && HeapButDown(q, n, i) && 0 < j < n && Parent(j) == i && q[j].blockNumber <= q[i].blockNumber
    requires forall k: nat {:trigger Parent(k)} | 0 < k < n && Parent(k) == i :: q[j].blockNumber <= q[k].blockNumber
    ensures HeapButDown(Swap(q, i, j), n, j)
  {
    var r := Swap(q, i, j);
    forall k: nat | 0 < k < n && Parent(k) != j ensures r[Parent(k)].blockNumber <= r[k].blockNumber {
    }
    forall k: nat | 0 < k < n && Parent(k) == j ensures r[Parent(j)].blockNumber <= r[k].blockNumber {
    }
  }

  lemma Children(k: nat, i: nat)
    requires k > 0
    ensures Parent(k) == i <==> k == 2 * i + 1 || k == 2 * i + 2
  {
  }

  /** The child of i to compare with: the lower of the two, if there are two. */
  method LowerChild(q: Queue, n: nat, i: nat) returns (j: nat)
    requires n <= |q| && 2 * i + 1 < n
    ensures 0 < j < n && Parent(j) == i
    ensures forall k: nat {:trigger Parent(k)} | 0 < k < n && Parent(k) == i :: q[j].blockNumber <= q[k].blockNumber
  {
    j := 2 * i + 1;  // left child
    if j + 1 < n && q[j + 1].blockNumber < q[j].blockNumber {
      j := j + 1;
    }
    forall k: nat | 0 < k < n && Parent(k) == i ensures q[j].blockNumber <= q[k].blockNumber {
      Children(k, i);
    }
  }

  lemma NoChildren(q: Queue, n: nat, i: nat)
    requires n <= |q| && HeapButDown(q, n, i) && 2 * i + 1 >= n
    ensures IsHeap(q[..n])
  {
  }

  /** heap.down on the first n items. */
  method Down(q0: Queue, n: nat) returns (q: Queue)
    requires n <= |q0| && HeapButDown(q0, n, 0)
    ensures |q| == |q0| && multiset(q) == multiset(q0) && q[n..] == q0[n..]
    ensures IsHeap(q[..n])
  {
    q := q0;
    var i := 0;
    while 2 * i + 1 < n
      invariant |q| == |q0| && multiset(q) == multiset(q0) && q[n..] == q0[n..]
      invariant HeapButDown(q, n, i)
      decreases n - i
    {
      var j := LowerChild(q, n, i);
      if q[j].blockNumber >= q[i].blockNumber {
        return;
      }
      DownStep(q, n, i, j);
      q := Swap(q, i, j);
      i := j;
    }
    NoChildren(q, n, i);
  }

  /** heap.Push. */
  method Push(q0: Queue, c: Commitment) returns (q: Queue)
    requires IsHeap(q0)
    ensures IsHeap(q) && |q| == |q0| + 1 && multiset(q) == multiset(q0) + multiset{c}
  {
    q := Up(q0 + [c], |q0|);
  }

  /** heap.Pop: takes out the first item. */
  method Pop(q0: Queue) returns (q: Queue, c: Commitment)
    requires IsHeap(q0) && |q0| > 0
    ensures c == q0[0] && IsHeap(q) && |q| == |q0| - 1 && multiset(q0) == multiset(q) + multiset{c}
  {
    var n := |q0| - 1;
    q := Down(Swap(q0, 0, n), n);
    c := q[n];
    assert q == q[..n] + [c] && q[n..][0] == q0[0];
    q := q[..n];
  }
}
