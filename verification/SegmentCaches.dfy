/** The LRU queue of segments: most recently used first, at most `size` of them, no number twice. */
module SegmentCaches {
  import opened Words
  import opened Segments

  function Numbers(q: seq<Segment>): (ns: seq<word>)
    ensures |ns| == |q|
  {
    seq(|q|, i requires 0 <= i < |q| => q[i].number)
  }

  ghost predicate Distinct(ns: seq<word>) {
    forall i, j :: 0 <= i < j < |ns| ==> ns[i] != ns[j]
  }

  ghost predicate Cached(q: seq<Segment>, n: word) {
    exists i :: 0 <= i < |q| && q[i].number == n
  }

  /** Position of n, or the length. */
  function IndexOf(ns: seq<word>, n: word): (i: nat)
    ensures i <= |ns|
    ensures i < |ns| ==> ns[i] == n
    ensures forall j :: 0 <= j < i ==> ns[j] != n
  {
    if ns == [] || ns[0] == n then 0 else 1 + IndexOf(ns[1..], n)
  }

  lemma WithoutMembers<T>(q: seq<T>, i: nat)
    requires i < |q|
    ensures forall x :: x in q <==> x == q[i] || x in Without(q, i)
  {
  }

  function Without<T>(q: seq<T>, i: nat): seq<T>
    requires i < |q|
  {
    q[..i] + q[i + 1..]
  }

  function Pushed<T>(q: seq<T>, size: nat, x: T): seq<T>
    requires size >= 1
  {
    [x] + if |q| == size then q[..size - 1] else q
  }

  lemma CachedMembers(q: seq<Segment>, q': seq<Segment>, n: word)
    requires forall x :: x in q' ==> x in q
    ensures Cached(q', n) ==> Cached(q, n)
  {
    if Cached(q', n) {
      var i :| 0 <= i < |q'| && q'[i].number == n;
      assert q'[i] in q;
    }
  }

  lemma PushedMembers(q: seq<Segment>, size: nat, x: Segment)
    requires 1 <= size && |q| <= size
    ensures forall y :: y in Pushed(q, size, x) ==> y == x || y in q
    ensures forall n :: Cached(Pushed(q, size, x), n) ==> n == x.number || Cached(q, n)
  {
  }

  // ---- The policy on numbers alone -----------------------------------------------------------

  datatype CacheOp = Access(n: word) | Invalidate(n: word)

  /** A lookup that loads the segment on a miss, or an invalidation. */
  function LruStep(q: seq<word>, size: nat, op: CacheOp): seq<word>
    requires size >= 1
  {
    var i := IndexOf(q, op.n);
    match op
    case Access(n) => if i < |q| then [n] + Without(q, i) else Pushed(q, size, n)
    case Invalidate(n) => if i < |q| then Without(q, i) else q
  }

  lemma NumberOf(q: seq<Segment>, n: word)
    ensures Cached(q, n) <==> n in Numbers(q)
  {
    if Cached(q, n) {
      var i :| 0 <= i < |q| && q[i].number == n;
      assert Numbers(q)[i] == n;
    }
  }

  lemma AccessMembers(q: seq<word>, size: nat, n: word, m: word)
    requires size >= 1 && m in LruStep(q, size, Access(n))
    ensures m in q || m == n
  {
  }

  function LruRun(size: nat, trace: seq<CacheOp>): seq<word>
    requires size >= 1
  {
    if trace == [] then [] else LruStep(LruRun(size, trace[..|trace| - 1]), size, trace[|trace| - 1])
  }

  lemma IndexOfUnique(ns: seq<word>, i: nat, n: word)
    requires i <= |ns| && (i < |ns| ==> ns[i] == n) && forall j :: 0 <= j < i ==> ns[j] != n
    ensures IndexOf(ns, n) == i
  {
  }

  lemma WithoutKeeps(q: seq<word>, i: nat)
    requires i < |q| && Distinct(q)
    ensures Distinct(Without(q, i)) && q[i] !in Without(q, i)
  {
  }

  lemma LruStepKeeps(q: seq<word>, size: nat, op: CacheOp)
    requires size >= 1 && |q| <= size && Distinct(q)
    ensures |LruStep(q, size, op)| <= size && Distinct(LruStep(q, size, op))
  {
    var i := IndexOf(q, op.n);
    if i < |q| {
      WithoutKeeps(q, i);
    }
  }

  /** One step keeps the larger queue an extension of the smaller one by at most one element. */
  lemma InclusionStep(q: seq<word>, r: seq<word>, size: nat, op: CacheOp)
    requires size >= 1 && |q| <= size && |r| <= 1
    ensures var q' := LruStep(q, size, op);
            var big := LruStep(q + r, size + 1, op);
            q' <= big && |big| <= |q'| + 1
  {
    var i := IndexOf(q, op.n);
    var q', big := LruStep(q, size, op), LruStep(q + r, size + 1, op);
    if i < |q| {
      IndexOfUnique(q + r, i, op.n);
      assert Without(q + r, i) == Without(q, i) + r;
      assert big == q' + r;
    } else if |r| == 1 && r[0] == op.n {
      IndexOfUnique(q + r, |q|, op.n);
      assert Without(q + r, |q|) == q;
    } else {
      IndexOfUnique(q + r, |q + r|, op.n);
    }
  }

  lemma {:induction false} InclusionInvariant(size: nat, trace: seq<CacheOp>)
    requires size >= 1
    ensures var q := LruRun(size, trace);
            var big := LruRun(size + 1, trace);
            q <= big && |big| <= |q| + 1 && Distinct(big) && |q| <= size
  {
    if trace != [] {
      var before := trace[..|trace| - 1];
      InclusionInvariant(size, before);
      var q, big := LruRun(size, before), LruRun(size + 1, before);
      assert big == q + big[|q|..];
      InclusionStep(q, big[|q|..], size, trace[|trace| - 1]);
      assert Distinct(q);
      LruStepKeeps(q, size, trace[|trace| - 1]);
      LruStepKeeps(big, size + 1, trace[|trace| - 1]);
    }
  }

  lemma PrefixChain<T>(a: seq<T>, b: seq<T>, c: seq<T>)
    requires a <= b <= c
    ensures a <= c && forall x :: x in a ==> x in c
  {
  }

  /** For one trace, whatever a smaller cache holds every larger cache holds, in the same leading order. */
  lemma {:induction false} LruInclusion(size: nat, larger: nat, trace: seq<CacheOp>)
    requires 1 <= size <= larger
    ensures LruRun(size, trace) <= LruRun(larger, trace)
    ensures forall n :: n in LruRun(size, trace) ==> n in LruRun(larger, trace)
    decreases larger - size
  {
    hide LruRun;
    if size < larger {
      InclusionInvariant(size, trace);
      LruInclusion(size + 1, larger, trace);
      PrefixChain(LruRun(size, trace), LruRun(size + 1, trace), LruRun(larger, trace));
    }
  }

  lemma NumbersWithout(q: seq<Segment>, i: nat)
    requires i < |q|
    ensures Numbers(Without(q, i)) == Without(Numbers(q), i)
  {
  }

  lemma NumbersMoved(q: seq<Segment>, i: nat)
    requires i < |q|
    ensures Numbers([q[i]] + Without(q, i)) == [q[i].number] + Without(Numbers(q), i)
  {
  }

  // ---- The queue itself ------------------------------------------------------------------------

  class SegmentCache {
    const size: nat
    var queue: seq<Segment>

    ghost predicate Valid()
      reads this
    {
      size >= 1 && |queue| <= size && Distinct(Numbers(queue))
    }

    constructor (size: nat)
      requires size >= 1
      ensures Valid() && this.size == size && queue == []
    {
      this.size := size;
      queue := [];
    }

    /** The position the loops of containsEntry, getEntry and invalidateEntry stop at. */
    method Find(n: word) returns (i: nat)
      ensures i == IndexOf(Numbers(queue), n)
      ensures i < |queue| <==> Cached(queue, n)
    {
      i := 0;
      while i < |queue|
        invariant i <= |queue|
        invariant forall j :: 0 <= j < i ==> queue[j].number != n
      {
        if queue[i].number == n {
          break;
        }
        i := i + 1;
      }
      IndexOfUnique(Numbers(queue), i, n);
    }

    method ContainsEntry(n: word) returns (found: bool)
      ensures found == Cached(queue, n)
    {
      var i := Find(n);
      found := i < |queue|;
    }

    /** A hit moves the entry to the front; asking for an absent entry aborts. */
    method GetEntry(n: word) returns (hit: bool, s: Segment)
      requires Valid()
      modifies this
      ensures Valid()
      ensures hit == old(Cached(queue, n))
      ensures !hit ==> queue == old(queue)
      ensures hit ==> s in old(queue) && s.number == n && queue != [] && queue[0] == s
      ensures hit ==> Numbers(queue) == LruStep(old(Numbers(queue)), size, Access(n))
      ensures forall x :: x in queue <==> x in old(queue)
    {
      hide Without, Distinct;
      var i := Find(n);
      if i == |queue| {
        s := Segment(0, 0, 0, [], [], []);
        return false, s;
      }
      s := queue[i];
      ghost var was := queue;
      LruStepKeeps(Numbers(queue), size, Access(n));
      queue := [s] + Without(queue, i);
      WithoutMembers(was, i);
      NumbersMoved(was, i);
      return true, s;
    }

    /** A new entry goes to the front and the last one leaves a full queue; a second copy of a number aborts. */
    method PutEntry(s: Segment) returns (added: bool)
      requires Valid()
      modifies this
      ensures Valid()
      ensures added == !old(Cached(queue, s.number))
      ensures !added ==> queue == old(queue)
      ensures added ==> queue == Pushed(old(queue), size, s)
      ensures added ==> Numbers(queue) == LruStep(old(Numbers(queue)), size, Access(s.number))
    {
      var i := Find(s.number);
      if i < |queue| {
        return false;
      }
      ghost var was := Numbers(queue);
      LruStepKeeps(was, size, Access(s.number));
      if |queue| == size {
        queue := queue[..|queue| - 1];
      }
      queue := [s] + queue;
      assert Numbers(queue) == LruStep(was, size, Access(s.number));
      return true;
    }

    method InvalidateEntry(n: word)
      requires Valid()
      modifies this
      ensures Valid()
      ensures !Cached(queue, n)
      ensures forall x :: x in queue <==> x in old(queue) && x.number != n
      ensures Numbers(queue) == LruStep(old(Numbers(queue)), size, Invalidate(n))
    {
      var i := Find(n);
      if i < |queue| {
        ghost var was := queue;
        LruStepKeeps(Numbers(queue), size, Invalidate(n));
        WithoutKeeps(Numbers(queue), i);
        queue := Without(queue, i);
        WithoutMembers(was, i);
        NumbersWithout(was, i);
        assert forall j :: 0 <= j < |queue| ==> Numbers(queue)[j] == queue[j].number;
      }
    }
  }
}
