/**
 A ring buffer of power-of-two size that is pushed and popped at both ends, with
 an auxiliary stack.  Contents() is the queue, oldest element first.
 */
module FastQueues {
  import opened Bits

  // Unsigned 32-bit decrement.
  function Decrement(x: nat): nat
    requires x < TWO32
  {
    if x == 0 then TWO32 - 1 else x - 1
  }

  // (x + 1) & mask
  method Forward(x: nat, mask: nat) returns (r: nat)
    requires IsPow2(mask + 1) && x <= mask
    ensures r == if x == mask then 0 else x + 1
  {
    AndWraps(x + 1, mask + 1);
    r := And(x + 1, mask);
  }

  // (x - 1) & mask; the unsigned wrap-around of 0 - 1 is harmless under the mask.
  method Backward(x: nat, mask: nat) returns (r: nat)
    requires IsPow2(mask + 1) && mask + 1 < TWO32 && x <= mask
    ensures r == if x == 0 then mask else x - 1
  {
    if x == 0 {
      TwoTo32();
      AndAllOnes(32, mask);
    } else {
      AndWraps(x - 1, mask + 1);
    }
    r := And(Decrement(x), mask);
  }

  class FastQueue<T(0)> {
    var pipe: array<T>
    var pipe_in_cluster: seq<T>
    var pipeMask: nat
    var start: nat
    var end: nat
    var nElems: nat

    ghost function Place(i: nat): (p: nat)
      reads `start, `pipeMask
      requires start <= pipeMask && i <= pipeMask + 1
      ensures p <= pipeMask
    {
      if start + i <= pipeMask then start + i else start + i - pipeMask - 1
    }

    ghost predicate Valid()
      reads `pipe, `pipeMask, `start, `end, `nElems
    {
      && pipe.Length == pipeMask + 1 < TWO32 && IsPow2(pipe.Length)
      && start <= pipeMask && nElems <= pipeMask + 1 && end == Place(nElems)
    }

    ghost function Contents(): (s: seq<T>)
      reads `pipe, `pipeMask, `start, `end, `nElems, pipe
      requires Valid()
      ensures |s| == nElems
    {
      if start + nElems <= pipe.Length then pipe[start..start + nElems]
      else pipe[start..] + pipe[..start + nElems - pipe.Length]
    }

    // The least power of two that is at least the size.
    constructor (size: nat)
      requires 0 < size < 256 * 1024
      ensures Valid() && Contents() == [] && pipe_in_cluster == [] && fresh(pipe)
      ensures size <= pipe.Length < 2 * size
    {
      var mask := size;
      ghost var p := RoundUp(size);
      while And(mask, mask - 1) != 0
        invariant size <= mask <= p
        decreases p - mask
      {
        AndPredecessor(mask);
        AndPredecessor(p);
        mask := mask + 1;
      }
      AndPredecessor(mask);
      pipe := new T[mask];
      pipeMask := mask - 1;
      start, end, nElems, pipe_in_cluster := 0, 0, 0, [];
    }

    static lemma {:induction false} RoundUp(n: nat) returns (p: nat)
      requires 0 < n
      ensures IsPow2(p) && n <= p < 2 * n
    {
      if n == 1 {
        p := 1;
      } else {
        p := RoundUp((n + 1) / 2);
        p := 2 * p;
        if p >= 2 * n {
          p := p / 2;
        }
      }
    }

    method Push(d: T)
      requires Valid() && nElems <= pipeMask
      modifies this`end, this`nElems, pipe
      ensures Valid() && Contents() == old(Contents()) + [d]
    {
      ghost var c, e := Contents(), end;
      pipe[end] := d;
      end := Forward(end, pipeMask);
      nElems := nElems + 1;
      if start <= e {
        assert c == pipe[start..e] && Contents() == pipe[start..e + 1];
      } else {
        assert c == pipe[start..] + pipe[..e] && Contents() == pipe[start..] + pipe[..e + 1];
      }
    }

    method PushPipeInCluster(d: T)
      modifies this`pipe_in_cluster
      ensures pipe_in_cluster == old(pipe_in_cluster) + [d]
    {
      pipe_in_cluster := pipe_in_cluster + [d];
    }

    method PopPipeInCluster()
      requires pipe_in_cluster != []
      modifies this`pipe_in_cluster
      ensures pipe_in_cluster == old(pipe_in_cluster)[..|old(pipe_in_cluster)| - 1]
    {
      pipe_in_cluster := pipe_in_cluster[..|pipe_in_cluster| - 1];
    }

    method Top() returns (d: T)
      requires Valid() && Contents() != []
      ensures d == Contents()[0]
    {
      d := pipe[start];
    }

    method EndData() returns (d: T)
      requires Valid() && Contents() != []
      ensures d == Contents()[|Contents()| - 1]
    {
      d := pipe[if end != 0 then end - 1 else pipeMask];
    }

    method Pop()
      requires Valid() && Contents() != []
      modifies this`start, this`nElems
      ensures Valid() && Contents() == old(Contents())[1..]
    {
      ghost var c, s, n := Contents(), start, nElems;
      nElems := nElems - 1;
      start := Forward(start, pipeMask);
      if s + n <= pipe.Length {
        assert c[1..] == pipe[s + 1..s + n];
      } else {
        TailOfJoin(pipe[s..], pipe[..s + n - pipe.Length]);
        assert pipe[s..][1..] == pipe[s + 1..];
        assert start == 0 ==> pipe[s + 1..] + pipe[..n - 1] == pipe[..n - 1];
      }
    }

    static lemma TailOfJoin(a: seq<T>, b: seq<T>)
      requires a != []
      ensures (a + b)[1..] == a[1..] + b
    {
    }

    method PopFromBack()
      requires Valid() && Contents() != []
      modifies this`end, this`nElems
      ensures Valid() && Contents() == old(Contents())[..|old(Contents())| - 1]
    {
      nElems := nElems - 1;
      end := Backward(end, pipeMask);
    }

    method GetIDFromTop(i: nat) returns (id: nat)
      requires Valid() && i < nElems
      ensures id == Place(i) && pipe[id] == Contents()[i]
    {
      hide Contents, IsPow2;
      At(i);
      AndWraps(start + i, pipe.Length);
      id := And(start + i, pipeMask);
    }

    // Changes the i-th oldest in place.
    method Change(i: nat, d: T)
      requires Valid() && i < nElems
      modifies pipe
      ensures Valid() && Contents() == old(Contents())[i := d]
    {
      hide Contents, IsPow2;
      ghost var c := Contents();
      AllAt(c);
      var id := PlaceOf(i);
      pipe[id] := d;
      AllAt(c[i := d]);
    }

    method PlaceOf(i: nat) returns (id: nat)
      requires Valid() && i < nElems
      ensures id == Place(i) && id < pipe.Length
    {
      id := GetIDFromTop(i);
    }

    // The elements by their places determine the contents.
    lemma AllAt(c: seq<T>)
      requires Valid() && |c| == nElems
      ensures Contents() == c <==> forall k: nat | k < nElems :: c[k] == pipe[Place(k)]
    {
      forall k: nat | k < nElems
        ensures Contents()[k] == pipe[Place(k)]
      {
        At(k);
      }
    }

    lemma At(k: nat)
      requires Valid() && k < nElems
      ensures Contents()[k] == pipe[Place(k)]
    {
    }
  }
}
