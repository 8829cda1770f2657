/**
 Register dependences between in-flight instructions.  Each instruction has three
 source slots; a used slot is a node in the list of the producer it waits for.
 */
module Dependences {
  // Slot k of instruction number inst.
  datatype Slot = Slot(inst: nat, k: nat)

  class DinstNext {
    ghost const slot: Slot
    var dinst: Dinst?
    var nextDep: DinstNext?
    var isUsed: bool
    var parent: Dinst?

    constructor (ghost slot: Slot)
      ensures this.slot == slot && dinst == null && nextDep == null && !isUsed && parent == null
    {
      this.slot := slot;
      dinst, nextDep, isUsed, parent := null, null, false, null;
    }
  }

  // A singly linked list through nextDep that holds exactly s; without a head the tail is stale.
  ghost predicate IsList(head: DinstNext?, tail: DinstNext?, s: seq<DinstNext>)
    reads s`nextDep
  {
    && (head == null <==> s == [])
    && (s != [] ==> head == s[0] && tail == s[|s| - 1] && s[|s| - 1].nextDep == null)
    && forall i | 0 <= i < |s| - 1 :: s[i].nextDep == s[i + 1]
  }

  // The nodes of an instruction are its own: no two instructions and no two slots share one.
  ghost predicate OwnNodes(d: Dinst) {
    |d.pend| == 3 && forall k: nat | k < 3 :: d.pend[k].slot == Slot(d.id, k)
  }

  class Dinst {
    const id: nat
    const pend: seq<DinstNext>
    var first: DinstNext?
    var last: DinstNext?
    var nDeps: int
    var issued: bool
    var executed: bool
    var toBeDestroyed: bool
    var destroyed: bool
    ghost var selections: nat        // calls of preSelect

    constructor (id: nat)
      ensures this.id == id && OwnNodes(this) && first == null && last == null && nDeps == 0
      ensures !issued && !executed && !toBeDestroyed && !destroyed && selections == 0
      ensures forall k | 0 <= k < 3 ::
          fresh(pend[k]) && pend[k].dinst == this && !pend[k].isUsed && pend[k].parent == null
    {
      var p0 := new DinstNext(Slot(id, 0));
      var p1 := new DinstNext(Slot(id, 1));
      var p2 := new DinstNext(Slot(id, 2));
      this.id, pend := id, [p0, p1, p2];
      first, last, nDeps := null, null, 0;
      issued, executed, toBeDestroyed, destroyed, selections := false, false, false, false, 0;
      new;
      p0.dinst, p1.dinst, p2.dinst := this, this, this;
    }

    // Puts node n at the end of the list s.
    method Append(n: DinstNext, ghost s: seq<DinstNext>)
      requires IsList(first, last, s) && n !in s
      modifies `first, `last, n`nextDep, s`nextDep
      ensures IsList(first, last, s + [n])
    {
      if first == null {
        first := n;
      } else {
        last.nextDep := n;
      }
      n.nextDep := null;
      last := n;
    }

    // Takes the first node off the list s; the tail is left stale when it was the last.
    method DropFirst(ghost s: seq<DinstNext>)
      requires s != [] && IsList(first, last, s)
      modifies `first
      ensures IsList(first, last, s[1..])
    {
      assert 1 < |s| ==> s[0].nextDep == s[0 + 1];
      first := first.nextDep;
    }
  }
}
