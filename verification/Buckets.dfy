/**
 The lists of the calendar queue: one singly linked list per slot, with a head
 and a tail pointer, kept in priority order.
 */
module BucketLists {
  import opened Callbacks

  // A singly linked list that holds exactly s; the tail matters only when there is one.
  ghost predicate IsList(head: Callback?, tail: Callback?, s: seq<Callback>)
    reads s`tqNext
  {
    && (head == null <==> s == [])
    && (s != [] ==> head == s[0] && tail == s[|s| - 1] && s[|s| - 1].tqNext == null)
    && forall i | 0 <= i < |s| - 1 :: s[i].tqNext == s[i + 1]
  }

  class Buckets {
    const access: array<Callback?>
    const accessTail: array<Callback?>
    ghost var lists: seq<seq<Callback>>
    ghost var nodes: set<Callback>

    ghost predicate Shape()
      reads this
    {
      access.Length == accessTail.Length == |lists| && access != accessTail
    }

    ghost predicate ListAt(p: nat)
      reads this, access, accessTail, nodes`tqNext
      requires Shape() && p < |lists|
    {
      && (forall n | n in lists[p] :: n in nodes)
      && Sorted(lists[p]) && Distinct(lists[p]) && IsList(access[p], accessTail[p], lists[p])
    }

    ghost predicate Apart(p: nat, q: nat)
      reads this
      requires p < |lists| && q < |lists|
    {
      forall n | n in lists[p] :: n !in lists[q]
    }

    ghost predicate Valid()
      reads this, access, accessTail, nodes`tqNext
    {
      && Shape()
      && (forall p: nat | p < |lists| :: ListAt(p))
      && (forall p: nat, q: nat | p < |lists| && q < |lists| && p != q :: Apart(p, q))
    }

    constructor (size: nat)
      ensures Valid() && lists == seq(size, _ => []) && nodes == {}
      ensures fresh(access) && fresh(accessTail)
    {
      access := new Callback?[size](_ => null);
      accessTail := new Callback?[size](_ => null);
      lists, nodes := seq(size, _ => []), {};
    }

    function Head(p: nat): (head: Callback?)
      reads this, access, accessTail, nodes`tqNext
      requires Valid() && p < |lists|
      ensures head == if lists[p] == [] then null else lists[p][0]
    {
      assert ListAt(p);
      access[p]
    }

    // Puts the node behind its equals in the list of slot pos.
    method Add(pos: nat, node: Callback)
      requires Valid() && pos < |lists| && node !in nodes
      modifies this, access, accessTail, nodes`tqNext, node`tqNext
      ensures Valid() && nodes == old(nodes) + {node}
      ensures lists == old(lists)[pos := Enqueue(old(lists)[pos], node)]
    {
      ghost var s := lists[pos];
      assert ListAt(pos);
      EnqueueKeepsOrder(s, node);
      forall p: nat | p < |lists| && p != pos
        ensures ListAt(p) && forall x | x in lists[p] :: x !in s && x != node
      {
        assert Apart(p, pos);
      }
      LinkInto(pos, node, s);
      lists := lists[pos := Enqueue(s, node)];
      nodes := nodes + {node};
      forall p: nat | p < |lists|
        ensures ListAt(p)
      {
        if p != pos {
          assert old(ListAt(p));
          assert forall x | x in lists[p] :: x.tqNext == old(x.tqNext);
        }
      }
      forall p: nat, q: nat | p < |lists| && q < |lists| && p != q
        ensures Apart(p, q)
      {
        assert old(Apart(p, q));
      }
    }

    // Takes the first node out of a list.
    method Pop(pos: nat) returns (node: Callback)
      requires Valid() && pos < |lists| && lists[pos] != []
      modifies this, access
      ensures Valid() && node == old(lists)[pos][0] && nodes == old(nodes) - {node}
      ensures lists == old(lists)[pos := old(lists)[pos][1..]]
    {
      ghost var s := lists[pos];
      assert ListAt(pos);
      assert 1 < |s| ==> s[0].tqNext == s[0 + 1];
      node := access[pos];
      access[pos] := node.tqNext;
      lists := lists[pos := lists[pos][1..]];
      nodes := nodes - {node};
      forall p: nat | p < |lists|
        ensures ListAt(p)
      {
        assert old(ListAt(p));
        assert p != pos ==> old(Apart(pos, p));
      }
      forall p: nat, q: nat | p < |lists| && q < |lists| && p != q
        ensures Apart(p, q)
      {
        assert old(Apart(p, q));
      }
    }

    method LinkInto(pos: nat, node: Callback, ghost s: seq<Callback>)
      requires access.Length == accessTail.Length && access != accessTail && pos < access.Length
      requires IsList(access[pos], accessTail[pos], s) && Sorted(s) && Distinct(s) && node !in s
      modifies access, accessTail, s`tqNext, node`tqNext
      ensures IsList(access[pos], accessTail[pos], Enqueue(s, node))
      ensures forall p | 0 <= p < access.Length && p != pos ::
          access[p] == old(access[p]) && accessTail[p] == old(accessTail[p])
    {
      if access[pos] == null {
        access[pos] := node;
        accessTail[pos] := node;
        node.tqNext := null;
      } else if accessTail[pos].priority <= node.priority {
        RankUnique(s, node.priority, |s|);
        assert Enqueue(s, node) == s + [node];
        AppendTo(pos, node, s);
      } else {
        var prev, cur := FindPlace(access[pos], accessTail[pos], node.priority, s);
        InsertAt(pos, node, prev, cur, s, Rank(s, node.priority));
      }
    }

    method AppendTo(pos: nat, node: Callback, ghost s: seq<Callback>)
      requires access.Length == accessTail.Length && access != accessTail && pos < access.Length
      requires IsList(access[pos], accessTail[pos], s) && Distinct(s) && node !in s && s != []
      modifies accessTail, s`tqNext, node`tqNext
      ensures IsList(access[pos], accessTail[pos], s + [node])
      ensures forall p | 0 <= p < access.Length && p != pos :: accessTail[p] == old(accessTail[p])
    {
      accessTail[pos].tqNext := node;
      accessTail[pos] := node;
      node.tqNext := null;
    }

    method InsertAt(pos: nat, node: Callback, prev: Callback?, cur: Callback?, ghost s: seq<Callback>, ghost r: nat)
      requires access.Length == accessTail.Length && access != accessTail && pos < access.Length
      requires IsList(access[pos], accessTail[pos], s) && Distinct(s) && node !in s
      requires r < |s| && cur == s[r] && prev == if r == 0 then null else s[r - 1]
      modifies access, s`tqNext, node`tqNext
      ensures IsList(access[pos], accessTail[pos], s[..r] + [node] + s[r..])
      ensures forall p | 0 <= p < access.Length && p != pos :: access[p] == old(access[p])
    {
      if prev == null {
        node.tqNext := access[pos];
        access[pos] := node;
      } else {
        prev.tqNext := node;
        node.tqNext := cur;
      }
      ghost var t := s[..r] + [node] + s[r..];
      forall i | 0 <= i < |t| - 1
        ensures t[i].tqNext == t[i + 1]
      {
        if i != r && i + 1 != r {
          var j := if i < r then i else i - 1;
          assert t[i] == s[j] && t[i + 1] == s[j + 1];
        }
      }
    }

    // The scan from the head past everything at least as urgent as p.
    method FindPlace(head: Callback?, tail: Callback?, p: nat, ghost s: seq<Callback>)
        returns (prev: Callback?, cur: Callback?)
      requires IsList(head, tail, s) && Sorted(s) && Distinct(s) && s != [] && p < s[|s| - 1].priority
      ensures var r := Rank(s, p);
              r < |s| && cur == s[r] && prev == if r == 0 then null else s[r - 1]
    {
      prev := null;
      cur := head;
      ghost var i := 0;
      while cur != null && cur.priority <= p
        invariant 0 <= i < |s| && cur == s[i] && prev == if i == 0 then null else s[i - 1]
        invariant forall j | 0 <= j < i :: s[j].priority <= p
        decreases |s| - i
      {
        prev := cur;
        cur := cur.tqNext;
        i := i + 1;
      }
      RankUnique(s, p, i);
    }
  }
}
