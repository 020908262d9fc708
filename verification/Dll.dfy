/**
 The intrusive circular doubly linked lists of the kernel. Nodes are numbered and `links[n]`
 holds the two pointers of node n, so aliasing between rings is visible in the model.
 */
module Dll {
  import opened Seqs

  datatype Link = Link(prev: nat, next: nat)

  /** Node at position i of the ring that starts at its head: position 0, and |s| + 1, is the head. */
  ghost function At(head: nat, s: seq<nat>, i: int): nat {
    if 1 <= i <= |s| then s[i - 1] else head
  }

  /** The ring through `head` visits exactly the nodes of s, in order, in both directions. */
  ghost predicate Ring(links: seq<Link>, head: nat, s: seq<nat>) {
    && head < |links|
    && (forall i | 0 <= i < |s| :: s[i] < |links|)
    && (forall i | 0 <= i <= |s| :: links[At(head, s, i)].next == At(head, s, i + 1))
    && (forall i | 1 <= i <= |s| + 1 :: links[At(head, s, i)].prev == At(head, s, i - 1))
  }

  ghost predicate Proper(head: nat, s: seq<nat>) {
    && head !in s
    && Distinct(s)
  }

  function AddAfter(links: seq<Link>, head: nat, node: nat): (r: seq<Link>)
    requires head < |links| && node < |links| && links[head].next < |links|
    ensures |r| == |links|
  {
    var next := links[head].next;
    var l := links[head := links[head].(next := node)][node := Link(head, next)];
    l[next := l[next].(prev := node)]
  }

  function Unlink(links: seq<Link>, node: nat): (r: seq<Link>)
    requires node < |links| && links[node].prev < |links| && links[node].next < |links|
    ensures |r| == |links|
  {
    var prev, next := links[node].prev, links[node].next;
    var l := links[prev := links[prev].(next := next)];
    l[next := l[next].(prev := prev)]
  }

  lemma Step(links: seq<Link>, head: nat, s: seq<nat>, i: nat)
    requires Ring(links, head, s) && i <= |s|
    ensures At(head, s, i) < |links| && At(head, s, i + 1) < |links|
    ensures links[At(head, s, i)].next == At(head, s, i + 1)
    ensures links[At(head, s, i + 1)].prev == At(head, s, i)
  {
    assert 1 <= i + 1 <= |s| + 1;
  }

  /** dll_delete takes one node out of its ring and keeps the order of the others. */
  lemma RingRemove(links: seq<Link>, head: nat, s: seq<nat>, i: nat)
    requires Ring(links, head, s) && Proper(head, s) && i < |s|
    ensures s[i] < |links| && links[s[i]] == Link(At(head, s, i), At(head, s, i + 2))
    ensures At(head, s, i) < |links| && At(head, s, i + 2) < |links|
    ensures Ring(Unlink(links, s[i]), head, RemoveAt(s, i)) && Proper(head, RemoveAt(s, i))
  {
    Step(links, head, s, i);
    Step(links, head, s, i + 1);
    var r, l := RemoveAt(s, i), Unlink(links, s[i]);
    forall j: nat | j <= |r|
      ensures l[At(head, r, j)].next == At(head, r, j + 1) && l[At(head, r, j + 1)].prev == At(head, r, j)
    {
      Step(links, head, s, if j < i then j else j + 1);
    }
    forall j | 1 <= j <= |r| + 1 ensures l[At(head, r, j)].prev == At(head, r, j - 1) {
      var k: nat := j - 1;
      assert l[At(head, r, k + 1)].prev == At(head, r, k);
    }
  }

  /** dll_add_after puts a new node directly behind the head. */
  lemma RingAdd(links: seq<Link>, head: nat, s: seq<nat>, node: nat)
    requires Ring(links, head, s) && Proper(head, s)
    requires node < |links| && node != head && node !in s
    ensures links[head].next == At(head, s, 1) && At(head, s, 1) < |links|
    ensures Ring(AddAfter(links, head, node), head, [node] + s) && Proper(head, [node] + s)
  {
    Step(links, head, s, 0);
    var r, l := [node] + s, AddAfter(links, head, node);
    forall j: nat | j <= |r|
      ensures l[At(head, r, j)].next == At(head, r, j + 1) && l[At(head, r, j + 1)].prev == At(head, r, j)
    {
      if j >= 2 { Step(links, head, s, j - 1); }
    }
    forall j | 1 <= j <= |r| + 1 ensures l[At(head, r, j)].prev == At(head, r, j - 1) {
      var k: nat := j - 1;
      assert l[At(head, r, k + 1)].prev == At(head, r, k);
    }
  }

  /** The writes of both operations stay on the ring and the node. */
  lemma RingWrites(links: seq<Link>, head: nat, s: seq<nat>, node: nat)
    requires Ring(links, head, s) && Proper(head, s) && node < |links| && node != head
    ensures links[head].next < |links|
    ensures forall x | 0 <= x < |links| && x != head && x != node && x !in s ::
              AddAfter(links, head, node)[x] == links[x]
    ensures node in s ==> links[node].prev < |links| && links[node].next < |links|
    ensures node in s ==> forall x | 0 <= x < |links| && x != head && x !in s :: Unlink(links, node)[x] == links[x]
  {
    Step(links, head, s, 0);
    if node in s {
      var i: nat :| i < |s| && s[i] == node;
      Step(links, head, s, i);
      Step(links, head, s, i + 1);
    }
  }

  /** A ring is untouched by writes to nodes it does not visit. */
  lemma RingFrame(links: seq<Link>, l: seq<Link>, head: nat, s: seq<nat>)
    requires Ring(links, head, s) && |l| == |links|
    requires l[head] == links[head] && forall i | 0 <= i < |s| :: l[s[i]] == links[s[i]]
    ensures Ring(l, head, s)
  {
    forall i | 0 <= i <= |s| + 1 ensures l[At(head, s, i)] == links[At(head, s, i)] {}
  }

  lemma RingAlone(links: seq<Link>, head: nat)
    requires head < |links| && links[head] == Link(head, head)
    ensures Ring(links, head, [])
  {
    assert forall i :: At(head, [], i) == head;
  }

  /** dll_empty tests the two pointers of the head. */
  lemma RingEmpty(links: seq<Link>, head: nat, s: seq<nat>)
    requires Ring(links, head, s) && Proper(head, s)
    ensures links[head] == Link(head, head) <==> s == []
  {
    assert At(head, s, 0) == head == At(head, s, |s| + 1);
    assert links[At(head, s, 0)].next == At(head, s, 1);
  }

  // ----- the operations on the pointers -----

  method InitHead(links: array<Link>, head: nat)
    requires head < links.Length
    modifies links
    ensures links[..] == old(links[..])[head := Link(head, head)]
  {
    links[head] := Link(head, head);
  }

  method AddNodeAfter(links: array<Link>, head: nat, node: nat)
    requires head < links.Length && node < links.Length && links[head].next < links.Length
    modifies links
    ensures links[..] == AddAfter(old(links[..]), head, node)
  {
    var next := links[head].next;
    links[head] := links[head].(next := node);
    links[node] := links[node].(prev := head);
    links[node] := links[node].(next := next);
    links[next] := links[next].(prev := node);
  }

  method DeleteNode(links: array<Link>, node: nat)
    requires node < links.Length && links[node].prev < links.Length && links[node].next < links.Length
    modifies links
    ensures links[..] == Unlink(old(links[..]), node)
  {
    var prev, next := links[node].prev, links[node].next;
    links[prev] := links[prev].(next := next);
    links[next] := links[next].(prev := prev);
  }
}
