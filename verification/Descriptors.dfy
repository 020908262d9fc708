/** The heap blocks of the address-space manager: one for each space and one for each area. */
module Descriptors {
  import opened Bits
  import opened Seqs
  import opened Areas
  import HeapCells

  /** sizeof(struct vm_area) and sizeof(struct vm_address_space) */
  const DESCRIPTOR: nat := 32

  /** What a block describes */
  datatype Holder = SpaceOf(root: nat) | AreaOf(root: nat, base: nat)

  /** Block nodes[r][i] describes area i of space r. */
  ghost predicate NodeAt(spaces: map<nat, seq<Area>>, nodes: map<nat, seq<nat>>, held: map<nat, Holder>, r: nat,
                         i: nat) {
    && r in spaces && r in nodes && i < |spaces[r]| && i < |nodes[r]|
    && nodes[r][i] in held && held[nodes[r][i]] == AreaOf(r, spaces[r][i].base)
  }

  /**
   Every space and every area has a live heap block of its own: the record gives each block one holder, so no two
   of them share one.
   */
  ghost predicate Described(cells: seq<HeapCells.Cell>, spaces: map<nat, seq<Area>>, vas: map<nat, nat>,
                            nodes: map<nat, seq<nat>>, held: map<nat, Holder>) {
    && vas.Keys == nodes.Keys == spaces.Keys
    && (forall p | p in held :: HeapCells.Live(cells, p))
    && (forall r | r in spaces :: vas[r] in held && held[vas[r]] == SpaceOf(r) && |nodes[r]| == |spaces[r]|)
    && (forall r: nat, i: nat | r in spaces && i < |spaces[r]| :: NodeAt(spaces, nodes, held, r, i))
  }

  /** The live blocks are those of before without the ones in `gone`. */
  ghost predicate LiveWithout(before: seq<HeapCells.Cell>, after: seq<HeapCells.Cell>, gone: seq<nat>) {
    forall p: nat :: HeapCells.Live(after, p) <==> HeapCells.Live(before, p) && p !in gone
  }

  /** The live blocks are those of before and a new one. */
  ghost predicate LiveWith(before: seq<HeapCells.Cell>, after: seq<HeapCells.Cell>, block: nat) {
    && !HeapCells.Live(before, block)
    && forall p: nat :: HeapCells.Live(after, p) <==> HeapCells.Live(before, p) || p == block
  }

  lemma NoneGone(cells: seq<HeapCells.Cell>, blocks: seq<nat>)
    ensures LiveWithout(cells, cells, blocks[..0])
  {
  }

  lemma OneMoreGone(c0: seq<HeapCells.Cell>, c: seq<HeapCells.Cell>, c': seq<HeapCells.Cell>, blocks: seq<nat>, k: nat)
    requires k < |blocks| && LiveWithout(c0, c, blocks[..k])
    requires forall p: nat :: HeapCells.Live(c', p) <==> HeapCells.Live(c, p) && p != blocks[k]
    ensures LiveWithout(c0, c', blocks[..k + 1])
  {
    hide HeapCells.Live;
    assert blocks[..k + 1] == blocks[..k] + [blocks[k]];
  }

  lemma NodeCount(cells: seq<HeapCells.Cell>, spaces: map<nat, seq<Area>>, vas: map<nat, nat>,
                  nodes: map<nat, seq<nat>>, held: map<nat, Holder>, r: nat)
    requires Described(cells, spaces, vas, nodes, held) && r in spaces
    ensures r in nodes && r in vas && |nodes[r]| == |spaces[r]|
  {
  }

  /** The blocks of two areas, or of an area and a space, are different. */
  lemma BlocksApart(cells: seq<HeapCells.Cell>, spaces: map<nat, seq<Area>>, vas: map<nat, nat>,
                    nodes: map<nat, seq<nat>>, held: map<nat, Holder>, r: nat, i: nat, q: nat, j: nat)
    requires Described(cells, spaces, vas, nodes, held) && r in spaces && i < |spaces[r]| && q in spaces
    requires j < |spaces[q]| && (r != q || spaces[r][i].base != spaces[q][j].base)
    ensures nodes[r][i] != nodes[q][j] && nodes[r][i] != vas[q]
  {
    assert NodeAt(spaces, nodes, held, r, i) && NodeAt(spaces, nodes, held, q, j);
  }

  /** More live blocks do no harm; a block that was not live describes nothing. */
  lemma DescribedMore(cells: seq<HeapCells.Cell>, cells': seq<HeapCells.Cell>, spaces: map<nat, seq<Area>>,
                      vas: map<nat, nat>, nodes: map<nat, seq<nat>>, held: map<nat, Holder>)
    requires Described(cells, spaces, vas, nodes, held)
    requires forall p: nat | HeapCells.Live(cells, p) :: HeapCells.Live(cells', p)
    ensures Described(cells', spaces, vas, nodes, held)
    ensures forall p: nat | !HeapCells.Live(cells, p) :: p !in held
  {
    hide HeapCells.Live;
  }

  lemma DescribedLess(cells: seq<HeapCells.Cell>, cells': seq<HeapCells.Cell>, spaces: map<nat, seq<Area>>,
                      vas: map<nat, nat>, nodes: map<nat, seq<nat>>, held: map<nat, Holder>, p: nat)
    requires Described(cells, spaces, vas, nodes, held) && p !in held
    requires forall q: nat | HeapCells.Live(cells, q) && q != p :: HeapCells.Live(cells', q)
    ensures Described(cells', spaces, vas, nodes, held)
  {
    hide HeapCells.Live;
  }

  lemma AreaPlaced(cells: seq<HeapCells.Cell>, spaces: map<nat, seq<Area>>, vas: map<nat, nat>,
                   nodes: map<nat, seq<nat>>, held: map<nat, Holder>, r: nat, i: nat, a: Area, p: nat)
    requires Described(cells, spaces, vas, nodes, held) && r in spaces && i <= |spaces[r]|
    requires HeapCells.Live(cells, p) && p !in held
    ensures r in nodes && |nodes[r]| == |spaces[r]|
    ensures Described(cells, spaces[r := Insert(spaces[r], i, a)], vas, nodes[r := Insert(nodes[r], i, p)],
                      held[p := AreaOf(r, a.base)])
  {
    hide HeapCells.Live;
    var spaces', nodes' := spaces[r := Insert(spaces[r], i, a)], nodes[r := Insert(nodes[r], i, p)];
    var held' := held[p := AreaOf(r, a.base)];
    forall q: nat, j: nat | q in spaces' && j < |spaces'[q]| ensures NodeAt(spaces', nodes', held', q, j) {
      if q != r { assert NodeAt(spaces, nodes, held, q, j); }
      if q == r && j < i { assert NodeAt(spaces, nodes, held, q, j); }
      if q == r && j > i { assert NodeAt(spaces, nodes, held, q, j - 1); }
    }
  }

  lemma AreaRemoved(cells: seq<HeapCells.Cell>, cells': seq<HeapCells.Cell>, spaces: map<nat, seq<Area>>,
                    vas: map<nat, nat>, nodes: map<nat, seq<nat>>, held: map<nat, Holder>, r: nat, i: nat)
    requires Described(cells, spaces, vas, nodes, held) && r in spaces && i < |spaces[r]|
    requires forall j | 0 <= j < |spaces[r]| && j != i :: spaces[r][j].base != spaces[r][i].base
    requires forall p: nat :: HeapCells.Live(cells', p) <==> HeapCells.Live(cells, p) && p != nodes[r][i]
    ensures Described(cells', spaces[r := RemoveAt(spaces[r], i)], vas, nodes[r := RemoveAt(nodes[r], i)],
                      held - {nodes[r][i]})
  {
    hide HeapCells.Live;
    var spaces', nodes' := spaces[r := RemoveAt(spaces[r], i)], nodes[r := RemoveAt(nodes[r], i)];
    var held' := held - {nodes[r][i]};
    assert NodeAt(spaces, nodes, held, r, i);
    forall q: nat, j: nat | q in spaces' && j < |spaces'[q]| ensures NodeAt(spaces', nodes', held', q, j) {
      if q != r {
        assert NodeAt(spaces, nodes, held, q, j);
      } else {
        var k := if j < i then j else j + 1;
        assert spaces'[q][j] == spaces[r][k] && nodes'[q][j] == nodes[r][k];
        assert NodeAt(spaces, nodes, held, r, k);
      }
    }
  }

  lemma SpaceAdded(cells: seq<HeapCells.Cell>, spaces: map<nat, seq<Area>>, vas: map<nat, nat>,
                   nodes: map<nat, seq<nat>>, held: map<nat, Holder>, r: nat, p: nat)
    requires Described(cells, spaces, vas, nodes, held) && r !in spaces && HeapCells.Live(cells, p) && p !in held
    ensures Described(cells, spaces[r := []], vas[r := p], nodes[r := []], held[p := SpaceOf(r)])
  {
    hide HeapCells.Live;
    var spaces', nodes', held' := spaces[r := []], nodes[r := []], held[p := SpaceOf(r)];
    forall q: nat, j: nat | q in spaces' && j < |spaces'[q]| ensures NodeAt(spaces', nodes', held', q, j) {
      assert NodeAt(spaces, nodes, held, q, j);
    }
  }

  lemma SpaceRemoved(cells: seq<HeapCells.Cell>, cells': seq<HeapCells.Cell>, spaces: map<nat, seq<Area>>,
                     vas: map<nat, nat>, nodes: map<nat, seq<nat>>, held: map<nat, Holder>, r: nat)
    requires Described(cells, spaces, vas, nodes, held) && r in spaces && spaces[r] == []
    requires forall p: nat :: HeapCells.Live(cells', p) <==> HeapCells.Live(cells, p) && p != vas[r]
    ensures Described(cells', spaces - {r}, vas - {r}, nodes - {r}, held - {vas[r]})
  {
    hide HeapCells.Live;
    var spaces', nodes', held' := spaces - {r}, nodes - {r}, held - {vas[r]};
    forall q: nat, j: nat | q in spaces' && j < |spaces'[q]| ensures NodeAt(spaces', nodes', held', q, j) {
      assert NodeAt(spaces, nodes, held, q, j);
    }
  }

  lemma FirstSpace(cells: seq<HeapCells.Cell>, r: nat, p: nat)
    requires HeapCells.Live(cells, p)
    ensures Described(cells, map[r := []], map[r := p], map[r := []], map[p := SpaceOf(r)])
  {
  }

  // ----- blocks and their nodes -----

  lemma LiveCell(cells: seq<HeapCells.Cell>, p: nat) returns (j: nat)
    requires HeapCells.Live(cells, p)
    ensures j < |cells| && p == cells[j].Start() && !cells[j].free
  {
    var c :| c in cells && !c.free && c.Start() == p;
    j :| 0 <= j < |cells| && cells[j] == c;
  }

  lemma NodeLive(cells: seq<HeapCells.Cell>, spaces: map<nat, seq<Area>>, vas: map<nat, nat>,
                 nodes: map<nat, seq<nat>>, held: map<nat, Holder>, r: nat, i: nat)
    requires Described(cells, spaces, vas, nodes, held) && r in spaces && i < |spaces[r]|
    ensures r in nodes && |nodes[r]| == |spaces[r]| && HeapCells.Live(cells, nodes[r][i])
  {
    hide HeapCells.Live;
    assert NodeAt(spaces, nodes, held, r, i);
  }

  lemma SpaceLive(cells: seq<HeapCells.Cell>, spaces: map<nat, seq<Area>>, vas: map<nat, nat>,
                  nodes: map<nat, seq<nat>>, held: map<nat, Holder>, r: nat)
    requires Described(cells, spaces, vas, nodes, held) && r in spaces
    ensures r in vas && r in nodes && HeapCells.Live(cells, vas[r])
  {
    hide HeapCells.Live;
  }

  lemma BasesDiffer(areas: seq<Area>, start: nat, i: nat)
    requires Sorted(areas, start) && i < |areas|
    ensures forall j | 0 <= j < |areas| && j != i :: areas[j].base != areas[i].base
  {
    forall j | 0 <= j < |areas| && j != i ensures areas[j].base != areas[i].base {
      assert if j < i then areas[j].End() <= areas[i].base else areas[i].End() <= areas[j].base;
    }
  }
}
