/** The kernel heap as a list of cells that tile an address range. */
module HeapCells {
  import opened Bits

  const HEADER: nat := 24        // sizeof(struct kheap_node)
  const MIN_SPLIT: nat := 16
  const BLOCK: nat := 16
  const EXTENSION: nat := 0x100000

  /** One node: the address of its header, the bytes behind the header, and its state. */
  datatype Cell = Cell(addr: nat, size: nat, free: bool) {
    function Start(): nat { addr + HEADER }
    function End(): nat { addr + HEADER + size }
  }

  ghost function AddrAt(cells: seq<Cell>, end: nat, i: nat): nat {
    if i < |cells| then cells[i].addr else end
  }

  ghost predicate TileAt(cells: seq<Cell>, end: nat, i: nat)
    requires i < |cells|
  {
    cells[i].End() == AddrAt(cells, end, i + 1)
  }

  ghost predicate ApartAt(cells: seq<Cell>, i: nat)
    requires i + 1 < |cells|
  {
    !(cells[i].free && cells[i + 1].free)
  }

  /** The cells follow each other without gap from start to end. */
  ghost predicate Tiles(cells: seq<Cell>, start: nat, end: nat) {
    && AddrAt(cells, end, 0) == start
    && forall i: nat | i < |cells| :: TileAt(cells, end, i)
  }

  ghost predicate NoTwoFree(cells: seq<Cell>) {
    forall i: nat | i + 1 < |cells| :: ApartAt(cells, i)
  }

  ghost function Total(cells: seq<Cell>): nat {
    if cells == [] then 0 else HEADER + cells[0].size + Total(cells[1..])
  }

  /** Headers and sizes add up to the length of the heap. */
  lemma {:induction false} TilesTotal(cells: seq<Cell>, start: nat, end: nat)
    requires Tiles(cells, start, end)
    ensures start + Total(cells) == end
  {
    if cells != [] {
      TailTiles(cells, start, end);
      TilesTotal(cells[1..], cells[0].End(), end);
    }
  }

  lemma TailTiles(cells: seq<Cell>, start: nat, end: nat)
    requires Tiles(cells, start, end) && cells != []
    ensures cells[0].addr == start && Tiles(cells[1..], cells[0].End(), end)
  {
    assert TileAt(cells, end, 0);
    forall i: nat | i < |cells[1..]| ensures TileAt(cells[1..], end, i) {
      assert TileAt(cells, end, i + 1);
    }
  }

  lemma ConsTiles(c: Cell, rest: seq<Cell>, end: nat)
    requires Tiles(rest, c.End(), end)
    ensures Tiles([c] + rest, c.addr, end)
  {
    var all := [c] + rest;
    forall i: nat | i < |all| ensures TileAt(all, end, i) {
      if i > 0 { assert TileAt(rest, end, i - 1); }
    }
  }

  /** Cells of a tiling are disjoint and in address order. */
  lemma {:induction false} CellsApart(cells: seq<Cell>, start: nat, end: nat, i: nat, j: nat)
    requires Tiles(cells, start, end) && i < j < |cells|
    ensures cells[i].End() <= cells[j].addr
    decreases j
  {
    assert TileAt(cells, end, i);
    if i + 1 < j {
      CellsApart(cells, start, end, i, j - 1);
      assert TileAt(cells, end, j - 1);
    }
  }

  /** Both lists have the same live cells, with the same sizes. */
  ghost predicate SameLive(a: seq<Cell>, b: seq<Cell>) {
    forall c: Cell | !c.free :: c in a <==> c in b
  }

  /** A live cell at the start of one list is at the start of the other. */
  lemma SameFirst(a: seq<Cell>, b: seq<Cell>, start: nat, end: nat)
    requires Tiles(a, start, end) && Tiles(b, start, end) && SameLive(a, b) && a != [] && b != [] && !a[0].free
    ensures b[0] == a[0]
  {
    var k: nat :| k < |b| && b[k] == a[0];
    if k > 0 { CellsApart(b, start, end, 0, k); }
  }

  /** A free cell at the start of both lists ends no later in the first than in the second. */
  lemma SameGap(a: seq<Cell>, b: seq<Cell>, start: nat, end: nat)
    requires Tiles(a, start, end) && Tiles(b, start, end) && NoTwoFree(b) && SameLive(a, b)
    requires a != [] && b != [] && a[0].free && b[0].free
    ensures a[0].End() <= b[0].End()
  {
    assert TileAt(a, end, 0) && TileAt(b, end, 0);
    if |b| == 1 {
      if |a| > 1 { LastEnd(a, start, end, 0); }
    } else {
      assert ApartAt(b, 0);
      var k: nat :| k < |a| && a[k] == b[1];
      CellsApart(a, start, end, 0, k);
    }
  }

  lemma LastEnd(cells: seq<Cell>, start: nat, end: nat, i: nat)
    requires Tiles(cells, start, end) && i < |cells|
    ensures cells[i].End() <= end
  {
    assert TileAt(cells, end, |cells| - 1);
    if i < |cells| - 1 { CellsApart(cells, start, end, i, |cells| - 1); }
  }

  lemma TailLive(a: seq<Cell>, b: seq<Cell>, start: nat, end: nat)
    requires Tiles(a, start, end) && Tiles(b, start, end) && SameLive(a, b) && a != [] && b != [] && a[0] == b[0]
    ensures SameLive(a[1..], b[1..])
  {
    forall c: Cell | !c.free ensures c in a[1..] <==> c in b[1..] {
      assert a == [a[0]] + a[1..] && b == [b[0]] + b[1..];
      if a[0] in a[1..] {
        var k: nat :| k < |a[1..]| && a[1..][k] == a[0];
        CellsApart(a, start, end, 0, k + 1);
      }
      if b[0] in b[1..] {
        var k: nat :| k < |b[1..]| && b[1..][k] == b[0];
        CellsApart(b, start, end, 0, k + 1);
      }
    }
  }

  /** The live cells determine the whole list: the free cells are exactly the gaps between them. */
  lemma {:induction false} CellsCanonical(a: seq<Cell>, b: seq<Cell>, start: nat, end: nat)
    requires Tiles(a, start, end) && Tiles(b, start, end) && NoTwoFree(a) && NoTwoFree(b) && SameLive(a, b)
    ensures a == b
    decreases |a|
  {
    if a == [] || b == [] {
      if a != [] { LastEnd(a, start, end, 0); }
      if b != [] { LastEnd(b, start, end, 0); }
    } else {
      if !a[0].free { SameFirst(a, b, start, end); }
      if !b[0].free { SameFirst(b, a, start, end); }
      if a[0].free && b[0].free {
        SameGap(a, b, start, end);
        SameGap(b, a, start, end);
      }
      TailTiles(a, start, end);
      TailTiles(b, start, end);
      TailLive(a, b, start, end);
      SuffixNoTwoFree(a, 1);
      SuffixNoTwoFree(b, 1);
      CellsCanonical(a[1..], b[1..], a[0].End(), end);
      assert a == [a[0]] + a[1..] && b == [b[0]] + b[1..];
    }
  }

  // ----- growing -----

  /** What kheap_extend makes of the list: the last free cell grows, or a new free cell follows. */
  function Grow(cells: seq<Cell>, end: nat, bytes: nat): (r: seq<Cell>)
    requires bytes >= HEADER
  {
    if cells == [] || !cells[|cells| - 1].free then cells + [Cell(end, bytes - HEADER, true)]
    else cells[|cells| - 1 := cells[|cells| - 1].(size := cells[|cells| - 1].size + bytes)]
  }

  lemma GrowTiles(cells: seq<Cell>, start: nat, end: nat, bytes: nat)
    requires Tiles(cells, start, end) && NoTwoFree(cells) && bytes >= HEADER
    ensures Tiles(Grow(cells, end, bytes), start, end + bytes) && NoTwoFree(Grow(cells, end, bytes))
    ensures var r := Grow(cells, end, bytes); r[|r| - 1].free && r[|r| - 1].size >= bytes - HEADER
  {
    var r, e := Grow(cells, end, bytes), end + bytes;
    forall i: nat | i < |r| ensures TileAt(r, e, i) {
      if i < |cells| { assert TileAt(cells, end, i); }
    }
    forall i: nat | i + 1 < |r| ensures ApartAt(r, i) {
      if i + 1 < |cells| { assert ApartAt(cells, i); }
    }
  }

  // ----- first fit and split -----

  predicate Fits(c: Cell, n: nat) { c.free && c.size >= n }

  /**
   Cell i of r is what a caller that asked for n bytes gets out of the free cell c: exactly n bytes with the rest free
   behind it when the rest is worth a cell, and all of c otherwise.
   */
  ghost predicate HandedOut(c: Cell, n: nat, r: seq<Cell>, i: nat) {
    && i < |r| && r[i].addr == c.addr && !r[i].free && n <= r[i].size < n + HEADER + MIN_SPLIT
    && if c.size < n + HEADER + MIN_SPLIT
       then r[i].size == c.size
       else r[i].size == n && i + 1 < |r| && r[i + 1] == Cell(r[i].End(), c.size - n - HEADER, true)
  }

  /** kmalloc's treatment of the cell it chose: split when the rest is worth a cell. */
  function Carve(cells: seq<Cell>, i: nat, n: nat): (r: seq<Cell>)
    requires i < |cells| && Fits(cells[i], n)
  {
    var c := cells[i];
    if c.size - n >= HEADER + MIN_SPLIT
    then cells[..i] + [Cell(c.addr, n, false), Cell(c.addr + HEADER + n, c.size - n - HEADER, true)] + cells[i + 1..]
    else cells[i := c.(free := false)]
  }

  lemma CarveTiles(cells: seq<Cell>, start: nat, end: nat, i: nat, n: nat)
    requires Tiles(cells, start, end) && NoTwoFree(cells) && i < |cells| && Fits(cells[i], n)
    ensures Tiles(Carve(cells, i, n), start, end) && NoTwoFree(Carve(cells, i, n))
  {
    var r := Carve(cells, i, n);
    if |r| == |cells| {
      forall k: nat | k < |r| ensures TileAt(r, end, k) {
        assert TileAt(cells, end, k);
      }
      forall k: nat | k + 1 < |r| ensures ApartAt(r, k) {
        assert ApartAt(cells, k);
      }
    } else {
      forall k: nat | k < |r| ensures TileAt(r, end, k) {
        if k <= i { assert TileAt(cells, end, k); }
        else { assert TileAt(cells, end, k - 1); }
      }
      forall k: nat | k + 1 < |r| ensures ApartAt(r, k) {
        if k < i { assert ApartAt(cells, k); }
        if k > i { assert ApartAt(cells, k - 1); }
      }
    }
  }

  /** The live cells after the call are those from before, unchanged, and the chosen one. */
  lemma CarveKeepsLive(cells: seq<Cell>, i: nat, n: nat, c: Cell)
    requires i < |cells| && Fits(cells[i], n) && !c.free
    ensures c in Carve(cells, i, n) <==> c in cells || c == Carve(cells, i, n)[i]
  {
    var r := Carve(cells, i, n);
    if c in cells {
      var k: nat :| k < |cells| && cells[k] == c;
      assert r[if k < i || |r| == |cells| then k else k + 1] == c;
    }
    if c in r && c != r[i] {
      var k: nat :| k < |r| && r[k] == c;
      assert cells[if k < i || |r| == |cells| then k else k - 1] == c;
    }
  }

  /** The chosen cell holds the request, and meets no cell that was live before. */
  lemma CarveDisjoint(cells: seq<Cell>, start: nat, end: nat, i: nat, n: nat, c: Cell)
    requires Tiles(cells, start, end) && i < |cells| && Fits(cells[i], n) && c in cells && !c.free
    ensures var r := Carve(cells, i, n)[i];
            r.addr == cells[i].addr && !r.free && r.size >= n && (r.End() <= c.addr || c.End() <= r.addr)
  {
    var k: nat :| k < |cells| && cells[k] == c;
    if k < i { CellsApart(cells, start, end, k, i); } else { CellsApart(cells, start, end, i, k); }
  }

  // ----- coalescing -----

  /** kheap_coalesce: joins neighbouring free cells from the front. */
  function Merge(cells: seq<Cell>): (r: seq<Cell>)
    decreases |cells|
  {
    if |cells| < 2 then cells
    else if cells[0].free && cells[1].free then
      Merge([Cell(cells[0].addr, cells[0].size + cells[1].size + HEADER, true)] + cells[2..])
    else [cells[0]] + Merge(cells[1..])
  }

  lemma {:induction false} MergeTiles(cells: seq<Cell>, start: nat, end: nat)
    requires Tiles(cells, start, end)
    ensures Tiles(Merge(cells), start, end)
    decreases |cells|
  {
    if |cells| >= 2 {
      TailTiles(cells, start, end);
      if cells[0].free && cells[1].free {
        TailTiles(cells[1..], cells[0].End(), end);
        var c := Cell(cells[0].addr, cells[0].size + cells[1].size + HEADER, true);
        assert cells[1..][1..] == cells[2..];
        ConsTiles(c, cells[2..], end);
        MergeTiles([c] + cells[2..], start, end);
      } else {
        MergeTiles(cells[1..], cells[0].End(), end);
        ConsTiles(cells[0], Merge(cells[1..]), end);
      }
    }
  }

  lemma {:induction false} MergeNoTwoFree(cells: seq<Cell>)
    ensures NoTwoFree(Merge(cells))
    ensures cells != [] ==> Merge(cells) != [] && Merge(cells)[0].free == cells[0].free
    decreases |cells|
  {
    if |cells| >= 2 {
      if cells[0].free && cells[1].free {
        MergeNoTwoFree([Cell(cells[0].addr, cells[0].size + cells[1].size + HEADER, true)] + cells[2..]);
      } else {
        MergeNoTwoFree(cells[1..]);
        var m := Merge(cells[1..]);
        forall i: nat | i + 1 < |[cells[0]] + m| ensures ApartAt([cells[0]] + m, i) {
          if i > 0 { assert ApartAt(m, i - 1); }
        }
      }
    }
  }

  /** A list without free neighbours is left as it is. */
  lemma {:induction false} MergeIdle(cells: seq<Cell>)
    requires NoTwoFree(cells)
    ensures Merge(cells) == cells
    decreases |cells|
  {
    if |cells| >= 2 {
      assert ApartAt(cells, 0);
      forall i: nat | i + 1 < |cells[1..]| ensures ApartAt(cells[1..], i) {
        assert ApartAt(cells, i + 1);
      }
      MergeIdle(cells[1..]);
    }
  }

  /** Merging never touches a live cell. */
  lemma {:induction false} MergeKeepsLive(cells: seq<Cell>, c: Cell)
    requires !c.free
    ensures c in Merge(cells) <==> c in cells
    decreases |cells|
  {
    if |cells| >= 2 {
      if cells[0].free && cells[1].free {
        var m := [Cell(cells[0].addr, cells[0].size + cells[1].size + HEADER, true)] + cells[2..];
        MergeKeepsLive(m, c);
        assert cells == [cells[0], cells[1]] + cells[2..];
      } else {
        MergeKeepsLive(cells[1..], c);
        assert cells == [cells[0]] + cells[1..];
      }
    }
  }

  /** A prefix without free neighbours, cut at a live cell, passes through unchanged. */
  lemma {:induction false} MergePrefix(pre: seq<Cell>, rest: seq<Cell>)
    requires NoTwoFree(pre) && rest != [] && (pre != [] ==> !(pre[|pre| - 1].free && rest[0].free))
    ensures Merge(pre + rest) == pre + Merge(rest)
    decreases |pre|
  {
    if pre == [] {
      assert pre + rest == rest;
    } else {
      var all := pre + rest;
      assert all[1..] == pre[1..] + rest;
      assert |pre| > 1 ==> ApartAt(pre, 0);
      forall i: nat | i + 1 < |pre[1..]| ensures ApartAt(pre[1..], i) {
        assert ApartAt(pre, i + 1);
      }
      MergePrefix(pre[1..], rest);
      assert [pre[0]] + (pre[1..] + Merge(rest)) == pre + Merge(rest);
    }
  }

  /** Joining the two parts of a split cell again */
  lemma SplitMerges(pre: seq<Cell>, c: Cell, post: seq<Cell>, n: nat)
    requires c.free && c.size >= n + HEADER && NoTwoFree(pre + [c] + post)
    ensures var lo, hi := Cell(c.addr, n, true), Cell(c.addr + HEADER + n, c.size - n - HEADER, true);
            Merge(pre + ([lo, hi] + post)) == pre + [c] + post
  {
    var lo, hi := Cell(c.addr, n, true), Cell(c.addr + HEADER + n, c.size - n - HEADER, true);
    var all, parts := pre + [c] + post, [lo, hi] + post;
    forall k: nat | k + 1 < |pre| ensures ApartAt(pre, k) { assert ApartAt(all, k); }
    assert pre != [] ==> ApartAt(all, |pre| - 1);
    MergePrefix(pre, parts);
    assert [c] + parts[2..] == [c] + post == all[|pre|..];
    SuffixNoTwoFree(all, |pre|);
    MergeIdle([c] + post);
    assert Merge(parts) == Merge([c] + post);
    assert pre + ([c] + post) == all;
  }

  // ----- which blocks are out -----

  /** A caller of kmalloc holds the block at address p. */
  ghost predicate Live(cells: seq<Cell>, p: nat) {
    exists c :: c in cells && !c.free && c.Start() == p
  }

  lemma NoneAtZero(cells: seq<Cell>)
    ensures !Live(cells, 0)
  {
  }

  lemma SameLiveBlocks(a: seq<Cell>, b: seq<Cell>)
    requires SameLive(a, b)
    ensures forall p: nat :: Live(a, p) <==> Live(b, p)
  {
  }

  /** An extension changes no live cell. */
  lemma GrowLive(cells: seq<Cell>, end: nat, bytes: nat)
    requires bytes >= HEADER
    ensures SameLive(Grow(cells, end, bytes), cells)
  {
    var r := Grow(cells, end, bytes);
    forall c: Cell | !c.free ensures c in r <==> c in cells {
      if c in cells {
        var k: nat :| k < |cells| && cells[k] == c;
        assert r[k] == c;
      }
      if c in r {
        var k: nat :| k < |r| && r[k] == c;
        assert k < |cells| && cells[k] == c;
      }
    }
  }

  /** Exactly one block more is out. */
  lemma CarveLive(cells: seq<Cell>, start: nat, end: nat, i: nat, n: nat)
    requires Tiles(cells, start, end) && i < |cells| && Fits(cells[i], n)
    ensures !Live(cells, cells[i].Start())
    ensures forall p: nat :: Live(Carve(cells, i, n), p) <==> Live(cells, p) || p == cells[i].Start()
    ensures forall c: Cell | !c.free && c.Start() != cells[i].Start() :: c in Carve(cells, i, n) <==> c in cells
  {
    var r := Carve(cells, i, n);
    assert r[i].Start() == cells[i].Start() && !r[i].free;
    forall c: Cell | !c.free ensures c in r <==> c in cells || c == r[i] { CarveKeepsLive(cells, i, n, c); }
    forall c | c in cells && !c.free ensures c.Start() != cells[i].Start() {
      CarveDisjoint(cells, start, end, i, n, c);
    }
  }

  /** The live cells after kfree are those from before, unchanged, without the freed one. */
  lemma FreeKeepsLive(cells: seq<Cell>, start: nat, end: nat, i: nat, c: Cell)
    requires Tiles(cells, start, end) && i < |cells| && !cells[i].free && !c.free
    ensures c in Merge(cells[i := cells[i].(free := true)]) <==> c in cells && c.Start() != cells[i].Start()
  {
    hide Merge;
    var f := cells[i := cells[i].(free := true)];
    MergeKeepsLive(f, c);
    if c in cells {
      var k: nat :| k < |cells| && cells[k] == c;
      if k < i { CellsApart(cells, start, end, k, i); }
      if i < k { CellsApart(cells, start, end, i, k); }
      assert f[k] == if k == i then cells[i].(free := true) else c;
    }
    if c in f {
      var k: nat :| k < |f| && f[k] == c;
      assert k != i && cells[k] == c;
      if k < i { CellsApart(cells, start, end, k, i); } else { CellsApart(cells, start, end, i, k); }
    }
  }

  /** Exactly one block less is out. */
  lemma FreeLive(cells: seq<Cell>, start: nat, end: nat, i: nat)
    requires Tiles(cells, start, end) && i < |cells| && !cells[i].free
    ensures forall p: nat ::
              Live(Merge(cells[i := cells[i].(free := true)]), p) <==> Live(cells, p) && p != cells[i].Start()
    ensures forall c: Cell | !c.free && c.Start() != cells[i].Start() ::
              c in Merge(cells[i := cells[i].(free := true)]) <==> c in cells
  {
    hide Merge, Tiles;
    var r := Merge(cells[i := cells[i].(free := true)]);
    forall c: Cell | !c.free ensures c in r <==> c in cells && c.Start() != cells[i].Start() {
      FreeKeepsLive(cells, start, end, i, c);
    }
    forall p: nat ensures Live(r, p) <==> Live(cells, p) && p != cells[i].Start() {
      if Live(cells, p) && p != cells[i].Start() {
        var c :| c in cells && !c.free && c.Start() == p;
        assert c in r;
      }
    }
  }

  /** kmalloc followed by kfree of its result restores the list exactly. */
  lemma CarveMergeRestores(cells: seq<Cell>, start: nat, end: nat, i: nat, n: nat)
    requires Tiles(cells, start, end) && NoTwoFree(cells) && i < |cells| && Fits(cells[i], n)
    ensures var r := Carve(cells, i, n); Merge(r[i := r[i].(free := true)]) == cells
  {
    hide Merge, NoTwoFree, Tiles;
    var r := Carve(cells, i, n);
    var f := r[i := r[i].(free := true)];
    if |r| == |cells| {
      assert f == cells;
      MergeIdle(cells);
    } else {
      var pre, c, post := cells[..i], cells[i], cells[i + 1..];
      assert cells == pre + [c] + post;
      SplitMerges(pre, c, post, n);
      assert f == pre + ([Cell(c.addr, n, true), Cell(c.addr + HEADER + n, c.size - n - HEADER, true)] + post);
    }
  }

  lemma SuffixNoTwoFree(cells: seq<Cell>, i: nat)
    requires NoTwoFree(cells) && i <= |cells|
    ensures NoTwoFree(cells[i..])
  {
    forall k: nat | k + 1 < |cells[i..]| ensures ApartAt(cells[i..], k) {
      assert ApartAt(cells, i + k);
    }
  }

  /** kmalloc's rounding of a request, in 64-bit arithmetic */
  function RoundUp(size: nat): (n: nat) {
    if size % BLOCK != 0 then (size + BLOCK - size % BLOCK) % U64 else size
  }

  /** The rounded size covers the request exactly when the rounding does not wrap. */
  lemma RoundUpCovers(size: nat)
    requires size < U64
    ensures RoundUp(size) >= size <==> size <= U64 - BLOCK
    ensures RoundUp(size) % BLOCK == 0
    ensures if size <= U64 - BLOCK then size <= RoundUp(size) < size + BLOCK else RoundUp(size) == 0
  {
  }

  /** A request close to 2^64 is rounded to zero. */
  lemma RoundUpWraps()
    ensures RoundUp(U64 - 1) == 0
  {
  }
}
