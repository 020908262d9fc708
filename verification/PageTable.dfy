/**
 Four-level page tables in physical frames, and the translation they stand for, as the processor
 computes it (4-level paging, section 4.5 of the Intel SDM volume 3A).
 */
module PageTable {
  import opened Bits
  import opened Entry

  type Memory = map<nat, seq<nat>>   // frame number to its 512 words

  /** A page fault, or the frame with the entry it comes from and the entry's level (2 is a 2MB page) */
  datatype Leaf = Fault | Leaf(frame: nat, entry: nat, level: nat)

  /** What a table frame is: its level (4 is a root), the virtual prefix it covers, and the root it
      belongs to; tables under the upper half of a root are shared and belong to 0. */
  datatype Table = Table(level: nat, pre: nat, owner: nat)

  /** 512^level: pages covered by a table of that level */
  function Span(level: nat): (r: nat)
    requires level <= 4
    ensures r >= 1
  {
    match level case 0 => 1 case 1 => 512 case 2 => 262144 case 3 => 134217728 case _ => 68719476736
  }

  /** Index of page w in the table of the given level */
  function Index(w: nat, level: nat): (i: nat)
    requires 1 <= level <= 4
    ensures i < 512
  {
    (w / Span(level - 1)) % 512
  }

  lemma PrefixStep(w: nat, level: nat)
    requires 1 <= level <= 4
    ensures w / Span(level - 1) == (w / Span(level)) * 512 + Index(w, level)
  {
  }

  /** The processor's walk from a table of the given level */
  function Descend(mem: Memory, f: nat, level: nat, w: nat): (r: Leaf)
    requires 1 <= level <= 4
    decreases level
  {
    if f !in mem || |mem[f]| != 512 then Fault
    else
      var e := mem[f][Index(w, level)];
      if !Present(e) then Fault
      else if level == 1 then Leaf(FrameOf(e), e, 1)
      else if level < 4 && Huge(e) then Leaf(FrameOf(e) + w % Span(level - 1), e, level)
      else Descend(mem, FrameOf(e), level - 1, w)
  }

  /** The processor's rule for a right: every entry of the walk must have the bit. */
  ghost predicate AllHave(mem: Memory, f: nat, level: nat, w: nat, bit: nat)
    requires 1 <= level <= 4
    decreases level
  {
    && f in mem && |mem[f]| == 512
    && var e := mem[f][Index(w, level)];
       && Present(e) && Has(e, bit)
       && (level == 1 || (level < 4 && Huge(e)) || AllHave(mem, FrameOf(e), level - 1, w, bit))
  }

  /** The processor's rule for a ban: one entry of the walk with the bit is enough. */
  ghost predicate SomeHas(mem: Memory, f: nat, level: nat, w: nat, bit: nat)
    requires 1 <= level <= 4
    decreases level
  {
    && f in mem && |mem[f]| == 512
    && var e := mem[f][Index(w, level)];
       && Present(e)
       && (Has(e, bit) || (level > 1 && !(level < 4 && Huge(e)) && SomeHas(mem, FrameOf(e), level - 1, w, bit)))
  }

  function Translate(mem: Memory, root: nat, w: nat): (r: Leaf) {
    Descend(mem, root, 4, w)
  }

  ghost function Below(t: Table, f: nat, i: nat): (r: Table)
    requires t.level > 0
  {
    Table(t.level - 1, t.pre * 512 + i, if t.level == 4 then (if i < 256 then f else 0) else t.owner)
  }

  ghost predicate EntryOk(mem: Memory, tabs: map<nat, Table>, f: nat, i: nat)
    requires f in mem && f in tabs && i < |mem[f]| && tabs[f].level > 0
  {
    var e, t := mem[f][i], tabs[f];
    && (!Present(e) ==> e == 0)
    && (Present(e) && t.level > 1 && !(t.level == 2 && Huge(e)) ==>
          !Huge(e) && Passes(e) && FrameOf(e) in tabs && tabs[FrameOf(e)] == Below(t, f, i))
  }

  ghost predicate TableOk(mem: Memory, tabs: map<nat, Table>, f: nat)
    requires f in tabs
  {
    && f in mem && |mem[f]| == 512 && 1 <= tabs[f].level <= 4
    && (tabs[f].level == 4 ==> tabs[f].pre == 0)
    && forall i: nat | i < 512 :: EntryOk(mem, tabs, f, i)
  }

  /** Every table frame has one level, prefix and owner; present entries lead to tables one level down. */
  ghost predicate Typed(mem: Memory, tabs: map<nat, Table>) {
    forall f | f in tabs :: TableOk(mem, tabs, f)
  }

  ghost predicate IsRoot(tabs: map<nat, Table>, r: nat) {
    r in tabs && tabs[r].level == 4
  }

  /** f is a table that walks of page w may pass. */
  ghost predicate OnWay(tabs: map<nat, Table>, f: nat, w: nat) {
    f in tabs && 1 <= tabs[f].level <= 4 && tabs[f].pre == w / Span(tabs[f].level)
  }

  /** One step of a walk stays on tables for the same page. */
  lemma StepDown(mem: Memory, tabs: map<nat, Table>, f: nat, w: nat)
    requires Typed(mem, tabs) && OnWay(tabs, f, w)
    ensures f in mem && |mem[f]| == 512
    ensures var l, e := tabs[f].level, mem[f][Index(w, tabs[f].level)];
            && (!Present(e) ==> e == 0)
            && (Present(e) && l > 1 && !(l < 4 && Huge(e)) ==>
                  OnWay(tabs, FrameOf(e), w) && tabs[FrameOf(e)] == Below(tabs[f], f, Index(w, l)))
  {
    var l := tabs[f].level;
    assert TableOk(mem, tabs, f);
    assert EntryOk(mem, tabs, f, Index(w, l));
    PrefixStep(w, l);
  }

  /** A walk reads nothing but tables. */
  lemma {:induction false} WalkFrame(mem: Memory, mem': Memory, tabs: map<nat, Table>, f: nat, w: nat)
    requires Typed(mem, tabs) && OnWay(tabs, f, w)
    requires forall g | g in tabs :: g in mem' && g in mem && mem'[g] == mem[g]
    ensures Descend(mem', f, tabs[f].level, w) == Descend(mem, f, tabs[f].level, w)
    decreases tabs[f].level
  {
    StepDown(mem, tabs, f, w);
    var l, e := tabs[f].level, mem[f][Index(w, tabs[f].level)];
    if Present(e) && l > 1 && !(l < 4 && Huge(e)) { WalkFrame(mem, mem', tabs, FrameOf(e), w); }
  }

  ghost function Write(mem: Memory, f: nat, i: nat, e: nat): (r: Memory)
    requires f in mem && i < |mem[f]|
  {
    var words: seq<nat> := mem[f][i := e];
    mem[f := words]
  }

  /** The frame condition: a write to the slot of other pages does not change the walk of page w, from any root. */
  lemma {:induction false} WriteElsewhere(mem: Memory, tabs: map<nat, Table>, g: nat, w: nat, f: nat, i: nat, e: nat)
    requires Typed(mem, tabs) && OnWay(tabs, g, w) && f in tabs && f in mem && i < |mem[f]| && 1 <= tabs[f].level <= 4
    requires w / Span(tabs[f].level - 1) != tabs[f].pre * 512 + i
    ensures Descend(Write(mem, f, i, e), g, tabs[g].level, w) == Descend(mem, g, tabs[g].level, w)
    decreases tabs[g].level
  {
    StepDown(mem, tabs, g, w);
    var l, x := tabs[g].level, mem[g][Index(w, tabs[g].level)];
    PrefixStep(w, l);
    if Present(x) && l > 1 && !(l < 4 && Huge(x)) { WriteElsewhere(mem, tabs, FrameOf(x), w, f, i, e); }
  }

  /** Walks below one root's lower half never meet tables of another owner. */
  lemma {:induction false} WriteForeign(mem: Memory, tabs: map<nat, Table>, g: nat, w: nat, f: nat, i: nat, e: nat)
    requires Typed(mem, tabs) && OnWay(tabs, g, w) && f in tabs && f in mem && i < |mem[f]|
    requires tabs[g].level < 4 && (tabs[f].level == 4 || tabs[f].owner != tabs[g].owner)
    ensures Descend(Write(mem, f, i, e), g, tabs[g].level, w) == Descend(mem, g, tabs[g].level, w)
    decreases tabs[g].level
  {
    StepDown(mem, tabs, g, w);
    var l, x := tabs[g].level, mem[g][Index(w, tabs[g].level)];
    if Present(x) && l > 1 && !(l < 4 && Huge(x)) { WriteForeign(mem, tabs, FrameOf(x), w, f, i, e); }
  }

  // ----- creating tables -----

  ghost predicate SameTranslations(mem: Memory, mem': Memory, tabs: map<nat, Table>) {
    forall r: nat, w: nat | IsRoot(tabs, r) && w < Span(4) :: Translate(mem', r, w) == Translate(mem, r, w)
  }

  lemma SameRefl(mem: Memory, tabs: map<nat, Table>)
    ensures SameTranslations(mem, mem, tabs)
  {
  }

  lemma SameTrans(a: Memory, b: Memory, c: Memory, tabs: map<nat, Table>, tabs': map<nat, Table>)
    requires SameTranslations(a, b, tabs) && SameTranslations(b, c, tabs')
    requires forall r | IsRoot(tabs, r) :: IsRoot(tabs', r)
    ensures SameTranslations(a, c, tabs)
  {
    forall r: nat, w: nat | IsRoot(tabs, r) && w < Span(4) ensures Translate(c, r, w) == Translate(a, r, w) {
      assert Translate(b, r, w) == Translate(a, r, w);
    }
  }

  function Zeros(): (z: seq<nat>)
    ensures |z| == 512 && forall i: nat | i < 512 :: z[i] == 0
  {
    seq(512, _ => 0)
  }

  lemma EmptyTable(mem: Memory, f: nat, level: nat, w: nat)
    requires f in mem && mem[f] == Zeros() && 1 <= level <= 4
    ensures Descend(mem, f, level, w) == Fault
  {
    ZeroAbsent();
  }

  /** The memory after a fresh zeroed table was linked into an empty slot */
  ghost function Linked(mem: Memory, f: nat, i: nat, child: nat, e: nat): (r: Memory)
    requires f in mem && i < |mem[f]| && child != f
  {
    Write(mem[child := Zeros()], f, i, e)
  }

  ghost predicate CanLink(mem: Memory, tabs: map<nat, Table>, f: nat, i: nat, child: nat, e: nat) {
    && Typed(mem, tabs) && f in tabs && f in mem && i < 512 == |mem[f]| && 2 <= tabs[f].level <= 4
    && !Present(mem[f][i]) && child !in tabs
    && Present(e) && !Huge(e) && Passes(e) && FrameOf(e) == child
  }

  lemma {:induction false} LinkWalk(mem: Memory, tabs: map<nat, Table>, g: nat, w: nat, f: nat, i: nat, child: nat,
                                    e: nat)
    requires CanLink(mem, tabs, f, i, child, e) && OnWay(tabs, g, w)
    ensures Descend(Linked(mem, f, i, child, e), g, tabs[g].level, w) == Descend(mem, g, tabs[g].level, w)
    decreases tabs[g].level
  {
    StepDown(mem, tabs, g, w);
    var l, x, mem' := tabs[g].level, mem[g][Index(w, tabs[g].level)], Linked(mem, f, i, child, e);
    if g == f && Index(w, l) == i {
      EmptyTable(mem', child, l - 1, w);
    } else {
      assert mem'[g][Index(w, l)] == x;
      if Present(x) && l > 1 && !(l < 4 && Huge(x)) { LinkWalk(mem, tabs, FrameOf(x), w, f, i, child, e); }
    }
  }

  /** Creating a table changes no translation in any address space. */
  lemma LinkSame(mem: Memory, tabs: map<nat, Table>, f: nat, i: nat, child: nat, e: nat)
    requires CanLink(mem, tabs, f, i, child, e)
    ensures SameTranslations(mem, Linked(mem, f, i, child, e), tabs)
  {
    var mem' := Linked(mem, f, i, child, e);
    forall r: nat, w: nat | IsRoot(tabs, r) && w < Span(4) ensures Translate(mem', r, w) == Translate(mem, r, w) {
      assert TableOk(mem, tabs, r);
      LinkWalk(mem, tabs, r, w, f, i, child, e);
    }
  }

  lemma LinkTyped(mem: Memory, tabs: map<nat, Table>, f: nat, i: nat, child: nat, e: nat)
    requires CanLink(mem, tabs, f, i, child, e)
    ensures Typed(Linked(mem, f, i, child, e), tabs[child := Below(tabs[f], f, i)])
  {
    var mem', tabs' := Linked(mem, f, i, child, e), tabs[child := Below(tabs[f], f, i)];
    ZeroAbsent();
    assert TableOk(mem, tabs, f);
    forall g | g in tabs' ensures TableOk(mem', tabs', g) {
      if g != child {
        assert TableOk(mem, tabs, g);
        forall k: nat | k < 512 ensures EntryOk(mem', tabs', g, k) { assert EntryOk(mem, tabs, g, k); }
      }
    }
  }

  /** For every page the rights of the whole walk are those of its leaf entry: upper tables take nothing away. */
  lemma {:induction false} WalkRights(mem: Memory, tabs: map<nat, Table>, g: nat, w: nat)
    requires Typed(mem, tabs) && OnWay(tabs, g, w) && Descend(mem, g, tabs[g].level, w).Leaf?
    ensures var l, e := tabs[g].level, Descend(mem, g, tabs[g].level, w).entry;
            && (AllHave(mem, g, l, w, RW) <==> Has(e, RW)) && (AllHave(mem, g, l, w, US) <==> Has(e, US))
            && (SomeHas(mem, g, l, w, NO_EXEC) <==> Has(e, NO_EXEC))
    decreases tabs[g].level
  {
    hide And, FrameOf;
    StepDown(mem, tabs, g, w);
    var l := tabs[g].level;
    assert EntryOk(mem, tabs, g, Index(w, l)) by { assert TableOk(mem, tabs, g); }
    var e := mem[g][Index(w, l)];
    if l > 1 && !(l < 4 && Huge(e)) { WalkRights(mem, tabs, FrameOf(e), w); }
  }

  // ----- leaf entries -----

  /** The walk of page w from table g, at `level`, arrives at table f of level l. */
  ghost predicate Reaches(mem: Memory, g: nat, level: nat, w: nat, f: nat, l: nat)
    requires 1 <= l <= level <= 4
    decreases level
  {
    if level == l then g == f
    else
      && g in mem && |mem[g]| == 512
      && var e := mem[g][Index(w, level)];
         Present(e) && !(level < 4 && Huge(e)) && Reaches(mem, FrameOf(e), level - 1, w, f, l)
  }

  lemma {:induction false} ReachDescend(mem: Memory, g: nat, level: nat, w: nat, f: nat, l: nat)
    requires 1 <= l <= level <= 4 && Reaches(mem, g, level, w, f, l)
    ensures Descend(mem, g, level, w) == Descend(mem, f, l, w)
    decreases level
  {
    if level > l { ReachDescend(mem, FrameOf(mem[g][Index(w, level)]), level - 1, w, f, l); }
  }

  /** Where a walk arrives, and whose table that is */
  lemma {:induction false} ReachWay(mem: Memory, tabs: map<nat, Table>, g: nat, w: nat, f: nat, l: nat)
    requires Typed(mem, tabs) && OnWay(tabs, g, w) && 1 <= l <= tabs[g].level && Reaches(mem, g, tabs[g].level, w, f, l)
    ensures OnWay(tabs, f, w) && tabs[f].level == l
    ensures l < tabs[g].level ==>
              tabs[f].owner == if tabs[g].level == 4 then (if Index(w, 4) < 256 then g else 0) else tabs[g].owner
    decreases tabs[g].level
  {
    if l < tabs[g].level {
      StepDown(mem, tabs, g, w);
      ReachWay(mem, tabs, FrameOf(mem[g][Index(w, tabs[g].level)]), w, f, l);
    }
  }

  /** The path to a page does not depend on what the slot at its end holds: pages of one slot share it. */
  lemma {:induction false} ReachWrite(mem: Memory, tabs: map<nat, Table>, g: nat, w: nat, w': nat, f: nat, l: nat,
                                      i: nat, e: nat)
    requires Typed(mem, tabs) && OnWay(tabs, g, w) && 1 <= l <= tabs[g].level && Reaches(mem, g, tabs[g].level, w, f, l)
    requires f in tabs && tabs[f].level == l && f in mem && i < |mem[f]|
    requires w' / Span(l) == w / Span(l)
    ensures Reaches(Write(mem, f, i, e), g, tabs[g].level, w', f, l)
    decreases tabs[g].level
  {
    var level := tabs[g].level;
    if l < level {
      StepDown(mem, tabs, g, w);
      SameIndex(w, w', l, level);
      ReachWrite(mem, tabs, FrameOf(mem[g][Index(w, level)]), w, w', f, l, i, e);
    }
  }

  lemma SameIndex(w: nat, w': nat, l: nat, level: nat)
    requires 1 <= l < level <= 4 && w' / Span(l) == w / Span(l)
    ensures Index(w', level) == Index(w, level)
  {
    SpanDiv(w);
    SpanDiv(w');
  }

  /** Dividing by a span is dividing by smaller spans in turn. */
  lemma SpanDiv(w: nat)
    ensures w / 262144 == (w / 512) / 512
    ensures w / 134217728 == (w / 262144) / 512 == (w / 512) / 262144
  {
  }

  /** What an entry of level l in its slot makes of page w */
  function LeafOf(e: nat, l: nat, w: nat): (r: Leaf)
    requires 1 <= l <= 2
  {
    if Present(e) then Leaf(FrameOf(e) + w % Span(l - 1), e, l) else Fault
  }

  /** e may stand in a slot of level l as a leaf or as nothing. */
  ghost predicate LeafEntry(e: nat, l: nat) {
    e == 0 || (Present(e) && (l == 1 || (l == 2 && Huge(e))))
  }

  lemma WriteTyped(mem: Memory, tabs: map<nat, Table>, f: nat, i: nat, e: nat)
    requires Typed(mem, tabs) && f in tabs && f in mem && i < 512 == |mem[f]| && LeafEntry(e, tabs[f].level)
    ensures Typed(Write(mem, f, i, e), tabs)
  {
    var mem' := Write(mem, f, i, e);
    ZeroAbsent();
    forall g | g in tabs ensures TableOk(mem', tabs, g) {
      assert TableOk(mem, tabs, g);
      forall k: nat | k < 512 ensures EntryOk(mem', tabs, g, k) { assert EntryOk(mem, tabs, g, k); }
    }
  }

  /**
   mem' differs from mem, as a translation, in the slot of page w at level l only: there the given root
   maps by entry e; everything else is as before, for every root. In the lower half other roots see
   no change at all.
   */
  ghost predicate Updated(mem: Memory, mem': Memory, tabs: map<nat, Table>, root: nat, w: nat, l: nat, e: nat)
    requires 1 <= l <= 2
  {
    && (forall r: nat, v: nat | IsRoot(tabs, r) && v < Span(4) && v / Span(l - 1) != w / Span(l - 1) ::
          Translate(mem', r, v) == Translate(mem, r, v))
    && (forall v: nat | v < Span(4) && v / Span(l - 1) == w / Span(l - 1) ::
          Translate(mem', root, v) == LeafOf(e, l, v))
    && (Index(w, 4) < 256 ==> forall r: nat, v: nat | IsRoot(tabs, r) && r != root && v < Span(4) ::
          Translate(mem', r, v) == Translate(mem, r, v))
  }

  lemma ComposeUpdate(a: Memory, b: Memory, c: Memory, tabs: map<nat, Table>, tabs': map<nat, Table>, root: nat, w: nat,
                      l: nat, e: nat)
    requires 1 <= l <= 2 && SameTranslations(a, b, tabs) && Updated(b, c, tabs', root, w, l, e)
    requires forall r | IsRoot(tabs, r) :: IsRoot(tabs', r)
    ensures Updated(a, c, tabs, root, w, l, e)
  {
    forall r: nat, v: nat | IsRoot(tabs, r) && v < Span(4) && v / Span(l - 1) != w / Span(l - 1)
      ensures Translate(c, r, v) == Translate(a, r, v)
    {
      assert Translate(b, r, v) == Translate(a, r, v);
    }
    if Index(w, 4) < 256 {
      forall r: nat, v: nat | IsRoot(tabs, r) && r != root && v < Span(4)
        ensures Translate(c, r, v) == Translate(a, r, v)
      {
        assert Translate(b, r, v) == Translate(a, r, v);
      }
    }
  }

  lemma SlotPage(w: nat, v: nat, l: nat)
    requires 1 <= l <= 2 && v / Span(l - 1) == w / Span(l - 1)
    ensures v / Span(l) == w / Span(l) && Index(v, l) == Index(w, l)
  {
    PrefixStep(w, l);
    PrefixStep(v, l);
  }

  lemma TargetUpdated(mem: Memory, tabs: map<nat, Table>, root: nat, w: nat, v: nat, f: nat, l: nat, e: nat)
    requires Typed(mem, tabs) && IsRoot(tabs, root) && w < Span(4) && 1 <= l <= 2
    requires Reaches(mem, root, 4, w, f, l) && f in tabs && tabs[f].level == l && f in mem && |mem[f]| == 512
    requires LeafEntry(e, l) && v / Span(l - 1) == w / Span(l - 1)
    ensures Translate(Write(mem, f, Index(w, l), e), root, v) == LeafOf(e, l, v)
  {
    var mem' := Write(mem, f, Index(w, l), e);
    assert TableOk(mem, tabs, root);
    SlotPage(w, v, l);
    ReachWrite(mem, tabs, root, w, v, f, l, Index(w, l), e);
    ReachDescend(mem', root, 4, v, f, l);
    ZeroAbsent();
  }

  lemma ForeignSame(mem: Memory, tabs: map<nat, Table>, r: nat, v: nat, f: nat, i: nat, e: nat)
    requires Typed(mem, tabs) && IsRoot(tabs, r) && v < Span(4) && f in tabs && f in mem && i < |mem[f]|
    requires tabs[f].level < 4 && tabs[f].owner != r && tabs[f].owner != 0
    ensures Translate(Write(mem, f, i, e), r, v) == Translate(mem, r, v)
  {
    assert TableOk(mem, tabs, r);
    StepDown(mem, tabs, r, v);
    var x := mem[r][Index(v, 4)];
    if Present(x) { WriteForeign(mem, tabs, FrameOf(x), v, f, i, e); }
  }

  /** Writing the slot that the walk of page w ends in is an update of the translation at that slot. */
  lemma WriteUpdates(mem: Memory, tabs: map<nat, Table>, root: nat, w: nat, f: nat, l: nat, e: nat)
    requires Typed(mem, tabs) && IsRoot(tabs, root) && root != 0 && w < Span(4) && 1 <= l <= 2
    requires Reaches(mem, root, 4, w, f, l) && LeafEntry(e, l)
    ensures f in tabs && tabs[f].level == l && f in mem && |mem[f]| == 512
    ensures Typed(Write(mem, f, Index(w, l), e), tabs)
    ensures Updated(mem, Write(mem, f, Index(w, l), e), tabs, root, w, l, e)
  {
    hide Passes;
    assert TableOk(mem, tabs, root);
    ReachWay(mem, tabs, root, w, f, l);
    assert TableOk(mem, tabs, f);
    var i := Index(w, l);
    WriteTyped(mem, tabs, f, i, e);
    var mem' := Write(mem, f, i, e);
    PrefixStep(w, l);
    forall r: nat, v: nat | IsRoot(tabs, r) && v < Span(4) && v / Span(l - 1) != w / Span(l - 1)
      ensures Translate(mem', r, v) == Translate(mem, r, v)
    {
      assert TableOk(mem, tabs, r);
      WriteElsewhere(mem, tabs, r, v, f, i, e);
    }
    forall v: nat | v < Span(4) && v / Span(l - 1) == w / Span(l - 1)
      ensures Translate(mem', root, v) == LeafOf(e, l, v)
    {
      TargetUpdated(mem, tabs, root, w, v, f, l, e);
    }
    if Index(w, 4) < 256 {
      forall r: nat, v: nat | IsRoot(tabs, r) && r != root && v < Span(4)
        ensures Translate(mem', r, v) == Translate(mem, r, v)
      {
        ForeignSame(mem, tabs, r, v, f, i, e);
      }
    }
  }

  // ----- paths while tables are created -----

  lemma {:induction false} ReachLinked(mem: Memory, tabs: map<nat, Table>, g: nat, w: nat, h: nat, l: nat, f: nat,
                                       i: nat, child: nat, e: nat)
    requires CanLink(mem, tabs, f, i, child, e) && OnWay(tabs, g, w) && 1 <= l <= tabs[g].level
    requires Reaches(mem, g, tabs[g].level, w, h, l)
    ensures Reaches(Linked(mem, f, i, child, e), g, tabs[g].level, w, h, l)
    decreases tabs[g].level
  {
    var level := tabs[g].level;
    if l < level {
      StepDown(mem, tabs, g, w);
      var x := mem[g][Index(w, level)];
      assert Linked(mem, f, i, child, e)[g][Index(w, level)] == x;
      ReachLinked(mem, tabs, FrameOf(x), w, h, l, f, i, child, e);
    }
  }

  /** A path is prolonged by a present entry. */
  lemma {:induction false} ReachExtend(mem: Memory, g: nat, level: nat, w: nat, f: nat, l: nat, child: nat)
    requires 2 <= l <= level <= 4 && Reaches(mem, g, level, w, f, l) && f in mem && |mem[f]| == 512
    requires var e := mem[f][Index(w, l)]; Present(e) && !Huge(e) && FrameOf(e) == child
    ensures Reaches(mem, g, level, w, child, l - 1)
    decreases level
  {
    if level > l { ReachExtend(mem, FrameOf(mem[g][Index(w, level)]), level - 1, w, f, l, child); }
  }

  /** Page number of a virtual address: bits 12 to 47 */
  function PageOf(virt: nat): (w: nat)
    ensures w < Span(4)
  {
    (virt / PAGE) % Span(4)
  }

  /** The index macros of the kernel are the indices of the page. */
  lemma VirtIndex(virt: nat)
    ensures (virt / 0x80_0000_0000) % 512 == Index(PageOf(virt), 4)
    ensures (virt / 0x4000_0000) % 512 == Index(PageOf(virt), 3)
    ensures (virt / 0x20_0000) % 512 == Index(PageOf(virt), 2)
    ensures (virt / 0x1000) % 512 == Index(PageOf(virt), 1)
  {
    var p := virt / PAGE;
    assert virt / 0x80_0000_0000 == p / Span(3) && virt / 0x4000_0000 == p / Span(2) && virt / 0x20_0000 == p / Span(1);
    SpanMod(p, 0);
    SpanMod(p, 1);
    SpanMod(p, 2);
    SpanMod(p, 3);
  }

  lemma SpanMod(p: nat, l: nat)
    requires l <= 3
    ensures (p / Span(l)) % 512 == ((p % Span(4)) / Span(l)) % 512
  {
    var q, r := p / Span(4), p % Span(4);
    var x := r / Span(l);
    var k := Span(3 - l);
    assert p / Span(l) == q * k * 512 + x by {
      match l case 0 => case 1 => case 2 => case 3 =>
    }
    ModUnique(p / Span(l), 512, q * k + x / 512, x % 512);
  }

  /** A page mapped by a 4KB entry has a path to its page table. */
  lemma {:induction false} LeafReached(mem: Memory, g: nat, level: nat, w: nat) returns (f: nat)
    requires 1 <= level <= 4 && Descend(mem, g, level, w).Leaf? && Descend(mem, g, level, w).level == 1
    ensures Reaches(mem, g, level, w, f, 1)
    decreases level
  {
    if level == 1 { f := g; } else { f := LeafReached(mem, FrameOf(mem[g][Index(w, level)]), level - 1, w); }
  }

  // ----- regions -----

  /** The k-th slot of a region that starts at page w0, in units of level l */
  function SlotOf(w0: nat, l: nat, v: nat): (k: int)
    requires 1 <= l <= 2
  {
    v / Span(l - 1) - w0 / Span(l - 1)
  }

  /** mem is mem0 with the first n slots from page w0 on filled from the plan and nothing else changed. */
  ghost predicate RegionMapped(mem0: Memory, mem: Memory, tabs: map<nat, Table>, root: nat, w0: nat, l: nat, n: nat,
                               plan: Plan)
    requires 1 <= l <= 2
  {
    && (forall r: nat, v: nat | IsRoot(tabs, r) && v < Span(4) && !(0 <= SlotOf(w0, l, v) < n) ::
          Translate(mem, r, v) == Translate(mem0, r, v))
    && (forall v: nat | v < Span(4) && 0 <= SlotOf(w0, l, v) < n ::
          Translate(mem, root, v) == LeafOf(plan.At(SlotOf(w0, l, v)), l, v))
    && (w0 + n * Span(l - 1) <= HALF ==> forall r: nat, v: nat | IsRoot(tabs, r) && r != root && v < Span(4) ::
          Translate(mem, r, v) == Translate(mem0, r, v))
  }

  /** Pages of the lower half: index below 256 in the root */
  const HALF: nat := 0x8_0000_0000

  lemma LowerHalf(w: nat)
    ensures w < HALF ==> Index(w, 4) < 256
    ensures w < Span(4) && Index(w, 4) < 256 ==> w < HALF
  {
  }

  lemma RegionEmpty(mem: Memory, tabs: map<nat, Table>, root: nat, w0: nat, l: nat, plan: Plan)
    requires 1 <= l <= 2
    ensures RegionMapped(mem, mem, tabs, root, w0, l, 0, plan)
  {
  }

  lemma RegionStep(mem0: Memory, mem: Memory, mem': Memory, tabs: map<nat, Table>, tabs': map<nat, Table>, root: nat,
                   w0: nat, l: nat, n: nat, plan: Plan)
    requires 1 <= l <= 2 && RegionMapped(mem0, mem, tabs, root, w0, l, n, plan)
    requires Updated(mem, mem', tabs', root, w0 + n * Span(l - 1), l, plan.At(n))
    requires IsRoot(tabs, root) && forall r | IsRoot(tabs, r) :: IsRoot(tabs', r)
    ensures RegionMapped(mem0, mem', tabs, root, w0, l, n + 1, plan)
  {
    var w := w0 + n * Span(l - 1);
    assert w / Span(l - 1) == w0 / Span(l - 1) + n by { match l case 1 => case 2 => }
    forall v: nat | v < Span(4) ensures SlotOf(w0, l, v) == n <==> v / Span(l - 1) == w / Span(l - 1) {}
    forall r: nat, v: nat | IsRoot(tabs, r) && v < Span(4) && !(0 <= SlotOf(w0, l, v) < n + 1)
      ensures Translate(mem', r, v) == Translate(mem0, r, v)
    {
      assert Translate(mem, r, v) == Translate(mem0, r, v);
    }
    forall v: nat | v < Span(4) && 0 <= SlotOf(w0, l, v) < n + 1
      ensures Translate(mem', root, v) == LeafOf(plan.At(SlotOf(w0, l, v)), l, v)
    {
      if SlotOf(w0, l, v) < n { assert Translate(mem, root, v) == LeafOf(plan.At(SlotOf(w0, l, v)), l, v); }
    }
    if w0 + (n + 1) * Span(l - 1) <= HALF {
      assert w < HALF && w0 + n * Span(l - 1) <= HALF by { match l case 1 => case 2 => }
      LowerHalf(w);
      forall r: nat, v: nat | IsRoot(tabs, r) && r != root && v < Span(4)
        ensures Translate(mem', r, v) == Translate(mem0, r, v)
      {
        assert Translate(mem, r, v) == Translate(mem0, r, v);
      }
    }
  }

  /** Removing a region that was mapped onto unmapped pages restores the translation of the root. */
  lemma MapUnmapRestores(mem0: Memory, mem1: Memory, mem2: Memory, tabs: map<nat, Table>, root: nat, w0: nat, l: nat,
                         n: nat, plan: Plan)
    requires IsRoot(tabs, root) && 1 <= l <= 2
    requires (forall v: nat | v < Span(4) && 0 <= SlotOf(w0, l, v) < n :: Translate(mem0, root, v) == Fault)
    requires RegionMapped(mem0, mem1, tabs, root, w0, l, n, plan)
    requires RegionMapped(mem1, mem2, tabs, root, w0, l, n, Erase)
    ensures forall v: nat | v < Span(4) :: Translate(mem2, root, v) == Translate(mem0, root, v)
    ensures forall r: nat, v: nat | IsRoot(tabs, r) && v < Span(4) && !(0 <= SlotOf(w0, l, v) < n) ::
              Translate(mem2, r, v) == Translate(mem0, r, v)
  {
    hide SlotOf;
    ZeroAbsent();
    forall r: nat, v: nat | IsRoot(tabs, r) && v < Span(4) && !(0 <= SlotOf(w0, l, v) < n)
      ensures Translate(mem2, r, v) == Translate(mem0, r, v)
    {
      assert Translate(mem1, r, v) == Translate(mem0, r, v);
    }
  }

  /** Words of memory were only set to zero. */
  ghost predicate Erases(mem: Memory, mem': Memory) {
    && mem'.Keys == mem.Keys
    && forall g | g in mem :: |mem'[g]| == |mem[g]| && forall i: nat | i < |mem[g]| :: mem'[g][i] in {mem[g][i], 0}
  }

  lemma ErasesTrans(a: Memory, b: Memory, c: Memory)
    requires Erases(a, b) && Erases(b, c)
    ensures Erases(a, c)
  {
    forall g | g in a ensures |c[g]| == |a[g]| && forall i: nat | i < |a[g]| :: c[g][i] in {a[g][i], 0} {
      assert |b[g]| == |a[g]|;
      forall i: nat | i < |a[g]| ensures c[g][i] in {a[g][i], 0} { assert b[g][i] in {a[g][i], 0}; }
    }
  }

  /** Erasing opens no new way. */
  lemma {:induction false} ErasedReach(mem: Memory, mem': Memory, g: nat, level: nat, w: nat, f: nat, l: nat)
    requires 1 <= l <= level <= 4 && Erases(mem, mem') && Reaches(mem', g, level, w, f, l)
    ensures Reaches(mem, g, level, w, f, l)
    decreases level
  {
    if level > l {
      ZeroAbsent();
      assert mem'[g][Index(w, level)] in {mem[g][Index(w, level)], 0};
      ErasedReach(mem, mem', FrameOf(mem'[g][Index(w, level)]), level - 1, w, f, l);
    }
  }

  // ----- new and dropped roots -----

  /** A root that shares the upper half of another root and maps nothing in the lower half */
  ghost predicate UpperCopy(words: seq<nat>, from: seq<nat>) {
    && |words| == |from| == 512
    && (forall i: nat | i < 256 :: words[i] == 0)
    && (forall i: nat | 256 <= i < 512 :: words[i] == from[i])
  }

  lemma CopyRootTyped(mem: Memory, tabs: map<nat, Table>, kernel: nat, c: nat, words: seq<nat>)
    requires Typed(mem, tabs) && IsRoot(tabs, kernel) && c !in tabs && kernel in mem && UpperCopy(words, mem[kernel])
    ensures Typed(mem[c := words], tabs[c := Table(4, 0, c)])
  {
    var mem', tabs' := mem[c := words], tabs[c := Table(4, 0, c)];
    ZeroAbsent();
    assert TableOk(mem, tabs, kernel);
    forall g | g in tabs' ensures TableOk(mem', tabs', g) {
      var h := if g == c then kernel else g;
      assert TableOk(mem, tabs, h);
      forall k: nat | k < 512 ensures EntryOk(mem', tabs', g, k) { assert EntryOk(mem, tabs, h, k); }
    }
  }

  /** The new root sees the kernel half of the old one and nothing else. */
  lemma CopyRootWalk(mem: Memory, kernel: nat, c: nat, w: nat)
    requires kernel in mem && c in mem && UpperCopy(mem[c], mem[kernel]) && w < Span(4)
    ensures Translate(mem, c, w) == if w < HALF then Fault else Translate(mem, kernel, w)
  {
    LowerHalf(w);
    ZeroAbsent();
  }

  /** No entry leads to a root, so a root can be given up. */
  lemma DropRootTyped(mem: Memory, tabs: map<nat, Table>, root: nat)
    requires Typed(mem, tabs) && IsRoot(tabs, root)
    ensures Typed(mem, tabs - {root})
  {
    var tabs' := tabs - {root};
    forall g | g in tabs' ensures TableOk(mem, tabs', g) {
      assert TableOk(mem, tabs, g);
      forall k: nat | k < 512 ensures EntryOk(mem, tabs', g, k) { assert EntryOk(mem, tabs, g, k); }
    }
  }

  // ----- the kernel half that all roots share -----

  /** Of the roots' own words only slot i of `root` may have changed, and only from absent. */
  ghost predicate RootsKept(mem: Memory, mem': Memory, tabs: map<nat, Table>, root: nat, i: nat) {
    forall g | IsRoot(tabs, g) ::
      && g in mem && g in mem' && |mem[g]| == |mem'[g]| == 512 && (g != root ==> mem'[g] == mem[g])
      && forall k: nat | k < 512 && (k != i || Present(mem[g][k])) :: mem'[g][k] == mem[g][k]
  }

  lemma KeptRefl(mem: Memory, tabs: map<nat, Table>, root: nat, i: nat)
    requires Typed(mem, tabs)
    ensures RootsKept(mem, mem, tabs, root, i)
  {
    forall g | IsRoot(tabs, g) ensures g in mem && |mem[g]| == 512 { assert TableOk(mem, tabs, g); }
  }

  lemma KeptTrans(a: Memory, b: Memory, c: Memory, tabs: map<nat, Table>, tabs': map<nat, Table>, root: nat, i: nat)
    requires RootsKept(a, b, tabs, root, i) && RootsKept(b, c, tabs', root, i)
    requires forall r | IsRoot(tabs, r) :: IsRoot(tabs', r)
    ensures RootsKept(a, c, tabs, root, i)
  {
    forall g | IsRoot(tabs, g)
      ensures g in a && g in c && |a[g]| == |c[g]| == 512 && (g != root ==> c[g] == a[g])
      ensures forall k: nat | k < 512 && (k != i || Present(a[g][k])) :: c[g][k] == a[g][k]
    {
      assert IsRoot(tabs', g);
    }
  }

  /** Linking a table into a slot on the path of page w */
  lemma KeptLink(mem: Memory, tabs: map<nat, Table>, root: nat, w: nat, f: nat, i: nat, child: nat, e: nat)
    requires CanLink(mem, tabs, f, i, child, e) && (tabs[f].level == 4 ==> f == root && i == Index(w, 4))
    ensures RootsKept(mem, Linked(mem, f, i, child, e), tabs, root, Index(w, 4))
  {
    forall g | IsRoot(tabs, g) ensures g in mem && |mem[g]| == 512 { assert TableOk(mem, tabs, g); }
  }

  lemma KeptWrite(mem: Memory, tabs: map<nat, Table>, root: nat, i: nat, f: nat, j: nat, e: nat)
    requires Typed(mem, tabs) && f in mem && j < |mem[f]| && !IsRoot(tabs, f)
    ensures RootsKept(mem, Write(mem, f, j, e), tabs, root, i)
  {
    forall g | IsRoot(tabs, g) ensures g in mem && |mem[g]| == 512 { assert TableOk(mem, tabs, g); }
  }

  lemma KeptPlain(mem: Memory, tabs: map<nat, Table>, root: nat, i: nat, f: nat, words: seq<nat>)
    requires Typed(mem, tabs) && f !in tabs
    ensures RootsKept(mem, mem[f := words], tabs, root, i)
  {
    forall g | IsRoot(tabs, g) ensures g in mem && |mem[g]| == 512 { assert TableOk(mem, tabs, g); }
  }

  /** The roots' own words change in absent slots of `root` only, and in its upper half only when `upper` says so. */
  ghost predicate RootsGrown(mem: Memory, mem': Memory, tabs: map<nat, Table>, root: nat, upper: bool) {
    forall g | IsRoot(tabs, g) ::
      && g in mem && g in mem' && |mem[g]| == |mem'[g]| == 512 && (g != root ==> mem'[g] == mem[g])
      && forall k: nat | k < 512 && (Present(mem[g][k]) || (k >= 256 && !upper)) :: mem'[g][k] == mem[g][k]
  }

  lemma KeptGrown(mem: Memory, mem': Memory, tabs: map<nat, Table>, root: nat, i: nat, upper: bool)
    requires RootsKept(mem, mem', tabs, root, i) && (i < 256 || upper)
    ensures RootsGrown(mem, mem', tabs, root, upper)
  {
  }

  lemma GrownRefl(mem: Memory, tabs: map<nat, Table>, root: nat, upper: bool)
    requires Typed(mem, tabs)
    ensures RootsGrown(mem, mem, tabs, root, upper)
  {
    forall g | IsRoot(tabs, g) ensures g in mem && |mem[g]| == 512 { assert TableOk(mem, tabs, g); }
  }

  lemma GrownTrans(a: Memory, b: Memory, c: Memory, tabs: map<nat, Table>, tabs': map<nat, Table>, root: nat,
                   upper: bool)
    requires RootsGrown(a, b, tabs, root, upper) && RootsGrown(b, c, tabs', root, upper)
    requires forall r | IsRoot(tabs, r) :: IsRoot(tabs', r)
    ensures RootsGrown(a, c, tabs, root, upper)
  {
    forall g | IsRoot(tabs, g)
      ensures g in a && g in c && |a[g]| == |c[g]| == 512 && (g != root ==> c[g] == a[g])
      ensures forall k: nat | k < 512 && (Present(a[g][k]) || (k >= 256 && !upper)) :: c[g][k] == a[g][k]
    {
      assert IsRoot(tabs', g);
    }
  }

  /** The roots' own words change in absent slots of `root` only, and only from slot i on. */
  ghost predicate RootsFrom(mem: Memory, mem': Memory, tabs: map<nat, Table>, root: nat, i: nat) {
    forall g | IsRoot(tabs, g) ::
      && g in mem && g in mem' && |mem[g]| == |mem'[g]| == 512 && (g != root ==> mem'[g] == mem[g])
      && forall k: nat | k < 512 && (k < i || Present(mem[g][k])) :: mem'[g][k] == mem[g][k]
  }

  lemma FromRefl(mem: Memory, tabs: map<nat, Table>, root: nat, i: nat)
    requires Typed(mem, tabs)
    ensures RootsFrom(mem, mem, tabs, root, i)
  {
    forall g | IsRoot(tabs, g) ensures g in mem && |mem[g]| == 512 { assert TableOk(mem, tabs, g); }
  }

  lemma FromTrans(a: Memory, b: Memory, c: Memory, tabs: map<nat, Table>, tabs': map<nat, Table>, root: nat,
                  i: nat, j: nat)
    requires RootsFrom(a, b, tabs, root, i) && RootsFrom(b, c, tabs', root, j) && i <= j
    requires forall r | IsRoot(tabs, r) :: IsRoot(tabs', r)
    ensures RootsFrom(a, c, tabs, root, i)
  {
    forall g | IsRoot(tabs, g)
      ensures g in a && g in c && |a[g]| == |c[g]| == 512 && (g != root ==> c[g] == a[g])
      ensures forall k: nat | k < 512 && (k < i || Present(a[g][k])) :: c[g][k] == a[g][k]
    {
      assert IsRoot(tabs', g);
    }
  }

  lemma KeptFrom(mem: Memory, mem': Memory, tabs: map<nat, Table>, root: nat, i: nat, j: nat)
    requires RootsKept(mem, mem', tabs, root, j) && i <= j
    ensures RootsFrom(mem, mem', tabs, root, i)
  {
  }

  lemma FromGrown(mem: Memory, mem': Memory, tabs: map<nat, Table>, root: nat, i: nat)
    requires RootsFrom(mem, mem', tabs, root, i)
    ensures RootsGrown(mem, mem', tabs, root, true)
  {
  }

  /** Two roots with the same upper half */
  ghost predicate Shares(mem: Memory, kernel: nat, r: nat) {
    && kernel in mem && r in mem && |mem[kernel]| == |mem[r]| == 512
    && forall i: nat | 256 <= i < 512 :: mem[r][i] == mem[kernel][i]
  }

  /**
   The upper half stays shared, whatever root is mapped into, when the slot concerned is in the lower half or was
   there.
   */
  lemma SharesStay(mem: Memory, mem': Memory, tabs: map<nat, Table>, root: nat, i: nat, kernel: nat, r: nat)
    requires IsRoot(tabs, kernel) && IsRoot(tabs, r) && Shares(mem, kernel, r) && RootsKept(mem, mem', tabs, root, i)
    requires i < 256 || (i < 512 && Present(mem[kernel][i]))
    ensures Shares(mem', kernel, r)
  {
  }

  /** Root r sees a part of the kernel half: each upper slot is the kernel's or absent. */
  ghost predicate SeesPart(mem: Memory, kernel: nat, r: nat) {
    && kernel in mem && r in mem && |mem[kernel]| == |mem[r]| == 512
    && forall i: nat | 256 <= i < 512 :: mem[r][i] == mem[kernel][i] || mem[r][i] == 0
  }

  lemma PartWalk(mem: Memory, kernel: nat, r: nat, w: nat)
    requires SeesPart(mem, kernel, r) && HALF <= w < Span(4)
    ensures Translate(mem, r, w) == Translate(mem, kernel, w) || Translate(mem, r, w) == Fault
  {
    LowerHalf(w);
    ZeroAbsent();
  }

  /** No mapping into the kernel, and no mapping of a lower-half page into any root, makes a root see anything else. */
  lemma PartStays(mem: Memory, mem': Memory, tabs: map<nat, Table>, root: nat, upper: bool, kernel: nat, r: nat)
    requires Typed(mem, tabs) && IsRoot(tabs, kernel) && IsRoot(tabs, r) && SeesPart(mem, kernel, r)
    requires RootsGrown(mem, mem', tabs, root, upper) && (upper ==> root == kernel)
    ensures SeesPart(mem', kernel, r)
  {
    assert TableOk(mem, tabs, kernel);
    forall i: nat | 256 <= i < 512 ensures mem'[r][i] == mem'[kernel][i] || mem'[r][i] == 0 {
      assert EntryOk(mem, tabs, kernel, i);
    }
  }

  /**
   A page mapped in the kernel half is seen by a root that sees a part of this half exactly when the root's own slot
   of the page was there before, whatever the kernel's slot held; then it is the kernel's page.
   */
  lemma KernelPageSeen(mem: Memory, mem': Memory, tabs: map<nat, Table>, kernel: nat, r: nat, w: nat)
    requires IsRoot(tabs, kernel) && IsRoot(tabs, r) && r != kernel && HALF <= w < Span(4)
    requires Typed(mem, tabs) && SeesPart(mem, kernel, r)
    requires RootsKept(mem, mem', tabs, kernel, Index(w, 4)) && Translate(mem', kernel, w) != Fault
    ensures Translate(mem', r, w) != Fault <==> Present(mem[r][Index(w, 4)])
    ensures Translate(mem', r, w) != Fault ==> Translate(mem', r, w) == Translate(mem', kernel, w)
    ensures SeesPart(mem', kernel, r) && mem'[r] == mem[r]
    ensures Shares(mem, kernel, r) && Present(mem[kernel][Index(w, 4)]) ==> Shares(mem', kernel, r)
  {
    LowerHalf(w);
    ZeroAbsent();
    KeptGrown(mem, mem', tabs, kernel, Index(w, 4), true);
    PartStays(mem, mem', tabs, kernel, true, kernel, r);
    assert mem'[r] == mem[r];
    if Present(mem[r][Index(w, 4)]) { assert mem'[r][Index(w, 4)] == mem'[kernel][Index(w, 4)]; }
    if Shares(mem, kernel, r) && Present(mem[kernel][Index(w, 4)]) {
      SharesStay(mem, mem', tabs, kernel, Index(w, 4), kernel, r);
    }
  }

  /** A zeroed frame is a root that maps nothing. */
  lemma EmptyRootTyped(mem: Memory, tabs: map<nat, Table>, c: nat)
    requires Typed(mem, tabs) && c !in tabs
    ensures Typed(mem[c := Zeros()], tabs[c := Table(4, 0, c)])
  {
    var mem', tabs' := mem[c := Zeros()], tabs[c := Table(4, 0, c)];
    ZeroAbsent();
    forall g | g in tabs' ensures TableOk(mem', tabs', g) {
      if g != c {
        assert TableOk(mem, tabs, g);
        forall k: nat | k < 512 ensures EntryOk(mem', tabs', g, k) { assert EntryOk(mem, tabs, g, k); }
      }
    }
  }
}
