/** The reference-counted pointer of mysqlpp/lib/refcounted.h.

    A managed object is known by its address, and 0 is the null pointer.  `Memory` is the program that
    uses the pointers: which of them are alive, and which objects were handed to the destroyer. */
module RefCounting {

  type Address = nat

  /** The counter that the pointers to one object share. */
  class Refs {
    var count: nat

    constructor (count: nat)
      ensures this.count == count
    {
      this.count := count;
    }
  }

  class RefCountedPointer {
    var counted: Address
    var refs: Refs?

    constructor ()
      ensures counted == 0 && refs == null
    {
      counted, refs := 0, null;
    }
  }

  /** What the pointers are for: the object each of them refers to, the objects ever given to a pointer,
      and the calls of the destroyer. */
  datatype State = State(view: map<RefCountedPointer, Address>, adopted: multiset<Address>, destroyed: seq<Address>)

  /** The call of the destroyer for an object that nothing refers to any more. */
  function Gone(a: Address, view: map<RefCountedPointer, Address>): seq<Address> {
    if a == 0 || a in view.Values then [] else [a]
  }

  function Adopt(adopted: multiset<Address>, a: Address): multiset<Address> {
    if a == 0 then adopted else adopted + multiset{a}
  }

  // ----- the memory as values -----

  /** The two fields of a pointer. */
  datatype Cell = Cell(counted: Address, refs: Refs?)

  type Cells = map<RefCountedPointer, Cell>
  type Counts = map<Refs, nat>

  function Sharers(cells: Cells, r: Refs): set<RefCountedPointer> {
    set h | h in cells && cells[h].refs == r
  }

  function View(cells: Cells): (view: map<RefCountedPointer, Address>)
    ensures view.Keys == cells.Keys
  {
    map h | h in cells :: cells[h].counted
  }

  /** A pointer has a counter exactly when it refers to an object; pointers share a counter exactly when
      they refer to the same object; each count is the number of pointers that share it. */
  ghost predicate Consistent(cells: Cells, counts: Counts) {
    && (forall h :: h in cells ==> (cells[h].counted == 0 <==> cells[h].refs == null))
    && (forall h :: h in cells && cells[h].refs != null ==> cells[h].refs in counts)
    && (forall h, h' :: h in cells && h' in cells && cells[h].refs != null && cells[h'].refs != null ==>
          (cells[h].refs == cells[h'].refs <==> cells[h].counted == cells[h'].counted))
    && (forall r :: r in counts ==> counts[r] == |Sharers(cells, r)| > 0)
  }

  lemma NullAdded(cells: Cells, counts: Counts, h: RefCountedPointer)
    requires Consistent(cells, counts) && h !in cells
    ensures Consistent(cells[h := Cell(0, null)], counts)
  {
    var cells' := cells[h := Cell(0, null)];
    forall r | r in counts
      ensures Sharers(cells', r) == Sharers(cells, r)
    {
    }
  }

  lemma FirstAdded(cells: Cells, counts: Counts, h: RefCountedPointer, c: Address, r: Refs)
    requires Consistent(cells, counts) && h !in cells && r !in counts
    requires c != 0 && c !in View(cells).Values
    ensures Consistent(cells[h := Cell(c, r)], counts[r := 1])
  {
    var cells' := cells[h := Cell(c, r)];
    assert forall g :: g in cells ==> cells[g].counted == View(cells)[g];
    assert Sharers(cells', r) == {h};
    forall r' | r' in counts
      ensures Sharers(cells', r') == Sharers(cells, r')
    {
    }
  }

  lemma SharerAdded(cells: Cells, counts: Counts, h: RefCountedPointer, other: RefCountedPointer, r: Refs)
    requires Consistent(cells, counts) && h !in cells && other in cells
    requires cells[other].refs == r
    ensures r in counts && Consistent(cells[h := cells[other]], counts[r := counts[r] + 1])
  {
    var cells' := cells[h := cells[other]];
    assert Sharers(cells', r) == Sharers(cells, r) + {h};
    forall r' | r' in counts && r' != r
      ensures Sharers(cells', r') == Sharers(cells, r')
    {
    }
  }

  /** The counters after a pointer is copied. */
  function CountsWith(counts: Counts, r: Refs?): Counts {
    if r == null || r !in counts then counts else counts[r := counts[r] + 1]
  }

  lemma CountsWithSameKeys(counts: Counts, r: Refs?)
    ensures CountsWith(counts, r).Keys == counts.Keys
  {
  }

  lemma SharerOrNullAdded(cells: Cells, counts: Counts, h: RefCountedPointer, other: RefCountedPointer)
    requires Consistent(cells, counts) && h !in cells && other in cells
    ensures Consistent(cells[h := cells[other]], CountsWith(counts, cells[other].refs))
  {
    CounterUsed(cells, counts, other);
    hide Consistent, Sharers;
    if cells[other].refs == null {
      NullAdded(cells, counts, h);
    } else {
      SharerAdded(cells, counts, h, other, cells[other].refs);
    }
  }

  /** The count of a pointer is 1 exactly when no other pointer refers to the same object. */
  lemma LastSharer(cells: Cells, counts: Counts, h: RefCountedPointer, r: Refs)
    requires Consistent(cells, counts) && h in cells && cells[h].refs == r
    ensures r in counts && counts[r] >= 1
    ensures |Sharers(cells - {h}, r)| == counts[r] - 1
    ensures counts[r] == 1 <==> cells[h].counted !in View(cells - {h}).Values
  {
    var cells' := cells - {h};
    var all, others := Sharers(cells, r), Sharers(cells', r);
    assert h in all && others == all - {h} && all == others + {h};
    if counts[r] != 1 {
      assert others != {};
      var g :| g in others;
      assert g in View(cells') && View(cells')[g] == cells[h].counted;
    } else {
      assert others == {};
      forall g | g in cells'
        ensures cells'[g].counted != cells[h].counted
      {
        assert g !in others;
      }
    }
  }

  /** The counters after a pointer is gone; a counter that nothing shares any more goes with it. */
  function CountsAfter(counts: Counts, r: Refs): Counts
    requires r in counts && counts[r] >= 1
  {
    if counts[r] == 1 then counts - {r} else counts[r := counts[r] - 1]
  }

  lemma SharerRemoved(cells: Cells, counts: Counts, h: RefCountedPointer, r: Refs)
    requires Consistent(cells, counts) && h in cells && cells[h].refs == r
    ensures r in counts && counts[r] >= 1 && Consistent(cells - {h}, CountsAfter(counts, r))
  {
    LastSharer(cells, counts, h, r);
    var cells' := cells - {h};
    forall r' | r' in counts && r' != r
      ensures Sharers(cells', r') == Sharers(cells, r')
    {
    }
    if counts[r] == 1 {
      assert Sharers(cells', r) == {};
      assert forall g :: g in cells' ==> g !in Sharers(cells', r);
    }
  }

  lemma NullRemoved(cells: Cells, counts: Counts, h: RefCountedPointer)
    requires Consistent(cells, counts) && h in cells && cells[h].refs == null
    ensures Consistent(cells - {h}, counts)
  {
    forall r | r in counts
      ensures Sharers(cells - {h}, r) == Sharers(cells, r)
    {
    }
  }

  function Exchanged(cells: Cells, a: RefCountedPointer, b: RefCountedPointer): Cells
    requires a in cells && b in cells
  {
    map h | h in cells :: cells[Across(h, a, b)]
  }

  function Across(h: RefCountedPointer, a: RefCountedPointer, b: RefCountedPointer): RefCountedPointer {
    if h == a then b else if h == b then a else h
  }

  lemma ExchangedIs(cells: Cells, a: RefCountedPointer, b: RefCountedPointer)
    requires a in cells && b in cells
    ensures Exchanged(cells, a, b) == cells[a := cells[b]][b := cells[a]]
  {
  }

  lemma Swapped(cells: Cells, counts: Counts, a: RefCountedPointer, b: RefCountedPointer)
    requires Consistent(cells, counts) && a in cells && b in cells
    ensures Consistent(Exchanged(cells, a, b), counts)
  {
    hide Sharers;
    forall r | r in counts
      ensures |Sharers(Exchanged(cells, a, b), r)| == |Sharers(cells, r)|
    {
      SharersSwapped(cells, a, b, r);
    }
  }

  lemma SharersSwapped(cells: Cells, a: RefCountedPointer, b: RefCountedPointer, r: Refs)
    requires a in cells && b in cells
    ensures |Sharers(Exchanged(cells, a, b), r)| == |Sharers(cells, r)|
  {
    var was, now := Sharers(cells, r), Sharers(Exchanged(cells, a, b), r);
    forall h
      ensures h in now <==> Across(h, a, b) in was
    {
    }
    AcrossKeepsSize(was, now, a, b);
  }

  lemma AcrossKeepsSize(was: set<RefCountedPointer>, now: set<RefCountedPointer>,
                        a: RefCountedPointer, b: RefCountedPointer)
    requires forall h :: h in now <==> Across(h, a, b) in was
    ensures |now| == |was|
  {
    if a in was && b !in was {
      AcrossMoves(was, now, a, b);
    } else if b in was && a !in was {
      AcrossMoves(was, now, b, a);
    } else {
      assert forall h :: h in now <==> h in was;
      assert now == was;
    }
  }

  lemma AcrossMoves(was: set<RefCountedPointer>, now: set<RefCountedPointer>,
                    a: RefCountedPointer, b: RefCountedPointer)
    requires forall h :: h in now <==> Across(h, a, b) in was
    requires a in was && b !in was
    ensures |now| == |was|
  {
    var rest := was - {a};
    assert now == rest + {b} && was == rest + {a};
  }

  lemma ViewAdded(cells: Cells, h: RefCountedPointer, cell: Cell)
    ensures View(cells[h := cell]) == View(cells)[h := cell.counted]
  {
  }

  lemma ViewAt(cells: Cells, h: RefCountedPointer)
    requires h in cells
    ensures h in View(cells) && View(cells)[h] == cells[h].counted
  {
  }

  lemma ViewRemoved(cells: Cells, h: RefCountedPointer)
    ensures View(cells - {h}) == View(cells) - {h}
  {
  }

  // ----- the program -----

  class Memory {
    /** The pointers alive, with their fields, and the counters in use, with their values. */
    ghost var cells: Cells
    ghost var counts: Counts
    ghost var adopted: multiset<Address>
    var destroyed: seq<Address>

    ghost function Now(): State
      reads this
    {
      State(View(cells), adopted, destroyed)
    }

    /** The memory is what `cells` and `counts` say. */
    ghost predicate Valid()
      reads this, cells.Keys, counts.Keys
    {
      PointersAre(cells) && CountersAre(counts) && Consistent(cells, counts)
    }

    static ghost predicate PointersAre(cells: Cells)
      reads cells.Keys
    {
      forall h :: h in cells ==> h.counted == cells[h].counted && h.refs == cells[h].refs
    }

    static ghost predicate CountersAre(counts: Counts)
      reads counts.Keys
    {
      forall r :: r in counts ==> r.count == counts[r]
    }

    constructor ()
      ensures Valid() && Now() == State(map[], multiset{}, []) && cells == map[] && counts == map[]
    {
      cells, counts, adopted, destroyed := map[], map[], multiset{}, [];
    }

    /** RefCountedPointer(T*): the object must not be managed already. */
    method Construct(c: Address) returns (h: RefCountedPointer)
      requires Valid() && (c == 0 || c !in View(cells).Values)
      modifies this
      ensures Valid() && fresh(h) && cells.Keys == old(cells.Keys) + {h} && fresh(counts.Keys - old(counts.Keys))
      ensures Now() == State(View(old(cells))[h := c], Adopt(old(adopted), c), old(destroyed))
    {
      hide Consistent, View, Adopt, Sharers;
      h := new RefCountedPointer();
      h.counted := c;
      ghost var cell := Cell(0, null);
      if h.counted != 0 {
        var r := new Refs(1);
        h.refs, cell := r, Cell(c, r);
        FirstAdded(cells, counts, h, c, r);
        counts := counts[r := 1];
      } else {
        NullAdded(cells, counts, h);
      }
      ViewAdded(cells, h, cell);
      cells, adopted := cells[h := cell], Adopt(adopted, c);
    }

    /** RefCountedPointer(const RefCountedPointer&): the fields of the new pointer, and the count. */
    method Share(other: RefCountedPointer) returns (h: RefCountedPointer)
      requires Valid() && other in cells
      modifies counts.Keys
      ensures fresh(h) && h.counted == cells[other].counted && h.refs == cells[other].refs
      ensures CountersAre(CountsWith(counts, cells[other].refs))
    {
      hide Sharers;
      h := new RefCountedPointer();
      h.counted := other.counted;
      h.refs := if other.counted != 0 then other.refs else null;
      if h.counted != 0 {
        h.refs.count := h.refs.count + 1;
      }
    }

    /** RefCountedPointer(const RefCountedPointer&), with the pointer among those alive. */
    method Copy(other: RefCountedPointer) returns (h: RefCountedPointer)
      requires Valid() && other in cells
      modifies this, counts.Keys
      ensures Valid() && fresh(h) && cells.Keys == old(cells.Keys) + {h} && counts.Keys == old(counts.Keys)
      ensures Now() == State(View(old(cells))[h := View(old(cells))[other]], old(adopted), old(destroyed))
    {
      hide Consistent, View, Sharers, CountersAre, CountsWith;
      CountsWithSameKeys(counts, cells[other].refs);
      h := Share(other);
      ghost var cell := cells[other];
      SharerOrNullAdded(cells, counts, h, other);
      ViewAdded(cells, h, cell);
      ViewAt(cells, other);
      assert PointersAre(cells[h := cell]);
      cells, counts := cells[h := cell], CountsWith(counts, cell.refs);
    }

    /** ~RefCountedPointer() */
    method Destroy(h: RefCountedPointer)
      requires Valid() && h in cells
      modifies this, counts.Keys
      ensures Valid() && cells.Keys == old(cells.Keys) - {h} && counts.Keys <= old(counts.Keys)
      ensures var view := View(old(cells)) - {h};
        Now() == State(view, old(adopted), old(destroyed) + Gone(View(old(cells))[h], view))
    {
      hide Consistent, View;
      CounterUsed(cells, counts, h);
      ViewRemoved(cells, h);
      ViewAt(cells, h);
      if h.refs != null {
        SharerRemoved(cells, counts, h, h.refs);
        LastSharer(cells, counts, h, h.refs);
        h.refs.count := h.refs.count - 1;
        counts := CountsAfter(counts, h.refs);
        if h.refs.count == 0 {
          destroyed := destroyed + [h.counted];
        }
      } else {
        NullRemoved(cells, counts, h);
      }
      cells := cells - {h};
    }

    method Swap(a: RefCountedPointer, b: RefCountedPointer)
      requires Valid() && a in cells && b in cells
      modifies this, a, b
      ensures Valid() && cells.Keys == old(cells.Keys) && counts == old(counts)
      ensures Now() == State(View(Exchanged(old(cells), a, b)), old(adopted), old(destroyed))
    {
      hide Consistent, View, Sharers, CountersAre, Exchanged;
      Swapped(cells, counts, a, b);
      ExchangedIs(cells, a, b);
      ghost var swapped := cells[a := cells[b]][b := cells[a]];
      a.counted, b.counted := b.counted, a.counted;
      a.refs, b.refs := b.refs, a.refs;
      assert PointersAre(swapped);
      cells := swapped;
    }

    /** assign(const RefCountedPointer&): a temporary copy, a swap, and the end of the temporary.  The
        object that the pointer referred to is destroyed exactly when no other pointer refers to it, and
        so never by an assignment from a pointer to the same object. */
    method Assign(h: RefCountedPointer, other: RefCountedPointer)
      requires Valid() && h in cells && other in cells
      modifies this, counts.Keys, h
      ensures Valid() && cells.Keys == old(cells.Keys)
      ensures var view := View(old(cells))[h := View(old(cells))[other]];
        Now() == State(view, old(adopted), old(destroyed) + Gone(View(old(cells))[h], view))
    {
      hide Consistent, View, Exchanged;
      ghost var view := View(cells);
      var temp := Copy(other);
      ViewSwappedOut(cells, h, temp, view);
      Swap(temp, h);
      Destroy(temp);
    }

    /** assign(T*), on an object that is not managed already. */
    method AssignRaw(h: RefCountedPointer, c: Address)
      requires Valid() && h in cells && (c == 0 || c !in View(cells).Values)
      modifies this, counts.Keys, h
      ensures Valid() && cells.Keys == old(cells.Keys)
      ensures var view := View(old(cells))[h := c];
        Now() == State(view, Adopt(old(adopted), c), old(destroyed) + Gone(View(old(cells))[h], view))
    {
      hide Consistent, View, Exchanged;
      ghost var view := View(cells);
      var temp := Construct(c);
      ViewSwappedOut(cells, h, temp, view);
      Swap(temp, h);
      Destroy(temp);
    }
  }

  /** assign(T*), on the object that the pointer refers to already.  The documentation promises that nothing
      happens; in fact the object comes under a second counter, and if the pointer was its only one it is
      destroyed while the pointer still refers to it. */
  method AssignManagedAgain(memory: Memory, h: RefCountedPointer)
    requires memory.Valid() && h in memory.cells && h.counted != 0
    modifies memory, memory.counts.Keys, h
    ensures h.counted == old(h.counted) && h.refs != null && fresh(h.refs) && h.refs.count == 1
    ensures memory.cells == old(memory.cells) && memory.adopted == old(memory.adopted)
    ensures var others := View(memory.cells - {h}).Values;
      memory.destroyed == old(memory.destroyed) + if h.counted in others then [] else [h.counted]
    ensures forall g :: g in memory.cells && g != h ==> g.counted == old(g.counted) && g.refs == old(g.refs)
  {
    hide Consistent, View, Sharers;
    CounterUsed(memory.cells, memory.counts, h);
    LastSharer(memory.cells, memory.counts, h, h.refs);
    var temp := new RefCountedPointer();
    temp.counted := h.counted;
    temp.refs := new Refs(1);
    temp.refs, h.refs := h.refs, temp.refs;
    temp.refs.count := temp.refs.count - 1;
    if temp.refs.count == 0 {
      memory.destroyed := memory.destroyed + [temp.counted];
    }
  }

  /** A temporary that took over the fields of h leaves h with those of the temporary. */
  lemma ViewSwappedOut(cells: Cells, h: RefCountedPointer, temp: RefCountedPointer,
                       view: map<RefCountedPointer, Address>)
    requires h in cells && temp in cells && temp != h
    requires h in view && temp !in view && View(cells) == view[temp := View(cells)[temp]]
    ensures View(Exchanged(cells, temp, h)) - {temp} == view[h := View(cells)[temp]]
    ensures View(Exchanged(cells, temp, h))[temp] == view[h]
  {
    ViewAt(cells, temp);
    ViewAt(cells, h);
    assert forall g :: g in view ==> View(cells)[g] == view[g];
  }

  lemma CounterUsed(cells: Cells, counts: Counts, h: RefCountedPointer)
    requires Consistent(cells, counts) && h in cells
    ensures cells[h].counted == 0 <==> cells[h].refs == null
    ensures cells[h].refs != null ==> cells[h].refs in counts
  {
  }

  // ----- whole runs -----

  datatype Op =
    | Construct(h: RefCountedPointer, c: Address)
    | Copy(h: RefCountedPointer, other: RefCountedPointer)
    | Assign(h: RefCountedPointer, other: RefCountedPointer)
    | AssignRaw(h: RefCountedPointer, c: Address)
    | Swap(a: RefCountedPointer, b: RefCountedPointer)
    | Destroy(h: RefCountedPointer)

  /** One operation, as its method specifies it. */
  ghost predicate Next(s: State, op: Op, s': State) {
    match op
    case Construct(h, c) =>
      && h !in s.view && (c == 0 || c !in s.view.Values)
      && s' == State(s.view[h := c], Adopt(s.adopted, c), s.destroyed)
    case Copy(h, other) =>
      && h !in s.view && other in s.view
      && s' == State(s.view[h := s.view[other]], s.adopted, s.destroyed)
    case Assign(h, other) =>
      && h in s.view && other in s.view
      && var view := s.view[h := s.view[other]];
        s' == State(view, s.adopted, s.destroyed + Gone(s.view[h], view))
    case AssignRaw(h, c) =>
      && h in s.view && (c == 0 || c !in s.view.Values)
      && var view := s.view[h := c];
        s' == State(view, Adopt(s.adopted, c), s.destroyed + Gone(s.view[h], view))
    case Swap(a, b) =>
      && a in s.view && b in s.view
      && s' == s.(view := map h | h in s.view :: s.view[Across(h, a, b)])
    case Destroy(h) =>
      && h in s.view
      && var view := s.view - {h};
        s' == State(view, s.adopted, s.destroyed + Gone(s.view[h], view))
  }

  ghost predicate Run(states: seq<State>, ops: seq<Op>) {
    && |states| == |ops| + 1 && states[0] == State(map[], multiset{}, [])
    && forall i :: 0 <= i < |ops| ==> Next(states[i], ops[i], states[i + 1])
  }

  /** The objects that some pointer refers to. */
  function Managed(view: map<RefCountedPointer, Address>): set<Address> {
    view.Values - {0}
  }

  function UseCount(view: map<RefCountedPointer, Address>, a: Address): nat {
    if a in Managed(view) then 1 else 0
  }

  /** Every object given to a pointer is either referred to or was destroyed, once for each time. */
  ghost predicate Conserved(s: State) {
    multiset(s.destroyed) + multiset(Managed(s.view)) == s.adopted
  }

  /** Pointing h, new or not, at an object. */
  lemma ValuesAfterPoint(view: map<RefCountedPointer, Address>, h: RefCountedPointer, c: Address, a: Address)
    ensures var values := view[h := c].Values;
      && c in values
      && (a in values ==> a == c || a in view.Values)
      && (a in view.Values && (h !in view || a != view[h]) ==> a in values)
  {
    var view' := view[h := c];
    assert h in view' && view'[h] == c;
    if a in view.Values && (h !in view || a != view[h]) {
      var g: RefCountedPointer :| g in view && view[g] == a;
      assert g in view' && view'[g] == a;
    }
  }

  /** The objects referred to, after h was pointed elsewhere or destroyed: the old object goes if nothing
      refers to it any more, and is destroyed then. */
  lemma ManagedWithout(was: set<Address>, now: set<Address>, old': Address, c: Address, gone: seq<Address>)
    requires gone == if old' == 0 || old' in now then [] else [old']
    requires old' in was && c in now && 0 !in was - {0}
    requires forall a :: a in now ==> a == c || a in was
    requires forall a :: a in was && a != old' ==> a in now
    ensures multiset(now - {0}) + multiset(gone) ==
      if c == 0 || c in was then multiset(was - {0}) else multiset(was - {0}) + multiset{c}
  {
    var before, after := was - {0}, now - {0};
    if gone == [] {
      assert after == before + ({c} - {0});
    } else {
      assert after == before - {old'} + ({c} - {0});
    }
  }

  lemma ManagedAdded(was: set<Address>, now: set<Address>, c: Address)
    requires now == was + {c}
    ensures multiset(now - {0}) ==
      if c == 0 || c in was then multiset(was - {0}) else multiset(was - {0}) + multiset{c}
  {
    if c == 0 || c in was {
      assert now - {0} == was - {0};
    } else {
      assert now - {0} == (was - {0}) + {c};
    }
  }

  lemma ManagedRemoved(was: set<Address>, now: set<Address>, old': Address, gone: seq<Address>)
    requires gone == if old' == 0 || old' in now then [] else [old']
    requires old' in was && now <= was && was - {old'} <= now
    ensures multiset(now - {0}) + multiset(gone) == multiset(was - {0})
  {
    if gone == [] {
      assert now - {0} == was - {0};
    } else {
      assert was - {0} == (now - {0}) + {old'};
    }
  }

  lemma MovesOver(destroyed: seq<Address>, gone: seq<Address>, was: multiset<Address>, now: multiset<Address>,
                  more: multiset<Address>, adopted: multiset<Address>)
    requires multiset(destroyed) + was == adopted
    requires now + multiset(gone) == was + more
    ensures multiset(destroyed + gone) + now == adopted + more
  {
    assert multiset(destroyed + gone) == multiset(destroyed) + multiset(gone);
    calc {
      multiset(destroyed + gone) + now;
      multiset(destroyed) + (now + multiset(gone));
      multiset(destroyed) + (was + more);
      (multiset(destroyed) + was) + more;
    }
  }

  lemma PointConserves(s: State, h: RefCountedPointer, c: Address, s': State)
    requires Conserved(s) && h in s.view
    requires s'.view == s.view[h := c] && s'.destroyed == s.destroyed + Gone(s.view[h], s'.view)
    requires s'.adopted == if c == 0 || c in s.view.Values then s.adopted else s.adopted + multiset{c}
    ensures Conserved(s')
  {
    forall a {
      ValuesAfterPoint(s.view, h, c, a);
    }
    var gone := Gone(s.view[h], s'.view);
    ManagedWithout(s.view.Values, s'.view.Values, s.view[h], c, gone);
    var more := if c == 0 || c in s.view.Values then multiset{} else multiset{c};
    MovesOver(s.destroyed, gone, multiset(Managed(s.view)), multiset(Managed(s'.view)), more, s.adopted);
  }

  lemma AddConserves(s: State, h: RefCountedPointer, c: Address, s': State)
    requires Conserved(s) && h !in s.view
    requires s'.view == s.view[h := c] && s'.destroyed == s.destroyed
    requires s'.adopted == if c == 0 || c in s.view.Values then s.adopted else s.adopted + multiset{c}
    ensures Conserved(s')
  {
    forall a {
      ValuesAfterPoint(s.view, h, c, a);
    }
    assert s'.view.Values == s.view.Values + {c};
    ManagedAdded(s.view.Values, s'.view.Values, c);
  }

  lemma DestroyConserves(s: State, h: RefCountedPointer, s': State)
    requires Conserved(s) && h in s.view && s'.adopted == s.adopted
    requires s'.view == s.view - {h} && s'.destroyed == s.destroyed + Gone(s.view[h], s'.view)
    ensures Conserved(s')
  {
    forall a {
      ValuesAfterDestroy(s.view, h, a);
    }
    var gone := Gone(s.view[h], s'.view);
    ManagedRemoved(s.view.Values, s'.view.Values, s.view[h], gone);
    MovesOver(s.destroyed, gone, multiset(Managed(s.view)), multiset(Managed(s'.view)), multiset{}, s.adopted);
  }

  lemma SwapConserves(s: State, a: RefCountedPointer, b: RefCountedPointer, s': State)
    requires Conserved(s) && a in s.view && b in s.view
    requires s' == s.(view := map h | h in s.view :: s.view[Across(h, a, b)])
    ensures Conserved(s')
  {
    SwapKeepsValues(s.view, a, b);
  }

  lemma SwapKeepsValues(view: map<RefCountedPointer, Address>, a: RefCountedPointer, b: RefCountedPointer)
    requires a in view && b in view
    ensures (map h | h in view :: view[Across(h, a, b)]).Values == view.Values
  {
    var view' := map h | h in view :: view[Across(h, a, b)];
    forall x | x in view.Values
      ensures x in view'.Values
    {
      var g: RefCountedPointer :| g in view && view[g] == x;
      var g' := Across(g, a, b);
      assert g' in view' && view'[g'] == x;
    }
  }

  lemma ValuesAfterDestroy(view: map<RefCountedPointer, Address>, h: RefCountedPointer, a: Address)
    requires h in view
    ensures a in (view - {h}).Values ==> a in view.Values
    ensures a in view.Values && a != view[h] ==> a in (view - {h}).Values
  {
    if a in view.Values && a != view[h] {
      var g: RefCountedPointer :| g in view && view[g] == a;
      assert g in view - {h} && (view - {h})[g] == a;
    }
  }

  lemma StepConserves(s: State, op: Op, s': State)
    requires Conserved(s) && Next(s, op, s')
    ensures Conserved(s')
  {
    hide Conserved, Gone;
    match op
    case Construct(h, c) => AddConserves(s, h, c, s');
    case Copy(h, other) => AddConserves(s, h, s.view[other], s');
    case Assign(h, other) => PointConserves(s, h, s.view[other], s');
    case AssignRaw(h, c) => PointConserves(s, h, c, s');
    case Swap(a, b) => SwapConserves(s, a, b, s');
    case Destroy(h) => DestroyConserves(s, h, s');
  }

  /** The destroyer runs in a step exactly for the object that a pointer referred to before it and none
      refers to after it. */
  lemma LastOneOut(s: State, op: Op, s': State, a: Address)
    requires Next(s, op, s')
    ensures s'.destroyed == s.destroyed + [a] <==> a in Managed(s.view) && a !in Managed(s'.view)
    ensures s.destroyed <= s'.destroyed && |s'.destroyed| <= |s.destroyed| + 1
  {
    hide Gone;
    match op
    case Construct(h, c) =>
      ValuesAfterPoint(s.view, h, c, a);
    case Copy(h, other) =>
      ValuesAfterPoint(s.view, h, s.view[other], a);
    case Assign(h, other) =>
      ValuesAfterPoint(s.view, h, s.view[other], a);
      GoneMeans(s.destroyed, s.view, h, s'.view, a);
    case AssignRaw(h, c) =>
      ValuesAfterPoint(s.view, h, c, a);
      GoneMeans(s.destroyed, s.view, h, s'.view, a);
    case Swap(b, c) =>
      SwapKeepsValues(s.view, b, c);
    case Destroy(h) =>
      ValuesAfterDestroy(s.view, h, a);
      GoneMeans(s.destroyed, s.view, h, s'.view, a);
  }

  lemma GoneMeans(destroyed: seq<Address>, view: map<RefCountedPointer, Address>, h: RefCountedPointer,
                  view': map<RefCountedPointer, Address>, a: Address)
    requires h in view
    ensures destroyed + Gone(view[h], view') == destroyed + [a] <==> a == view[h] && a != 0 && a !in view'.Values
    ensures |Gone(view[h], view')| <= 1 && view[h] in view.Values
  {
    var all := destroyed + Gone(view[h], view');
    assert Gone(view[h], view') != [] ==> all[|destroyed|] == view[h];
    assert (destroyed + [a])[|destroyed|] == a;
  }

  /** Over every run, each object is destroyed once for each time it was given to a pointer, when the last
      pointer to it goes: until then it is managed and is not counted as destroyed, and when no pointer
      is left nothing remains undestroyed. */
  lemma {:induction false} RunConserves(states: seq<State>, ops: seq<Op>, n: nat)
    requires Run(states, ops) && n < |states|
    ensures Conserved(states[n])
    ensures states[n].view == map[] ==> multiset(states[n].destroyed) == states[n].adopted
    ensures forall a :: states[n].adopted[a] == multiset(states[n].destroyed)[a] + UseCount(states[n].view, a)
  {
    if n > 0 {
      RunConserves(states, ops, n - 1);
      StepConserves(states[n - 1], ops[n - 1], states[n]);
    }
  }
}
