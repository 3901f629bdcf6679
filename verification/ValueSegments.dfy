/** The value segment of a circuit and its relocation.
    A log of entries, in the order they were written, stands for a segment. */
module ValueSegments {
  import opened Results

  const N_LIMBS: nat := 4

  datatype WriteSource = CONSTANT | INPUT | COMMIT | WITNESS | FELT | BUILTIN

  datatype Operation = ADD | MUL

  /** left op right == result, by offset; None is an operand left open by the recorder. */
  datatype Instruction = Instruction(operation: Operation, left: Option<int>, right: Option<int>, result: Option<int>)

  datatype Item<F> = Item(value: F, source: WriteSource, instruction: Option<Instruction>)

  datatype Entry<F> = Entry(offset: int, item: Item<F>)

  /** A circuit element: a value and the offset that identifies it (-1 for a mocked one). */
  datatype Element<F> = Element(value: F, offset: int)

  function Size(source: WriteSource): nat {
    if source == FELT then N_LIMBS + 1 else N_LIMBS
  }

  function EndOf<F>(log: seq<Entry<F>>): int {
    if log == [] then 0 else log[|log| - 1].offset + Size(log[|log| - 1].item.source)
  }

  /** Slots start at 0 and follow each other without gap or overlap. */
  ghost predicate Tiled<F>(log: seq<Entry<F>>) {
    forall i :: 0 <= i < |log| ==> log[i].offset == EndOf(log[..i])
  }

  function MapOf<F>(log: seq<Entry<F>>): map<int, Item<F>> {
    if log == [] then map[] else
      var last := log[|log| - 1];
      MapOf(log[..|log| - 1])[last.offset := last.item]
  }

  /** The entries of one source, in order. */
  function Stack<F>(log: seq<Entry<F>>, source: WriteSource): seq<Entry<F>> {
    if log == [] then [] else
      var last := log[|log| - 1];
      Stack(log[..|log| - 1], source) + if last.item.source == source then [last] else []
  }

  const SOURCE_COUNT: nat := 6

  /** The order in which relocation visits the stacks. */
  function SourceAt(k: nat): WriteSource
    requires k < SOURCE_COUNT
  {
    if k == 0 then CONSTANT else if k == 1 then INPUT else if k == 2 then COMMIT
    else if k == 3 then WITNESS else if k == 4 then FELT else BUILTIN
  }

  function Rank(s: WriteSource): (k: nat)
    ensures k < SOURCE_COUNT && SourceAt(k) == s
    ensures forall j: nat :: j < SOURCE_COUNT && SourceAt(j) == s ==> j == k
  {
    match s
    case CONSTANT => 0
    case INPUT => 1
    case COMMIT => 2
    case WITNESS => 3
    case FELT => 4
    case BUILTIN => 5
  }

  /** The first k stacks, one after the other. */
  function Stacks<F>(log: seq<Entry<F>>, k: nat): seq<Entry<F>>
    requires k <= SOURCE_COUNT
  {
    if k == 0 then [] else Stacks(log, k - 1) + Stack(log, SourceAt(k - 1))
  }

  // ----- logs -----

  lemma Append<F>(log: seq<Entry<F>>, e: Entry<F>)
    ensures MapOf(log + [e]) == MapOf(log)[e.offset := e.item]
    ensures EndOf(log + [e]) == e.offset + Size(e.item.source)
    ensures forall s :: Stack(log + [e], s) == Stack(log, s) + if e.item.source == s then [e] else []
    ensures Tiled(log) && e.offset == EndOf(log) ==> Tiled(log + [e])
  {
    assert (log + [e])[..|log|] == log;
    if Tiled(log) && e.offset == EndOf(log) {
      forall i | 0 <= i < |log + [e]|
        ensures (log + [e])[i].offset == EndOf((log + [e])[..i])
      {
        assert (log + [e])[..i] == log[..i];
      }
    }
  }

  /** Slots of a tiled log are disjoint and lie in order. */
  lemma {:induction false} SlotsInOrder<F>(log: seq<Entry<F>>, i: nat, j: nat)
    requires Tiled(log) && i < j < |log|
    ensures 0 <= log[i].offset && log[i].offset + Size(log[i].item.source) <= log[j].offset
    decreases j
  {
    FirstSlotIsLowest(log, i);
    assert log[j].offset == EndOf(log[..j]);
    if i < j - 1 {
      SlotsInOrder(log, i, j - 1);
    }
  }

  lemma {:induction false} FirstSlotIsLowest<F>(log: seq<Entry<F>>, i: nat)
    requires Tiled(log) && i < |log|
    ensures 0 <= log[i].offset
  {
    assert log[i].offset == EndOf(log[..i]);
    if i > 0 {
      FirstSlotIsLowest(log, i - 1);
    }
  }

  ghost predicate Ascending<F>(entries: seq<Entry<F>>) {
    forall i, j :: 0 <= i < j < |entries| ==> entries[i].offset < entries[j].offset
  }

  lemma TiledIsAscending<F>(log: seq<Entry<F>>)
    requires Tiled(log)
    ensures Ascending(log)
  {
    forall i, j | 0 <= i < j < |log|
      ensures log[i].offset < log[j].offset
    {
      SlotsInOrder(log, i, j);
    }
  }

  /** A log and the map it stands for have the same entries. */
  lemma {:induction false} MapHasEntry<F>(log: seq<Entry<F>>, e: Entry<F>)
    requires Ascending(log)
    ensures e in log <==> e.offset in MapOf(log) && MapOf(log)[e.offset] == e.item
  {
    if log != [] {
      var init, last := log[..|log| - 1], log[|log| - 1];
      assert log == init + [last];
      MapHasEntry(init, e);
      if last.offset in MapOf(init) {
        var twin := Entry(last.offset, MapOf(init)[last.offset]);
        MapHasEntry(init, twin);
        assert false;
      }
    }
  }

  lemma KeysBelowEnd<F>(log: seq<Entry<F>>, o: int)
    requires Tiled(log) && o in MapOf(log)
    ensures 0 <= o < EndOf(log)
  {
    TiledIsAscending(log);
    var x := Entry(o, MapOf(log)[o]);
    MapHasEntry(log, x);
    var i: nat :| i < |log| && log[i] == x;
    FirstSlotIsLowest(log, i);
    if i < |log| - 1 {
      SlotsInOrder(log, i, |log| - 1);
    }
  }

  lemma {:induction false} StackHasEntry<F>(log: seq<Entry<F>>, s: WriteSource, e: Entry<F>)
    ensures e in Stack(log, s) <==> e in log && e.item.source == s
  {
    if log != [] {
      var init, last := log[..|log| - 1], log[|log| - 1];
      assert log == init + [last];
      StackHasEntry(init, s, e);
    }
  }

  lemma {:induction false} StackIsAscending<F>(log: seq<Entry<F>>, s: WriteSource)
    requires Ascending(log)
    ensures Ascending(Stack(log, s))
  {
    if log != [] {
      var init, last := log[..|log| - 1], log[|log| - 1];
      StackIsAscending(init, s);
      forall i | 0 <= i < |Stack(init, s)|
        ensures Stack(init, s)[i].offset < last.offset
      {
        StackHasEntry(init, s, Stack(init, s)[i]);
      }
    }
  }

  lemma {:induction false} StacksHaveEntry<F>(log: seq<Entry<F>>, k: nat, e: Entry<F>)
    requires k <= SOURCE_COUNT
    ensures e in Stacks(log, k) <==> e in log && Rank(e.item.source) < k
  {
    hide *;
    if k == 0 {
      NoStacks(log);
    } else {
      StacksNext(log, k - 1);
      StacksHaveEntry(log, k - 1, e);
      StackHasEntry(log, SourceAt(k - 1), e);
      assert Rank(SourceAt(k - 1)) == k - 1;
      assert SourceAt(Rank(e.item.source)) == e.item.source;
    }
  }

  ghost predicate DistinctOffsets<F>(entries: seq<Entry<F>>) {
    forall i, j :: 0 <= i < j < |entries| ==> entries[i].offset != entries[j].offset
  }

  lemma StackIsApart<F>(log: seq<Entry<F>>, k: nat, x: Entry<F>, y: Entry<F>)
    requires Ascending(log) && k < SOURCE_COUNT
    requires x in Stacks(log, k) && y in Stack(log, SourceAt(k))
    ensures x.offset != y.offset
  {
    hide Stacks, Stack, Ascending, MapOf;
    StacksHaveEntry(log, k, x);
    StackHasEntry(log, SourceAt(k), y);
    MapHasEntry(log, x);
    MapHasEntry(log, y);
  }

  lemma {:induction false} StacksAreDistinct<F>(log: seq<Entry<F>>, k: nat)
    requires Ascending(log) && k <= SOURCE_COUNT
    ensures DistinctOffsets(Stacks(log, k))
  {
    if k > 0 {
      hide Stack;
      StacksAreDistinct(log, k - 1);
      var before, stack := Stacks(log, k - 1), Stack(log, SourceAt(k - 1));
      StackIsAscending(log, SourceAt(k - 1));
      forall i, j | 0 <= i < |before| && 0 <= j < |stack|
        ensures before[i].offset != stack[j].offset
      {
        StackIsApart(log, k - 1, before[i], stack[j]);
      }
      DistinctConcat(before, stack);
    }
  }

  lemma DistinctConcat<F>(a: seq<Entry<F>>, b: seq<Entry<F>>)
    requires DistinctOffsets(a) && Ascending(b)
    requires forall i, j :: 0 <= i < |a| && 0 <= j < |b| ==> a[i].offset != b[j].offset
    ensures DistinctOffsets(a + b)
  {
  }

  // ----- relocation -----

  /** offset_map.get(operand, own) */
  function Resolve(offsets: map<int, int>, operand: Option<int>, own: int): int {
    if operand.Some? && operand.value in offsets then offsets[operand.value] else own
  }

  function MoveInstruction(instruction: Instruction, offsets: map<int, int>, own: int): Instruction {
    Instruction(
      instruction.operation, Some(Resolve(offsets, instruction.left, own)),
      Some(Resolve(offsets, instruction.right, own)), Some(Resolve(offsets, instruction.result, own)))
  }

  function MoveItem<F>(item: Item<F>, offsets: map<int, int>, own: int): Item<F> {
    if item.instruction.None? then item
    else item.(instruction := Some(MoveInstruction(item.instruction.value, offsets, own)))
  }

  datatype Relocation<F> = Relocation(log: seq<Entry<F>>, offsets: map<int, int>)

  /** Write the entries to a new segment one by one, remembering where each went. */
  function Relocate<F>(entries: seq<Entry<F>>): Relocation<F> {
    if entries == [] then Relocation([], map[]) else
      var r, last := Relocate(entries[..|entries| - 1]), entries[|entries| - 1];
      var own := EndOf(r.log);
      Relocation(r.log + [Entry(own, MoveItem(last.item, r.offsets, own))], r.offsets[last.offset := own])
  }

  lemma RelocateNext<F>(entries: seq<Entry<F>>, e: Entry<F>)
    ensures Relocate(entries + [e]) ==
      var r := Relocate(entries);
      Relocation(r.log + [Entry(EndOf(r.log), MoveItem(e.item, r.offsets, EndOf(r.log)))], r.offsets[e.offset := EndOf(r.log)])
  {
    assert (entries + [e])[..|entries|] == entries;
  }

  /** What relocation did with entry i: it sits at the same place of the new log, with the
      same value, and its operands were looked up among the entries before it. */
  ghost predicate Moved<F>(entries: seq<Entry<F>>, r: Relocation<F>, i: nat)
    requires i < |entries| && i < |r.log|
  {
    && entries[i].offset in r.offsets && r.offsets[entries[i].offset] == r.log[i].offset
    && r.log[i].item == MoveItem(entries[i].item, Relocate(entries[..i]).offsets, r.log[i].offset)
  }

  predicate HasOffset<F>(entries: seq<Entry<F>>, o: int) {
    exists i :: 0 <= i < |entries| && entries[i].offset == o
  }

  lemma {:induction false} RelocationIsTiled<F>(entries: seq<Entry<F>>)
    ensures |Relocate(entries).log| == |entries| && Tiled(Relocate(entries).log)
  {
    if entries != [] {
      var init := entries[..|entries| - 1];
      RelocationIsTiled(init);
      Append(Relocate(init).log, Relocate(entries).log[|init|]);
    }
  }

  lemma {:induction false} RelocationKeys<F>(entries: seq<Entry<F>>, o: int)
    ensures o in Relocate(entries).offsets <==> HasOffset(entries, o)
  {
    if entries != [] {
      var init, last := entries[..|entries| - 1], entries[|entries| - 1];
      RelocationKeys(init, o);
      if HasOffset(init, o) {
        var i :| 0 <= i < |init| && init[i].offset == o;
        assert entries[i].offset == o;
      }
    }
  }

  lemma LastOffsetIsNew<F>(entries: seq<Entry<F>>, i: nat)
    requires DistinctOffsets(entries) && i < |entries|
    ensures DistinctOffsets(entries[..|entries| - 1])
    ensures i < |entries| - 1 ==> entries[i].offset != entries[|entries| - 1].offset
  {
  }

  lemma {:induction false} RelocationIsFaithful<F>(entries: seq<Entry<F>>, i: nat)
    requires DistinctOffsets(entries) && i < |entries|
    ensures |Relocate(entries).log| == |entries| && Moved(entries, Relocate(entries), i)
    decreases |entries|
  {
    hide MoveItem, EndOf, Tiled, DistinctOffsets;
    RelocationIsTiled(entries);
    var init := entries[..|entries| - 1];
    RelocationIsTiled(init);
    LastOffsetIsNew(entries, i);
    if i < |init| {
      RelocationIsFaithful(init, i);
      assert init[..i] == entries[..i];
    } else {
      assert entries[..i] == init;
    }
  }

  lemma {:induction false} RelocationGrows<F>(entries: seq<Entry<F>>, i: nat)
    requires DistinctOffsets(entries) && i <= |entries|
    ensures forall o :: o in Relocate(entries[..i]).offsets ==>
      o in Relocate(entries).offsets && Relocate(entries[..i]).offsets[o] == Relocate(entries).offsets[o]
    decreases |entries|
  {
    if i < |entries| {
      var init := entries[..|entries| - 1];
      RelocationGrows(init, i);
      assert init[..i] == entries[..i];
      forall o | o in Relocate(init).offsets
        ensures o != entries[|init|].offset
      {
        RelocationKeys(init, o);
      }
    } else {
      assert entries[..i] == entries;
    }
  }

  // ----- relocation of a circuit -----

  /** An operand is open, the entry's own slot, or an earlier slot of the log. */
  predicate IsOperand<F>(log: seq<Entry<F>>, operand: Option<int>, own: int) {
    operand.None? || operand.value == own || (operand.value < own && operand.value in MapOf(log))
  }

  predicate IsRecorded<F>(log: seq<Entry<F>>, e: Entry<F>) {
    e.item.instruction.Some? ==>
      && e.item.source == BUILTIN
      && IsOperand(log, e.item.instruction.value.left, e.offset)
      && IsOperand(log, e.item.instruction.value.right, e.offset)
      && IsOperand(log, e.item.instruction.value.result, e.offset)
  }

  ghost predicate WellFormed<F>(log: seq<Entry<F>>) {
    Tiled(log) && forall e :: e in log ==> IsRecorded(log, e)
  }

  function Ordered<F>(log: seq<Entry<F>>): seq<Entry<F>> {
    Stacks(log, SOURCE_COUNT)
  }

  lemma OrderedHasEntry<F>(log: seq<Entry<F>>, e: Entry<F>)
    ensures e in Ordered(log) <==> e in log
  {
    hide Stacks;
    StacksHaveEntry(log, SOURCE_COUNT, e);
  }

  lemma OrderedIsDistinct<F>(log: seq<Entry<F>>)
    requires Tiled(log)
    ensures DistinctOffsets(Ordered(log))
  {
    TiledIsAscending(log);
    StacksAreDistinct(log, SOURCE_COUNT);
  }

  /** Reordering keeps every earlier slot of a builtin entry before it. */
  lemma EarlierComesFirst<F>(log: seq<Entry<F>>, i: nat, o: int) returns (j: nat)
    requires Tiled(log) && i < |Ordered(log)| && Ordered(log)[i].item.source == BUILTIN
    requires o in MapOf(log) && o < Ordered(log)[i].offset
    ensures j < i && Ordered(log)[j] == Entry(o, MapOf(log)[o])
  {
    TiledIsAscending(log);
    var x, e := Entry(o, MapOf(log)[o]), Ordered(log)[i];
    MapHasEntry(log, x);
    var inputs, builtins := Stacks(log, 5), Stack(log, BUILTIN);
    assert Rank(BUILTIN) == 5;
    assert Ordered(log) == inputs + builtins;
    if i < |inputs| {
      StacksHaveEntry(log, 5, inputs[i]);
    }
    OrderedHasEntry(log, x);
    j :| 0 <= j < |Ordered(log)| && Ordered(log)[j] == x;
    if j >= |inputs| {
      StackIsAscending(log, BUILTIN);
      assert builtins[i - |inputs|] == e && builtins[j - |inputs|] == x;
    }
  }

  /** Relocation visits the constants, the inputs, the commitments, the witnesses, the felts
      and the builtin slots, in this order. */
  lemma OrderOfStacks<F>(log: seq<Entry<F>>)
    ensures Ordered(log) == Stack(log, CONSTANT) + Stack(log, INPUT) + Stack(log, COMMIT) + Stack(log, WITNESS)
      + Stack(log, FELT) + Stack(log, BUILTIN)
    ensures Stacks(log, 5) == Stack(log, CONSTANT) + Stack(log, INPUT) + Stack(log, COMMIT) + Stack(log, WITNESS)
      + Stack(log, FELT)
  {
    hide Stack, Stacks;
    OrderedIsStacks(log);
    NoStacks(log);
    StacksNext(log, 0);
    StacksNext(log, 1);
    StacksNext(log, 2);
    StacksNext(log, 3);
    StacksNext(log, 4);
    StacksNext(log, 5);
    assert [] + Stack(log, CONSTANT) == Stack(log, CONSTANT);
  }

  /** Where an offset of the log goes. */
  function NewOffset<F>(log: seq<Entry<F>>, o: int): int {
    var offsets := Relocate(Ordered(log)).offsets;
    if o in offsets then offsets[o] else o
  }

  /** Every slot moves to a slot of its own, carrying its value and source. */
  lemma SlotMoves<F>(log: seq<Entry<F>>, i: nat)
    requires Tiled(log) && i < |Ordered(log)|
    ensures |Relocate(Ordered(log)).log| == |Ordered(log)| && Tiled(Relocate(Ordered(log)).log)
    ensures Relocate(Ordered(log)).log[i].offset == NewOffset(log, Ordered(log)[i].offset)
    ensures Relocate(Ordered(log)).log[i].item.value == Ordered(log)[i].item.value
    ensures Relocate(Ordered(log)).log[i].item.source == Ordered(log)[i].item.source
  {
    OrderedIsDistinct(log);
    RelocationIsTiled(Ordered(log));
    RelocationIsFaithful(Ordered(log), i);
  }

  lemma ValuesMove<F>(log: seq<Entry<F>>, o: int)
    requires Tiled(log) && o in MapOf(log)
    ensures NewOffset(log, o) in MapOf(Relocate(Ordered(log)).log)
    ensures MapOf(Relocate(Ordered(log)).log)[NewOffset(log, o)].value == MapOf(log)[o].value
    ensures MapOf(Relocate(Ordered(log)).log)[NewOffset(log, o)].source == MapOf(log)[o].source
  {
    TiledIsAscending(log);
    var x := Entry(o, MapOf(log)[o]);
    MapHasEntry(log, x);
    OrderedHasEntry(log, x);
    var i :| 0 <= i < |Ordered(log)| && Ordered(log)[i] == x;
    SlotMoves(log, i);
    TiledIsAscending(Relocate(Ordered(log)).log);
    MapHasEntry(Relocate(Ordered(log)).log, Relocate(Ordered(log)).log[i]);
  }

  /** The offset map is injective, and the two slots it sends offsets to never overlap. */
  lemma SlotsStayApart<F>(log: seq<Entry<F>>, o: int, q: int)
    requires Tiled(log) && o in MapOf(log) && q in MapOf(log) && o != q
    ensures NewOffset(log, o) + Size(MapOf(log)[o].source) <= NewOffset(log, q)
      || NewOffset(log, q) + Size(MapOf(log)[q].source) <= NewOffset(log, o)
  {
    TiledIsAscending(log);
    var x, y := Entry(o, MapOf(log)[o]), Entry(q, MapOf(log)[q]);
    MapHasEntry(log, x);
    MapHasEntry(log, y);
    OrderedHasEntry(log, x);
    OrderedHasEntry(log, y);
    var i: nat :| i < |Ordered(log)| && Ordered(log)[i] == x;
    var j: nat :| j < |Ordered(log)| && Ordered(log)[j] == y;
    SlotMoves(log, i);
    SlotMoves(log, j);
    if i < j {
      SlotsInOrder(Relocate(Ordered(log)).log, i, j);
    } else {
      SlotsInOrder(Relocate(Ordered(log)).log, j, i);
    }
  }

  lemma {:induction false} StacksArePrefix<F>(log: seq<Entry<F>>, k: nat)
    requires k <= SOURCE_COUNT
    ensures Stacks(log, k) <= Ordered(log)
    decreases SOURCE_COUNT - k
  {
    hide Stacks, Stack;
    OrderedIsStacks(log);
    if k < SOURCE_COUNT {
      StacksNext(log, k);
      StacksArePrefix(log, k + 1);
    }
  }

  /** A slot visited before another is moved below it. */
  lemma LowerRankMovesLower<F>(log: seq<Entry<F>>, o: int, q: int)
    requires Tiled(log) && o in MapOf(log) && q in MapOf(log)
    requires Rank(MapOf(log)[o].source) < Rank(MapOf(log)[q].source)
    ensures NewOffset(log, o) + Size(MapOf(log)[o].source) <= NewOffset(log, q)
  {
    hide Stacks, Stack, Tiled, MapOf, Relocate, Rank, Ordered, NewOffset;
    TiledIsAscending(log);
    var x, y := Entry(o, MapOf(log)[o]), Entry(q, MapOf(log)[q]);
    MapHasEntry(log, x);
    MapHasEntry(log, y);
    var r := Rank(y.item.source);
    StacksHaveEntry(log, r, x);
    StacksHaveEntry(log, r, y);
    StacksArePrefix(log, r);
    OrderedHasEntry(log, y);
    var i: nat :| i < |Stacks(log, r)| && Stacks(log, r)[i] == x;
    var j: nat :| j < |Ordered(log)| && Ordered(log)[j] == y;
    assert Ordered(log)[i] == x;
    assert j >= |Stacks(log, r)|;
    SlotMoves(log, i);
    SlotMoves(log, j);
    SlotsInOrder(Relocate(Ordered(log)).log, i, j);
  }

  /** Within one stack the order stays. */
  lemma SameSourceKeepsOrder<F>(log: seq<Entry<F>>, o: int, q: int)
    requires Tiled(log) && o in MapOf(log) && q in MapOf(log) && o < q
    requires MapOf(log)[o].source == MapOf(log)[q].source
    ensures NewOffset(log, o) + Size(MapOf(log)[o].source) <= NewOffset(log, q)
  {
    hide Stacks, Stack, Tiled, MapOf, Relocate, Rank, Ordered, NewOffset;
    TiledIsAscending(log);
    var s := MapOf(log)[o].source;
    var x, y := Entry(o, MapOf(log)[o]), Entry(q, MapOf(log)[q]);
    MapHasEntry(log, x);
    MapHasEntry(log, y);
    StackHasEntry(log, s, x);
    StackHasEntry(log, s, y);
    StackIsAscending(log, s);
    var i: nat :| i < |Stack(log, s)| && Stack(log, s)[i] == x;
    var j: nat :| j < |Stack(log, s)| && Stack(log, s)[j] == y;
    var r := Rank(s);
    StacksNext(log, r);
    StacksArePrefix(log, r + 1);
    var start := |Stacks(log, r)|;
    assert Ordered(log)[start + i] == x && Ordered(log)[start + j] == y;
    SlotMoves(log, start + i);
    SlotMoves(log, start + j);
    SlotsInOrder(Relocate(Ordered(log)).log, start + i, start + j);
  }

  /** The new segment holds the constants first, then the inputs, the commitments, the
      witnesses, the felts and the builtin slots, each group in its old order; a slot takes
      five places for a felt and four otherwise. */
  lemma GroupsAreInOrder<F>(log: seq<Entry<F>>, o: int, q: int)
    requires Tiled(log) && o in MapOf(log) && q in MapOf(log)
    ensures var a, b := MapOf(log)[o].source, MapOf(log)[q].source;
      || (a == CONSTANT && b != CONSTANT)
      || (a == INPUT && b != CONSTANT && b != INPUT)
      || (a == COMMIT && (b == WITNESS || b == FELT || b == BUILTIN))
      || (a == WITNESS && (b == FELT || b == BUILTIN))
      || (a == FELT && b == BUILTIN)
      || (a == b && o < q)
      ==> NewOffset(log, o) + (if a == FELT then 5 else 4) <= NewOffset(log, q)
  {
    hide Tiled, MapOf, NewOffset;
    var a, b := MapOf(log)[o].source, MapOf(log)[q].source;
    if Rank(a) < Rank(b) {
      LowerRankMovesLower(log, o, q);
    } else if a == b && o < q {
      SameSourceKeepsOrder(log, o, q);
    }
  }

  /** An operand of a recorded instruction is looked up correctly: an open one becomes the
      entry itself, every other one goes where its slot goes. */
  lemma OperandMoves<F>(log: seq<Entry<F>>, i: nat, operand: Option<int>)
    requires Tiled(log) && i < |Ordered(log)| && Ordered(log)[i].item.source == BUILTIN
    requires IsOperand(log, operand, Ordered(log)[i].offset)
    ensures |Relocate(Ordered(log)).log| == |Ordered(log)|
    ensures Resolve(Relocate(Ordered(log)[..i]).offsets, operand, Relocate(Ordered(log)).log[i].offset)
      == if operand.None? then Relocate(Ordered(log)).log[i].offset else NewOffset(log, operand.value)
  {
    var entries := Ordered(log);
    OrderedIsDistinct(log);
    RelocationIsFaithful(entries, i);
    RelocationGrows(entries, i);
    if operand.Some? {
      if operand.value == entries[i].offset {
        RelocationKeys(entries[..i], operand.value);
      } else {
        var j := EarlierComesFirst(log, i, operand.value);
        assert entries[..i][j].offset == operand.value;
        RelocationKeys(entries[..i], operand.value);
      }
    }
  }

  /** The instruction with each operand sent where its slot went. */
  function MovedInstruction<F>(log: seq<Entry<F>>, instruction: Instruction, own: int): Instruction {
    Instruction(
      instruction.operation,
      Some(if instruction.left.None? then own else NewOffset(log, instruction.left.value)),
      Some(if instruction.right.None? then own else NewOffset(log, instruction.right.value)),
      Some(if instruction.result.None? then own else NewOffset(log, instruction.result.value)))
  }

  lemma InstructionMoves<F>(log: seq<Entry<F>>, i: nat)
    requires WellFormed(log) && i < |Ordered(log)|
    ensures |Relocate(Ordered(log)).log| == |Ordered(log)|
    ensures Relocate(Ordered(log)).log[i].item.instruction ==
      match Ordered(log)[i].item.instruction
      case None => None
      case Some(instruction) => Some(MovedInstruction(log, instruction, Relocate(Ordered(log)).log[i].offset))
  {
    var e := Ordered(log)[i];
    OrderedHasEntry(log, e);
    assert IsRecorded(log, e);
    OrderedIsDistinct(log);
    RelocationIsFaithful(Ordered(log), i);
    if e.item.instruction.Some? {
      OperandMoves(log, i, e.item.instruction.value.left);
      OperandMoves(log, i, e.item.instruction.value.right);
      OperandMoves(log, i, e.item.instruction.value.result);
    }
  }

  lemma MovedOffsets<F>(log: seq<Entry<F>>, o: int)
    requires Tiled(log)
    ensures o in Relocate(Ordered(log)).offsets <==> o in MapOf(log)
  {
    TiledIsAscending(log);
    RelocationKeys(Ordered(log), o);
    if o in MapOf(log) {
      var x := Entry(o, MapOf(log)[o]);
      MapHasEntry(log, x);
      OrderedHasEntry(log, x);
      var i :| 0 <= i < |Ordered(log)| && Ordered(log)[i] == x;
    } else if HasOffset(Ordered(log), o) {
      var i :| 0 <= i < |Ordered(log)| && Ordered(log)[i].offset == o;
      OrderedHasEntry(log, Ordered(log)[i]);
      MapHasEntry(log, Ordered(log)[i]);
    }
  }

  // ----- the relocated log is grouped by source -----

  lemma {:induction false} StackOfConcat<F>(a: seq<Entry<F>>, b: seq<Entry<F>>, s: WriteSource)
    ensures Stack(a + b, s) == Stack(a, s) + Stack(b, s)
    decreases |b|
  {
    if b == [] {
      assert a + b == a;
    } else {
      var init, last := b[..|b| - 1], b[|b| - 1];
      assert a + b == (a + init) + [last] && b == init + [last];
      StackOfConcat(a, init, s);
    }
  }

  predicate AllFrom<F>(entries: seq<Entry<F>>, source: WriteSource) {
    forall i :: 0 <= i < |entries| ==> entries[i].item.source == source
  }

  lemma {:induction false} StackOfOneSource<F>(b: seq<Entry<F>>, source: WriteSource, s: WriteSource)
    requires AllFrom(b, source)
    ensures Stack(b, s) == if source == s then b else []
  {
    if b != [] {
      StackOfOneSource(b[..|b| - 1], source, s);
    }
  }

  ghost predicate SameSources<F>(a: seq<Entry<F>>, b: seq<Entry<F>>) {
    |a| == |b| && forall i :: 0 <= i < |a| ==> a[i].item.source == b[i].item.source
  }

  lemma ForeignStack<F>(t: seq<Entry<F>>, log: seq<Entry<F>>, k: nat, s: WriteSource)
    requires k <= SOURCE_COUNT && SameSources(t, Stacks(log, k)) && Rank(s) >= k
    ensures Stack(t, s) == []
  {
    hide Stacks, Stack;
    if Stack(t, s) != [] {
      var e := Stack(t, s)[0];
      StackHasEntry(t, s, e);
      var i :| 0 <= i < |t| && t[i] == e;
      StacksHaveEntry(log, k, Stacks(log, k)[i]);
    }
  }

  /** A log whose sources follow the grouped order is its own grouping. */
  lemma {:induction false} GroupedPrefix<F>(t: seq<Entry<F>>, log: seq<Entry<F>>, k: nat)
    requires k <= SOURCE_COUNT && SameSources(t, Stacks(log, k))
    ensures Stacks(t, k) == t
    decreases k
  {
    hide *;
    if k > 0 {
      var last := SourceAt(k - 1);
      StacksNext(log, k - 1);
      var head, tail := SplitSources(t, Stacks(log, k - 1), Stack(log, last));
      GroupedPrefix(head, log, k - 1);
      assert Rank(last) == k - 1;
      ForeignStack(head, log, k - 1, last);
      OneBlock(tail, log, last);
      StackBeforeBlock(head, tail, last, last);
      StacksOfConcat(head, tail, last, k - 1);
      StacksNext(t, k - 1);
      assert [] + tail == tail;
    } else {
      NoStacks(t);
      NoStacks(log);
      assert |t| == 0 by { NoSources(t, log); }
    }
  }

  lemma NoStacks<F>(log: seq<Entry<F>>)
    ensures Stacks(log, 0) == []
  {
  }

  lemma NoSources<F>(t: seq<Entry<F>>, log: seq<Entry<F>>)
    requires SameSources(t, Stacks(log, 0))
    ensures t == []
  {
  }

  lemma SplitSources<F>(t: seq<Entry<F>>, before: seq<Entry<F>>, block: seq<Entry<F>>)
    returns (head: seq<Entry<F>>, tail: seq<Entry<F>>)
    requires SameSources(t, before + block)
    ensures t == head + tail && SameSources(head, before) && SameSources(tail, block)
  {
    head, tail := t[..|before|], t[|before|..];
    forall i | 0 <= i < |block|
      ensures tail[i].item.source == block[i].item.source
    {
      assert t[|before| + i].item.source == (before + block)[|before| + i].item.source;
    }
  }

  lemma OneBlock<F>(tail: seq<Entry<F>>, log: seq<Entry<F>>, s: WriteSource)
    requires SameSources(tail, Stack(log, s))
    ensures AllFrom(tail, s)
  {
    forall i | 0 <= i < |tail|
      ensures tail[i].item.source == s
    {
      StackHasEntry(log, s, Stack(log, s)[i]);
    }
  }

  lemma {:induction false} StacksOfConcat<F>(head: seq<Entry<F>>, tail: seq<Entry<F>>, source: WriteSource, k: nat)
    requires k <= SOURCE_COUNT && Rank(source) >= k
    requires AllFrom(tail, source)
    ensures Stacks(head + tail, k) == Stacks(head, k)
  {
    hide *;
    if k == 0 {
      NoStacks(head + tail);
      NoStacks(head);
    } else {
      assert Rank(SourceAt(k - 1)) == k - 1;
      StacksNext(head + tail, k - 1);
      StacksNext(head, k - 1);
      StacksOfConcat(head, tail, source, k - 1);
      StackBeforeBlock(head, tail, source, SourceAt(k - 1));
    }
  }

  lemma StackBeforeBlock<F>(head: seq<Entry<F>>, tail: seq<Entry<F>>, source: WriteSource, s: WriteSource)
    requires AllFrom(tail, source)
    ensures s != source ==> Stack(head + tail, s) == Stack(head, s)
    ensures s == source ==> Stack(head + tail, s) == Stack(head, s) + tail
  {
    hide *;
    StackOfConcat(head, tail, s);
    StackOfOneSource(tail, source, s);
  }

  /** Relocation lays the stacks out one after the other. */
  lemma RelocatedIsGrouped<F>(log: seq<Entry<F>>)
    requires Tiled(log)
    ensures Ordered(Relocate(Ordered(log)).log) == Relocate(Ordered(log)).log
  {
    hide Stacks;
    var t := Relocate(Ordered(log)).log;
    RelocationIsTiled(Ordered(log));
    forall i | 0 <= i < |t|
      ensures t[i].item.source == Ordered(log)[i].item.source
    {
      SlotMoves(log, i);
    }
    GroupedPrefix(t, log, SOURCE_COUNT);
  }

  /** The same sources and values in the same order. */
  ghost predicate CarriesOver<F>(t: seq<Entry<F>>, entries: seq<Entry<F>>) {
    && |t| == |entries|
    && forall i :: 0 <= i < |t| ==> t[i].item.source == entries[i].item.source && t[i].item.value == entries[i].item.value
  }

  lemma RelocationCarriesOver<F>(log: seq<Entry<F>>)
    requires Tiled(log)
    ensures CarriesOver(Relocate(Ordered(log)).log, Stack(log, CONSTANT) + Stack(log, INPUT) + Stack(log, COMMIT)
      + Stack(log, WITNESS) + Stack(log, FELT) + Stack(log, BUILTIN))
  {
    hide Tiled, Ordered, Relocate, Stack;
    RelocationIsTiled(Ordered(log));
    forall i | 0 <= i < |Ordered(log)|
      ensures Relocate(Ordered(log)).log[i].item.source == Ordered(log)[i].item.source
      ensures Relocate(Ordered(log)).log[i].item.value == Ordered(log)[i].item.value
    {
      SlotMoves(log, i);
    }
    OrderOfStacks(log);
  }

  // ----- assertions and outputs -----

  /** All three operands name slots of the log. */
  predicate IsClosed<F>(log: seq<Entry<F>>, instruction: Instruction) {
    && instruction.left.Some? && instruction.left.value in MapOf(log)
    && instruction.right.Some? && instruction.right.value in MapOf(log)
    && instruction.result.Some? && instruction.result.value in MapOf(log)
  }

  ghost predicate AreLinked<F>(log: seq<Entry<F>>, assertions: seq<Instruction>, output: seq<Element<F>>) {
    && (forall a :: a in assertions ==> IsClosed(log, a))
    && (forall e :: e in output ==> e.offset in MapOf(log))
  }

  lemma LinksStay<F>(before: seq<Entry<F>>, e: Entry<F>, assertions: seq<Instruction>, output: seq<Element<F>>)
    requires AreLinked(before, assertions, output)
    ensures AreLinked(before + [e], assertions, output)
  {
    Append(before, e);
  }

  /** What the builtin checks of a closed instruction. */
  predicate Holds<F(==)>(log: seq<Entry<F>>, apply: (Operation, F, F) -> F, instruction: Instruction)
    requires IsClosed(log, instruction)
  {
    apply(instruction.operation, MapOf(log)[instruction.left.value].value, MapOf(log)[instruction.right.value].value)
      == MapOf(log)[instruction.result.value].value
  }

  /** A closed instruction holds after relocation exactly when it held before. */
  lemma HoldingIsPreserved<F>(log: seq<Entry<F>>, apply: (Operation, F, F) -> F, instruction: Instruction, own: int)
    requires Tiled(log) && IsClosed(log, instruction)
    ensures IsClosed(Relocate(Ordered(log)).log, MovedInstruction(log, instruction, own))
    ensures Holds(Relocate(Ordered(log)).log, apply, MovedInstruction(log, instruction, own)) <==> Holds(log, apply, instruction)
  {
    ValuesMove(log, instruction.left.value);
    ValuesMove(log, instruction.right.value);
    ValuesMove(log, instruction.result.value);
  }

  lemma ClosedOperandsMove<F>(log: seq<Entry<F>>, a: Instruction)
    requires Tiled(log)
    ensures var offsets := Relocate(Ordered(log)).offsets;
      IsClosed(log, a) <==>
        && a.left.Some? && a.left.value in offsets
        && a.right.Some? && a.right.value in offsets
        && a.result.Some? && a.result.value in offsets
  {
    if a.left.Some? {
      MovedOffsets(log, a.left.value);
    }
    if a.right.Some? {
      MovedOffsets(log, a.right.value);
    }
    if a.result.Some? {
      MovedOffsets(log, a.result.value);
    }
  }

  class ValueSegment<F> {
    var segment: map<int, Item<F>>
    var stacks: map<WriteSource, seq<Entry<F>>>
    var assertEqInstructions: seq<Instruction>
    var output: seq<Element<F>>
    var offset: int

    ghost var log: seq<Entry<F>>  // every entry, in the order written

    ghost predicate Valid()
      reads this
    {
      && Tiled(log) && segment == MapOf(log) && offset == EndOf(log)
      && forall s :: s in stacks && stacks[s] == Stack(log, s)
    }

    /** Every assertion and every output refers to slots of the segment. */
    ghost predicate IsLinked()
      reads this
    {
      AreLinked(log, assertEqInstructions, output)
    }

    constructor ()
      ensures Valid() && log == [] && assertEqInstructions == [] && output == []
    {
      segment, assertEqInstructions, output, offset := map[], [], [], 0;
      stacks := map[CONSTANT := [], INPUT := [], COMMIT := [], WITNESS := [], FELT := [], BUILTIN := []];
      log := [];
      new;
      forall s
        ensures s in stacks && stacks[s] == []
      {
        match s
        case CONSTANT => case INPUT => case COMMIT => case WITNESS => case FELT => case BUILTIN =>
      }
    }

    /** write_to_segment: the item takes the next slot, which is five limbs wide for a FELT. */
    method WriteToSegment(item: Item<F>) returns (at: int)
      requires Valid()
      modifies this`segment, this`stacks, this`offset, this`log
      ensures Valid()
      ensures at == old(offset) && offset == old(offset) + (if item.source == FELT then 5 else 4)
      ensures segment == old(segment)[at := item]
      ensures at == old(EndOf(log)) && log == old(log) + [Entry(at, item)]
    {
      hide Tiled, MapOf, Stack, EndOf;
      at := offset;
      segment := segment[at := item];
      stacks := stacks[item.source := stacks[item.source] + [Entry(at, item)]];
      offset := offset + N_LIMBS;
      if item.source == FELT {
        offset := offset + 1;
      }
      Append(log, Entry(at, item));
      log := log + [Entry(at, item)];
    }

    /** Rewrite one entry at the end of this new segment, which holds the relocation of `done`. */
    method RewriteEntry(ghost done: seq<Entry<F>>, e: Entry<F>, offsetMap: map<int, int>) returns (newMap: map<int, int>)
      requires Valid() && Relocation(log, offsetMap) == Relocate(done)
      modifies this`segment, this`stacks, this`offset, this`log
      ensures Valid() && Relocation(log, newMap) == Relocate(done + [e])
    {
      hide Relocate, MoveItem, Stack, Tiled, MapOf;
      RelocateNext(done, e);
      var newOffset := WriteToSegment(MoveItem(e.item, offsetMap, offset));
      newMap := offsetMap[e.offset := newOffset];
    }

    /** Rewrite one stack of the old segment at the end of the new one. */
    method RewriteStack(k: nat, t: ValueSegment<F>, offsetMap: map<int, int>) returns (newMap: map<int, int>)
      requires Valid() && k < SOURCE_COUNT && t != this && t.Valid()
      requires Relocation(t.log, offsetMap) == Relocate(Stacks(log, k))
      modifies t`segment, t`stacks, t`offset, t`log
      ensures t.Valid() && Relocation(t.log, newMap) == Relocate(Stacks(log, k + 1))
    {
      hide *;
      var stack := StackAt(SourceAt(k));
      StacksNext(log, k);
      ghost var before := Stacks(log, k);
      newMap := offsetMap;
      assert before + stack[..0] == before;
      for i := 0 to |stack|
        invariant t.Valid() && Relocation(t.log, newMap) == Relocate(before + stack[..i])
      {
        newMap := t.RewriteEntry(before + stack[..i], stack[i], newMap);
        assert before + stack[..i] + [stack[i]] == before + stack[..i + 1];
      }
      assert stack[..|stack|] == stack;
    }

    method StackAt(source: WriteSource) returns (stack: seq<Entry<F>>)
      requires Valid()
      ensures stack == Stack(log, source)
    {
      stack := stacks[source];
    }

    /** Carry the assertions over; a dangling operand is a missing key. */
    method MoveAssertions(offsetMap: map<int, int>) returns (moved: Option<seq<Instruction>>)
      requires Valid() && offsetMap == Relocate(Ordered(log)).offsets
      ensures moved.Some? <==> forall a :: a in assertEqInstructions ==> IsClosed(log, a)
      ensures moved.Some? ==> |moved.value| == |assertEqInstructions|
      ensures moved.Some? ==> forall i :: 0 <= i < |assertEqInstructions| ==> moved.value[i] == MovedInstruction(log, assertEqInstructions[i], 0)
    {
      hide Relocate, Ordered, MapOf, Stack, Tiled, IsClosed;
      var res: seq<Instruction> := [];
      for i := 0 to |assertEqInstructions|
        invariant |res| == i && forall k :: 0 <= k < i ==> IsClosed(log, assertEqInstructions[k])
        invariant forall k :: 0 <= k < i ==> res[k] == MovedInstruction(log, assertEqInstructions[k], 0)
      {
        var a := assertEqInstructions[i];
        ClosedOperandsMove(log, a);
        if !(a.left.Some? && a.left.value in offsetMap && a.right.Some? && a.right.value in offsetMap
          && a.result.Some? && a.result.value in offsetMap)
        {
          assert a in assertEqInstructions;
          return None;
        }
        res := res + [Instruction(a.operation, Some(offsetMap[a.left.value]), Some(offsetMap[a.right.value]), Some(offsetMap[a.result.value]))];
      }
      return Some(res);
    }

    method MoveOutputs(offsetMap: map<int, int>) returns (moved: Option<seq<Element<F>>>)
      requires Valid() && offsetMap == Relocate(Ordered(log)).offsets
      ensures moved.Some? <==> forall e :: e in output ==> e.offset in MapOf(log)
      ensures moved.Some? ==> |moved.value| == |output|
      ensures moved.Some? ==> forall i :: 0 <= i < |output| ==> moved.value[i] == Element(output[i].value, NewOffset(log, output[i].offset))
    {
      hide Relocate, Ordered, MapOf, Stack, Tiled;
      var res: seq<Element<F>> := [];
      for i := 0 to |output|
        invariant |res| == i && forall k :: 0 <= k < i ==> output[k].offset in MapOf(log)
        invariant forall k :: 0 <= k < i ==> res[k] == Element(output[k].value, NewOffset(log, output[k].offset))
      {
        MovedOffsets(log, output[i].offset);
        if output[i].offset !in offsetMap {
          assert output[i] in output;
          return None;
        }
        res := res + [Element(output[i].value, offsetMap[output[i].offset])];
      }
      return Some(res);
    }

    /** non_interactive_transform: a new segment holding the same entries grouped by source,
        constants first and builtin slots last, with every assertion and output carried over; a
        dangling one is a missing key. */
    method NonInteractiveTransform() returns (res: Result<ValueSegment<F>>)
      requires Valid()
      ensures res.Ok? <==> IsLinked()
      ensures res.Err? ==> res.failure == KeyError
      ensures res.Ok? ==>
        var t := res.value;
        && fresh(t) && t.Valid() && t.log == Relocate(Ordered(log)).log
        && CarriesOver(t.log, Stack(log, CONSTANT) + Stack(log, INPUT) + Stack(log, COMMIT) + Stack(log, WITNESS)
             + Stack(log, FELT) + Stack(log, BUILTIN))
        && |t.assertEqInstructions| == |assertEqInstructions| && |t.output| == |output|
        && (forall i :: 0 <= i < |output| ==> t.output[i] == Element(output[i].value, NewOffset(log, output[i].offset)))
        && (forall i :: 0 <= i < |assertEqInstructions| ==>
             t.assertEqInstructions[i] == MovedInstruction(log, assertEqInstructions[i], 0))
    {
      hide Relocate, Ordered, MapOf, Stack, Tiled, IsClosed, MovedInstruction, NewOffset, Stacks;
      var t := new ValueSegment<F>();
      var offsetMap := map[];
      NothingRelocated(log);
      for k := 0 to SOURCE_COUNT
        invariant fresh(t) && t.Valid() && Relocation(t.log, offsetMap) == Relocate(Stacks(log, k))
      {
        offsetMap := RewriteStack(k, t, offsetMap);
      }
      OrderedIsStacks(log);
      RelocationCarriesOver(log);
      var moved := MoveAssertions(offsetMap);
      if moved.None? {
        return Err(KeyError);
      }
      var newOutput := MoveOutputs(offsetMap);
      if newOutput.None? {
        return Err(KeyError);
      }
      t.assertEqInstructions := moved.value;
      t.output := newOutput.value;
      return Ok(t);
    }
  }

  lemma StacksNext<F>(log: seq<Entry<F>>, k: nat)
    requires k < SOURCE_COUNT
    ensures Stacks(log, k + 1) == Stacks(log, k) + Stack(log, SourceAt(k))
  {
  }

  lemma NothingRelocated<F>(log: seq<Entry<F>>)
    ensures Relocate(Stacks(log, 0)) == Relocation([], map[])
  {
  }

  lemma OrderedIsStacks<F>(log: seq<Entry<F>>)
    ensures Ordered(log) == Stacks(log, SOURCE_COUNT)
  {
  }
}
