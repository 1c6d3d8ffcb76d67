/** The data availability checker (crates/common/data_availability/src/checker.rs). */
module Availability {
  import opened Wrappers
  import opened Sets

  const NUMBER_OF_COLUMNS: nat := 128

  type Root = nat

  datatype Block = Block(id: nat, slot: nat, blobs: nat)

  datatype Entry = Entry(block: Option<Block>, received: set<nat>, slot: nat)

  datatype Status = Absent | ColumnsOnly | PendingBlock | Complete

  type Entries = map<Root, Entry>

  const DEFAULT := Entry(None, {}, 0)

  function EntryOrDefault(entries: Entries, root: Root): Entry {
    if root in entries then entries[root] else DEFAULT
  }

  predicate IsComplete(e: Entry, required: set<nat>) {
    e.block.Some? && (e.block.value.blobs == 0 || required <= e.received)
  }

  function StatusOf(entries: Entries, root: Root, required: set<nat>): Status {
    if root !in entries then Absent
    else if IsComplete(entries[root], required) then Complete
    else if entries[root].block.Some? then PendingBlock
    else ColumnsOnly
  }

  datatype Event =
    | InsertPending(root: Root, block: Block)
    | AddColumn(root: Root, column: nat, slot: nat)
    | TakeIfComplete(root: Root)
    | Remove(root: Root)
    | Prune(cutoff: nat)

  function Next(entries: Entries, e: Event, required: set<nat>): Entries {
    match e
    case InsertPending(root, block) =>
      entries[root := EntryOrDefault(entries, root).(slot := block.slot, block := Some(block))]
    case AddColumn(root, column, slot) =>
      if column !in required then entries
      else
        var e := EntryOrDefault(entries, root);
        var dated := if e.block.None? && e.received == {} then e.(slot := slot) else e;
        entries[root := dated.(received := dated.received + {column})]
    case TakeIfComplete(root) =>
      if root in entries && IsComplete(entries[root], required) then entries - {root} else entries
    case Remove(root) => entries - {root}
    case Prune(cutoff) => map r | r in entries && entries[r].slot >= cutoff :: entries[r]
  }

  /** What `take_if_complete` hands out. */
  function Taken(entries: Entries, root: Root, required: set<nat>): Option<Block> {
    if root in entries && IsComplete(entries[root], required) then entries[root].block else None
  }

  class DataAvailabilityChecker {
    var entries: Entries
    const required: set<nat>

    constructor (required: set<nat>)
      requires required != {} && forall c :: c in required ==> c < NUMBER_OF_COLUMNS
      ensures entries == map[] && this.required == required
    {
      this.required, entries := required, map[];
    }

    method Insert(root: Root, block: Block)
      modifies this`entries
      ensures entries == Next(old(entries), InsertPending(root, block), required)
      ensures entries == old(entries)[root :=
                Entry(Some(block), if root in old(entries) then old(entries)[root].received else {}, block.slot)]
    {
      var e := EntryOrDefault(entries, root);
      e := e.(slot := block.slot);
      e := e.(block := Some(block));
      entries := entries[root := e];
    }

    method Add(root: Root, column: nat, slot: nat)
      modifies this`entries
      ensures entries == Next(old(entries), AddColumn(root, column, slot), required)
      ensures column !in required ==> entries == old(entries)
      ensures column in required ==>
        && entries.Keys == old(entries).Keys + {root}
        && (forall r :: r in old(entries) && r != root ==> entries[r] == old(entries)[r])
        && (root !in old(entries) ==> entries[root] == Entry(None, {column}, slot))
        && (root in old(entries) ==>
              && entries[root].block == old(entries)[root].block
              && entries[root].received == old(entries)[root].received + {column})
    {
      if column !in required {
        return;
      }
      var e := EntryOrDefault(entries, root);
      if e.block.None? && e.received == {} {
        e := e.(slot := slot);
      }
      entries := entries[root := e.(received := e.received + {column})];
    }

    method Take(root: Root) returns (r: Option<Block>)
      modifies this`entries
      ensures entries == Next(old(entries), TakeIfComplete(root), required)
      ensures r == Taken(old(entries), root, required)
      ensures r.Some? <==>
        && root in old(entries) && old(entries)[root].block.Some?
        && (old(entries)[root].block.value.blobs == 0 || forall c :: c in required ==> c in old(entries)[root].received)
      ensures r.Some? ==> r == old(entries)[root].block && entries == old(entries) - {root}
      ensures r.None? ==> entries == old(entries)
    {
      if root !in entries || !IsComplete(entries[root], required) {
        return None;
      }
      r := entries[root].block;
      entries := entries - {root};
    }

    /** The missing columns in ascending order. */
    method MissingColumns(root: Root) returns (missing: seq<nat>)
      ensures forall c :: c in missing <==> root in entries && c in required && c !in entries[root].received
      ensures forall i, j :: 0 <= i < j < |missing| ==> missing[i] < missing[j]
    {
      missing := [];
      if root !in entries {
        return;
      }
      var rest := required - entries[root].received;
      while rest != {}
        invariant forall c :: c in required && c !in entries[root].received <==> c in missing || c in rest
        invariant forall i, c :: 0 <= i < |missing| && c in rest ==> missing[i] < c
        invariant forall i, j :: 0 <= i < j < |missing| ==> missing[i] < missing[j]
        decreases rest
      {
        ghost var w := GreatestExists(rest, (x: nat) => 0 - x);
        var c :| c in rest && forall d :: d in rest ==> c <= d;
        missing := missing + [c];
        rest := rest - {c};
      }
    }
  }

  // ---------- Order of arrival ----------

  function Exec(entries: Entries, events: seq<Event>, required: set<nat>): Entries
    decreases |events|
  {
    if events == [] then entries
    else Next(Exec(entries, events[..|events| - 1], required), events[|events| - 1], required)
  }

  /** The event concerns another block only. */
  predicate Elsewhere(root: Root, e: Event) {
    !e.Prune? && e.root != root
  }

  /** For `root`, only arrivals of blocks and of columns; anything but pruning for others. */
  ghost predicate ArrivalsOf(root: Root, events: seq<Event>) {
    forall i :: 0 <= i < |events| ==>
      Elsewhere(root, events[i]) || ((events[i].InsertPending? || events[i].AddColumn?) && events[i].root == root)
  }

  /** The block inserted last for `root`. */
  ghost function LastBlock(events: seq<Event>, root: Root): Option<Block> {
    if events == [] then None
    else
      var n := |events| - 1;
      if events[n].InsertPending? && events[n].root == root then Some(events[n].block)
      else LastBlock(events[..n], root)
  }

  predicate BringsColumn(e: Event, root: Root, required: set<nat>) {
    e.AddColumn? && e.root == root && e.column in required
  }

  /** The required columns of `root` among the arrivals. */
  ghost function ColumnsIn(events: seq<Event>, root: Root, required: set<nat>): set<nat> {
    set i | 0 <= i < |events| && BringsColumn(events[i], root, required) :: events[i].column
  }

  /** The entry after any arrivals: it holds the columns received, and the block inserted last with its slot;
      without a block, its slot is that of the first required column. */
  ghost function Arrived(root: Root, events: seq<Event>, required: set<nat>): Entry {
    var columns, block := ColumnsIn(events, root, required), LastBlock(events, root);
    Entry(block, columns, if block.Some? then block.value.slot else FirstSlot(events, root, required))
  }

  ghost function FirstSlot(events: seq<Event>, root: Root, required: set<nat>): nat
    decreases |events|
  {
    if events == [] then 0
    else
      var n := |events| - 1;
      var e := events[n];
      if ColumnsIn(events[..n], root, required) == {} && BringsColumn(e, root, required) then e.slot
      else FirstSlot(events[..n], root, required)
  }

  /** Something of `root` arrived that leaves an entry. */
  ghost predicate Touched(root: Root, events: seq<Event>, required: set<nat>) {
    LastBlock(events, root).Some? || ColumnsIn(events, root, required) != {}
  }

  /** The entry of `root` is what its arrivals make it. */
  ghost predicate HasArrived(entries: Entries, root: Root, events: seq<Event>, required: set<nat>) {
    && (root in entries <==> Touched(root, events, required))
    && (root in entries ==> entries[root] == Arrived(root, events, required))
  }

  /** From any checker without an entry for `root`, whatever happens to other blocks in between, the
      entry is made by the block's and the columns' arrivals alone. */
  lemma {:induction false} EntryAfterArrivals(start: Entries, root: Root, events: seq<Event>, required: set<nat>)
    requires root !in start && ArrivalsOf(root, events)
    ensures HasArrived(Exec(start, events, required), root, events, required)
    decreases |events|
  {
    if events != [] {
      var n := |events| - 1;
      var front, e := events[..n], events[n];
      assert events == front + [e];
      EntryAfterArrivals(start, root, front, required);
      ArrivalStep(Exec(start, front, required), root, front, e, required);
    }
  }

  lemma ArrivalStep(entries: Entries, root: Root, front: seq<Event>, e: Event, required: set<nat>)
    requires HasArrived(entries, root, front, required) && ArrivalsOf(root, [e])
    ensures HasArrived(Next(entries, e, required), root, front + [e], required)
  {
    var events := front + [e];
    assert [e][0] == e;
    ColumnsAppend(front, e, root, required);
    assert events[..|front|] == front;
    assert FirstSlot(events, root, required) ==
      if ColumnsIn(front, root, required) == {} && BringsColumn(e, root, required) then e.slot
      else FirstSlot(front, root, required);
    if !Touched(root, front, required) {
      assert EntryOrDefault(entries, root) == DEFAULT;
    }
  }

  /** What `take_if_complete` answers after any arrivals: the block inserted last, exactly if it has no blobs or
      every required column has arrived. */
  lemma TakenAfterArrivals(start: Entries, root: Root, events: seq<Event>, required: set<nat>)
    requires root !in start && ArrivalsOf(root, events)
    ensures var block := LastBlock(events, root);
      Taken(Exec(start, events, required), root, required) ==
      if block.Some? && (block.value.blobs == 0 || forall c :: c in required ==> c in ColumnsIn(events, root, required))
      then block else None
  {
    EntryAfterArrivals(start, root, events, required);
  }

  /** The status after any arrivals, all four. */
  lemma StatusAfterArrivals(start: Entries, root: Root, events: seq<Event>, required: set<nat>)
    requires root !in start && ArrivalsOf(root, events)
    ensures var block, columns := LastBlock(events, root), ColumnsIn(events, root, required);
      StatusOf(Exec(start, events, required), root, required) ==
      if block.None? then (if columns == {} then Absent else ColumnsOnly)
      else if block.value.blobs == 0 || required <= columns then Complete
      else PendingBlock
  {
    EntryAfterArrivals(start, root, events, required);
  }

  lemma {:induction false} ExecSplit(entries: Entries, events: seq<Event>, required: set<nat>, i: nat)
    requires i <= |events|
    ensures Exec(entries, events, required) == Exec(Exec(entries, events[..i], required), events[i..], required)
    decreases |events|
  {
    if i == |events| {
      assert events[..i] == events && events[i..] == [];
    } else {
      var n := |events| - 1;
      ExecSplit(entries, events[..n], required, i);
      assert events[..n][..i] == events[..i] && events[..n][i..] == events[i..][..n - i];
      assert events[i..][n - i] == events[n] && |events[i..]| == n - i + 1;
    }
  }

  /** The same at any point of any run: with only arrivals since the root was last absent, the block is handed
      out exactly if it is the last inserted since then and complete by what arrived since then. */
  lemma HandOutExactly(events: seq<Event>, root: Root, required: set<nat>, i: nat)
    requires i <= |events| && root !in Exec(map[], events[..i], required) && ArrivalsOf(root, events[i..])
    ensures var since := events[i..];
      var block := LastBlock(since, root);
      Taken(Exec(map[], events, required), root, required) ==
      if block.Some? && (block.value.blobs == 0 || forall c :: c in required ==> c in ColumnsIn(since, root, required))
      then block else None
  {
    ExecSplit(map[], events, required, i);
    TakenAfterArrivals(Exec(map[], events[..i], required), root, events[i..], required);
  }

  /** Pruning keeps exactly the entries that are not older than the cutoff; removal drops one root. */
  lemma DroppedExactly(entries: Entries, required: set<nat>, root: Root, cutoff: nat)
    ensures var pruned, removed := Next(entries, Prune(cutoff), required), Next(entries, Remove(root), required);
      && (forall r :: r in pruned <==> r in entries && entries[r].slot >= cutoff)
      && (forall r :: r in pruned ==> pruned[r] == entries[r])
      && (forall r :: r in removed <==> r in entries && r != root)
      && (forall r :: r in removed ==> removed[r] == entries[r])
  {
  }

  lemma ColumnsAppend(front: seq<Event>, e: Event, root: Root, required: set<nat>)
    ensures ColumnsIn(front + [e], root, required) ==
            ColumnsIn(front, root, required) + if BringsColumn(e, root, required) then {e.column} else {}
  {
    var events := front + [e];
    forall c | c in ColumnsIn(front, root, required) ensures c in ColumnsIn(events, root, required) {
      var i :| 0 <= i < |front| && BringsColumn(front[i], root, required) && front[i].column == c;
      assert events[i] == front[i];
    }
    assert events[|front|] == e;
  }

  /** Every block inserted for `root` is `block`. */
  ghost predicate OnlyBlock(events: seq<Event>, root: Root, block: Block) {
    forall i :: 0 <= i < |events| && events[i].InsertPending? && events[i].root == root ==> events[i].block == block
  }

  lemma {:induction false} OnlyBlockIsLast(events: seq<Event>, root: Root, block: Block)
    requires OnlyBlock(events, root, block) && InsertPending(root, block) in events
    ensures LastBlock(events, root) == Some(block)
    decreases |events|
  {
    var n := |events| - 1;
    if !(events[n].InsertPending? && events[n].root == root) {
      assert events == events[..n] + [events[n]];
      OnlyBlockIsLast(events[..n], root, block);
    }
  }

  /** Two runs with the same arrivals for `root`, one block among them, in any order and with anything in
      between for other blocks, leave the same entry and the same status. */
  lemma OrderIndependent(
    start: Entries, start': Entries, root: Root, block: Block, a: seq<Event>, b: seq<Event>, required: set<nat>)
    requires root !in start && root !in start'
    requires ArrivalsOf(root, a) && ArrivalsOf(root, b) && OnlyBlock(a, root, block)
    requires InsertPending(root, block) in a && forall e :: !Elsewhere(root, e) ==> (e in a <==> e in b)
    ensures var one, other := Exec(start, a, required), Exec(start', b, required);
      && root in one && root in other && one[root] == other[root]
      && StatusOf(one, root, required) == StatusOf(other, root, required)
         == if block.blobs == 0 || required <= ColumnsIn(a, root, required) then Complete else PendingBlock
  {
    EntryAfterArrivals(start, root, a, required);
    EntryAfterArrivals(start', root, b, required);
    assert !Elsewhere(root, InsertPending(root, block));
    assert OnlyBlock(b, root, block) by {
      forall i | 0 <= i < |b| && b[i].InsertPending? && b[i].root == root ensures b[i].block == block {
        assert b[i] in b && !Elsewhere(root, b[i]);
        var j :| 0 <= j < |a| && a[j] == b[i];
      }
    }
    OnlyBlockIsLast(a, root, block);
    OnlyBlockIsLast(b, root, block);
    ColumnsSame(a, b, root, required);
    ColumnsSame(b, a, root, required);
    assert ColumnsIn(a, root, required) == ColumnsIn(b, root, required);
  }

  lemma ColumnsSame(a: seq<Event>, b: seq<Event>, root: Root, required: set<nat>)
    requires forall e :: !Elsewhere(root, e) && e in a ==> e in b
    ensures ColumnsIn(a, root, required) <= ColumnsIn(b, root, required)
  {
    forall c | c in ColumnsIn(a, root, required) ensures c in ColumnsIn(b, root, required) {
      var i :| 0 <= i < |a| && BringsColumn(a[i], root, required) && a[i].column == c;
      assert !Elsewhere(root, a[i]) && a[i] in b;
      var j :| 0 <= j < |b| && b[j] == a[i];
    }
  }

  // ---------- Handing out at most once ----------

  ghost function Inserts(events: seq<Event>, root: Root): nat {
    if events == [] then 0
    else
      var n := |events| - 1;
      Inserts(events[..n], root) + if events[n].InsertPending? && events[n].root == root then 1 else 0
  }

  ghost function HandOuts(entries: Entries, events: seq<Event>, root: Root, required: set<nat>): nat
    decreases |events|
  {
    if events == [] then 0
    else
      var n := |events| - 1;
      HandOuts(entries, events[..n], root, required)
      + if events[n] == TakeIfComplete(root) && Taken(Exec(entries, events[..n], required), root, required).Some?
        then 1 else 0
  }

  /** Over every run, also with pruning and removal, a block is handed out at most once per insert. */
  lemma {:induction false} HandedOutAtMostOnce(events: seq<Event>, root: Root, required: set<nat>)
    ensures var held := Exec(map[], events, required);
      HandOuts(map[], events, root, required) + (if root in held && held[root].block.Some? then 1 else 0)
      <= Inserts(events, root)
    decreases |events|
  {
    if events != [] {
      HandedOutAtMostOnce(events[..|events| - 1], root, required);
    }
  }
}
