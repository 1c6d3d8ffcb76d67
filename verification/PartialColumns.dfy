/**
 Assembling the cells of blocks' columns (crates/networking/manager/src/partial_columns.rs, with
 `PartialColumn` of crates/common/consensus/beacon/src/partial_data_column_sidecar.rs). Tasks
 interleave only where they await, so each region that holds the lock is one atomic step. Each
 assembly carries the number of the insertion that created it, to tell it from a later assembly of
 the same block.
 */
module PartialColumns {
  import opened Wrappers
  import opened Sets
  import opened LruCache

  type Cell = nat

  const MAX_ASSEMBLIES: nat := 32
  const FETCHED_BLOCKS: nat := 2 * MAX_ASSEMBLIES

  type Column = seq<Option<Cell>>

  datatype Sidecar = Sidecar(index: nat, cells: seq<Cell>)

  datatype Assembly = Assembly(
    born: nat, slot: nat, blobs: nat, settled: bool, parentPending: bool, columns: map<nat, Column>)

  /** `fetched` is the least-recently-used cache, oldest first; `reports` logs each column reported
      newly complete, with the birth of its assembly. */
  datatype Pool = Pool(assemblies: map<Root, Assembly>, fetched: seq<Root>, births: nat, reports: seq<(nat, nat)>)

  // ---------- Cells of one column ----------

  predicate IsComplete(c: Column) {
    forall i :: 0 <= i < |c| ==> c[i].Some?
  }

  function Held(c: Column): set<nat> {
    set i: nat | i < |c| && c[i].Some?
  }

  function InsertCell(c: Column, cell: (nat, Cell)): Column {
    if cell.0 < |c| && c[cell.0].None? then c[cell.0 := Some(cell.1)] else c
  }

  function InsertCells(c: Column, cells: seq<(nat, Cell)>): Column
    decreases |cells|
  {
    if cells == [] then c else InsertCells(InsertCell(c, cells[0]), cells[1..])
  }

  /** A column grows into another: it has the same size and keeps the cells it holds. */
  ghost predicate Extends(c: Column, c': Column) {
    |c| == |c'| && forall i :: 0 <= i < |c| && c[i].Some? ==> c'[i] == c[i]
  }

  /** Inserting holds what was held, unchanged, and every position that a cell was given for. */
  lemma {:induction false} InsertCellsExtends(c: Column, cells: seq<(nat, Cell)>)
    ensures Extends(c, InsertCells(c, cells))
    ensures Held(InsertCells(c, cells)) == Held(c) + Positions(cells, |c|)
    decreases |cells|
  {
    if cells != [] {
      var c1 := InsertCell(c, cells[0]);
      InsertCellsExtends(c1, cells[1..]);
      assert Held(c1) == Held(c) + if cells[0].0 < |c| then {cells[0].0} else {};
    }
  }

  ghost function Positions(cells: seq<(nat, Cell)>, size: nat): set<nat> {
    if cells == [] then {} else (if cells[0].0 < size then {cells[0].0} else {}) + Positions(cells[1..], size)
  }

  /** The cell given first for position `i`. */
  function FirstGiven(cells: seq<(nat, Cell)>, i: nat): (r: Option<Cell>)
    ensures r.None? <==> forall j :: 0 <= j < |cells| ==> cells[j].0 != i
    ensures r.Some? ==> exists j: nat :: GivenAt(cells, i, r.value, j)
  {
    if cells == [] then None
    else if cells[0].0 == i then
      assert GivenAt(cells, i, cells[0].1, 0);
      Some(cells[0].1)
    else
      var rest := cells[1..];
      var r := FirstGiven(rest, i);
      assert forall j :: 0 <= j < |rest| ==> rest[j] == cells[j + 1];
      assert forall j: nat :: r.Some? && GivenAt(rest, i, r.value, j) ==> GivenAt(cells, i, r.value, j + 1);
      r
  }

  ghost predicate GivenAt(cells: seq<(nat, Cell)>, i: nat, cell: Cell, j: nat) {
    j < |cells| && cells[j] == (i, cell) && forall k :: 0 <= k < j ==> cells[k].0 != i
  }

  /** Position by position: a held cell stays, an empty position takes the cell given first for it. */
  lemma {:induction false} InsertedAt(c: Column, cells: seq<(nat, Cell)>, i: nat)
    requires i < |c|
    ensures |InsertCells(c, cells)| == |c|
    ensures InsertCells(c, cells)[i] == if c[i].Some? then c[i] else FirstGiven(cells, i)
    decreases |cells|
  {
    if cells != [] {
      InsertedAt(InsertCell(c, cells[0]), cells[1..], i);
    }
  }

  /** The merged column is the old one with its empty positions filled from the cells. */
  ghost predicate FilledFrom(c: Column, cells: seq<(nat, Cell)>, merged: Column) {
    && |merged| == |c|
    && forall i: nat :: i < |c| ==> merged[i] == if c[i].Some? then c[i] else FirstGiven(cells, i)
  }

  lemma InsertFills(c: Column, cells: seq<(nat, Cell)>)
    ensures FilledFrom(c, cells, InsertCells(c, cells))
  {
    InsertCellsExtends(c, cells);
    forall i: nat | i < |c| ensures InsertCells(c, cells)[i] == if c[i].Some? then c[i] else FirstGiven(cells, i) {
      InsertedAt(c, cells, i);
    }
  }

  /** Filling an empty position holds one more. */
  lemma InsertHoldsOneMore(c: Column, k: nat, cell: Cell)
    requires k < |c| && c[k].None?
    ensures |Held(c[k := Some(cell)])| == |Held(c)| + 1 && Extends(c, c[k := Some(cell)])
  {
    assert Held(c[k := Some(cell)]) == Held(c) + {k};
  }

  /** Adds the cells of empty positions one by one and counts them. */
  method AddCells(column: Column, cells: seq<(nat, Cell)>) returns (merged: Column, added: nat)
    ensures merged == InsertCells(column, cells) && FilledFrom(column, cells, merged)
    ensures |Held(merged)| == |Held(column)| + added && (added == 0 <==> merged == column)
  {
    merged, added := column, 0;
    for i := 0 to |cells|
      invariant InsertCells(column, cells) == InsertCells(merged, cells[i..])
      invariant |Held(merged)| == |Held(column)| + added
      invariant added == 0 ==> merged == column
    {
      var (k, cell) := cells[i];
      assert cells[i..][1..] == cells[i + 1..];
      if k < |merged| && merged[k].None? {
        InsertHoldsOneMore(merged, k, cell);
        merged := merged[k := Some(cell)];
        added := added + 1;
      }
    }
    InsertFills(column, cells);
  }

  // ---------- Atomic steps ----------

  function MergeCells(p: Pool, root: Root, index: nat, cells: seq<(nat, Cell)>): Pool {
    if root !in p.assemblies || index !in p.assemblies[root].columns then p
    else
      var a := p.assemblies[root];
      var merged := InsertCells(a.columns[index], cells);
      if merged == a.columns[index] then p
      else p.(assemblies := p.assemblies[root := a.(columns := a.columns[index := merged])],
              reports := if IsComplete(merged) then p.reports + [(a.born, index)] else p.reports)
  }

  function FromSidecar(s: Sidecar): (c: Column)
    ensures |c| == |s.cells| && forall i :: 0 <= i < |c| ==> c[i] == Some(s.cells[i])
  {
    seq(|s.cells|, i requires 0 <= i < |s.cells| => Some(s.cells[i]))
  }

  function FullColumn(p: Pool, root: Root, s: Sidecar): Pool {
    if root !in p.assemblies || s.index !in p.assemblies[root].columns ||
      IsComplete(p.assemblies[root].columns[s.index]) then p
    else
      var a := p.assemblies[root];
      p.(assemblies := p.assemblies[root := a.(columns := a.columns[s.index := FromSidecar(s)])],
         reports := p.reports + [(a.born, s.index)])
  }

  function FullColumns(p: Pool, root: Root, sidecars: seq<Sidecar>): Pool
    decreases |sidecars|
  {
    if sidecars == [] then p else FullColumns(FullColumn(p, root, sidecars[0]), root, sidecars[1..])
  }

  function LowerPending(p: Pool, root: Root, parentPending: bool): Pool {
    if root !in p.assemblies then p
    else
      var a := p.assemblies[root];
      p.(assemblies := p.assemblies[root := a.(parentPending := a.parentPending && parentPending)])
  }

  /** Some assembly of the lowest slot. */
  ghost predicate IsOldest(assemblies: map<Root, Assembly>, root: Root) {
    root in assemblies && forall r :: r in assemblies ==> assemblies[root].slot <= assemblies[r].slot
  }

  function Evict(assemblies: map<Root, Assembly>, victim: Root): map<Root, Assembly> {
    if |assemblies| < MAX_ASSEMBLIES then assemblies else assemblies - {victim}
  }

  /** The second locked region of `on_validated_header`; `victim` is what eviction would pick. */
  function InsertHeader(p: Pool, root: Root, slot: nat, blobs: nat, parentPending: bool, sampling: set<nat>,
      victim: Root): Pool {
    if root in p.assemblies then LowerPending(p, root, parentPending)
    else
      var columns := map index | index in sampling :: seq(blobs, _ => None);
      p.(fetched := Touch(p.fetched, root, FETCHED_BLOCKS),
         assemblies := Evict(p.assemblies, victim)
                       [root := Assembly(p.births, slot, blobs, false, parentPending, columns)],
         births := p.births + 1)
  }

  /** A new assembly: every sampled column, with one empty position per blob. */
  ghost predicate IsEmptyAssembly(a: Assembly, slot: nat, blobs: nat, parentPending: bool, sampling: set<nat>) {
    && a.slot == slot && a.blobs == blobs && a.parentPending == parentPending && !a.settled
    && a.columns.Keys == sampling
    && forall index :: index in sampling ==>
         |a.columns[index]| == blobs && forall i :: 0 <= i < blobs ==> a.columns[index][i].None?
  }

  function SettleLocalFetch(p: Pool, root: Root): Pool {
    if root !in p.assemblies then p
    else p.(assemblies := p.assemblies[root := p.assemblies[root].(settled := true)])
  }

  datatype Event =
    | SeeHeader(root: Root, parentPending: bool)
    | AddHeader(root: Root, slot: nat, blobs: nat, parentPending: bool, sampling: set<nat>, victim: Root)
    | Settle(root: Root)
    | Merge(root: Root, index: nat, cells: seq<(nat, Cell)>)
    | Full(root: Root, sidecars: seq<Sidecar>)

  function Next(p: Pool, e: Event): Pool {
    match e
    case SeeHeader(root, parentPending) => LowerPending(p, root, parentPending)
    case AddHeader(root, slot, blobs, parentPending, sampling, victim) =>
      InsertHeader(p, root, slot, blobs, parentPending, sampling, victim)
    case Settle(root) => SettleLocalFetch(p, root)
    case Merge(root, index, cells) => MergeCells(p, root, index, cells)
    case Full(root, sidecars) => FullColumns(p, root, sidecars)
  }

  /** Eviction picks an oldest assembly. */
  ghost predicate Possible(p: Pool, e: Event) {
    e.AddHeader? && e.root !in p.assemblies && |p.assemblies| >= MAX_ASSEMBLIES ==> IsOldest(p.assemblies, e.victim)
  }

  /** Full columns passed validation: they have one cell per blob of their block. */
  ghost predicate Validated(p: Pool, e: Event) {
    e.Full? && e.root in p.assemblies ==> forall s :: s in e.sidecars ==> |s.cells| == p.assemblies[e.root].blobs
  }

  // ---------- The locked map ----------

  class Assembler {
    var assemblies: map<Root, Assembly>
    var fetched: seq<Root>
    var births: nat
    ghost var reports: seq<(nat, nat)>

    ghost function View(): Pool
      reads this
    {
      Pool(assemblies, fetched, births, reports)
    }

    constructor ()
      ensures View() == EMPTY
    {
      assemblies, fetched, births, reports := map[], [], 0, [];
    }

    method MergeInto(root: Root, index: nat, cells: seq<(nat, Cell)>) returns (advertised: bool, completed: bool)
      modifies this
      ensures View() == Next(old(View()), Merge(root, index, cells))
      ensures advertised <==> View() != old(View())
      ensures completed <==> reports != old(reports)
      ensures root in old(assemblies) && index in old(assemblies)[root].columns ==>
        && root in assemblies && index in assemblies[root].columns
        && FilledFrom(old(assemblies)[root].columns[index], cells, assemblies[root].columns[index])
        && (completed <==> advertised && IsComplete(assemblies[root].columns[index]))
    {
      if root !in assemblies || index !in assemblies[root].columns {
        return false, false;
      }
      var a := assemblies[root];
      var merged, added := AddCells(a.columns[index], cells);
      if added == 0 {
        return false, false;
      }
      completed := IsComplete(merged);
      assemblies := assemblies[root := a.(columns := a.columns[index := merged])];
      assert assemblies[root].columns[index] == merged;
      if completed {
        reports := reports + [(a.born, index)];
      }
      return true, completed;
    }

    method OnFullColumns(root: Root, sidecars: seq<Sidecar>) returns (newlyComplete: nat)
      modifies this
      ensures View() == Next(old(View()), Full(root, sidecars))
      ensures |reports| == |old(reports)| + newlyComplete
    {
      newlyComplete := 0;
      for i := 0 to |sidecars|
        invariant FullColumns(View(), root, sidecars[i..]) == FullColumns(old(View()), root, sidecars)
        invariant |reports| == |old(reports)| + newlyComplete
      {
        var s := sidecars[i];
        assert sidecars[i..][1..] == sidecars[i + 1..];
        if root !in assemblies || s.index !in assemblies[root].columns ||
          IsComplete(assemblies[root].columns[s.index]) {
          continue;
        }
        var a := assemblies[root];
        assemblies := assemblies[root := a.(columns := a.columns[s.index := FromSidecar(s)])];
        reports := reports + [(a.born, s.index)];
        newlyComplete := newlyComplete + 1;
      }
    }

    method EvictOldest(ghost victim: Root) returns (ghost evicted: Root)
      modifies this`assemblies
      ensures |old(assemblies)| >= MAX_ASSEMBLIES ==> IsOldest(old(assemblies), evicted)
      ensures |old(assemblies)| >= 32 ==>
        && evicted in old(assemblies)
        && forall r :: r in old(assemblies) ==> old(assemblies)[evicted].slot <= old(assemblies)[r].slot
      ensures assemblies == Evict(old(assemblies), evicted)
      ensures assemblies == if |old(assemblies)| < 32 then old(assemblies) else old(assemblies) - {evicted}
    {
      evicted := victim;
      if |assemblies| < MAX_ASSEMBLIES {
        return;
      }
      assert assemblies.Keys != {};
      var oldest :| oldest in assemblies;
      var rest := assemblies.Keys;
      while rest != {}
        invariant rest <= assemblies.Keys && oldest in assemblies
        invariant forall r :: r in assemblies && r !in rest ==> assemblies[oldest].slot <= assemblies[r].slot
        decreases rest
      {
        var r :| r in rest;
        rest := rest - {r};
        if assemblies[r].slot < assemblies[oldest].slot {
          oldest := r;
        }
      }
      evicted := oldest;
      assemblies := assemblies - {oldest};
    }

    /** Returns whether the blobs are to be fetched from the execution client. */
    method AddValidatedHeader(root: Root, slot: nat, blobs: nat, parentPending: bool, sampling: set<nat>)
      returns (fetch: bool, ghost victim: Root)
      modifies this
      ensures Possible(old(View()), AddHeader(root, slot, blobs, parentPending, sampling, victim))
      ensures View() == Next(old(View()), AddHeader(root, slot, blobs, parentPending, sampling, victim))
      ensures fetch <==> root !in old(assemblies) && root !in old(fetched)
      ensures root in assemblies
      ensures root !in old(assemblies) ==> IsEmptyAssembly(assemblies[root], slot, blobs, parentPending, sampling)
      ensures root in old(assemblies) ==>
        assemblies == old(assemblies)[root := old(assemblies)[root].(
          parentPending := old(assemblies)[root].parentPending && parentPending)]
    {
      victim := root;
      if root in assemblies {
        var a := assemblies[root];
        assemblies := assemblies[root := a.(parentPending := a.parentPending && parentPending)];
        return false, victim;
      }
      fetch := root !in fetched;
      fetched := Touch(fetched, root, FETCHED_BLOCKS);
      victim := EvictOldest(root);
      var columns := map index | index in sampling :: seq(blobs, _ => None);
      assemblies := assemblies[root := Assembly(births, slot, blobs, false, parentPending, columns)];
      births := births + 1;
    }
  }

  const EMPTY := Pool(map[], [], 0, [])

  // ---------- Guarantees ----------

  /** The column of one report is complete as long as its assembly lives. */
  ghost predicate ReportHolds(p: Pool, report: (nat, nat)) {
    forall r :: r in p.assemblies && p.assemblies[r].born == report.0 ==>
      report.1 in p.assemblies[r].columns && IsComplete(p.assemblies[r].columns[report.1])
  }

  ghost predicate DistinctBirths(p: Pool) {
    && (forall r :: r in p.assemblies ==> p.assemblies[r].born < p.births)
    && (forall r, r' :: r in p.assemblies && r' in p.assemblies && r != r' ==>
          p.assemblies[r].born != p.assemblies[r'].born)
  }

  /** Reports name assemblies already born, hold, and are all different. */
  ghost predicate SoundReports(p: Pool) {
    && (forall i :: 0 <= i < |p.reports| ==> p.reports[i].0 < p.births && ReportHolds(p, p.reports[i]))
    && (forall i, j :: 0 <= i < j < |p.reports| ==> p.reports[i] != p.reports[j])
  }

  ghost predicate Inv(p: Pool) {
    |p.assemblies| <= MAX_ASSEMBLIES && DistinctBirths(p) && SoundReports(p)
  }

  ghost predicate Sized(p: Pool) {
    forall r, index :: r in p.assemblies && index in p.assemblies[r].columns ==>
      |p.assemblies[r].columns[index]| == p.assemblies[r].blobs
  }

  /** One assembly as it lives on: complete columns stay complete and its parent never becomes pending again. */
  ghost predicate LivesOn(a: Assembly, a': Assembly) {
    && a.born == a'.born && a.slot == a'.slot && a.blobs == a'.blobs && a.columns.Keys == a'.columns.Keys
    && (a'.parentPending ==> a.parentPending)
    && (a.settled ==> a'.settled)
    && (forall index :: index in a.columns && IsComplete(a.columns[index]) ==> a'.columns[index] == a.columns[index])
  }

  /** No column loses a cell. */
  ghost predicate CellsGrow(a: Assembly, a': Assembly) {
    && a.columns.Keys == a'.columns.Keys
    && forall index :: index in a.columns ==> Held(a.columns[index]) <= Held(a'.columns[index])
  }

  lemma CompleteUnchanged(c: Column, cells: seq<(nat, Cell)>)
    requires IsComplete(c)
    ensures InsertCells(c, cells) == c
  {
    InsertCellsExtends(c, cells);
  }

  ghost predicate AllLiveOn(p: Pool, p': Pool) {
    && p'.assemblies.Keys == p.assemblies.Keys
    && forall r :: r in p.assemblies ==> LivesOn(p.assemblies[r], p'.assemblies[r])
  }

  /** An assembly present before and after is the same one, and lives on. */
  ghost predicate SurvivorsLiveOn(p: Pool, p': Pool) {
    forall r :: r in p.assemblies && r in p'.assemblies ==> LivesOn(p.assemblies[r], p'.assemblies[r])
  }

  function Replace(p: Pool, root: Root, a': Assembly): Pool {
    p.(assemblies := p.assemblies[root := a'])
  }

  lemma SameSize(a: map<Root, Assembly>, b: map<Root, Assembly>)
    requires a.Keys == b.Keys
    ensures |a| == |b|
  {
    assert |a.Keys| == |a| && |b.Keys| == |b|;
  }

  lemma BirthsKept(p: Pool, p': Pool)
    requires DistinctBirths(p) && p'.assemblies.Keys == p.assemblies.Keys && p'.births == p.births
    requires forall r :: r in p.assemblies ==> p'.assemblies[r].born == p.assemblies[r].born
    ensures DistinctBirths(p')
  {
  }

  /** Replacing a living assembly by a later form of itself keeps the invariant. */
  lemma ReplaceKeepsInv(p: Pool, root: Root, a': Assembly)
    requires Inv(p) && root in p.assemblies && LivesOn(p.assemblies[root], a')
    ensures Inv(Replace(p, root, a')) && AllLiveOn(p, Replace(p, root, a'))
  {
    var p' := Replace(p, root, a');
    SameSize(p.assemblies, p'.assemblies);
    BirthsKept(p, p');
    forall i | 0 <= i < |p.reports| ensures ReportHolds(p', p.reports[i]) {
      assert ReportHolds(p, p.reports[i]);
    }
  }

  /** Reporting a column that was incomplete before and is complete now. */
  lemma ReportKeepsInv(p: Pool, root: Root, a': Assembly, index: nat)
    requires Inv(p) && root in p.assemblies && LivesOn(p.assemblies[root], a')
    requires index in a'.columns && IsComplete(a'.columns[index]) && !IsComplete(p.assemblies[root].columns[index])
    ensures Inv(Replace(p, root, a').(reports := p.reports + [(a'.born, index)]))
    ensures AllLiveOn(p, Replace(p, root, a'))
  {
    ReplaceKeepsInv(p, root, a');
    var p' := Replace(p, root, a');
    var reports := p.reports + [(a'.born, index)];
    var p'' := p'.(reports := reports);
    assert DistinctBirths(p'');
    forall i | 0 <= i < |p.reports| ensures p.reports[i] != (a'.born, index) && ReportHolds(p'', p.reports[i]) {
      assert ReportHolds(p, p.reports[i]) && ReportHolds(p', p.reports[i]);
    }
    assert ReportHolds(p'', (a'.born, index));
  }

  lemma FullColumnKeeps(p: Pool, root: Root, s: Sidecar)
    requires Inv(p)
    ensures Inv(FullColumn(p, root, s)) && AllLiveOn(p, FullColumn(p, root, s))
  {
    if FullColumn(p, root, s) != p {
      var a := p.assemblies[root];
      ReportKeepsInv(p, root, a.(columns := a.columns[s.index := FromSidecar(s)]), s.index);
    }
  }

  lemma {:induction false} FullKeeps(p: Pool, root: Root, sidecars: seq<Sidecar>)
    requires Inv(p)
    ensures Inv(FullColumns(p, root, sidecars)) && AllLiveOn(p, FullColumns(p, root, sidecars))
    decreases |sidecars|
  {
    if sidecars != [] {
      var p1 := FullColumn(p, root, sidecars[0]);
      FullColumnKeeps(p, root, sidecars[0]);
      FullKeeps(p1, root, sidecars[1..]);
      AllLiveOnTransitive(p, p1, FullColumns(p1, root, sidecars[1..]));
    }
  }

  lemma AllLiveOnTransitive(p: Pool, p1: Pool, p2: Pool)
    requires AllLiveOn(p, p1) && AllLiveOn(p1, p2)
    ensures AllLiveOn(p, p2)
  {
    forall r | r in p.assemblies ensures LivesOn(p.assemblies[r], p2.assemblies[r]) {
      LivesOnTransitive(p.assemblies[r], p1.assemblies[r], p2.assemblies[r]);
    }
  }

  lemma LivesOnTransitive(a: Assembly, b: Assembly, c: Assembly)
    requires LivesOn(a, b) && LivesOn(b, c)
    ensures LivesOn(a, c)
  {
    forall index | index in a.columns && IsComplete(a.columns[index]) ensures c.columns[index] == a.columns[index] {
      assert b.columns[index] == a.columns[index];
    }
  }

  lemma {:induction false} FullGrows(p: Pool, root: Root, sidecars: seq<Sidecar>)
    requires Sized(p) && (root in p.assemblies ==> forall s :: s in sidecars ==> |s.cells| == p.assemblies[root].blobs)
    ensures var p' := FullColumns(p, root, sidecars);
      && Sized(p') && p'.assemblies.Keys == p.assemblies.Keys
      && forall r :: r in p.assemblies ==> CellsGrow(p.assemblies[r], p'.assemblies[r])
    decreases |sidecars|
  {
    if sidecars != [] {
      assert sidecars[0] in sidecars;
      FullGrows(FullColumn(p, root, sidecars[0]), root, sidecars[1..]);
    }
  }

  lemma RoomForOne(assemblies: map<Root, Assembly>, victim: Root, root: Root, a: Assembly)
    requires |assemblies| <= MAX_ASSEMBLIES && (|assemblies| == MAX_ASSEMBLIES ==> victim in assemblies)
    ensures |Evict(assemblies, victim)[root := a]| <= MAX_ASSEMBLIES
  {
    var kept := Evict(assemblies, victim);
    assert |assemblies.Keys| == |assemblies| && |kept.Keys| == |kept|;
    assert kept.Keys == if |assemblies| < MAX_ASSEMBLIES then assemblies.Keys else assemblies.Keys - {victim};
    assert kept[root := a].Keys == kept.Keys + {root} && |kept[root := a].Keys| == |kept[root := a]|;
  }

  lemma HeaderKeeps(p: Pool, e: Event)
    requires Inv(p) && e.AddHeader? && e.root !in p.assemblies && Possible(p, e)
    ensures Inv(Next(p, e)) && SurvivorsLiveOn(p, Next(p, e))
  {
    var p' := Next(p, e);
    RoomForOne(p.assemblies, e.victim, e.root, p'.assemblies[e.root]);
    assert OneNew(p, p', e.root);
    OneNewKeeps(p, p', e.root);
  }

  /** The later pool has one newborn assembly and otherwise only assemblies of the earlier one. */
  ghost predicate OneNew(p: Pool, p': Pool, root: Root) {
    && p'.births == p.births + 1 && p'.reports == p.reports
    && root in p'.assemblies && root !in p.assemblies && p'.assemblies[root].born == p.births
    && (forall r :: r in p'.assemblies && r != root ==> r in p.assemblies && p'.assemblies[r] == p.assemblies[r])
  }

  lemma OneNewKeeps(p: Pool, p': Pool, root: Root)
    requires Inv(p) && OneNew(p, p', root)
    ensures DistinctBirths(p') && SoundReports(p') && SurvivorsLiveOn(p, p')
  {
    forall i | 0 <= i < |p'.reports| ensures ReportHolds(p', p'.reports[i]) {
      assert ReportHolds(p, p.reports[i]);
    }
  }

  lemma MergeKeeps(p: Pool, root: Root, index: nat, cells: seq<(nat, Cell)>)
    requires Inv(p)
    ensures Inv(MergeCells(p, root, index, cells)) && AllLiveOn(p, MergeCells(p, root, index, cells))
  {
    if MergeCells(p, root, index, cells) != p {
      var a := p.assemblies[root];
      var merged := InsertCells(a.columns[index], cells);
      if IsComplete(a.columns[index]) {
        CompleteUnchanged(a.columns[index], cells);
      } else {
        var a' := a.(columns := a.columns[index := merged]);
        assert LivesOn(a, a');
        if IsComplete(merged) {
          ReportKeepsInv(p, root, a', index);
        } else {
          ReplaceKeepsInv(p, root, a');
        }
      }
    }
  }

  lemma PendingKeeps(p: Pool, root: Root, parentPending: bool)
    requires Inv(p)
    ensures Inv(LowerPending(p, root, parentPending)) && AllLiveOn(p, LowerPending(p, root, parentPending))
  {
    if root in p.assemblies {
      ReplaceKeepsInv(p, root, p.assemblies[root].(parentPending := p.assemblies[root].parentPending && parentPending));
    }
  }

  lemma SettleKeeps(p: Pool, root: Root)
    requires Inv(p)
    ensures Inv(SettleLocalFetch(p, root)) && AllLiveOn(p, SettleLocalFetch(p, root))
  {
    if root in p.assemblies {
      ReplaceKeepsInv(p, root, p.assemblies[root].(settled := true));
    }
  }

  /** Every atomic step keeps the invariant, and every assembly that survives it lives on. */
  lemma StepKeepsInv(p: Pool, e: Event)
    requires Inv(p) && Possible(p, e)
    ensures Inv(Next(p, e)) && SurvivorsLiveOn(p, Next(p, e))
  {
    match e {
      case SeeHeader(root, parentPending) => PendingKeeps(p, root, parentPending);
      case AddHeader(root, _, _, parentPending, _, _) =>
        if root in p.assemblies {
          PendingKeeps(p, root, parentPending);
        } else {
          HeaderKeeps(p, e);
        }
      case Settle(root) => SettleKeeps(p, root);
      case Merge(root, index, cells) => MergeKeeps(p, root, index, cells);
      case Full(root, sidecars) => FullKeeps(p, root, sidecars);
    }
  }

  /** With validated full columns, no step takes a cell away from a column of a living assembly. */
  lemma StepGrowsCells(p: Pool, e: Event)
    requires Sized(p) && Possible(p, e) && Validated(p, e)
    ensures Sized(Next(p, e))
    ensures forall r :: r in p.assemblies && r in Next(p, e).assemblies ==>
      CellsGrow(p.assemblies[r], Next(p, e).assemblies[r])
  {
    match e {
      case Merge(root, index, cells) =>
        if Next(p, e) != p {
          InsertCellsExtends(p.assemblies[root].columns[index], cells);
        }
      case Full(root, sidecars) =>
        FullGrows(p, root, sidecars);
      case _ =>
    }
  }

  // ---------- Every completion is reported ----------

  /** A complete column of a block with blobs was reported. */
  ghost predicate ColumnReported(a: Assembly, index: nat, reports: seq<(nat, nat)>) {
    index in a.columns && a.blobs > 0 && IsComplete(a.columns[index]) ==> (a.born, index) in reports
  }

  ghost predicate AllReported(p: Pool) {
    forall r, index :: r in p.assemblies ==> ColumnReported(p.assemblies[r], index, p.reports)
  }

  lemma FullColumnReports(p: Pool, root: Root, s: Sidecar)
    requires AllReported(p)
    ensures AllReported(FullColumn(p, root, s))
  {
    var p' := FullColumn(p, root, s);
    forall r, index | r in p'.assemblies ensures ColumnReported(p'.assemblies[r], index, p'.reports) {
      assert ColumnReported(p.assemblies[r], index, p.reports);
    }
  }

  lemma {:induction false} FullReports(p: Pool, root: Root, sidecars: seq<Sidecar>)
    requires AllReported(p)
    ensures AllReported(FullColumns(p, root, sidecars))
    decreases |sidecars|
  {
    if sidecars != [] {
      FullColumnReports(p, root, sidecars[0]);
      FullReports(FullColumn(p, root, sidecars[0]), root, sidecars[1..]);
    }
  }

  lemma StepReports(p: Pool, e: Event)
    requires AllReported(p)
    ensures AllReported(Next(p, e))
  {
    if e.Full? {
      FullReports(p, e.root, e.sidecars);
    } else {
      var p' := Next(p, e);
      forall r, index | r in p'.assemblies ensures ColumnReported(p'.assemblies[r], index, p'.reports) {
        if r in p.assemblies {
          assert ColumnReported(p.assemblies[r], index, p.reports);
        } else if index in p'.assemblies[r].columns {
          NothingYet(p'.assemblies[r].columns[index]);
        }
      }
    }
  }

  lemma NothingYet(c: Column)
    requires forall i :: 0 <= i < |c| ==> c[i].None?
    ensures IsComplete(c) <==> c == []
  {
    if c != [] { assert c[0].None?; }
  }

  /** A column of a block without blobs has no cells and was not reported. */
  ghost predicate ColumnSilent(a: Assembly, index: nat, reports: seq<(nat, nat)>) {
    index in a.columns && a.blobs == 0 ==> a.columns[index] == [] && (a.born, index) !in reports
  }

  ghost predicate EmptySilent(p: Pool) {
    forall r, index :: r in p.assemblies ==> ColumnSilent(p.assemblies[r], index, p.reports)
  }

  lemma {:induction false} NothingToInsert(cells: seq<(nat, Cell)>)
    ensures InsertCells([], cells) == []
    decreases |cells|
  {
    if cells != [] {
      NothingToInsert(cells[1..]);
    }
  }

  lemma FullColumnSilent(p: Pool, root: Root, s: Sidecar)
    requires EmptySilent(p) && DistinctBirths(p)
    ensures EmptySilent(FullColumn(p, root, s))
  {
    var p' := FullColumn(p, root, s);
    forall r, index | r in p'.assemblies ensures ColumnSilent(p'.assemblies[r], index, p'.reports) {
      assert ColumnSilent(p.assemblies[r], index, p.reports);
      assert ColumnSilent(p.assemblies[r], s.index, p.reports);
    }
  }

  lemma {:induction false} FullSilent(p: Pool, root: Root, sidecars: seq<Sidecar>)
    requires EmptySilent(p) && Inv(p)
    ensures EmptySilent(FullColumns(p, root, sidecars))
    decreases |sidecars|
  {
    if sidecars != [] {
      FullColumnSilent(p, root, sidecars[0]);
      FullColumnKeeps(p, root, sidecars[0]);
      FullSilent(FullColumn(p, root, sidecars[0]), root, sidecars[1..]);
    }
  }

  lemma MergeSilent(p: Pool, root: Root, index: nat, cells: seq<(nat, Cell)>)
    requires EmptySilent(p) && DistinctBirths(p)
    ensures EmptySilent(MergeCells(p, root, index, cells))
  {
    var p' := MergeCells(p, root, index, cells);
    NothingToInsert(cells);
    forall r, i | r in p'.assemblies ensures ColumnSilent(p'.assemblies[r], i, p'.reports) {
      assert ColumnSilent(p.assemblies[r], i, p.reports);
      assert ColumnSilent(p.assemblies[r], index, p.reports);
    }
  }

  lemma StepSilent(p: Pool, e: Event)
    requires EmptySilent(p) && Inv(p)
    ensures EmptySilent(Next(p, e))
  {
    match e {
      case Full(root, sidecars) => FullSilent(p, root, sidecars);
      case Merge(root, index, cells) => MergeSilent(p, root, index, cells);
      case _ =>
        var p' := Next(p, e);
        forall r, index | r in p'.assemblies ensures ColumnSilent(p'.assemblies[r], index, p'.reports) {
          if r in p.assemblies { assert ColumnSilent(p.assemblies[r], index, p.reports); }
        }
    }
  }

  lemma {:induction false} DistinctCount<T>(s: seq<T>, x: T)
    requires forall i, j :: 0 <= i < j < |s| ==> s[i] != s[j]
    ensures multiset(s)[x] == if x in s then 1 else 0
    decreases |s|
  {
    if s != [] {
      var n := |s| - 1;
      DistinctCount(s[..n], x);
      assert s == s[..n] + [s[n]];
    }
  }

  // ---------- Runs ----------

  ghost predicate Run(pools: seq<Pool>, events: seq<Event>) {
    && |pools| == |events| + 1 && pools[0] == EMPTY
    && forall i :: 0 <= i < |events| ==> Possible(pools[i], events[i]) && pools[i + 1] == Next(pools[i], events[i])
  }

  /** Under every interleaving: at most 32 assemblies, and no column of one assembly is ever reported
      newly complete twice, whichever path completed it. */
  lemma {:induction false} RunSafe(pools: seq<Pool>, events: seq<Event>, n: nat)
    requires Run(pools, events) && n < |pools|
    ensures Inv(pools[n])
    decreases n
  {
    if n > 0 {
      RunSafe(pools, events, n - 1);
      StepKeepsInv(pools[n - 1], events[n - 1]);
    }
  }

  /** While an assembly lives from state `i` to state `j` it lives on in the sense above. */
  lemma {:induction false} AssemblyLivesOn(pools: seq<Pool>, events: seq<Event>, i: nat, j: nat, r: Root)
    requires Run(pools, events) && i <= j < |pools|
    requires forall k :: i <= k <= j ==> r in pools[k].assemblies
    ensures LivesOn(pools[i].assemblies[r], pools[j].assemblies[r])
    decreases j
  {
    if i < j {
      AssemblyLivesOn(pools, events, i, j - 1, r);
      RunSafe(pools, events, j - 1);
      StepKeepsInv(pools[j - 1], events[j - 1]);
      assert pools[j] == Next(pools[j - 1], events[j - 1]);
      LivesOnTransitive(pools[i].assemblies[r], pools[j - 1].assemblies[r], pools[j].assemblies[r]);
    }
  }

  /** With validated full columns, the held cells of every column only grow while its assembly lives. */
  lemma {:induction false} HeldCellsOnlyGrow(pools: seq<Pool>, events: seq<Event>, i: nat, j: nat, r: Root)
    requires Run(pools, events) && i <= j < |pools|
    requires forall k :: i <= k <= j ==> r in pools[k].assemblies
    requires forall k :: 0 <= k < j ==> Validated(pools[k], events[k])
    ensures CellsGrow(pools[i].assemblies[r], pools[j].assemblies[r])
    decreases j
  {
    if i < j {
      HeldCellsOnlyGrow(pools, events, i, j - 1, r);
      RunSized(pools, events, j - 1);
      StepGrowsCells(pools[j - 1], events[j - 1]);
    }
  }

  lemma {:induction false} RunSized(pools: seq<Pool>, events: seq<Event>, n: nat)
    requires Run(pools, events) && n < |pools|
    requires forall k :: 0 <= k < n ==> Validated(pools[k], events[k])
    ensures Sized(pools[n])
    decreases n
  {
    if n > 0 {
      RunSized(pools, events, n - 1);
      StepGrowsCells(pools[n - 1], events[n - 1]);
    }
  }

  lemma {:induction false} RunReports(pools: seq<Pool>, events: seq<Event>, n: nat)
    requires Run(pools, events) && n < |pools|
    ensures AllReported(pools[n]) && EmptySilent(pools[n])
    decreases n
  {
    if n > 0 {
      RunReports(pools, events, n - 1);
      RunSafe(pools, events, n - 1);
      StepReports(pools[n - 1], events[n - 1]);
      StepSilent(pools[n - 1], events[n - 1]);
    }
  }

  /** Exactly once: under every interleaving, a column of a living assembly has been reported newly complete
      once if its block has blobs and it is complete, whichever path completed it, and never otherwise. The
      columns of a block without blobs have no cells and are complete from the start. */
  lemma ReportedExactlyOnce(pools: seq<Pool>, events: seq<Event>, n: nat, r: Root, index: nat)
    requires Run(pools, events) && n < |pools| && r in pools[n].assemblies
    requires index in pools[n].assemblies[r].columns
    ensures var a := pools[n].assemblies[r];
      && multiset(pools[n].reports)[(a.born, index)] ==
         (if a.blobs > 0 && forall i :: 0 <= i < |a.columns[index]| ==> a.columns[index][i].Some? then 1 else 0)
      && (a.blobs == 0 ==> a.columns[index] == [])
  {
    var p, a := pools[n], pools[n].assemblies[r];
    RunSafe(pools, events, n);
    RunReports(pools, events, n);
    assert ColumnReported(a, index, p.reports) && ColumnSilent(a, index, p.reports);
    DistinctCount(p.reports, (a.born, index));
    if (a.born, index) in p.reports {
      var i :| 0 <= i < |p.reports| && p.reports[i] == (a.born, index);
      assert ReportHolds(p, p.reports[i]);
    }
  }

  // ---------- What an assembly holds ----------

  ghost predicate SidecarGives(s: Sidecar, index: nat, i: nat, cell: Cell) {
    s.index == index && i < |s.cells| && s.cells[i] == cell
  }

  /** The event brings `cell` for position `i` of column `index` of block `r`. */
  ghost predicate Gives(e: Event, r: Root, index: nat, i: nat, cell: Cell) {
    || (e.Merge? && e.root == r && e.index == index && (i, cell) in e.cells)
    || (e.Full? && e.root == r && exists s :: s in e.sidecars && SidecarGives(s, index, i, cell))
  }

  ghost predicate Holds(p: Pool, r: Root, index: nat, i: nat, cell: Cell) {
    && r in p.assemblies && index in p.assemblies[r].columns
    && i < |p.assemblies[r].columns[index]| && p.assemblies[r].columns[index][i] == Some(cell)
  }

  lemma {:induction false} FullGives(p: Pool, root: Root, sidecars: seq<Sidecar>,
      r: Root, index: nat, i: nat, cell: Cell)
    requires Holds(FullColumns(p, root, sidecars), r, index, i, cell)
    ensures Holds(p, r, index, i, cell)
            || (r == root && exists s :: s in sidecars && SidecarGives(s, index, i, cell))
    decreases |sidecars|
  {
    if sidecars != [] {
      var p1, rest := FullColumn(p, root, sidecars[0]), sidecars[1..];
      FullGives(p1, root, rest, r, index, i, cell);
      if s :| s in rest && SidecarGives(s, index, i, cell) {
        assert s in sidecars;
      }
      if Holds(p1, r, index, i, cell) && !Holds(p, r, index, i, cell) {
        assert SidecarGives(sidecars[0], index, i, cell) && sidecars[0] in sidecars;
      }
    }
  }

  lemma MergeGives(p: Pool, root: Root, index: nat, cells: seq<(nat, Cell)>, r: Root, at: nat, i: nat, cell: Cell)
    requires Holds(MergeCells(p, root, index, cells), r, at, i, cell)
    ensures Holds(p, r, at, i, cell) || (r == root && at == index && (i, cell) in cells)
  {
    if r == root && at == index && MergeCells(p, root, index, cells) != p {
      var c := p.assemblies[root].columns[index];
      InsertCellsExtends(c, cells);
      InsertedAt(c, cells, i);
      if c[i].None? {
        var j: nat :| GivenAt(cells, i, cell, j);
        assert cells[j] in cells;
      }
    }
  }

  lemma StepGives(p: Pool, e: Event, r: Root, index: nat, i: nat, cell: Cell)
    requires Holds(Next(p, e), r, index, i, cell)
    ensures Holds(p, r, index, i, cell) || Gives(e, r, index, i, cell)
  {
    match e {
      case Merge(root, at, cells) => MergeGives(p, root, at, cells, r, index, i, cell);
      case Full(root, sidecars) => FullGives(p, root, sidecars, r, index, i, cell);
      case _ =>
    }
  }

  /** Under every interleaving, every cell an assembly holds was brought for that block, column and position
      by an event of the run. */
  lemma {:induction false} CellsWereGiven(pools: seq<Pool>, events: seq<Event>, n: nat,
      r: Root, index: nat, i: nat, cell: Cell)
    requires Run(pools, events) && n < |pools| && Holds(pools[n], r, index, i, cell)
    ensures exists k :: 0 <= k < n && Gives(events[k], r, index, i, cell)
    decreases n
  {
    if n > 0 {
      StepGives(pools[n - 1], events[n - 1], r, index, i, cell);
      if Holds(pools[n - 1], r, index, i, cell) {
        CellsWereGiven(pools, events, n - 1, r, index, i, cell);
      }
    }
  }

  /** A full column completes its column, if it is sampled. */
  lemma {:induction false} FullCompletes(p: Pool, root: Root, sidecars: seq<Sidecar>, s: Sidecar)
    requires root in p.assemblies && s.index in p.assemblies[root].columns && s in sidecars
    ensures var p' := FullColumns(p, root, sidecars);
      && root in p'.assemblies && s.index in p'.assemblies[root].columns
      && IsComplete(p'.assemblies[root].columns[s.index])
    decreases |sidecars|
  {
    var p1, rest := FullColumn(p, root, sidecars[0]), sidecars[1..];
    assert sidecars == [sidecars[0]] + rest;
    if s in rest {
      FullCompletes(p1, root, rest, s);
    } else {
      CompleteStays(p1, root, rest, s.index);
    }
  }

  lemma {:induction false} CompleteStays(p: Pool, root: Root, sidecars: seq<Sidecar>, index: nat)
    requires root in p.assemblies && index in p.assemblies[root].columns
    requires IsComplete(p.assemblies[root].columns[index])
    ensures var p' := FullColumns(p, root, sidecars);
      && root in p'.assemblies && index in p'.assemblies[root].columns
      && p'.assemblies[root].columns[index] == p.assemblies[root].columns[index]
    decreases |sidecars|
  {
    if sidecars != [] {
      CompleteStays(FullColumn(p, root, sidecars[0]), root, sidecars[1..], index);
    }
  }

  // ---------- Flags and eviction ----------

  /** The event is a header of block `r`. */
  ghost predicate HeaderOf(e: Event, r: Root) {
    (e.SeeHeader? || e.AddHeader?) && e.root == r
  }

  lemma {:induction false} FullKeepsFlags(p: Pool, root: Root, sidecars: seq<Sidecar>, r: Root)
    requires r in p.assemblies
    ensures var p' := FullColumns(p, root, sidecars);
      && r in p'.assemblies && p'.assemblies.Keys == p.assemblies.Keys
      && p'.assemblies[r].parentPending == p.assemblies[r].parentPending
      && p'.assemblies[r].settled == p.assemblies[r].settled
    decreases |sidecars|
  {
    if sidecars != [] {
      FullKeepsFlags(FullColumn(p, root, sidecars[0]), root, sidecars[1..], r);
    }
  }

  /** The two flags of a surviving assembly, exactly: its parent is pending as long as every header said so,
      and its local fetch is settled once that was reported. */
  lemma FlagsExactly(p: Pool, e: Event, r: Root)
    requires r in p.assemblies && r in Next(p, e).assemblies
    ensures var a, a' := p.assemblies[r], Next(p, e).assemblies[r];
      && a'.parentPending == (a.parentPending && (HeaderOf(e, r) ==> e.parentPending))
      && a'.settled == (a.settled || e == Settle(r))
  {
    if e.Full? {
      FullKeepsFlags(p, e.root, e.sidecars, r);
    }
  }

  /** Over every run: while an assembly lives, a header seen without a pending parent, and a settled fetch, are
      remembered. */
  lemma {:induction false} FlagsRemembered(pools: seq<Pool>, events: seq<Event>, i: nat, j: nat, r: Root)
    requires Run(pools, events) && i < j < |pools|
    requires r in pools[i].assemblies && forall k :: i < k <= j ==> r in pools[k].assemblies
    ensures HeaderOf(events[i], r) && !events[i].parentPending ==> !pools[j].assemblies[r].parentPending
    ensures events[i] == Settle(r) ==> pools[j].assemblies[r].settled
    decreases j
  {
    assert pools[j] == Next(pools[j - 1], events[j - 1]);
    FlagsExactly(pools[j - 1], events[j - 1], r);
    if i < j - 1 {
      FlagsRemembered(pools, events, i, j - 1, r);
    }
  }

  /** An assembly ends only by eviction: a new block at the limit, and it is of the lowest slot. */
  lemma EndsOnlyByEviction(p: Pool, e: Event, r: Root)
    requires Possible(p, e) && r in p.assemblies && r !in Next(p, e).assemblies
    ensures e.AddHeader? && e.root !in p.assemblies && |p.assemblies| >= 32
    ensures forall other :: other in p.assemblies ==> p.assemblies[r].slot <= p.assemblies[other].slot
  {
    if e.Full? {
      FullKeepsFlags(p, e.root, e.sidecars, r);
    }
  }

  // ---------- Fetching from the execution client ----------

  /** The step starts assembling `root`. */
  ghost predicate Starts(p: Pool, e: Event, root: Root) {
    e.AddHeader? && e.root == root && root !in p.assemblies
  }

  /** It does, and asks for a fetch because the cache does not have the block. */
  ghost predicate Fetches(p: Pool, e: Event, root: Root) {
    Starts(p, e, root) && root !in p.fetched
  }

  /** The blocks other than `root` whose assembly was started by events `i + 1` to `n - 1`. */
  ghost function StartedBetween(pools: seq<Pool>, events: seq<Event>, i: nat, n: nat, root: Root): set<Root>
    requires n <= |events| < |pools|
  {
    set k | i < k < n && Starts(pools[k], events[k], events[k].root) && events[k].root != root :: events[k].root
  }

  lemma {:induction false} FullKeepsCache(p: Pool, root: Root, sidecars: seq<Sidecar>)
    ensures FullColumns(p, root, sidecars).fetched == p.fetched
    decreases |sidecars|
  {
    if sidecars != [] {
      FullKeepsCache(FullColumn(p, root, sidecars[0]), root, sidecars[1..]);
    }
  }

  /** Only the start of an assembly touches the cache. */
  lemma StepCache(p: Pool, e: Event)
    ensures Next(p, e).fetched == if Starts(p, e, e.root) then Touch(p.fetched, e.root, FETCHED_BLOCKS) else p.fetched
  {
    if e.Full? {
      FullKeepsCache(p, e.root, e.sidecars);
    }
  }

  lemma {:induction false} CacheValid(pools: seq<Pool>, events: seq<Event>, n: nat)
    requires Run(pools, events) && n < |pools|
    ensures ValidCache(pools[n].fetched, FETCHED_BLOCKS)
    decreases n
  {
    if n > 0 {
      CacheValid(pools, events, n - 1);
      StepCache(pools[n - 1], events[n - 1]);
      TouchKeepsValid(pools[n - 1].fetched, events[n - 1].root, FETCHED_BLOCKS);
    }
  }

  /** The block is in the cache with only blocks from `others` behind it, or the others fill a cache. */
  ghost predicate Kept(cache: seq<Root>, root: Root, others: set<Root>) {
    (root in cache && Newer(cache, root) <= others) || |others| >= FETCHED_BLOCKS
  }

  lemma KeptByMore(cache: seq<Root>, root: Root, others: set<Root>, more: set<Root>)
    requires Kept(cache, root, others) && others <= more
    ensures Kept(cache, root, more)
  {
    SubsetNotLarger(others, more);
  }

  /** Using the cache for some block keeps `root`, if that block counts among the others. */
  lemma TouchKeeps(cache: seq<Root>, root: Root, used: Root, others: set<Root>)
    requires ValidCache(cache, FETCHED_BLOCKS) && Kept(cache, root, others) && (used == root || used in others)
    ensures Kept(Touch(cache, used, FETCHED_BLOCKS), root, others)
  {
    if |others| < FETCHED_BLOCKS {
      if used == root {
        TouchSelf(cache, root, FETCHED_BLOCKS);
      } else {
        TouchOther(cache, root, used, FETCHED_BLOCKS);
        SubsetNotLarger(Newer(cache, root) + {used}, others);
      }
    }
  }

  /** After a fetch, the block stays in the cache with only blocks started since behind it, until 64
      others have been started. */
  lemma {:induction false} StaysCached(pools: seq<Pool>, events: seq<Event>, i: nat, n: nat, root: Root)
    requires Run(pools, events) && i < n <= |events| && Starts(pools[i], events[i], root)
    ensures Kept(pools[n].fetched, root, StartedBetween(pools, events, i, n, root))
    decreases n
  {
    var p, e := pools[n - 1], events[n - 1];
    var now := StartedBetween(pools, events, i, n, root);
    StepCache(p, e);
    CacheValid(pools, events, n - 1);
    if n == i + 1 {
      TouchSelf(p.fetched, root, FETCHED_BLOCKS);
    } else {
      StaysCached(pools, events, i, n - 1, root);
      KeptByMore(p.fetched, root, StartedBetween(pools, events, i, n - 1, root), now);
      if Starts(p, e, e.root) {
        assert e.root == root || e.root in now;
        TouchKeeps(p.fetched, root, e.root, now);
      }
    }
  }

  /** A block's blobs are fetched from the execution client again only after at least 64 other blocks
      were started in between. */
  lemma RefetchOnlyAfterManyOthers(pools: seq<Pool>, events: seq<Event>, i: nat, j: nat, root: Root)
    requires Run(pools, events) && i < j < |events|
    requires Fetches(pools[i], events[i], root) && Fetches(pools[j], events[j], root)
    ensures |StartedBetween(pools, events, i, j, root)| >= FETCHED_BLOCKS
  {
    StaysCached(pools, events, i, j, root);
  }
}
