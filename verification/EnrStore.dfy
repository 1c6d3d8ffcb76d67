/**
 The local ENR across updates, failed saves, crashes and restarts
 (crates/networking/discv5/src/discovery.rs and persisted_enr.rs). A record is a sequence number and
 its key/value pairs. The disk has a visible file and the content that survives a power loss; saving
 writes a temporary file and renames it, so a failed save leaves the old file or the new one.
 */
module EnrStore {
  import opened Wrappers
  import opened Bits

  type Pairs = map<nat, nat>

  datatype Enr = Enr(node: nat, seqNo: nat, pairs: Pairs)

  datatype SaveResult = Saved | FailedBeforeRename | FailedAfterRename(durable: bool)

  datatype Process = Down | Up(served: Enr, persistedSeq: nat, savePending: bool)

  /** `history` lists every record ever served, in order. */
  datatype World = World(me: nat, disk: Option<Enr>, durable: Option<Enr>, process: Process, history: seq<Enr>)

  datatype Event =
    | Start(pairs: Pairs, save: SaveResult)
    | Update(inserts: seq<(nat, nat)>, save: SaveResult)
    | Persist(save: SaveResult)
    | SocketChange(learned: Pairs, dropped: set<nat>)
    | Crash(powerLoss: bool)

  // ---------- Steps ----------

  function SaveEnr(w: World, enr: Enr, save: SaveResult): World {
    match save
    case Saved => w.(disk := Some(enr), durable := Some(enr))
    case FailedBeforeRename => w
    case FailedAfterRename(durable) => w.(disk := Some(enr), durable := if durable then Some(enr) else w.durable)
  }

  /** The saved record, unless it belongs to another node. */
  function Previous(w: World): Option<Enr> {
    if w.disk.Some? && w.disk.value.node == w.me then w.disk else None
  }

  /** A freshly built record with its sequence continued from the saved one. */
  function ContinueSeq(enr: Enr, previous: Option<Enr>): Result<Enr> {
    if previous.None? || previous.value.node != enr.node then Ok(enr)
    else if previous.value.pairs == enr.pairs then Ok(previous.value)
    else if previous.value.seqNo >= U64_MAX then Err("ENR sequence number overflow")
    else
      var next := previous.value.seqNo + 1;
      Ok(enr.(seqNo := if next > enr.seqNo then next else enr.seqNo))
  }

  /** Each insert raises the sequence number by one. */
  function InsertAll(enr: Enr, inserts: seq<(nat, nat)>): Result<Enr>
    decreases |inserts|
  {
    if inserts == [] then Ok(enr)
    else if enr.seqNo >= U64_MAX then Err("sequence number too high")
    else InsertAll(enr.(seqNo := enr.seqNo + 1, pairs := enr.pairs[inserts[0].0 := inserts[0].1]), inserts[1..])
  }

  /** discv5's own edit of its sockets: entries set and dropped at once, with the next number. */
  function EditSockets(enr: Enr, learned: Pairs, dropped: set<nat>): Result<Enr> {
    if enr.seqNo >= U64_MAX then Err("sequence number too high")
    else Ok(enr.(seqNo := enr.seqNo + 1, pairs := (enr.pairs - dropped) + learned))
  }

  function Serve(w: World, enr: Enr, persistedSeq: nat, savePending: bool): World {
    w.(process := Up(enr, persistedSeq, savePending), history := w.history + [enr])
  }

  function Next(w: World, e: Event): World {
    match e
    case Start(pairs, save) =>
      if w.process.Up? then w
      else
        var enr := ContinueSeq(Enr(w.me, 1, pairs), Previous(w));
        if enr.Err? then w
        else
          var w1 := SaveEnr(w, enr.value, save);
          if save.Saved? then Serve(w1, enr.value, enr.value.seqNo, false) else w1
    case Update(inserts, save) =>
      if w.process.Down? then w
      else
        var candidate := InsertAll(w.process.served, inserts);
        if candidate.Err? then w
        else
          var w1 := SaveEnr(w, candidate.value, save);
          if save.Saved? then Serve(w1, candidate.value, candidate.value.seqNo, false) else w1
    case Persist(save) =>
      if w.process.Down? then w
      else
        var p := w.process;
        var changed := p.served.seqNo != p.persistedSeq;
        if changed || p.savePending then
          SaveEnr(w, p.served, save).(process := p.(persistedSeq := p.served.seqNo, savePending := !save.Saved?))
        else w
    case SocketChange(learned, dropped) =>
      if w.process.Down? then w
      else
        var edited := EditSockets(w.process.served, learned, dropped);
        if edited.Err? then w else Serve(w, edited.value, w.process.persistedSeq, w.process.savePending)
    case Crash(powerLoss) =>
      w.(process := Down, disk := if powerLoss then w.durable else w.disk)
  }

  function Exec(w: World, events: seq<Event>): World
    decreases |events|
  {
    if events == [] then w else Next(Exec(w, events[..|events| - 1]), events[|events| - 1])
  }

  // ---------- What is guaranteed ----------

  /** The file holds nothing, another node's record, or a record of this node with a 64-bit number. */
  ghost predicate Loadable(w: World, file: Option<Enr>) {
    file.Some? && file.value.node == w.me ==> Numbered(w, file.value)
  }

  /** Nothing runs and nothing was served; the disk may hold a record of this node from before. */
  ghost predicate Initial(w: World) {
    w.process.Down? && w.history == [] && Loadable(w, w.disk) && Loadable(w, w.durable)
  }

  /** The file lets a restart continue after `r`: it holds `r` or a later record of the same node. */
  ghost predicate Covers(file: Option<Enr>, r: Enr) {
    file.Some? && file.value.node == r.node && (r.seqNo < file.value.seqNo || r == file.value)
  }

  /** A crash at this point loses no served record. */
  ghost predicate CrashSafe(w: World) {
    forall r :: r in w.history ==> Covers(w.disk, r) && Covers(w.durable, r)
  }

  /** Served numbers never decrease, and one number belongs to one record. */
  ghost predicate Ordered(history: seq<Enr>) {
    forall i, j :: 0 <= i < j < |history| ==>
      history[i].seqNo < history[j].seqNo || history[i] == history[j]
  }

  ghost predicate Numbered(w: World, r: Enr) {
    r.node == w.me && 1 <= r.seqNo <= U64_MAX
  }

  ghost predicate Inv(w: World) {
    && Ordered(w.history)
    && (forall r :: r in w.history ==> Numbered(w, r))
    && Loadable(w, w.disk) && Loadable(w, w.durable)
    && (w.process.Down? ==> CrashSafe(w))
    && (w.process.Up? ==>
          var p := w.process;
          && p.served in w.history
          && (forall r :: r in w.history ==> r.seqNo < p.served.seqNo || r == p.served)
          && p.persistedSeq <= p.served.seqNo
          && (!p.savePending && p.persistedSeq == p.served.seqNo ==> CrashSafe(w)))
  }

  lemma {:induction false} InsertAllGrows(enr: Enr, inserts: seq<(nat, nat)>)
    requires enr.seqNo <= U64_MAX
    ensures InsertAll(enr, inserts).Ok? <==> enr.seqNo + |inserts| <= U64_MAX
    ensures InsertAll(enr, inserts).Ok? ==>
      var r := InsertAll(enr, inserts).value;
      r.node == enr.node && r.seqNo == enr.seqNo + |inserts| && (inserts == [] ==> r == enr)
    decreases |inserts|
  {
    if inserts != [] && enr.seqNo < U64_MAX {
      InsertAllGrows(enr.(seqNo := enr.seqNo + 1, pairs := enr.pairs[inserts[0].0 := inserts[0].1]), inserts[1..]);
    }
  }

  /** The last value given for `key`. */
  ghost function LastValue(inserts: seq<(nat, nat)>, key: nat): Option<nat> {
    if inserts == [] then None
    else
      var later := LastValue(inserts[1..], key);
      if later.Some? then later else if inserts[0].0 == key then Some(inserts[0].1) else None
  }

  /** Entry by entry: a key has the last value given for it, or what it had. */
  lemma {:induction false} InsertAllExactly(enr: Enr, inserts: seq<(nat, nat)>, key: nat)
    requires InsertAll(enr, inserts).Ok?
    ensures var pairs, given := InsertAll(enr, inserts).value.pairs, LastValue(inserts, key);
      && (key in pairs <==> given.Some? || key in enr.pairs)
      && (key in pairs ==> pairs[key] == if given.Some? then given.value else enr.pairs[key])
    decreases |inserts|
  {
    if inserts != [] {
      var one := enr.(seqNo := enr.seqNo + 1, pairs := enr.pairs[inserts[0].0 := inserts[0].1]);
      InsertAllExactly(one, inserts[1..], key);
    }
  }

  lemma InsertOne(enr: Enr, key: nat, value: nat)
    requires enr.seqNo < U64_MAX
    ensures InsertAll(enr, [(key, value)]) == Ok(enr.(seqNo := enr.seqNo + 1, pairs := enr.pairs[key := value]))
  {
    assert [(key, value)][1..] == [];
  }

  lemma AppendOrdered(history: seq<Enr>, enr: Enr)
    requires Ordered(history) && forall r :: r in history ==> r.seqNo < enr.seqNo || r == enr
    ensures Ordered(history + [enr])
  {
    assert forall i :: 0 <= i < |history| ==> history[i] in history;
  }

  /** Serving a saved record that follows everything served before. */
  lemma SavedAndServed(w: World, enr: Enr)
    requires Inv(w) && Numbered(w, enr)
    requires forall r :: r in w.history ==> r.seqNo < enr.seqNo || r == enr
    ensures var w' := Serve(SaveEnr(w, enr, Saved), enr, enr.seqNo, false); Inv(w') && CrashSafe(w')
  {
    AppendOrdered(w.history, enr);
  }

  /** A save of such a record that fails leaves the old file or a file that covers everything served. */
  lemma FailedSave(w: World, enr: Enr, save: SaveResult)
    requires Inv(w) && Numbered(w, enr)
    requires forall r :: r in w.history ==> r.seqNo < enr.seqNo || r == enr
    ensures Inv(SaveEnr(w, enr, save)) && (CrashSafe(w) ==> CrashSafe(SaveEnr(w, enr, save)))
  {
  }

  lemma StartKeepsInv(w: World, pairs: Pairs, save: SaveResult)
    requires Inv(w) && w.process.Down?
    ensures Inv(Next(w, Start(pairs, save)))
    ensures CrashSafe(Next(w, Start(pairs, save)))
  {
    var enr := ContinueSeq(Enr(w.me, 1, pairs), Previous(w));
    if enr.Ok? {
      SavedAndServed(w, enr.value);
      FailedSave(w, enr.value, save);
    }
  }

  /** What a start that can save serves: without a record of this node number 1; a record that has not changed as
      it is, number included; a changed one with the next number; and nothing if there is no next number. */
  lemma StartServesExactly(w: World, pairs: Pairs)
    requires Inv(w) && w.process.Down?
    ensures var w' := Next(w, Start(pairs, Saved));
      if w.disk.None? || w.disk.value.node != w.me then
        w'.process == Up(Enr(w.me, 1, pairs), 1, false)
      else if w.disk.value.pairs == pairs then
        w'.process == Up(w.disk.value, w.disk.value.seqNo, false)
      else if w.disk.value.seqNo == U64_MAX then
        w' == w
      else
        w'.process == Up(Enr(w.me, w.disk.value.seqNo + 1, pairs), w.disk.value.seqNo + 1, false)
    ensures forall save: SaveResult :: !save.Saved? ==> Next(w, Start(pairs, save)).process.Down?
  {
  }

  /** What an update that can save serves: every insert applied in order, the number raised by their count;
      and the file holds the same record. Otherwise what is served stays. */
  lemma UpdateServesExactly(w: World, inserts: seq<(nat, nat)>, save: SaveResult)
    requires Inv(w) && w.process.Up?
    ensures var w', served := Next(w, Update(inserts, save)), w.process.served;
      if save.Saved? && served.seqNo + |inserts| <= U64_MAX then
        && w'.process.Up? && w'.process.served.seqNo == served.seqNo + |inserts|
        && w'.process.persistedSeq == w'.process.served.seqNo && !w'.process.savePending
        && w'.disk == w'.durable == Some(w'.process.served)
        && w'.process.served == InsertAll(served, inserts).value
      else w'.process == w.process && w'.history == w.history
  {
    InsertAllGrows(w.process.served, inserts);
  }

  lemma UpdateKeepsInv(w: World, inserts: seq<(nat, nat)>, save: SaveResult)
    requires Inv(w) && w.process.Up?
    ensures Inv(Next(w, Update(inserts, save)))
    ensures (save.Saved? && InsertAll(w.process.served, inserts).Ok?) || CrashSafe(w) ==>
      CrashSafe(Next(w, Update(inserts, save)))
  {
    InsertAllGrows(w.process.served, inserts);
    var candidate := InsertAll(w.process.served, inserts);
    if candidate.Ok? {
      SavedAndServed(w, candidate.value);
      FailedSave(w, candidate.value, save);
    }
  }

  lemma PersistKeepsInv(w: World, save: SaveResult)
    requires Inv(w) && w.process.Up?
    ensures Inv(Next(w, Persist(save)))
    ensures save.Saved? || CrashSafe(w) ==> CrashSafe(Next(w, Persist(save)))
  {
    FailedSave(w, w.process.served, save);
  }

  /** Serving a later record without saving it. */
  lemma ServedUnsaved(w: World, enr: Enr)
    requires Inv(w) && w.process.Up? && Numbered(w, enr) && enr.seqNo > w.process.served.seqNo
    ensures Inv(Serve(w, enr, w.process.persistedSeq, w.process.savePending))
  {
    var served := w.process.served;
    assert forall r :: r in w.history ==> r.seqNo <= served.seqNo;
    AppendOrdered(w.history, enr);
  }

  /** A change of discv5's own, entry by entry: learned values replace, dropped entries go, the rest stays, and
      the number rises by one, all without a save. */
  lemma SocketChangeExactly(w: World, learned: Pairs, dropped: set<nat>, key: nat)
    requires w.process.Up? && w.process.served.seqNo < U64_MAX
    ensures var w', pairs := Next(w, SocketChange(learned, dropped)), w.process.served.pairs;
      && w'.process.Up? && w'.disk == w.disk && w'.durable == w.durable
      && w'.process.served.seqNo == w.process.served.seqNo + 1
      && (key in w'.process.served.pairs <==> key in learned || (key in pairs && key !in dropped))
      && (key in w'.process.served.pairs ==>
            w'.process.served.pairs[key] == if key in learned then learned[key] else pairs[key])
  {
  }

  lemma SocketChangeKeepsInv(w: World, learned: Pairs, dropped: set<nat>)
    requires Inv(w) && w.process.Up?
    ensures Inv(Next(w, SocketChange(learned, dropped)))
  {
    var edited := EditSockets(w.process.served, learned, dropped);
    if edited.Ok? {
      ServedUnsaved(w, edited.value);
    }
  }

  /** Every step keeps the invariant, provided a crash hits no unsaved served record. */
  lemma StepKeepsInv(w: World, e: Event)
    requires Inv(w) && (e.Crash? ==> CrashSafe(w))
    ensures Inv(Next(w, e))
    ensures !e.SocketChange? && CrashSafe(w) ==> CrashSafe(Next(w, e))
  {
    match e {
      case Start(pairs, save) => if w.process.Down? { StartKeepsInv(w, pairs, save); }
      case Update(inserts, save) => if w.process.Up? { UpdateKeepsInv(w, inserts, save); }
      case Persist(save) => if w.process.Up? { PersistKeepsInv(w, save); }
      case SocketChange(learned, dropped) => if w.process.Up? { SocketChangeKeepsInv(w, learned, dropped); }
      case Crash(_) =>
    }
  }

  /** Every crash of the run happens where no served record is unsaved. */
  ghost predicate SafeCrashes(w: World, events: seq<Event>) {
    forall i :: 0 <= i < |events| && events[i].Crash? ==> CrashSafe(Exec(w, events[..i]))
  }

  /** Over every run whose crashes are safe, served numbers never decrease and none is reused. */
  lemma {:induction false} SafeRun(w: World, events: seq<Event>)
    requires Initial(w) && SafeCrashes(w, events)
    ensures Inv(Exec(w, events)) && Ordered(Exec(w, events).history)
    decreases |events|
  {
    if events != [] {
      var n := |events| - 1;
      assert forall i :: 0 <= i <= n ==> events[..n][..i] == events[..i];
      SafeRun(w, events[..n]);
      StepKeepsInv(Exec(w, events[..n]), events[n]);
    }
  }

  /** Save before publish: without discv5's own edits every crash is safe, so over every run of
      updates, failed saves, crashes and restarts the disk is never behind the served record, served
      numbers never decrease and no number is served with two records. */
  lemma {:induction false} SaveBeforePublish(w: World, events: seq<Event>)
    requires Initial(w) && forall i :: 0 <= i < |events| ==> !events[i].SocketChange?
    ensures var w' := Exec(w, events);
      && Inv(w') && CrashSafe(w') && Ordered(w'.history)
      && (w'.process.Up? ==> Covers(w'.disk, w'.process.served) && w'.process.served.seqNo <= w'.disk.value.seqNo)
    decreases |events|
  {
    if events != [] {
      var n := |events| - 1;
      SaveBeforePublish(w, events[..n]);
      StepKeepsInv(Exec(w, events[..n]), events[n]);
    }
  }

  // ---------- When a crash is not safe ----------

  /** Sequence numbers can climb by single updates to any target without touching key 0. */
  lemma {:induction false} Climb(w: World, target: nat) returns (events: seq<Event>)
    requires w.process.Up? && w.process.served.seqNo <= target <= U64_MAX
    requires w.process.served in w.history
    ensures forall e :: e in events ==> e.Update?
    ensures var w' := Exec(w, events);
      && w'.process.Up? && w'.process.served.seqNo == target && w'.process.served in w'.history
      && w.history <= w'.history
      && (0 in w.process.served.pairs ==>
            0 in w'.process.served.pairs && w'.process.served.pairs[0] == w.process.served.pairs[0])
    decreases target
  {
    if w.process.served.seqNo == target {
      events := [];
    } else {
      var before := Climb(w, target - 1);
      var w1 := Exec(w, before);
      var step := Update([(1, target)], Saved);
      events := before + [step];
      assert events[..|events| - 1] == before;
      InsertOne(w1.process.served, 1, target);
    }
  }

  lemma {:induction false} ExecAppend(w: World, a: seq<Event>, b: seq<Event>)
    ensures Exec(w, a + b) == Exec(Exec(w, a), b)
    decreases |b|
  {
    if b == [] {
      assert a + b == a;
    } else {
      var n := |b| - 1;
      assert (a + b)[..|a + b| - 1] == a + b[..n];
      ExecAppend(w, a, b[..n]);
    }
  }

  ghost predicate Reused(history: seq<Enr>) {
    exists r, r' :: r in history && r' in history && r.seqNo == r'.seqNo && r != r'
  }

  /** After a crash that left `r` uncovered, some start and updates serve its number again. */
  lemma RestartReuses(w: World, r: Enr) returns (events: seq<Event>)
    requires w.process.Down? && r in w.history && Numbered(w, r) && !Covers(w.disk, r)
    requires w.disk.Some? && w.disk.value.node == w.me ==> Numbered(w, w.disk.value)
    ensures Reused(Exec(w, events).history) && forall e :: e in events ==> !e.Crash?
  {
    var d := Previous(w);
    if d.Some? && d.value.seqNo == r.seqNo {
      events := [Start(d.value.pairs, Saved)];
      assert events[..0] == [];
      var w' := Exec(w, events);
      assert w' == Next(Exec(w, []), events[0]);
      assert d.value in w'.history && r in w'.history;
    } else {
      var v := Fresh(r.pairs, if d.Some? then d.value.pairs else map[]);
      var first := [Start(map[0 := v], Saved)];
      var w1 := Exec(w, first);
      assert first[..0] == [];
      assert w1 == Next(Exec(w, []), first[0]);
      var rest := Climb(w1, r.seqNo);
      events := first + rest;
      ExecAppend(w, first, rest);
      var w' := Exec(w, events);
      assert w1.history <= w'.history && w1.history[..|w.history|] == w.history;
      assert forall i :: 0 <= i < |w.history| ==> w'.history[i] == w.history[i];
      assert r in w'.history && w'.process.served in w'.history;
      assert w'.process.served.pairs[0] == v;
    }
  }

  /** A value for key 0 that neither map has. */
  function Fresh(a: Pairs, b: Pairs): (v: nat)
    ensures !(0 in a && a[0] == v) && !(0 in b && b[0] == v)
  {
    var x := if 0 in a then a[0] + 1 else 0;
    if 0 in b && b[0] == x then x + (if 0 in a then a[0] + 1 else 0) + 1 else x
  }

  /** Crashing here and going on with `events` serves no number with two records. */
  ghost predicate HarmlessCrash(w: World, powerLoss: bool, events: seq<Event>) {
    SafeCrashes(Next(w, Crash(powerLoss)), events) ==> !Reused(Exec(Next(w, Crash(powerLoss)), events).history)
  }

  /** Both copies of the file cover the record served now. */
  ghost predicate ServedIsSaved(w: World)
    requires w.process.Up?
  {
    Covers(w.disk, w.process.served) && Covers(w.durable, w.process.served)
  }

  /** Covering the record served now is covering all that were ever served. */
  lemma ServedIsSavedIsEnough(w: World)
    requires Inv(w) && w.process.Up?
    ensures CrashSafe(w) <==> ServedIsSaved(w)
  {
  }

  /** The exact condition: from a running state, no crash and restart can ever reuse a served number
      if and only if the file, as seen now and as it survives a power loss, covers the served record. */
  lemma CrashSafeExactly(w: World)
    requires Inv(w) && w.process.Up?
    ensures ServedIsSaved(w) <==> forall powerLoss: bool, events: seq<Event> :: HarmlessCrash(w, powerLoss, events)
  {
    ServedIsSavedIsEnough(w);
    if CrashSafe(w) {
      forall powerLoss: bool, events: seq<Event> ensures HarmlessCrash(w, powerLoss, events) {
        if SafeCrashes(Next(w, Crash(powerLoss)), events) {
          SafeFromInv(Next(w, Crash(powerLoss)), events);
          OrderedNotReused(Exec(Next(w, Crash(powerLoss)), events).history);
        }
      }
    } else {
      var r :| r in w.history && !(Covers(w.disk, r) && Covers(w.durable, r));
      var powerLoss := Covers(w.disk, r);
      var events := RestartReuses(Next(w, Crash(powerLoss)), r);
      assert SafeCrashes(Next(w, Crash(powerLoss)), events);
      assert !HarmlessCrash(w, powerLoss, events);
    }
  }

  /** The unsafe states are real: on any machine with two numbers left, a start and one change of discv5's
      own lead to one, and from there a crash and a restart serve a number again with another record. */
  lemma SocketChangeIsUnsafe(w: World, pairs: Pairs, learned: Pairs, dropped: set<nat>) returns (after: seq<Event>)
    requires Initial(w) && (Previous(w).Some? ==> Previous(w).value.seqNo + 2 <= U64_MAX)
    ensures var w' := Exec(w, [Start(pairs, Saved), SocketChange(learned, dropped)]);
      && Inv(w') && w'.process.Up? && !ServedIsSaved(w')
      && Reused(Exec(Next(w', Crash(false)), after).history)
  {
    var first, second := Start(pairs, Saved), SocketChange(learned, dropped);
    var events := [first, second];
    assert events[..1] == [first] && [first][..0] == [];
    var w0 := Exec(w, []);
    var w1 := Exec(w, [first]);
    assert w1 == Next(w0, first) && w1.process.Up?;
    var s := w1.process.served;
    assert s.seqNo < U64_MAX && w1.disk == Some(s);
    var w' := Exec(w, events);
    assert w' == Next(w1, second);
    SafeRun(w, events);
    var r := w'.process.served;
    assert r.seqNo == s.seqNo + 1 && w'.disk == Some(s);
    after := RestartReuses(Next(w', Crash(false)), r);
  }

  lemma {:induction false} SafeFromInv(w: World, events: seq<Event>)
    requires Inv(w) && SafeCrashes(w, events)
    ensures Inv(Exec(w, events))
    decreases |events|
  {
    if events != [] {
      var n := |events| - 1;
      assert forall i :: 0 <= i <= n ==> events[..n][..i] == events[..i];
      SafeFromInv(w, events[..n]);
      StepKeepsInv(Exec(w, events[..n]), events[n]);
    }
  }

  lemma OrderedNotReused(history: seq<Enr>)
    requires Ordered(history)
    ensures !Reused(history)
  {
    forall r, r' | r in history && r' in history && r.seqNo == r'.seqNo ensures r == r' {
      var i :| 0 <= i < |history| && history[i] == r;
      var j :| 0 <= j < |history| && history[j] == r';
    }
  }

  // ---------- The fork entries ----------

  const ETH2_KEY: nat := 2
  const NFD_KEY: nat := 3

  /** The record advertises one of the fork pairs `forks`. */
  ghost predicate HasFork(pairs: Pairs, forks: set<(nat, nat)>) {
    ETH2_KEY in pairs && NFD_KEY in pairs && (pairs[ETH2_KEY], pairs[NFD_KEY]) in forks
  }

  /** The event writes both fork entries, from `forks`, or neither. */
  ghost predicate WritesForksTogether(e: Event, forks: set<(nat, nat)>) {
    match e
    case Start(pairs, _) => HasFork(pairs, forks)
    case Update(inserts, _) =>
      (forall x :: x in inserts ==> x.0 != ETH2_KEY && x.0 != NFD_KEY)
      || (exists f :: f in forks && inserts == [(ETH2_KEY, f.0), (NFD_KEY, f.1)])
    case SocketChange(learned, dropped) => {ETH2_KEY, NFD_KEY} !! dropped + learned.Keys
    case _ => true
  }

  lemma {:induction false} InsertAllKeepsFork(enr: Enr, inserts: seq<(nat, nat)>, forks: set<(nat, nat)>)
    requires HasFork(enr.pairs, forks) && InsertAll(enr, inserts).Ok?
    requires forall x :: x in inserts ==> x.0 != ETH2_KEY && x.0 != NFD_KEY
    ensures HasFork(InsertAll(enr, inserts).value.pairs, forks)
    decreases |inserts|
  {
    if inserts != [] {
      var x := inserts[0];
      assert x in inserts;
      InsertAllKeepsFork(enr.(seqNo := enr.seqNo + 1, pairs := enr.pairs[x.0 := x.1]), inserts[1..], forks);
    }
  }

  lemma InsertFork(enr: Enr, f: (nat, nat), forks: set<(nat, nat)>)
    requires f in forks && InsertAll(enr, [(ETH2_KEY, f.0), (NFD_KEY, f.1)]).Ok?
    ensures HasFork(InsertAll(enr, [(ETH2_KEY, f.0), (NFD_KEY, f.1)]).value.pairs, forks)
  {
    var one := enr.(seqNo := enr.seqNo + 1, pairs := enr.pairs[ETH2_KEY := f.0]);
    assert [(ETH2_KEY, f.0), (NFD_KEY, f.1)][1..] == [(NFD_KEY, f.1)];
    assert InsertAll(one, [(NFD_KEY, f.1)]) ==
           InsertAll(one.(seqNo := one.seqNo + 1, pairs := one.pairs[NFD_KEY := f.1]), []);
  }

  /** Peers never see a mixed pair: over every run, also one with crashes and failed saves, each
      served record advertises fork entries that were set together. */
  lemma {:induction false} NoMixedForkPair(w: World, events: seq<Event>, forks: set<(nat, nat)>)
    requires w.process.Down? && w.history == []
    requires forall i :: 0 <= i < |events| ==> WritesForksTogether(events[i], forks)
    ensures forall r :: r in Exec(w, events).history ==> HasFork(r.pairs, forks)
    ensures Exec(w, events).process.Up? ==> HasFork(Exec(w, events).process.served.pairs, forks)
    decreases |events|
  {
    if events != [] {
      var n := |events| - 1;
      NoMixedForkPair(w, events[..n], forks);
      var w1, e := Exec(w, events[..n]), events[n];
      assert WritesForksTogether(e, forks);
      if w1.process.Up? {
        var enr := w1.process.served;
        if e.Update? && InsertAll(enr, e.inserts).Ok? {
          if f :| f in forks && e.inserts == [(ETH2_KEY, f.0), (NFD_KEY, f.1)] {
            InsertFork(enr, f, forks);
          } else {
            InsertAllKeepsFork(enr, e.inserts, forks);
          }
        } else if e.SocketChange? {
          assert ETH2_KEY !in e.dropped + e.learned.Keys && NFD_KEY !in e.dropped + e.learned.Keys;
        }
      }
    }
  }
}
