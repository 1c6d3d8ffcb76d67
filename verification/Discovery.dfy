/**
 The ENR methods of `Discovery` (crates/networking/discv5/src/discovery.rs) as updates of one
 object: the running process's fields, and the disk they are saved to. What a save does is chosen by
 the environment and passed in.
 */
module Discovery {
  import opened Wrappers
  import opened Bits
  import opened EnrStore

  const ATTNETS_KEY: nat := 4
  const SYNCNETS_KEY: nat := 5
  const CGC_KEY: nat := 6

  class Discovery {
    const me: nat
    var disk: Option<Enr>
    var durable: Option<Enr>
    var process: Process
    var attestationSubnets: nat
    ghost var history: seq<Enr>

    ghost function View(): World
      reads this
    {
      World(me, disk, durable, process, history)
    }

    /** A machine on which nothing runs yet, with what is on its disk. */
    constructor (me: nat, disk: Option<Enr>)
      ensures View() == World(me, disk, disk, Down, [])
    {
      this.me, this.disk, this.durable, this.process, this.history := me, disk, disk, Down, [];
      attestationSubnets := 0;
    }

    method Save(enr: Enr, save: SaveResult) returns (ok: bool)
      modifies this`disk, this`durable
      ensures View() == SaveEnr(old(View()), enr, save) && ok == save.Saved?
      ensures disk == if save.FailedBeforeRename? then old(disk) else Some(enr)
      ensures durable == if save.Saved? || save == FailedAfterRename(true) then Some(enr) else old(durable)
    {
      if save != FailedBeforeRename {
        disk := Some(enr);
      }
      if save.Saved? || (save.FailedAfterRename? && save.durable) {
        durable := Some(enr);
      }
      return save.Saved?;
    }

    method Publish(enr: Enr, persistedSeq: nat, savePending: bool)
      modifies this`process, this`history
      ensures View() == Serve(old(View()), enr, persistedSeq, savePending)
    {
      process := Up(enr, persistedSeq, savePending);
      history := history + [enr];
    }

    /** `pairs` are the configured entries; the attestation subnets are among them. */
    method Init(pairs: Pairs, save: SaveResult) returns (ok: bool)
      requires process.Down? && ATTNETS_KEY in pairs
      modifies this
      ensures View() == Next(old(View()), Start(pairs, save))
      ensures ok <==> process.Up?
      ensures ok ==> process.served.pairs == pairs && attestationSubnets == pairs[ATTNETS_KEY]
    {
      var previous := if disk.Some? && disk.value.node == me then disk else None;
      var enr := ContinueSeq(Enr(me, 1, pairs), previous);
      if enr.Err? {
        return false;
      }
      var saved := Save(enr.value, save);
      if !saved {
        return false;
      }
      Publish(enr.value, enr.value.seqNo, false);
      attestationSubnets := pairs[ATTNETS_KEY];
      return true;
    }

    /** Applies the inserts to a copy of the served record, saves the copy, then publishes it. */
    method UpdateLocalEnr(inserts: seq<(nat, nat)>, save: SaveResult) returns (ok: bool)
      requires process.Up?
      modifies this`disk, this`durable, this`process, this`history
      ensures View() == Next(old(View()), Update(inserts, save))
      ensures ok <==> InsertAll(old(process).served, inserts).Ok? && save.Saved?
      ensures !ok ==> process == old(process)
    {
      var candidate := process.served;
      var i := 0;
      while i < |inserts|
        invariant 0 <= i <= |inserts|
        invariant InsertAll(process.served, inserts) == InsertAll(candidate, inserts[i..])
      {
        if candidate.seqNo >= U64_MAX {
          return false;
        }
        candidate := candidate.(seqNo := candidate.seqNo + 1, pairs := candidate.pairs[inserts[i].0 := inserts[i].1]);
        assert inserts[i..][1..] == inserts[i + 1..];
        i := i + 1;
      }
      var saved := Save(candidate, save);
      if !saved {
        return false;
      }
      Publish(candidate, candidate.seqNo, false);
      return true;
    }

    method PersistLocalEnr(save: SaveResult) returns (changed: bool)
      requires process.Up?
      modifies this`disk, this`durable, this`process
      ensures View() == Next(old(View()), Persist(save))
      ensures changed <==> old(process).served.seqNo != old(process).persistedSeq
      ensures process.Up? && process.served == old(process).served && process.persistedSeq == process.served.seqNo
      ensures process.savePending == (!save.Saved? && (changed || old(process).savePending))
      ensures (changed || old(process).savePending) && save.Saved? ==> disk == durable == Some(process.served)
      ensures !changed && !old(process).savePending ==> View() == old(View())
    {
      var enr := process.served;
      changed := enr.seqNo != process.persistedSeq;
      process := process.(persistedSeq := enr.seqNo);
      if changed || process.savePending {
        var saved := Save(enr, save);
        process := process.(savePending := !saved);
      }
    }

    predicate Advertises(key: nat, value: nat)
      reads this
    {
      process.Up? && key in process.served.pairs && process.served.pairs[key] == value
    }

    /** Used for the custody group count and the sync committee subnets. */
    method SetEntry(key: nat, value: nat, save: SaveResult) returns (r: Result<bool>)
      requires process.Up? && (key == CGC_KEY || key == SYNCNETS_KEY)
      modifies this`disk, this`durable, this`process, this`history
      ensures old(Advertises(key, value)) ==> r == Ok(false) && View() == old(View())
      ensures !old(Advertises(key, value)) ==>
        View() == Next(old(View()), Update([(key, value)], save)) && r != Ok(false)
      ensures r.Ok? ==> Advertises(key, value)
    {
      if Advertises(key, value) {
        return Ok(false);
      }
      if process.served.seqNo < U64_MAX {
        InsertOne(process.served, key, value);
      }
      var ok := UpdateLocalEnr([(key, value)], save);
      return if ok then Ok(true) else Err("Failed to update local ENR");
    }

    method SetAttestationSubnets(subnets: nat, save: SaveResult) returns (r: Result<bool>)
      requires process.Up?
      modifies this
      ensures subnets == old(attestationSubnets) ==> r == Ok(false) && View() == Next(old(View()), Persist(save))
      ensures subnets != old(attestationSubnets) ==>
        View() == Next(old(View()), Update([(ATTNETS_KEY, subnets)], save)) && r != Ok(false)
      ensures attestationSubnets == if r.Ok? then subnets else old(attestationSubnets)
      ensures old(Advertises(ATTNETS_KEY, attestationSubnets)) ==> Advertises(ATTNETS_KEY, attestationSubnets)
    {
      if subnets == attestationSubnets {
        var _ := PersistLocalEnr(save);
        return Ok(false);
      }
      if process.served.seqNo < U64_MAX {
        InsertOne(process.served, ATTNETS_KEY, subnets);
      }
      var ok := UpdateLocalEnr([(ATTNETS_KEY, subnets)], save);
      if !ok {
        return Err("Failed to update local ENR attnets");
      }
      attestationSubnets := subnets;
      return Ok(true);
    }

    /** Both fork entries go into one published record. */
    method SetForkEnr(forkId: nat, nextForkDigest: nat, save: SaveResult) returns (r: Result<bool>)
      requires process.Up?
      modifies this`disk, this`durable, this`process, this`history
      ensures old(Advertises(ETH2_KEY, forkId) && Advertises(NFD_KEY, nextForkDigest)) ==>
        r == Ok(false) && View() == old(View())
      ensures !old(Advertises(ETH2_KEY, forkId) && Advertises(NFD_KEY, nextForkDigest)) ==>
        View() == Next(old(View()), Update([(ETH2_KEY, forkId), (NFD_KEY, nextForkDigest)], save)) && r != Ok(false)
      ensures r.Ok? ==> Advertises(ETH2_KEY, forkId) && Advertises(NFD_KEY, nextForkDigest)
    {
      if Advertises(ETH2_KEY, forkId) && Advertises(NFD_KEY, nextForkDigest) {
        return Ok(false);
      }
      ghost var inserts := [(ETH2_KEY, forkId), (NFD_KEY, nextForkDigest)];
      if InsertAll(process.served, inserts).Ok? {
        InsertFork(process.served, (forkId, nextForkDigest), {(forkId, nextForkDigest)});
      }
      var ok := UpdateLocalEnr([(ETH2_KEY, forkId), (NFD_KEY, nextForkDigest)], save);
      return if ok then Ok(true) else Err("Failed to update local ENR");
    }
  }
}
