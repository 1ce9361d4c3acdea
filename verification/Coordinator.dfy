/** The coordinator's shared state and lock regions, from src/Distributed.cpp. */
module Coordinator {
  import opened Wire
  import opened Hex

  /** Epoch and generation counters are unbounded here. */
  datatype Envelope = Envelope(
    epoch: nat, workerId: nat, bootId: Id128, cacheGen: nat, toolchainGen: nat,
    requestId: Id128, attemptId: nat, artifactId: Id128, artifactGen: nat)

  /** A result body; `key` names the compilation key it was computed for. */
  datatype Res = Res(key: string, body: Bytes)

  /** What a worker registered: the boot id its capabilities carry, if it is a string. */
  datatype Worker = Worker(boot: Option<string>, backend: string)

  /** `promises` is the heap of shared promises; `pending` points into it. */
  datatype Shared = Shared(
    epoch: nat, cacheGen: nat, toolchainGen: nat,
    workers: map<nat, Worker>, channels: set<nat>,
    pending: map<string, nat>, reqToKey: map<string, string>, published: map<string, Res>,
    artifactGen: map<string, nat>, promises: seq<Option<Res>>,
    completed: nat, duplicates: nat, dispatched: nat, rejected: nat)

  function Start(epoch: nat, cacheGen: nat, toolchainGen: nat): Shared {
    Shared(epoch, cacheGen, toolchainGen, map[], {}, map[], map[], map[], map[], [], 0, 0, 0, 0)
  }

  // ------------------------------------------------------------- regions

  /** The generation recorded for an artifact is at least this one. */
  predicate Recorded(sh: Shared, artifact: string, gen: nat) {
    artifact in sh.artifactGen && gen <= sh.artifactGen[artifact]
  }

  /** The locked part of `rejectStalePublication` lets this envelope through.
      The attempt id plays no part. */
  predicate Authorized(sh: Shared, e: Envelope) {
    && e.workerId in sh.workers && sh.workers[e.workerId].boot == Some(IdHex(e.bootId))
    && e.artifactGen != 0 && !Recorded(sh, IdHex(e.artifactId), e.artifactGen)
    && IdHex(e.requestId) in sh.pending
  }

  /** The name under which a result is published. */
  function PublicName(sh: Shared, e: Envelope): string {
    var id := IdHex(e.requestId);
    if id in sh.reqToKey then sh.reqToKey[id] else id
  }

  predicate Awaited(sh: Shared, id: string) { id in sh.pending && sh.pending[id] < |sh.promises| }

  function Raised(gens: map<string, nat>, artifact: string, gen: nat): map<string, nat> {
    if artifact !in gens || gen > gens[artifact] then gens[artifact := gen] else gens
  }

  function Publication(sh: Shared, e: Envelope, name: string, res: Res): Shared {
    var id := IdHex(e.requestId);
    var sh1 := sh.(published := sh.published[name := res],
                   artifactGen := Raised(sh.artifactGen, IdHex(e.artifactId), e.artifactGen));
    if Awaited(sh, id) then
      sh1.(promises := sh.promises[sh.pending[id] := Some(res)], pending := sh.pending - {id})
    else sh1.(duplicates := sh.duplicates + 1)
  }

  function Promised(sh: Shared, id: string): Shared {
    sh.(promises := sh.promises + [None], pending := sh.pending[id := |sh.promises|])
  }

  // ------------------------------------------------------------- the class

  class Coordinator {
    var epoch: nat
    var cacheGen: nat
    var toolchainGen: nat
    var workers: map<nat, Worker>
    var channels: set<nat>
    var pending: map<string, nat>
    var reqToKey: map<string, string>
    var published: map<string, Res>
    var artifactGen: map<string, nat>
    var promises: seq<Option<Res>>
    var completed: nat
    var duplicates: nat
    var dispatched: nat
    var rejected: nat

    ghost function View(): Shared
      reads this
    {
      Shared(epoch, cacheGen, toolchainGen, workers, channels, pending, reqToKey, published, artifactGen,
             promises, completed, duplicates, dispatched, rejected)
    }

    constructor (epoch: nat, cacheGen: nat, toolchainGen: nat)
      ensures View() == Start(epoch, cacheGen, toolchainGen)
    {
      this.epoch, this.cacheGen, this.toolchainGen := epoch, cacheGen, toolchainGen;
      workers, channels, pending, reqToKey, published, artifactGen := map[], {}, map[], map[], map[], map[];
      promises, completed, duplicates, dispatched, rejected := [], 0, 0, 0, 0;
    }

    /** The locked checks of `rejectStalePublication`. */
    method RejectLocked(e: Envelope) returns (reject: bool)
      modifies this`rejected
      ensures reject <==> !old(Authorized(View(), e))
      ensures View() == old(View()).(rejected := old(rejected) + if reject then 1 else 0)
    {
      hide IdHex;
      if e.workerId !in workers || workers[e.workerId].boot.None? || workers[e.workerId].boot.value != IdHex(e.bootId) {
        rejected := rejected + 1;
        return true;
      }
      if e.artifactGen == 0 {
        rejected := rejected + 1;
        return true;
      }
      var a := IdHex(e.artifactId);
      if a in artifactGen && e.artifactGen <= artifactGen[a] {
        rejected := rejected + 1;
        return true;
      }
      if IdHex(e.requestId) !in pending {
        rejected := rejected + 1;
        return true;
      }
      return false;
    }

    method RaiseGeneration(a: string, gen: nat)
      modifies this`artifactGen
      ensures artifactGen == Raised(old(artifactGen), a, gen)
    {
      if a !in artifactGen || gen > artifactGen[a] {
        artifactGen := artifactGen[a := gen];
      }
    }

    /** The publish region; an index into `promises` stands for the
        promise pointer. */
    method Publish(e: Envelope, name: string, res: Res)
      modifies this`published, this`artifactGen, this`promises, this`pending, this`duplicates
      ensures View() == Publication(old(View()), e, name, res)
    {
      hide IdHex;
      published := published[name := res];
      RaiseGeneration(IdHex(e.artifactId), e.artifactGen);
      hide Raised;
      FulfilOrCount(IdHex(e.requestId), res);
    }

    method FulfilOrCount(id: string, res: Res)
      modifies this`promises, this`pending, this`duplicates
      ensures old(Awaited(View(), id)) ==>
        promises == old(promises)[old(pending)[id] := Some(res)] && pending == old(pending) - {id} && duplicates == old(duplicates)
      ensures !old(Awaited(View(), id)) ==>
        promises == old(promises) && pending == old(pending) && duplicates == old(duplicates) + 1
    {
      if id in pending && pending[id] < |promises| {
        promises := promises[pending[id] := Some(res)];
        pending := pending - {id};
      } else {
        duplicates := duplicates + 1;
      }
    }

    method Promise(id: string) returns (ref: nat)
      modifies this`promises, this`pending
      ensures ref == old(|promises|) && View() == Promised(old(View()), id)
    {
      ref := |promises|;
      promises := promises + [None];
      pending := pending[id := ref];
    }

    method Register(id: nat, caps: Worker)
      modifies this`workers, this`channels
      ensures View() == old(View()).(workers := old(workers)[id := caps], channels := old(channels) + {id})
    {
      workers := workers[id := caps];
      channels := channels + {id};
    }

    method Disconnect(id: nat)
      modifies this`workers, this`channels
      ensures View() == old(View()).(workers := old(workers) - {id}, channels := old(channels) - {id})
    {
      workers := workers - {id};
      channels := channels - {id};
    }

    /** The first capable worker in id order. */
    method PickWorker(backend: string) returns (r: Option<nat>)
      ensures r.Some? ==> r.value in workers && workers[r.value].backend == backend
      ensures r.Some? ==> forall w :: w in workers && workers[w].backend == backend ==> r.value <= w
      ensures r.None? ==> forall w :: w in workers ==> workers[w].backend != backend
    {
      r := None;
      var todo := workers.Keys;
      while todo != {}
        invariant todo <= workers.Keys
        invariant r.Some? ==> r.value in workers && workers[r.value].backend == backend
        invariant forall w :: w in workers && w !in todo && workers[w].backend == backend ==> r.Some? && r.value <= w
      {
        var w :| w in todo;
        todo := todo - {w};
        if workers[w].backend == backend && (r.None? || w < r.value) {
          r := Some(w);
        }
      }
    }
  }
}
