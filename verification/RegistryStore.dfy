/** server/rendezvous/registry_store.cpp: the in-memory ID -> peer record registry. */
module RegistryStore {
  import opened Common
  import opened Net
  import opened Protocol

  const SquatGuardWindow := 90

  datatype PeerRecord = PeerRecord(
    id: RedeskId,
    endpoint: Endpoint,
    staticPubKey: seq<Byte>,
    capabilities: uint32,
    lastSeen: int)

  type Registry = map<RedeskId, PeerRecord>

  /** What upsert answers: malformed records are refused, and so is a key change on a live binding. */
  function UpsertStatus(reg: Registry, rec: PeerRecord): Status {
    if rec.id == [] then Error(InvalidArgument)
    else if |rec.staticPubKey| != StaticPubKeyLen then Error(InvalidArgument)
    else if && rec.id in reg
            && rec.lastSeen - reg[rec.id].lastSeen < SquatGuardWindow
            && reg[rec.id].staticPubKey != rec.staticPubKey then Error(PermissionDenied)
    else Success
  }

  function Upserted(reg: Registry, rec: PeerRecord): Registry {
    if UpsertStatus(reg, rec).Success? then reg[rec.id := rec] else reg
  }

  predicate Stale(rec: PeerRecord, now: int, ttl: int) {
    now - rec.lastSeen > ttl
  }

  function Expired(reg: Registry, now: int, ttl: int): Registry {
    map id | id in reg && !Stale(reg[id], now, ttl) :: reg[id]
  }

  /** Every record is stored under its own non-empty ID and holds a 32-byte key. */
  predicate WellFormed(reg: Registry) {
    forall id :: id in reg ==>
      reg[id].id == id && id != [] && |reg[id].staticPubKey| == StaticPubKeyLen
  }

  /** The registry's rules, in bytes and seconds: a record needs an ID and a 32-byte key; a different key for an ID
      seen less than 90 seconds before is denied; all else replaces what was stored. A sweep keeps what was seen no
      more than ttl seconds before. */
  lemma RegistryLaw(reg: Registry, rec: PeerRecord, id: RedeskId, now: int, ttl: int)
    ensures var malformed := rec.id == [] || |rec.staticPubKey| != 32;
      var squats := && rec.id in reg && rec.lastSeen - reg[rec.id].lastSeen < 90
                    && reg[rec.id].staticPubKey != rec.staticPubKey;
      && UpsertStatus(reg, rec) == (if malformed then Error(InvalidArgument)
                                    else if squats then Error(PermissionDenied) else Success)
      && Upserted(reg, rec) == if malformed || squats then reg else reg[rec.id := rec]
    ensures id in Expired(reg, now, ttl) <==> id in reg && now - reg[id].lastSeen <= ttl
    ensures id in Expired(reg, now, ttl) ==> Expired(reg, now, ttl)[id] == reg[id]
  {
  }

  class InMemoryRegistry {
    var records: Registry

    constructor ()
      ensures records == map[]
    {
      records := map[];
    }

    method Upsert(rec: PeerRecord) returns (status: Status)
      modifies this
      ensures status == UpsertStatus(old(records), rec)
      ensures records == Upserted(old(records), rec)
    {
      if rec.id == [] { return Error(InvalidArgument); }
      if |rec.staticPubKey| != StaticPubKeyLen { return Error(InvalidArgument); }
      if rec.id in records {
        var prior := records[rec.id];
        var priorLive := rec.lastSeen - prior.lastSeen < SquatGuardWindow;
        var keyChanged := prior.staticPubKey != rec.staticPubKey;
        if priorLive && keyChanged { return Error(PermissionDenied); }
      }
      records := records[rec.id := rec];
      return Success;
    }

    /** Age plays no part: a record is found until a sweep removes it. */
    method Lookup(id: RedeskId) returns (rec: Option<PeerRecord>)
      ensures rec == if id in records then Some(records[id]) else None
    {
      if id !in records { return None; }
      return Some(records[id]);
    }

    /** The erasing loop visits the entries in no particular order. */
    method Expire(now: int, ttl: int) returns (removed: nat)
      modifies this
      ensures records == Expired(old(records), now, ttl)
      ensures removed == |old(records)| - |records|
    {
      removed := 0;
      var pending := records.Keys;
      while pending != {}
        invariant pending <= records.Keys <= old(records).Keys
        invariant forall id :: id in records ==> records[id] == old(records)[id]
        invariant forall id :: id in old(records) && id !in pending ==>
          (id in records <==> !Stale(old(records)[id], now, ttl))
        invariant removed == |old(records)| - |records|
      {
        var id :| id in pending;
        pending := pending - {id};
        if now - records[id].lastSeen > ttl {
          ghost var before := records;
          records := records - {id};
          assert records.Keys == before.Keys - {id};
          assert |before.Keys| == |records.Keys| + 1;
          removed := removed + 1;
        }
      }
    }
  }
}
