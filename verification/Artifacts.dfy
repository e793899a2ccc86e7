/** The cache API's PUT and GET as request handlers (internal/cacheapi/handler.go). */
module Artifacts {
  import opened Wrappers
  import opened CatalogSpec
  import opened Storage
  import Catalog

  datatype Status = Ok | BadRequest | NotFound | Conflict | LengthRequired | TooLarge | ServerError

  predicate IsAlnum(c: char) { 'a' <= c <= 'z' || 'A' <= c <= 'Z' || '0' <= c <= '9' }

  /** One to 128 characters, the first alphanumeric. */
  predicate ValidHash(hash: string) {
    && 1 <= |hash| <= 128
    && IsAlnum(hash[0])
    && forall i | 0 <= i < |hash| :: IsAlnum(hash[i]) || hash[i] == '.' || hash[i] == '_' || hash[i] == '-'
  }

  /** The regular expression's character classes as ASCII codes: digits, letters, then also hyphen, dot and underscore. */
  lemma ValidHashCodes(hash: string)
    ensures ValidHash(hash) <==>
            && 1 <= |hash| <= 128
            && (48 <= hash[0] as int <= 57 || 65 <= hash[0] as int <= 90 || 97 <= hash[0] as int <= 122)
            && forall i | 0 <= i < |hash| ::
                 var n := hash[i] as int;
                 48 <= n <= 57 || 65 <= n <= 90 || 97 <= n <= 122 || n == 45 || n == 46 || n == 95
  {
    forall c: char
      ensures IsAlnum(c) <==> 48 <= c as int <= 57 || 65 <= c as int <= 90 || 97 <= c as int <= 122
    {
    }
  }

  /** The early answers of Put; `declared` is the parsed Content-Length, a limit of zero is no limit. */
  function Refusal(hash: string, declared: Option<int>, maxUpload: int): Option<Status> {
    if !ValidHash(hash) then Some(BadRequest)
    else if declared.None? || declared.value < 0 then Some(LengthRequired)
    else if maxUpload > 0 && declared.value > maxUpload then Some(TooLarge)
    else None
  }

  /** Failures of the backing services other than the upload itself. */
  datatype Faults = Faults(onExists: bool, onUpsert: bool, onDelete: bool)

  function StatusOf(r: PutResult): Status {
    match r
    case Stored => Ok
    case AlreadyExists => Conflict
    case Incomplete => BadRequest
    case ReadFailed => ServerError
  }

  /** The answer to a PUT that nothing interleaves with. */
  function PutStatus(objs: Objects, hash: string, declared: Option<int>, up: Upload, maxUpload: int, f: Faults): Status {
    if Refusal(hash, declared, maxUpload).Some? then Refusal(hash, declared, maxUpload).value
    else if f.onExists then ServerError
    else if hash in objs then Conflict
    else if PutOutcome(objs, hash, up, declared.value) != Stored then StatusOf(PutOutcome(objs, hash, up, declared.value))
    else if f.onUpsert then ServerError
    else Ok
  }

  /** When each answer is given. */
  lemma AnswersMean(objs: Objects, hash: string, declared: Option<int>, up: Upload, maxUpload: int, f: Faults)
    ensures var status := PutStatus(objs, hash, declared, up, maxUpload, f);
            var accepted := ValidHash(hash) && declared.Some? && 0 <= declared.value
                            && (maxUpload <= 0 || declared.value <= maxUpload);
            && (status == Ok <==>
                  && accepted && !f.onExists && hash !in objs && |up.body| == declared.value && !up.broken && !f.onUpsert)
            && (status == Conflict <==> accepted && !f.onExists && hash in objs)
            && (status == LengthRequired <==> ValidHash(hash) && (declared.None? || declared.value < 0))
            && (status == TooLarge <==>
                  ValidHash(hash) && declared.Some? && 0 < maxUpload && maxUpload < declared.value)
            && (status == BadRequest <==>
                  || !ValidHash(hash)
                  || (accepted && !f.onExists && hash !in objs
                      && (|up.body| > declared.value || (|up.body| < declared.value && !up.broken))))
            && status != NotFound
  {
  }

  class Handler {
    const backend: Memory<Document>
    const store: Catalog.Object
    const maxUpload: int

    constructor (backend: Memory<Document>, store: Catalog.Object, maxUpload: int)
      ensures this.backend == backend && this.store == store && this.maxUpload == maxUpload
    {
      this.backend, this.store, this.maxUpload := backend, store, maxUpload;
    }

    /**
      Only a PUT answered 200 adds an object and an entry; every other answer leaves both
      stores as they were, except that a failed roll-back leaves the object behind.
     */
    method Put(hash: string, declared: Option<int>, up: Upload, at: Time, info: TaskInfo, f: Faults)
      returns (status: Status)
      requires store.Valid()
      modifies backend`objects, store, store.Cells()
      ensures store.Valid()
      ensures status == PutStatus(old(backend.objects), hash, declared, up, maxUpload, f)
      ensures status == Ok ==>
                && declared.Some? && hash !in old(backend.objects)
                && |up.body| == declared.value
                && backend.objects == old(backend.objects)[hash := StoredObject(up.body, at)]
                && store.Mem() == Apply(old(store.Mem()), Upsert(hash, |up.body|, at, info))
      ensures status != Ok ==>
                && store.Mem() == old(store.Mem())
                && (backend.objects == old(backend.objects)
                    || (f.onUpsert && f.onDelete && hash !in old(backend.objects)
                        && backend.objects == old(backend.objects)[hash := StoredObject(up.body, at)]))
    {
      if !ValidHash(hash) {
        return BadRequest;
      }
      if declared.None? || declared.value < 0 {
        return LengthRequired;
      }
      var size := declared.value;
      if maxUpload > 0 && size > maxUpload {
        return TooLarge;
      }
      if f.onExists {
        return ServerError;
      }
      var present := backend.Exists(hash);
      if present {
        return Conflict;
      }
      status := Accept(hash, size, up, at, info, f);
    }

    /** The upload proper: the body, then the entry, and a roll-back when the entry fails. */
    method Accept(hash: string, size: nat, up: Upload, at: Time, info: TaskInfo, f: Faults) returns (status: Status)
      requires store.Valid() && hash !in backend.objects
      modifies backend`objects, store, store.Cells()
      ensures store.Valid()
      ensures var r := PutOutcome(old(backend.objects), hash, up, size);
              status == if r != Stored then StatusOf(r) else if f.onUpsert then ServerError else Ok
      ensures status == Ok ==> store.Mem() == Apply(old(store.Mem()), Upsert(hash, size, at, info))
      ensures status != Ok ==> store.Mem() == old(store.Mem())
      ensures backend.objects == if status == Ok || (f.onUpsert && f.onDelete) then AfterPut(old(backend.objects), hash, up, size, at)
                                 else old(backend.objects)
    {
      var r := backend.Put(hash, up, size, at);
      if r != Stored {
        return StatusOf(r);
      }
      var catalogued := Catalogue(hash, size, at, info, f);
      if !catalogued {
        RollBack(hash, f);
        assert old(backend.objects)[hash := StoredObject(up.body, at)] - {hash} == old(backend.objects);
        return ServerError;
      }
      return Ok;
    }

    method Catalogue(hash: string, size: int, at: Time, info: TaskInfo, f: Faults) returns (ok: bool)
      requires store.Valid()
      modifies store, store.Cells()
      ensures store.Valid() && ok == !f.onUpsert
      ensures store.Mem() == if ok then Apply(old(store.Mem()), Upsert(hash, size, at, info)) else old(store.Mem())
    {
      ok := !f.onUpsert;
      if ok {
        store.UpsertEntry(hash, size, at, info);
      }
    }

    method RollBack(hash: string, f: Faults)
      modifies backend`objects
      ensures backend.objects == if f.onDelete then old(backend.objects) else old(backend.objects) - {hash}
    {
      if !f.onDelete {
        backend.Delete([hash]);
      }
    }

    /** `fault` is a backend failure other than an absent object: it counts neither way. */
    method Get(hash: string, at: Time, fault: bool) returns (status: Status, body: Option<Bytes>)
      requires store.Valid()
      modifies store, store.Cells()
      ensures store.Valid()
      ensures body == if ValidHash(hash) && !fault && hash in backend.objects then Some(backend.objects[hash].data) else None
      ensures status == if body.Some? then Ok else if ValidHash(hash) && fault then ServerError else NotFound
      ensures store.Mem() == if !ValidHash(hash) || fault then old(store.Mem())
                             else Apply(old(store.Mem()), if body.Some? then Hit(hash, at) else Miss(at))
    {
      if !ValidHash(hash) {
        return NotFound, None;
      }
      if fault {
        return ServerError, None;
      }
      body := backend.Get(hash);
      if body.None? {
        store.RecordMiss(at);
        return NotFound, None;
      }
      store.RecordHit(hash, at);
      return Ok, body;
    }
  }
}
