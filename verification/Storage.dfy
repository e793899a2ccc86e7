/** The in-process backend (internal/storage/storage.go): write-once objects plus overwritable metadata. */
module Storage {
  import opened Wrappers
  import opened CatalogSpec

  type Bytes = seq<bv8>

  datatype StoredObject = StoredObject(data: Bytes, modified: Time)
  type Objects = map<string, StoredObject>

  /** What one reader of an upload yields: some bytes, then end of input or an error. */
  datatype Upload = Upload(body: Bytes, broken: bool)

  datatype PutResult = Stored | AlreadyExists | Incomplete | ReadFailed

  /** A listed object. */
  datatype Listed = Listed(hash: string, size: int, lastModified: Time)

  /**
    At most size+1 bytes are read, so a failure behind that point is never seen;
    the object is stored only when exactly `size` bytes came and the hash is new.
   */
  function PutOutcome(objs: Objects, hash: string, up: Upload, size: nat): PutResult {
    if up.broken && |up.body| <= size then ReadFailed
    else if |up.body| != size then Incomplete
    else if hash in objs then AlreadyExists
    else Stored
  }

  function AfterPut(objs: Objects, hash: string, up: Upload, size: nat, now: Time): Objects {
    if PutOutcome(objs, hash, up, size) == Stored then objs[hash := StoredObject(up.body, now)] else objs
  }

  function Dropped(objs: Objects, hashes: seq<string>): Objects {
    map h | h in objs && h !in hashes :: objs[h]
  }

  /** The listing holds each object once. */
  ghost predicate IsListing(objs: Objects, out: seq<Listed>) {
    && (forall i, j | 0 <= i < j < |out| :: out[i].hash != out[j].hash)
    && (forall i | 0 <= i < |out| ::
          out[i].hash in objs
          && out[i] == Listed(out[i].hash, |objs[out[i].hash].data|, objs[out[i].hash].modified))
    && (forall h | h in objs :: exists i :: 0 <= i < |out| && out[i].hash == h)
  }

  /** When each outcome of a PUT occurs, and what becomes of the objects. */
  lemma PutMeans(objs: Objects, hash: string, up: Upload, size: nat, now: Time)
    ensures var r, objs' := PutOutcome(objs, hash, up, size), AfterPut(objs, hash, up, size, now);
            && (r == ReadFailed <==> up.broken && |up.body| <= size)
            && (r == Incomplete <==> |up.body| > size || (|up.body| < size && !up.broken))
            && (r == AlreadyExists <==> |up.body| == size && !up.broken && hash in objs)
            && (r == Stored <==> |up.body| == size && !up.broken && hash !in objs)
            && (r == Stored ==>
                  && hash in objs' && objs'[hash].data == up.body && objs'[hash].modified == now
                  && forall h | h != hash :: (h in objs' <==> h in objs) && (h in objs' ==> objs'[h] == objs[h]))
            && (r != Stored ==> objs' == objs)
  {
  }

  class Memory<Blob(==)> {
    var objects: Objects
    var meta: map<string, Blob>

    constructor ()
      ensures objects == map[] && meta == map[]
    {
      objects, meta := map[], map[];
    }

    method Exists(hash: string) returns (ok: bool)
      ensures ok <==> hash in objects
    {
      ok := hash in objects;
    }

    method Put(hash: string, up: Upload, size: nat, now: Time) returns (r: PutResult)
      modifies this`objects
      ensures r == PutOutcome(old(objects), hash, up, size)
      ensures objects == AfterPut(old(objects), hash, up, size, now)
    {
      // ReadAll(LimitReader(r, size+1))
      var data := if |up.body| > size then up.body[..size + 1] else up.body;
      if up.broken && |data| < size + 1 {
        return ReadFailed;
      }
      if |data| != size {
        return Incomplete;
      }
      if hash in objects {
        return AlreadyExists;
      }
      objects := objects[hash := StoredObject(data, now)];
      return Stored;
    }

    method Get(hash: string) returns (r: Option<Bytes>)
      ensures r == if hash in objects then Some(objects[hash].data) else None
    {
      if hash !in objects {
        return None;
      }
      return Some(objects[hash].data);
    }

    method Delete(hashes: seq<string>)
      modifies this`objects
      ensures objects == Dropped(old(objects), hashes)
      ensures forall h :: h in objects <==> h in old(objects) && h !in hashes
      ensures forall h | h in objects :: objects[h] == old(objects)[h]
    {
      var i := 0;
      while i < |hashes|
        invariant 0 <= i <= |hashes|
        invariant objects == Dropped(old(objects), hashes[..i])
      {
        assert hashes[..i + 1] == hashes[..i] + [hashes[i]];
        objects := objects - {hashes[i]};
        i := i + 1;
      }
      assert hashes[..i] == hashes;
    }

    method List() returns (out: seq<Listed>)
      ensures IsListing(objects, out)
    {
      out := [];
      var rest := objects.Keys;
      while rest != {}
        invariant rest <= objects.Keys
        invariant IsListing(map h | h in objects && h !in rest :: objects[h], out)
        decreases rest
      {
        var h :| h in rest;
        ghost var before := map k | k in objects && k !in rest :: objects[k];
        ghost var was := out;
        out := out + [Listed(h, |objects[h].data|, objects[h].modified)];
        rest := rest - {h};
        forall k | k in objects && k !in rest
          ensures exists i :: 0 <= i < |out| && out[i].hash == k
        {
          if k == h {
            assert out[|out| - 1].hash == k;
          } else {
            assert k in before;
            var i :| 0 <= i < |was| && was[i].hash == k;
            assert out[i].hash == k;
          }
        }
      }
      assert (map h | h in objects && h !in rest :: objects[h]) == objects;
    }

    method PutMeta(key: string, data: Blob)
      modifies this`meta
      ensures meta == old(meta)[key := data]
    {
      meta := meta[key := data];
    }

    method GetMeta(key: string) returns (r: Option<Blob>)
      ensures r == if key in meta then Some(meta[key]) else None
    {
      if key !in meta {
        return None;
      }
      return Some(meta[key]);
    }
  }
}
