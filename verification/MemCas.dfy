/** The content-addressed store in its simplest form: an append-only map from hash to record. */
module MemCas {
  import opened Bytes
  import opened HamtNode

  datatype Record = Record(ty: RecordType, payload: seq<byte>)

  type Objects = map<Hash, Record>

  /** Storing a record: an address that is taken keeps what it holds. */
  function PutRecord(H: Hasher, objects: Objects, r: Record): Objects {
    if H(r.payload) in objects then objects else objects[H(r.payload) := r]
  }

  function Fetch(objects: Objects, h: Hash): Result<Record> {
    if h in objects then Ok(objects[h]) else Err(NotFound(h))
  }

  ghost predicate Extends(a: Objects, b: Objects) {
    forall h :: h in a ==> h in b && b[h] == a[h]
  }

  /** The records of a run: no two of them share an address. */
  ghost predicate CollisionFree(H: Hasher, U: iset<Record>) {
    forall r, s :: r in U && s in U && H(r.payload) == H(s.payload) ==> r == s
  }

  ghost predicate Within(H: Hasher, objects: Objects, U: iset<Record>) {
    forall h :: h in objects ==> objects[h] in U && H(objects[h].payload) == h
  }

  /** Among the records of one run a stored record is found under its address, and nothing else changes. */
  lemma PutKeeps(H: Hasher, objects: Objects, r: Record, U: iset<Record>)
    requires CollisionFree(H, U) && Within(H, objects, U) && r in U
    ensures var objects' := PutRecord(H, objects, r);
            && Within(H, objects', U)
            && Extends(objects, objects')
            && Fetch(objects', H(r.payload)) == Ok(r)
            && |objects'| <= |objects| + 1
            && (H(r.payload) in objects ==> objects' == objects)
  {}

  class Cas {
    const H: Hasher
    var objects: Objects

    constructor (H: Hasher)
      ensures this.H == H && objects == map[]
    {
      this.H := H;
      objects := map[];
    }

    method Put(ty: RecordType, payload: seq<byte>) returns (h: Hash)
      modifies this
      ensures h == H(payload)
      ensures objects == PutRecord(H, old(objects), Record(ty, payload))
    {
      h := H(payload);
      if h !in objects {
        objects := objects[h := Record(ty, payload)];
      }
    }

    method GetRecord(h: Hash) returns (r: Result<Record>)
      ensures r == Fetch(objects, h)
    {
      if h in objects {
        return Ok(objects[h]);
      }
      return Err(NotFound(h));
    }
  }
}
