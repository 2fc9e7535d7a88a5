/** The points store: the process-wide pointsMap (main.go:18) that
    ProcessRecepitsHandler writes (main.go:114) and GetPointsHandler reads
    (main.go:130). The uuid the handler draws becomes a parameter that must
    not be in use yet. */
module Service {
  import opened Scoring

  class PointsStore {
    /** Receipt id to points. */
    var points: map<string, int>

    constructor ()
      ensures points == map[]
    {
      points := map[];
    }

    /** Go's pointsMap[id]: the zero value for an id never stored. */
    function Lookup(id: string): (p: int)
      reads this
      ensures p != 0 ==> id in points
    {
      if id in points then points[id] else 0
    }

    /** pointsMap[id] = p for an id not in use. */
    method Put(id: string, p: int)
      requires id !in points
      modifies this
      ensures points == old(points)[id := p]
      ensures Lookup(id) == p
      ensures forall other :: other != id ==> Lookup(other) == old(Lookup(other))
    {
      points := points[id := p];
    }
  }

  /** POST /receipts/process, after decoding: score the receipt, store the
      points under the new id and answer with them. */
  method ProcessReceipt(store: PointsStore, receipt: Receipt, id: string) returns (points: int)
    requires id !in store.points
    modifies store
    ensures points == Score(receipt)
    ensures store.points == old(store.points)[id := points]
    ensures store.Lookup(id) == points
    ensures forall other :: other != id ==> store.Lookup(other) == old(store.Lookup(other))
  {
    points := ComputePoints(receipt);
    store.Put(id, points);
  }

  /** GET /receipts/{id}/points: the stored points, 0 for an unknown id. */
  method GetPoints(store: PointsStore, id: string) returns (points: int)
    ensures id in store.points ==> points == store.points[id]
    ensures id !in store.points ==> points == 0
  {
    points := store.Lookup(id);
  }

  /** A receipt submitted to an empty store is found under its id with its
      score; every other id still reads 0. */
  method SubmitThenLookup(receipt: Receipt, id: string, other: string) returns (found: int, missing: int)
    requires other != id
    ensures found == Score(receipt)
    ensures missing == 0
  {
    var store := new PointsStore();
    var points := ProcessReceipt(store, receipt, id);
    found := GetPoints(store, id);
    missing := GetPoints(store, other);
  }
}
