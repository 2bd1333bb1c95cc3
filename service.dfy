/** NeighborhoodService: the record store behind the web site. The JSON document it reads
    and rewrites is the field `store`; every operation reads the whole table and, when it
    changes anything, writes the whole table back. */
module Services {
  import opened Wrappers
  import opened Records
  import opened Table

  class NeighborhoodService {
    /** The records the JSON document holds, in document order. */
    var store: seq<Record>
    /** How many times the document has been rewritten. */
    ghost var writes: nat
    /** What a freshly constructed record holds in the fields CreateData does not assign. */
    const blank: Untouched

    constructor (initial: seq<Record>, blank: Untouched)
      ensures store == initial && writes == 0 && this.blank == blank
    {
      store := initial;
      writes := 0;
      this.blank := blank;
    }

    /** Reads the whole document. */
    method GetNeighborhoods() returns (s: seq<Record>)
      ensures s == store
    {
      s := store;
    }

    /** Replaces the whole document. */
    method SaveData(s: seq<Record>)
      modifies this
      ensures store == s && writes == old(writes) + 1
    {
      store := s;
      writes := writes + 1;
    }

    /** The first record with the given id, or None (null) when there is none or the id is null. */
    function GetNeighborhoodById(id: Option<int>): (r: Option<Record>)
      reads this
      ensures id.None? ==> r.None?
      ensures id.Some? ==> r == FirstMatch(store, id.value)
    {
      match id
      case None => LookupOfNullIsNone(store); Lookup(store, id)
      case Some(k) => LookupIsFirstMatch(store, k); Lookup(store, id)
    }

    /** Appends a blank record whose id is the record count plus one, saves, and returns it. */
    method CreateData() returns (data: Record)
      modifies this
      ensures data.id == |old(store)| + 1
      ensures data.name == "" && data.image == "" && data.city == ""
      ensures data.state == "" && data.shortDesc == "" && data.rest == blank
      ensures store == old(store) + [data]
      ensures store == Created(old(store), blank)
      ensures writes == old(writes) + 1
    {
      var current := GetNeighborhoods();
      data := Blank(|current| + 1, blank);
      var dataSet := GetNeighborhoods();
      dataSet := dataSet + [data];
      SaveData(dataSet);
    }

    /** Overwrites name, image, city, state and short description of the first record carrying
        data's id and saves; returns that record, or None without saving when no record matches. */
    method UpdateData(data: Record) returns (r: Option<Record>)
      modifies this
      ensures r.None? <==> forall i | 0 <= i < |old(store)| :: old(store)[i].id != data.id
      ensures r.None? ==> store == old(store) && writes == old(writes)
      ensures FirstIndex(old(store), data.id).Some? ==>
                (var k := FirstIndex(old(store), data.id).value;
                 && |store| == |old(store)|
                 && store[k] == Edited(old(store)[k], data)
                 && (forall j | 0 <= j < |store| && j != k :: store[j] == old(store)[j])
                 && r == Some(store[k])
                 && writes == old(writes) + 1)
      ensures r.Some? ==>
                && r.value.id == data.id && r.value.name == data.name
                && r.value.image == data.image && r.value.city == data.city
                && r.value.state == data.state && r.value.shortDesc == data.shortDesc
      ensures r.Some? ==> r == FirstMatch(store, data.id)
      ensures store == Updated(old(store), data)
    {
      var neighborhood := GetNeighborhoods();
      var found := FirstIndex(neighborhood, data.id);
      if found.None? {
        return None;
      }
      var k := found.value;
      var edited := Edited(neighborhood[k], data);
      neighborhood := neighborhood[k := edited];
      SaveData(neighborhood);
      UpdatedLookup(old(store), data);
      r := Some(edited);
    }

    /** Saves the table with every record carrying `id` filtered out, whether or not any did,
        and returns the first such record, or None. */
    method DeleteData(id: int) returns (r: Option<Record>)
      modifies this
      ensures r == FirstMatch(old(store), id)
      ensures forall x :: x in store <==> x in old(store) && x.id != id
      ensures |store| == |old(store)| - |Matching(old(store), Some(id))|
      ensures r.None? ==> store == old(store)
      ensures store == Remaining(old(store), id)
      ensures writes == old(writes) + 1
    {
      var dataSet := GetNeighborhoods();
      r := FirstMatch(dataSet, id);
      var reread := GetNeighborhoods();
      var newDataSet := Remaining(reread, id);
      SaveData(newDataSet);
      RemainingMembers(old(store), id);
      RemainingLength(old(store), id);
      if r.None? {
        RemainingWithoutMatchIsIdentity(old(store), id);
      }
    }
  }

  /** A client run: with records 1 and 2 stored, deleting 1 and then creating hands out id 2
      again, and a lookup by 2 still returns the older record. */
  method DeleteThenCreate(a: Record, b: Record, blank: Untouched)
    returns (created: Record, found: Option<Record>)
    requires a.id == 1 && b.id == 2
    ensures created.id == b.id
    ensures found == Some(b)
  {
    var service := new NeighborhoodService([a, b], blank);
    DeleteThenCreateDuplicatesId(a, b, blank);
    var gone := service.DeleteData(1);
    assert service.store == [b];
    created := service.CreateData();
    assert service.store == [b, created];
    assert FirstIndex(service.store, 2) == Some(0);
    found := service.GetNeighborhoodById(Some(2));
  }
}
