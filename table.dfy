/** The queries NeighborhoodService runs over the whole table of records, and what the
    create, update and delete operations make of that table, as functions over a sequence. */
module Table {
  import opened Wrappers
  import opened Records

  /** Index of the first record whose id is `id`: the record FirstOrDefault(x => x.Id == id) picks. */
  function FirstIndex(s: seq<Record>, id: int): (r: Option<nat>)
    ensures r.None? <==> forall i | 0 <= i < |s| :: s[i].id != id
    ensures r.Some? ==> r.value < |s| && s[r.value].id == id
    ensures r.Some? ==> forall i | 0 <= i < r.value :: s[i].id != id
  {
    if s == [] then None
    else if s[0].id == id then Some(0)
    else match FirstIndex(s[1..], id)
      case None => None
      case Some(k) => Some(k + 1)
  }

  /** FirstOrDefault(x => x.Id == id): the first record with that id, None standing for null. */
  function FirstMatch(s: seq<Record>, id: int): (r: Option<Record>)
    ensures r.None? <==> forall i | 0 <= i < |s| :: s[i].id != id
    ensures r.Some? ==> r.value in s && r.value.id == id
  {
    match FirstIndex(s, id)
    case None => None
    case Some(k) => Some(s[k])
  }

  /** Where(x => x.Id == id) for a nullable id: C#'s lifted `==` is false whenever `id` is null. */
  function Matching(s: seq<Record>, id: Option<int>): (r: seq<Record>)
    ensures |r| <= |s|
    ensures forall x :: x in r <==> x in s && id == Some(x.id)
    ensures SubsequenceOf(r, s)
  {
    if s == [] then []
    else
      var rest := Matching(s[1..], id);
      assert s == [s[0]] + s[1..];
      if id == Some(s[0].id) then
        assert ([s[0]] + rest)[1..] == rest;
        [s[0]] + rest
      else
        rest
  }

  /** Where(x => x.Id == id).ElementAt(0), where the ArgumentOutOfRangeException raised on an
      empty selection is caught and turned into null (None). */
  function Lookup(s: seq<Record>, id: Option<int>): (r: Option<Record>)
    ensures r.None? <==> forall x | x in s :: id != Some(x.id)
    ensures r.Some? ==> r.value in s && id == Some(r.value.id)
  {
    var selected := Matching(s, id);
    if |selected| == 0 then None else Some(selected[0])
  }

  /** Where(m => m.Id != id): the records DeleteData writes back. */
  function Remaining(s: seq<Record>, id: int): (r: seq<Record>)
    ensures |r| <= |s|
  {
    if s == [] then []
    else (if s[0].id != id then [s[0]] else []) + Remaining(s[1..], id)
  }

  /** The table after UpdateData(data): the first record carrying data's id has its five
      editable fields overwritten in place; without such a record the table is left alone. */
  function Updated(s: seq<Record>, data: Record): (r: seq<Record>)
    ensures |r| == |s|
    ensures forall i | 0 <= i < |s| :: r[i].id == s[i].id && r[i].rest == s[i].rest
    ensures FirstIndex(s, data.id).None? ==> r == s
    ensures FirstIndex(s, data.id).Some? ==>
              forall i | 0 <= i < |s| && i != FirstIndex(s, data.id).value :: r[i] == s[i]
  {
    match FirstIndex(s, data.id)
    case None => s
    case Some(k) => s[k := Edited(s[k], data)]
  }

  /** The table after CreateData: a blank record numbered one past the record count is appended. */
  function Created(s: seq<Record>, blank: Untouched): (r: seq<Record>)
    ensures |r| == |s| + 1 && r[..|s|] == s
    ensures r[|s|].id == |s| + 1 && r[|s|].rest == blank
    ensures r[|s|].name == "" && r[|s|].image == "" && r[|s|].city == ""
    ensures r[|s|].state == "" && r[|s|].shortDesc == ""
  {
    s + [Blank(|s| + 1, blank)]
  }

  /** `a` is `b` with some records left out and the rest in their original order. */
  ghost predicate SubsequenceOf(a: seq<Record>, b: seq<Record>)
    decreases |b|
  {
    if a == [] then true
    else if b == [] then false
    else (a[0] == b[0] && SubsequenceOf(a[1..], b[1..])) || SubsequenceOf(a, b[1..])
  }

  ghost predicate UniqueIds(s: seq<Record>)
  {
    forall i, j | 0 <= i < j < |s| :: s[i].id != s[j].id
  }

  ghost predicate PositiveIds(s: seq<Record>)
  {
    forall i | 0 <= i < |s| :: s[i].id >= 1
  }

  // ----- Lookup by id -----

  /** Selecting with Where and taking element 0 finds the same record as FirstOrDefault. */
  lemma {:induction false} LookupIsFirstMatch(s: seq<Record>, id: int)
    ensures Lookup(s, Some(id)) == FirstMatch(s, id)
  {
    if s == [] {
    } else if s[0].id == id {
      assert Matching(s, Some(id))[0] == s[0];
    } else {
      LookupIsFirstMatch(s[1..], id);
      assert Matching(s, Some(id)) == Matching(s[1..], Some(id));
      FirstMatchOfTail(s, id);
    }
  }

  /** A null id matches no record, so the lookup yields null whatever the table holds. */
  lemma {:induction false} LookupOfNullIsNone(s: seq<Record>)
    ensures Lookup(s, None) == None
  {
    if s != [] {
      LookupOfNullIsNone(s[1..]);
      assert Matching(s, None) == Matching(s[1..], None);
    }
  }

  /** Ids handed out by CreateData are at least 1, so on such a table the id -1 finds nothing. */
  lemma LookupOfNonPositiveIdIsNone(s: seq<Record>, id: int)
    requires PositiveIds(s) && id < 1
    ensures Lookup(s, Some(id)) == None
  {
    LookupIsFirstMatch(s, id);
  }

  // ----- Delete -----

  /** Exactly the records whose id differs from `id` survive the filter. */
  lemma {:induction false} RemainingMembers(s: seq<Record>, id: int)
    ensures forall x :: x in Remaining(s, id) <==> x in s && x.id != id
  {
    if s != [] {
      RemainingMembers(s[1..], id);
      assert s == [s[0]] + s[1..];
    }
  }

  /** The surviving records keep their original relative order. */
  lemma {:induction false} RemainingIsSubsequence(s: seq<Record>, id: int)
    ensures SubsequenceOf(Remaining(s, id), s)
  {
    if s != [] {
      RemainingIsSubsequence(s[1..], id);
      var r := Remaining(s, id);
      if s[0].id != id {
        assert r[0] == s[0] && r[1..] == Remaining(s[1..], id);
      } else {
        assert r == Remaining(s[1..], id);
      }
    }
  }

  /** The table shrinks by exactly the number of records carrying the deleted id. */
  lemma {:induction false} RemainingLength(s: seq<Record>, id: int)
    ensures |Remaining(s, id)| == |s| - |Matching(s, Some(id))|
  {
    if s != [] {
      RemainingLength(s[1..], id);
    }
  }

  /** With no record carrying `id`, the filter writes back the table as it was. */
  lemma {:induction false} RemainingWithoutMatchIsIdentity(s: seq<Record>, id: int)
    requires forall i | 0 <= i < |s| :: s[i].id != id
    ensures Remaining(s, id) == s
  {
    if s != [] {
      RemainingWithoutMatchIsIdentity(s[1..], id);
      assert s == [s[0]] + s[1..];
    }
  }

  /** Deleting an id a second time returns null and leaves the table as the first delete did. */
  lemma DeleteIsIdempotent(s: seq<Record>, id: int)
    ensures Remaining(Remaining(s, id), id) == Remaining(s, id)
    ensures FirstMatch(Remaining(s, id), id) == None
  {
    var r := Remaining(s, id);
    RemainingMembers(s, id);
    assert forall i | 0 <= i < |r| :: r[i] in r;
    RemainingWithoutMatchIsIdentity(r, id);
  }

  /** Deleting one id changes the answer of no lookup by another id. */
  lemma {:induction false} DeletePreservesOtherLookups(s: seq<Record>, id: int, other: int)
    requires other != id
    ensures FirstMatch(Remaining(s, id), other) == FirstMatch(s, other)
  {
    if s != [] {
      DeletePreservesOtherLookups(s[1..], id, other);
      var r := Remaining(s, id);
      if s[0].id == id {
        assert r == Remaining(s[1..], id);
        FirstMatchOfTail(s, other);
      } else {
        assert r == [s[0]] + Remaining(s[1..], id);
        assert r[1..] == Remaining(s[1..], id);
        if s[0].id != other {
          FirstMatchOfTail(s, other);
          FirstMatchOfTail(r, other);
        }
      }
    }
  }

  /** When the head does not carry `id`, the first match is the first match of the tail. */
  lemma FirstMatchOfTail(s: seq<Record>, id: int)
    requires s != [] && s[0].id != id
    ensures FirstMatch(s, id) == FirstMatch(s[1..], id)
  {
    match FirstIndex(s[1..], id) {
      case None =>
      case Some(k) => assert s[1..][k] == s[k + 1];
    }
  }

  /** Two records with one id: deleting removes at least both of them. */
  lemma {:induction false} RemainingDropsTwo(s: seq<Record>, id: int, i: nat, j: nat)
    requires i < j < |s| && s[i].id == id && s[j].id == id
    ensures |Remaining(s, id)| <= |s| - 2
  {
    if i == 0 {
      RemainingDropsOne(s[1..], id, j - 1);
    } else {
      RemainingDropsTwo(s[1..], id, i - 1, j - 1);
    }
  }

  lemma {:induction false} RemainingDropsOne(s: seq<Record>, id: int, j: nat)
    requires j < |s| && s[j].id == id
    ensures |Remaining(s, id)| <= |s| - 1
  {
    if j > 0 {
      RemainingDropsOne(s[1..], id, j - 1);
    }
  }

  // ----- Update -----

  /** Two records carrying the same ids position by position have the same first match index. */
  lemma {:induction false} FirstIndexFollowsIds(s: seq<Record>, t: seq<Record>, id: int)
    requires |s| == |t| && forall i | 0 <= i < |s| :: s[i].id == t[i].id
    ensures FirstIndex(s, id) == FirstIndex(t, id)
  {
    if s != [] {
      assert s[0].id == t[0].id;
      assert forall i | 0 <= i < |s| - 1 :: s[1..][i].id == s[i + 1].id == t[i + 1].id == t[1..][i].id;
      FirstIndexFollowsIds(s[1..], t[1..], id);
    }
  }

  /** Appending a record leaves an existing first match where it was, and otherwise the
      appended record is the first match when it carries the id. */
  lemma {:induction false} FirstIndexOfAppend(s: seq<Record>, x: Record, id: int)
    ensures FirstIndex(s, id).Some? ==> FirstIndex(s + [x], id) == FirstIndex(s, id)
    ensures FirstIndex(s, id).None? && x.id == id ==> FirstIndex(s + [x], id) == Some(|s|)
  {
    if s != [] && s[0].id != id {
      assert (s + [x])[1..] == s[1..] + [x];
      FirstIndexOfAppend(s[1..], x, id);
    } else if s == [] {
      assert [] + [x] == [x];
    }
  }

  /** After an update, the lookup by the same id returns the edited record (or still null). */
  lemma UpdatedLookup(s: seq<Record>, data: Record)
    ensures FirstMatch(s, data.id).None? ==> FirstMatch(Updated(s, data), data.id) == None
    ensures FirstMatch(s, data.id).Some? ==>
              FirstMatch(Updated(s, data), data.id) == Some(Edited(FirstMatch(s, data.id).value, data))
  {
    FirstIndexFollowsIds(s, Updated(s, data), data.id);
  }

  /** Applying the same update twice leaves the table as applying it once. */
  lemma UpdateIsIdempotent(s: seq<Record>, data: Record)
    ensures Updated(Updated(s, data), data) == Updated(s, data)
  {
    FirstIndexFollowsIds(s, Updated(s, data), data.id);
  }

  /** Updating the record with one id changes the answer of no lookup by another id. */
  lemma UpdatePreservesOtherLookups(s: seq<Record>, data: Record, other: int)
    requires other != data.id
    ensures FirstMatch(Updated(s, data), other) == FirstMatch(s, other)
  {
    FirstIndexFollowsIds(s, Updated(s, data), other);
  }

  /** With duplicate ids, update and delete disagree on which records they reach: the update
      edits only the first of them and leaves a later one as it was, while the delete removes
      every one of them. */
  lemma DuplicatesUpdateFirstDeleteAll(s: seq<Record>, data: Record, i: nat, j: nat)
    requires i < j < |s| && s[i].id == data.id && s[j].id == data.id
    ensures Updated(s, data)[j] == s[j]
    ensures forall x | x in Remaining(s, data.id) :: x.id != data.id
    ensures |Remaining(s, data.id)| <= |s| - 2
  {
    RemainingMembers(s, data.id);
    RemainingDropsTwo(s, data.id, i, j);
  }

  // ----- Create -----

  /** When the old table's ids are distinct and lie in 1..count, the new id is fresh. */
  lemma CreateKeepsUniqueIdsWhenDense(s: seq<Record>, blank: Untouched)
    requires UniqueIds(s)
    requires forall i | 0 <= i < |s| :: 1 <= s[i].id <= |s|
    ensures UniqueIds(Created(s, blank))
  {
  }

  /** Deleting record 1 from [1, 2] and then creating hands out id 2 a second time. */
  lemma DeleteThenCreateDuplicatesId(a: Record, b: Record, blank: Untouched)
    requires a.id == 1 && b.id == 2
    ensures UniqueIds([a, b])
    ensures Remaining([a, b], 1) == [b]
    ensures Created(Remaining([a, b], 1), blank) == [b, Blank(2, blank)]
    ensures !UniqueIds(Created(Remaining([a, b], 1), blank))
  {
    assert Remaining([a, b], 1) == [] + Remaining([b], 1);
    assert Remaining([b], 1) == [b] + Remaining([], 1);
    var t := Created([b], blank);
    assert t[0].id == t[1].id;
  }

  /** When an older record already carries the id CreateData hands out (at index `i`), a lookup by that id
      keeps returning the older record and never reaches the created one. */
  lemma CreatedIsShadowed(s: seq<Record>, blank: Untouched, i: nat)
    requires i < |s| && s[i].id == |s| + 1
    ensures FirstMatch(Created(s, blank), |s| + 1) == FirstMatch(s, |s| + 1)
    ensures FirstIndex(Created(s, blank), |s| + 1).Some?
    ensures FirstIndex(Created(s, blank), |s| + 1).value < |s|
  {
    FirstIndexOfAppend(s, Blank(|s| + 1, blank), |s| + 1);
    var k := FirstIndex(s, |s| + 1).value;
    assert Created(s, blank)[k] == s[k];
  }

  /** Otherwise the created record is the one a lookup by its id finds. */
  lemma CreatedIsFound(s: seq<Record>, blank: Untouched)
    requires forall i | 0 <= i < |s| :: s[i].id != |s| + 1
    ensures FirstMatch(Created(s, blank), |s| + 1) == Some(Blank(|s| + 1, blank))
  {
    FirstIndexOfAppend(s, Blank(|s| + 1, blank), |s| + 1);
  }

  /** All three operations keep every id at least 1. */
  lemma OperationsKeepPositiveIds(s: seq<Record>, blank: Untouched, data: Record, id: int)
    requires PositiveIds(s)
    ensures PositiveIds(Created(s, blank))
    ensures PositiveIds(Updated(s, data))
    ensures PositiveIds(Remaining(s, id))
  {
    RemainingMembers(s, id);
    var r := Remaining(s, id);
    assert forall i | 0 <= i < |r| :: r[i] in r;
  }
}
