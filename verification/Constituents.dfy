/** The constituents table and the repository methods that read and change it, each as one atomic statement. */
module Constituents {
  import opened Wrappers

  const INT_MAX: int := 0x7fff_ffff
  const PAGE_SIZE := 100

  type UserId = int
  type PublicId = string

  datatype Row = Row(publicId: PublicId, user: UserId, value: string, meaning: string, examples: string)

  type Table = map<int, Row>

  datatype Constituent = Constituent(publicId: PublicId, value: string, meaning: string, examples: string)

  datatype HttpError = HttpError(status: int, message: string)

  datatype Edit = Edit(value: Option<string>, meaning: Option<string>, examples: Option<string>)

  predicate Belongs(t: Table, id: int, user: UserId) {
    id in t && t[id].user == user
  }

  predicate Matches(t: Table, id: int, user: UserId, publicId: PublicId) {
    Belongs(t, id, user) && t[id].publicId == publicId
  }

  /** Serial ids are positive, and random public ids do not repeat. */
  predicate ValidTable(t: Table) {
    && (forall id | id in t :: 1 <= id <= INT_MAX)
    && (forall i, j | i in t && j in t && t[i].publicId == t[j].publicId :: i == j)
  }

  // ---------- reading ----------

  /** The user's ids below `after`, highest first. */
  function IdsBelow(t: Table, user: UserId, after: int): seq<int>
    decreases if after > 1 then after else 1
  {
    if after <= 1 then []
    else (if Belongs(t, after - 1, user) then [after - 1] else []) + IdsBelow(t, user, after - 1)
  }

  /** `ORDER BY id DESC LIMIT 100`. */
  function Page(t: Table, user: UserId, after: int): seq<int> {
    var ids := IdsBelow(t, user, after);
    if |ids| <= PAGE_SIZE then ids else ids[..PAGE_SIZE]
  }

  function Shown(row: Row): Constituent {
    Constituent(row.publicId, row.value, row.meaning, row.examples)
  }

  predicate Descending(ids: seq<int>) {
    forall i, j | 0 <= i < j < |ids| :: ids[i] > ids[j]
  }

  /** Exactly the ids of the user's rows below `after`, highest first. */
  lemma {:induction false} IdsBelowExactly(t: Table, user: UserId, after: int)
    ensures Descending(IdsBelow(t, user, after))
    ensures forall id :: id in IdsBelow(t, user, after) <==> 1 <= id < after && id in t && t[id].user == user
    decreases if after > 1 then after else 1
  {
    if after > 1 {
      IdsBelowExactly(t, user, after - 1);
      var rest := IdsBelow(t, user, after - 1);
      forall k | 0 <= k < |rest| ensures rest[k] < after - 1 {
        assert rest[k] in rest;
      }
    }
  }

  /** The rest of the list after one of its ids is the list below that id. */
  lemma {:induction false} IdsBelowSplit(t: Table, user: UserId, after: int, k: nat)
    requires k < |IdsBelow(t, user, after)|
    ensures IdsBelow(t, user, IdsBelow(t, user, after)[k]) == IdsBelow(t, user, after)[k + 1..]
    decreases if after > 1 then after else 1
  {
    var rest := IdsBelow(t, user, after - 1);
    if Belongs(t, after - 1, user) {
      if k == 0 {
        assert ([after - 1] + rest)[1..] == rest;
      } else {
        IdsBelowSplit(t, user, after - 1, k - 1);
        assert ([after - 1] + rest)[k + 1..] == rest[k..];
      }
    } else {
      assert [] + rest == rest;
      IdsBelowSplit(t, user, after - 1, k);
    }
  }

  /**
   * A page holds the user's highest ids below the cursor and nothing else; an id of the user that it leaves out below
   * the cursor is below all of a full page.
   */
  lemma PageExactly(t: Table, user: UserId, after: int)
    ensures var page := Page(t, user, after);
            && Descending(page) && |page| <= 100
            && (forall id | id in page :: 1 <= id < after && id in t && t[id].user == user)
            && (forall id | 1 <= id < after && id in t && t[id].user == user && id !in page ::
                  |page| == 100 && id < page[99])
  {
    hide IdsBelow;
    IdsBelowExactly(t, user, after);
    var ids := IdsBelow(t, user, after);
    var page := Page(t, user, after);
    assert forall id | id in page :: id in ids;
    forall id | 1 <= id < after && id in t && t[id].user == user && id !in page
      ensures |page| == 100 && id < page[99]
    {
      var k :| 0 <= k < |ids| && ids[k] == id;
      assert k >= 100;
      assert page[99] == ids[99];
    }
  }

  // ---------- writing ----------

  function EditedRow(row: Row, edit: Edit): Row {
    row.(
      value := if edit.value.Some? then edit.value.value else row.value,
      meaning := if edit.meaning.Some? then edit.meaning.value else row.meaning,
      examples := if edit.examples.Some? then edit.examples.value else row.examples)
  }

  function Edited(t: Table, user: UserId, publicId: PublicId, edit: Edit): Table {
    map id | id in t :: if Matches(t, id, user, publicId) then EditedRow(t[id], edit) else t[id]
  }

  function Removed(t: Table, user: UserId, publicId: PublicId): Table {
    map id | id in t && !Matches(t, id, user, publicId) :: t[id]
  }

  function WithoutUser(t: Table, user: UserId): Table {
    map id | id in t && !Belongs(t, id, user) :: t[id]
  }

  ghost predicate Exists(t: Table, user: UserId, publicId: PublicId) {
    exists id :: Matches(t, id, user, publicId)
  }

  /** Each row of the page is shown with its own public id and fields. */
  predicate IsPage(constituents: seq<Constituent>, t: Table, user: UserId, after: int) {
    PageExactly(t, user, after);
    var page := Page(t, user, after);
    && |constituents| == |page|
    && forall k | 0 <= k < |page| ::
         assert page[k] in page;
         var (shown, row) := (constituents[k], t[page[k]]);
         && shown.publicId == row.publicId && shown.value == row.value
         && shown.meaning == row.meaning && shown.examples == row.examples
  }

  // ---------- exactly what each statement changes ----------

  /** The user's row with this public id gets the fields that are given; nothing else changes, in any row. */
  lemma EditedExactly(t: Table, user: UserId, publicId: PublicId, edit: Edit)
    ensures Edited(t, user, publicId, edit).Keys == t.Keys
    ensures forall id | id in t && !(t[id].user == user && t[id].publicId == publicId) ::
              Edited(t, user, publicId, edit)[id] == t[id]
    ensures forall id | id in t && t[id].user == user && t[id].publicId == publicId ::
              var row := Edited(t, user, publicId, edit)[id];
              && row.publicId == publicId && row.user == user
              && (if edit.value.None? then row.value == t[id].value else Some(row.value) == edit.value)
              && (if edit.meaning.None? then row.meaning == t[id].meaning else Some(row.meaning) == edit.meaning)
              && (if edit.examples.None? then row.examples == t[id].examples else Some(row.examples) == edit.examples)
  {
  }

  /** The user's row with this public id is gone; every other row is there unchanged. */
  lemma RemovedExactly(t: Table, user: UserId, publicId: PublicId)
    ensures !Exists(Removed(t, user, publicId), user, publicId)
    ensures forall id :: id in Removed(t, user, publicId) <==>
                         id in t && !(t[id].user == user && t[id].publicId == publicId)
    ensures forall id | id in Removed(t, user, publicId) :: Removed(t, user, publicId)[id] == t[id]
  {
  }

  /** No row of the user is left; every other row is there unchanged. */
  lemma WithoutUserExactly(t: Table, user: UserId)
    ensures forall id :: id in WithoutUser(t, user) <==> id in t && t[id].user != user
    ensures forall id | id in WithoutUser(t, user) :: WithoutUser(t, user)[id] == t[id]
  {
  }

  /** A cursor, an edit and a removal go by the user and the public id together. */
  lemma ExistsExactly(t: Table, user: UserId, publicId: PublicId)
    ensures Exists(t, user, publicId) <==> exists id :: id in t && t[id].user == user && t[id].publicId == publicId
  {
    if id :| id in t && t[id].user == user && t[id].publicId == publicId {
      assert Matches(t, id, user, publicId);
    }
  }

  // ---------- the code ----------

  class ConstituentsRepo {
    var rows: Table
    var lastId: int

    ghost predicate Valid()
      reads this
    {
      ValidTable(rows) && 0 <= lastId <= INT_MAX && forall id | id in rows :: id <= lastId
    }

    constructor ()
      ensures Valid() && rows == map[]
    {
      rows := map[];
      lastId := 0;
    }

    /** A row that matches a public id; there is at most one, as long as public ids do not repeat. */
    method Find(user: UserId, publicId: PublicId) returns (found: Option<int>)
      ensures found.Some? ==> Matches(rows, found.value, user, publicId)
      ensures found.None? ==> !Exists(rows, user, publicId)
    {
      var ids := set id | id in rows && Matches(rows, id, user, publicId);
      if id :| id in ids {
        return Some(id);
      }
      assert forall id :: Matches(rows, id, user, publicId) ==> id in ids;
      found := None;
    }

    /** The loop that turns the rows of the result into what the client sees. */
    method Collect(ids: seq<int>) returns (constituents: seq<Constituent>)
      requires forall k | 0 <= k < |ids| :: ids[k] in rows
      ensures |constituents| == |ids| && forall k | 0 <= k < |ids| :: constituents[k] == Shown(rows[ids[k]])
    {
      constituents := [];
      for i := 0 to |ids|
        invariant |constituents| == i
        invariant forall k | 0 <= k < i :: constituents[k] == Shown(rows[ids[k]])
      {
        constituents := constituents + [Shown(rows[ids[i]])];
      }
    }

    /** The first statement of `list`: the id of the cursor's row. */
    method LookUpCursor(user: UserId, after: Option<PublicId>) returns (r: Result<int, HttpError>)
      ensures after.None? ==> r == Success(INT_MAX)
      ensures after.Some? && r.Success? ==>
                r.value in rows && rows[r.value].user == user && rows[r.value].publicId == after.value
      ensures after.Some? && r.Failure? ==>
                !Exists(rows, user, after.value) && r.error == HttpError(400, "Invalid cursor")
    {
      var afterId := INT_MAX;
      if after.Some? {
        var found := Find(user, after.value);
        if found.None? {
          return Failure(HttpError(400, "Invalid cursor"));
        }
        afterId := found.value;
      }
      r := Success(afterId);
    }

    /** The second statement of `list`, and the loop over its rows. */
    method QueryPage(user: UserId, afterId: int) returns (constituents: seq<Constituent>)
      ensures IsPage(constituents, rows, user, afterId)
    {
      var ids := Page(rows, user, afterId);
      PageExactly(rows, user, afterId);
      assert forall k | 0 <= k < |ids| :: ids[k] in ids;
      constituents := Collect(ids);
    }

    /** Both statements, with nothing in between. */
    method List(user: UserId, after: Option<PublicId>) returns (r: Result<seq<Constituent>, HttpError>)
      ensures after.None? ==> r.Success? && IsPage(r.value, rows, user, INT_MAX)
      ensures after.Some? && !Exists(rows, user, after.value) ==> r == Failure(HttpError(400, "Invalid cursor"))
      ensures after.Some? && Exists(rows, user, after.value) ==>
                r.Success? && exists id | id in rows && rows[id].user == user && rows[id].publicId == after.value ::
                                IsPage(r.value, rows, user, id)
    {
      if after.Some? {
        ExistsExactly(rows, user, after.value);
      }
      var afterId :- LookUpCursor(user, after);
      var constituents := QueryPage(user, afterId);
      r := Success(constituents);
    }

    /** The id comes from a sequence that fails after the largest int; the public id is drawn at random. */
    method Add(user: UserId, publicId: PublicId, value: string, meaning: string, examples: string)
      returns (r: Option<Constituent>)
      requires Valid() && forall id | id in rows :: rows[id].publicId != publicId
      modifies this
      ensures Valid()
      ensures r.None? <==> old(lastId) == INT_MAX
      ensures r.None? ==> rows == old(rows)
      ensures r.Some? ==>
                && lastId !in old(rows)
                && rows == old(rows)[lastId := Row(publicId, user, value, meaning, examples)]
                && r.value == Constituent(publicId, value, meaning, examples)
    {
      if lastId == INT_MAX {
        return None;
      }
      lastId := lastId + 1;
      rows := rows[lastId := Row(publicId, user, value, meaning, examples)];
      r := Some(Shown(rows[lastId]));
    }

    method EditRow(user: UserId, publicId: PublicId, edit: Edit) returns (r: Result<Constituent, HttpError>)
      requires Valid()
      modifies `rows
      ensures Valid()
      ensures edit == Edit(None, None, None) ==>
                r == Failure(HttpError(400, "No fields to update")) && rows == old(rows)
      ensures edit != Edit(None, None, None) ==>
                && rows == Edited(old(rows), user, publicId, edit)
                && (r.Failure? <==> !Exists(old(rows), user, publicId))
                && (r.Failure? ==> r.error == HttpError(404, "Constituent not found"))
                && (r.Success? ==> exists id :: Matches(old(rows), id, user, publicId) && r.value == Shown(rows[id]))
    {
      if edit.value.None? && edit.meaning.None? && edit.examples.None? {
        return Failure(HttpError(400, "No fields to update"));
      }
      var found := Find(user, publicId);
      rows := Edited(rows, user, publicId, edit);
      if found.None? {
        return Failure(HttpError(404, "Constituent not found"));
      }
      r := Success(Shown(rows[found.value]));
    }

    method Remove(user: UserId, publicId: PublicId) returns (r: Option<HttpError>)
      requires Valid()
      modifies `rows
      ensures Valid() && rows == Removed(old(rows), user, publicId) && !Exists(rows, user, publicId)
      ensures r == if Exists(old(rows), user, publicId) then None else Some(HttpError(404, "Constituent not found"))
    {
      var found := Find(user, publicId);
      rows := Removed(rows, user, publicId);
      r := if found.None? then Some(HttpError(404, "Constituent not found")) else None;
    }

    method RemoveAllForUser(user: UserId)
      requires Valid()
      modifies `rows
      ensures Valid() && rows == WithoutUser(old(rows), user)
    {
      rows := WithoutUser(rows, user);
    }
  }
}
