/**
 * The three HTTP handlers of the vault (routes.py) as methods of an
 * in-memory store holding the two tables. Request fields are the handlers'
 * parameters; the database's outcome (a commit that raises) and the
 * current time are inputs too. Each handler returns the status code and the
 * JSON body it would send.
 */
module Routes {

  import opened Wrappers
  import opened Text
  import opened Models

  /** The JSON bodies the handlers send. */
  datatype Body =
    | Created(record: RecordDict)     // the new record's `to_dict()`
    | Listing(items: seq<RecordDict>) // a history list
    | Error(error: string)            // `{"error": ...}`
    | Message(message: string)        // `{"message": ...}`
    | NotFoundPage                    // Flask's own page for `first_or_404`

  datatype Response = Response(status: int, body: Body)

  const MissingFields := "Missing content or user identification"
  const Unauthorized := "Unauthorized"
  const FailedToDelete := "Failed to delete"
  const Deleted := "Deleted"

  /** Which commit of a save raises, if any; `reason` is the exception's text. */
  datatype SaveFault = NoFault | UserCommitFails(reason: string) | RecordCommitFails(reason: string)

  /**
   * Whether a save's commits raise: the record's commit, or the commit of
   * a user it had to create.
   */
  predicate SaveFails(fault: SaveFault, userExists: bool) {
    fault.RecordCommitFails? || (fault.UserCommitFails? && !userExists)
  }

  /** The content a save stores: `data.get('content', '').strip()`. */
  function RequestContent(content: Option<string>): string {
    Strip(content.GetOr(""), Python)
  }

  /** `user_uuid` is truthy: present and not empty. */
  predicate Present(userId: Option<string>) {
    userId.Some? && userId.value != []
  }

  /** `ORDER BY created_at DESC`. */
  predicate NewestFirst(items: seq<RecordDict>) {
    forall i, j :: 0 <= i < j < |items| ==> items[i].createdAt >= items[j].createdAt
  }

  /** Where `d` goes in a newest-first list: after every strictly newer item. */
  function NewestFirstPosition(items: seq<RecordDict>, d: RecordDict): (i: nat)
    ensures i <= |items|
    ensures forall k :: 0 <= k < i ==> items[k].createdAt > d.createdAt
    ensures i < |items| ==> items[i].createdAt <= d.createdAt
  {
    if items == [] || d.createdAt >= items[0].createdAt then 0
    else 1 + NewestFirstPosition(items[1..], d)
  }

  lemma InsertAtPositionSorted(items: seq<RecordDict>, d: RecordDict, i: nat)
    requires NewestFirst(items) && i <= |items|
    requires forall k :: 0 <= k < i ==> items[k].createdAt > d.createdAt
    requires i < |items| ==> items[i].createdAt <= d.createdAt
    ensures NewestFirst(items[..i] + [d] + items[i..])
  {
    var r := items[..i] + [d] + items[i..];
    forall a, b | 0 <= a < b < |r|
      ensures r[a].createdAt >= r[b].createdAt
    {
      if b < i {
        assert r[a] == items[a] && r[b] == items[b];
      } else if b == i {
        assert r[a] == items[a] && r[b] == d;
      } else if a < i {
        assert r[a] == items[a] && r[b] == items[b - 1];
      } else if a == i {
        assert r[a] == d && r[b] == items[b - 1];
        assert items[i].createdAt >= items[b - 1].createdAt;
      } else {
        assert r[a] == items[a - 1] && r[b] == items[b - 1];
      }
    }
  }

  /** Places `d` in a newest-first list, ahead of every item no newer than it. */
  function InsertNewestFirst(items: seq<RecordDict>, d: RecordDict): (r: seq<RecordDict>)
    requires NewestFirst(items)
    ensures NewestFirst(r)
    ensures multiset(r) == multiset(items) + multiset{d}
  {
    var i := NewestFirstPosition(items, d);
    InsertAtPositionSorted(items, d, i);
    assert items == items[..i] + items[i..];
    items[..i] + [d] + items[i..]
  }

  /** One step of the history scan keeps the listed items equal, as a bag, to the records seen so far. */
  lemma ScanStep(users: map<int, User>, records: map<int, QRRecord>, uid: int, n: int, items: seq<RecordDict>)
    requires Schema(users, records) && NewestFirst(items)
    requires multiset(items) == multiset(OwnedBelow(records, uid, n))
    ensures n in records && records[n].userId == uid ==>
      multiset(InsertNewestFirst(items, ToDict(records[n]))) == multiset(OwnedBelow(records, uid, n + 1))
    ensures !(n in records && records[n].userId == uid) ==>
      multiset(items) == multiset(OwnedBelow(records, uid, n + 1))
  {
    OwnedBelowStep(users, records, uid, n);
    if n in records && records[n].userId == uid {
      var done, d := OwnedBelow(records, uid, n), ToDict(records[n]);
      assert multiset(done + {d}) == multiset(done) + multiset{d};
    }
  }

  /** The store: the `users` and `qr_records` tables and the next id each will hand out. */
  class Vault {
    var users: map<int, User>
    var records: map<int, QRRecord>
    var nextUserId: int
    var nextRecordId: int

    /**
     * The schema's constraints, ids below the next one handed out, and what
     * the handlers guarantee of every row they write: a non-empty
     * `unique_id`, and content that is non-empty and already stripped.
     */
    ghost predicate Valid()
      reads this
    {
      && Schema(users, records)
      && 1 <= nextUserId && 1 <= nextRecordId
      && (forall id :: id in users ==> 1 <= id < nextUserId)
      && (forall id :: id in records ==> 1 <= id < nextRecordId)
      && (forall id :: id in users ==> users[id].uniqueId != [])
      && (forall id :: id in records ==> records[id].content != [] && Trimmed(records[id].content, Python))
    }

    constructor ()
      ensures Valid() && users == map[] && records == map[] && nextUserId == 1 && nextRecordId == 1
    {
      users, records := map[], map[];
      nextUserId, nextRecordId := 1, 1;
    }

    /** `User.query.filter_by(unique_id=uniqueId).first()`, scanning the table in key order. */
    method FindUser(uniqueId: string) returns (found: Option<int>)
      requires Valid()
      ensures found.Some? ==> found.value in users && users[found.value].uniqueId == uniqueId
      ensures found.None? <==> !Known(users, uniqueId)
    {
      var id := 1;
      while id < nextUserId
        invariant 1 <= id <= nextUserId
        invariant forall k :: k in users && k < id ==> users[k].uniqueId != uniqueId
      {
        if id in users && users[id].uniqueId == uniqueId {
          return Some(id);
        }
        id := id + 1;
      }
      return None;
    }

    /**
     * `get_or_create_user`: the existing user with this `unique_id`, or a new
     * one committed on the spot. When that commit raises, nothing is added
     * and the caller's rollback runs.
     */
    method GetOrCreateUser(uniqueId: string, now: int, commitOk: bool) returns (uid: Option<int>)
      requires Valid() && uniqueId != []
      modifies this
      ensures Valid() && records == old(records) && nextRecordId == old(nextRecordId)
      ensures uid.Some? ==> uid.value in users && users[uid.value].uniqueId == uniqueId
      ensures Known(old(users), uniqueId) ==> uid.Some? && users == old(users) && nextUserId == old(nextUserId)
      ensures !Known(old(users), uniqueId) && commitOk ==>
        && uid == Some(old(nextUserId))
        && users == old(users)[old(nextUserId) := User(old(nextUserId), uniqueId, now)]
        && nextUserId == old(nextUserId) + 1
      ensures !Known(old(users), uniqueId) && !commitOk ==>
        uid == None && users == old(users) && nextUserId == old(nextUserId)
    {
      uid := FindUser(uniqueId);
      if uid.None? && commitOk {
        users := users[nextUserId := User(nextUserId, uniqueId, now)];
        uid := Some(nextUserId);
        nextUserId := nextUserId + 1;
      }
    }

    /**
     * `POST /save`: 400 when the stripped content or the user id is missing,
     * otherwise one new record owned by that user (created on demand) and
     * 201 with its rendering; 500 when a commit raises, with the records
     * rolled back (a user committed before the failure stays).
     */
    method Save(content: Option<string>, userId: Option<string>, now: int, fault: SaveFault)
      returns (resp: Response)
      requires Valid()
      modifies this
      ensures Valid()
      ensures resp.status == 400 <==> RequestContent(content) == [] || !Present(userId)
      ensures resp.status == 400 ==> resp.body == Error(MissingFields)
      ensures resp.status == 500 <==> resp.status != 400 && SaveFails(fault, Known(old(users), userId.value))
      ensures resp.status == 500 ==> resp.body == Error(fault.reason)
      ensures resp.status == 201 <==> resp.status != 400 && !SaveFails(fault, Known(old(users), userId.value))
      ensures resp.status != 201 ==> records == old(records)
      ensures users == if resp.status != 400 && !Known(old(users), userId.value) && !fault.UserCommitFails?
                       then old(users)[old(nextUserId) := User(old(nextUserId), userId.value, now)]
                       else old(users)
      ensures nextUserId == old(nextUserId) + (if users == old(users) then 0 else 1)
      ensures nextRecordId == old(nextRecordId) + (if resp.status == 201 then 1 else 0)
      ensures resp.status == 201 ==>
        var id := old(nextRecordId);
        && id !in old(records)
        && id in records
        && records == old(records)[id := records[id]]
        && records[id].content == RequestContent(content)
        && records[id].createdAt == now
        && IsOwner(users, records, userId.value, id)
        && resp.body == Created(ToDict(records[id]))
      ensures resp.status == 201 ==>
        forall u :: Owned(users, records, u)
                    == Owned(old(users), old(records), u) + (if u == userId.value then {resp.body.record} else {})
      ensures resp.status == 201 ==> forall u :: resp.body.record !in Owned(old(users), old(records), u)
      ensures resp.status != 201 ==> forall u :: Owned(users, records, u) == Owned(old(users), old(records), u)
    {
      var stripped := RequestContent(content);
      if stripped == [] || !Present(userId) {
        return Response(400, Error(MissingFields));
      }
      var u := userId.value;
      ghost var users0, records0 := users, records;
      var owner := GetOrCreateUser(u, now, !fault.UserCommitFails?);
      forall v ensures Owned(users, records, v) == Owned(users0, records0, v) {
        if users != users0 {
          OwnedAfterNewUser(users0, records0, users[old(nextUserId)], v);
        }
      }
      if owner.None? || fault.RecordCommitFails? {
        return Response(500, Error(fault.reason));
      }
      var r := AddRecord(stripped, now, owner.value);
      resp := Response(201, Created(ToDict(r)));
    }

    /**
     * `db.session.add(new_record)` and its commit: a record with the next
     * id, owned by `owner`, joins its owner's records.
     */
    method AddRecord(content: string, now: int, owner: int) returns (r: QRRecord)
      requires Valid() && owner in users
      requires content != [] && Trimmed(content, Python)
      modifies this`records, this`nextRecordId
      ensures Valid()
      ensures r == QRRecord(old(nextRecordId), content, now, owner) && r.id !in old(records)
      ensures records == old(records)[r.id := r] && nextRecordId == old(nextRecordId) + 1
      ensures forall v :: Owned(users, records, v)
                       == Owned(users, old(records), v) + (if v == users[owner].uniqueId then {ToDict(r)} else {})
      ensures forall v :: ToDict(r) !in Owned(users, old(records), v)
    {
      r := QRRecord(nextRecordId, content, now, owner);
      forall v ensures Owned(users, records[r.id := r], v) ==
        Owned(users, records, v) + (if v == users[owner].uniqueId then {ToDict(r)} else {})
      {
        OwnedAfterInsert(users, records, r, v);
      }
      records := records[r.id := r];
      nextRecordId := nextRecordId + 1;
    }

    /**
     * `GET /history`: the caller's records, newest first, each rendered by
     * `to_dict`; an empty list for a missing or unknown user id. Nothing is
     * written, so no user is created.
     */
    method History(userId: Option<string>) returns (resp: Response)
      requires Valid()
      ensures resp.status == 200 && resp.body.Listing?
      ensures NewestFirst(resp.body.items)
      ensures multiset(resp.body.items) == multiset(if Present(userId) then Owned(users, records, userId.value) else {})
      ensures !Present(userId) || !Known(users, userId.value) ==> resp.body.items == []
    {
      if !Present(userId) {
        return Response(200, Listing([]));
      }
      var u := userId.value;
      var owner := FindUser(u);
      if owner.None? {
        OwnedByUnknownIsEmpty(users, records, u);
        return Response(200, Listing([]));
      }
      var uid := owner.value;
      var items := CollectOwned(uid);
      OwnedBelowAll(users, records, uid, nextRecordId);
      resp := Response(200, Listing(items));
    }

    /** The scan behind the history query: user `uid`'s records in key order, each placed newest first. */
    method CollectOwned(uid: int) returns (items: seq<RecordDict>)
      requires Valid()
      ensures NewestFirst(items)
      ensures multiset(items) == multiset(OwnedBelow(records, uid, nextRecordId))
    {
      items := [];
      var id := 1;
      while id < nextRecordId
        invariant 1 <= id <= nextRecordId
        invariant NewestFirst(items)
        invariant multiset(items) == multiset(OwnedBelow(records, uid, id))
      {
        ScanStep(users, records, uid, id, items);
        if id in records && records[id].userId == uid {
          items := InsertNewestFirst(items, ToDict(records[id]));
        }
        id := id + 1;
      }
    }

    /**
     * `DELETE /history/<record_id>`: 401 unless the user id names a user;
     * 404 unless the record exists and belongs to that user; otherwise
     * exactly that record goes (200), or nothing does when the commit
     * raises (500).
     */
    method Delete(recordId: int, userId: Option<string>, commitOk: bool) returns (resp: Response)
      requires Valid()
      modifies this
      ensures Valid() && users == old(users)
      ensures nextUserId == old(nextUserId) && nextRecordId == old(nextRecordId)
      ensures resp.status == 401 <==> userId.None? || !Known(users, userId.value)
      ensures resp.status == 401 ==> resp.body == Error(Unauthorized)
      ensures resp.status == 404 <==> resp.status != 401 && !IsOwner(users, old(records), userId.value, recordId)
      ensures resp.status == 404 ==> resp.body == NotFoundPage
      ensures resp.status == 500 <==> resp.status !in {401, 404} && !commitOk
      ensures resp.status == 500 ==> resp.body == Error(FailedToDelete)
      ensures resp.status == 200 <==> resp.status !in {401, 404} && commitOk
      ensures resp.status == 200 ==> resp.body == Message(Deleted) && records == old(records) - {recordId}
      ensures resp.status != 200 ==> records == old(records)
      ensures resp.status == 200 ==>
        forall u :: Owned(users, records, u)
                    == Owned(users, old(records), u) - {ToDict(old(records)[recordId])}
    {
      if userId.None? {
        return Response(401, Error(Unauthorized));
      }
      var owner := FindUser(userId.value);
      if owner.None? {
        return Response(401, Error(Unauthorized));
      }
      if recordId !in records || records[recordId].userId != owner.value {
        return Response(404, NotFoundPage);
      }
      if !commitOk {
        return Response(500, Error(FailedToDelete));
      }
      forall v ensures Owned(users, records - {recordId}, v) == Owned(users, records, v) - {ToDict(records[recordId])} {
        OwnedAfterRemove(users, records, recordId, v);
      }
      records := records - {recordId};
      resp := Response(200, Message(Deleted));
    }

    /**
     * Deleting a user through the ORM: the `delete-orphan` cascade on
     * `User.records` deletes the user's records with it, so no record is
     * left without an owner.
     */
    method DeleteUser(uid: int)
      requires Valid() && uid in users
      modifies this
      ensures Valid()
      ensures users == old(users) - {uid}
      ensures nextUserId == old(nextUserId) && nextRecordId == old(nextRecordId)
      ensures records == map id | id in old(records) && old(records)[id].userId != uid :: old(records)[id]
    {
      var kept := map id | id in records && records[id].userId != uid :: records[id];
      assert forall id :: id in kept ==> id in records && kept[id] == records[id] && kept[id].userId != uid;
      users := users - {uid};
      records := kept;
    }
  }

  /**
   * `get_or_create_user` twice with the same id: the second call finds the
   * user the first returned, and at most one user was added in all.
   */
  method GetOrCreateTwice(v: Vault, uniqueId: string, now: int, later: int)
    returns (first: Option<int>, second: Option<int>)
    requires v.Valid() && uniqueId != []
    modifies v
    ensures v.Valid() && first.Some? && second == first
    ensures v.users == if Known(old(v.users), uniqueId) then old(v.users)
                       else old(v.users)[old(v.nextUserId) := User(old(v.nextUserId), uniqueId, now)]
    ensures v.records == old(v.records)
  {
    first := v.GetOrCreateUser(uniqueId, now, true);
    ghost var users1 := v.users;
    assert Known(users1, uniqueId) by {
      assert first.value in users1 && users1[first.value].uniqueId == uniqueId;
    }
    second := v.GetOrCreateUser(uniqueId, later, true);
    assert second.Some? && v.users == users1;
    assert Schema(v.users, v.records);
    assert v.users[second.value].uniqueId == v.users[first.value].uniqueId;
    assert second.value == first.value;
  }

  /** A successful save followed by a history request lists the new record exactly once. */
  method SaveThenHistory(v: Vault, content: Option<string>, userId: Option<string>, now: int, fault: SaveFault)
    returns (saved: Response, listed: Response)
    requires v.Valid()
    modifies v
    ensures v.Valid()
    ensures listed.status == 200 && listed.body.Listing?
    ensures saved.status == 201 ==> saved.body.Created? && multiset(listed.body.items)[saved.body.record] == 1
    ensures saved.status != 201 ==>
      multiset(listed.body.items) == multiset(if Present(userId) then Owned(old(v.users), old(v.records), userId.value) else {})
  {
    saved := v.Save(content, userId, now, fault);
    listed := v.History(userId);
  }

  /** After a successful delete, a history request no longer lists the record. */
  method DeleteThenHistory(v: Vault, recordId: int, userId: Option<string>, commitOk: bool)
    returns (deleted: Response, listed: Response)
    requires v.Valid()
    modifies v
    ensures v.Valid()
    ensures listed.status == 200 && listed.body.Listing?
    ensures deleted.status == 200 ==> forall k :: 0 <= k < |listed.body.items| ==> listed.body.items[k].id != recordId
  {
    deleted := v.Delete(recordId, userId, commitOk);
    listed := v.History(userId);
    forall k | 0 <= k < |listed.body.items| && Present(userId)
      ensures listed.body.items[k].id in v.records
    {
      assert listed.body.items[k] in multiset(listed.body.items);
      OwnedAreStored(v.users, v.records, userId.value, listed.body.items[k]);
    }
  }
}
