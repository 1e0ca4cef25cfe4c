/**
 * The two tables of the store (models.py): users, identified by the
 * browser-generated `unique_id`, and the records they own.
 * A table is a map from primary key to row.
 */
module Models {

  /** A row of `users`. `createdAt` is the column default's timestamp, as an abstract integer. */
  datatype User = User(id: int, uniqueId: string, createdAt: int)

  /** A row of `qr_records`; `userId` is the foreign key to its owner. */
  datatype QRRecord = QRRecord(id: int, content: string, createdAt: int, userId: int)

  /** The JSON object a record is rendered as. It has no owner field. */
  datatype RecordDict = RecordDict(id: int, content: string, createdAt: int)

  /** `QRRecord.to_dict`. */
  function ToDict(r: QRRecord): RecordDict {
    RecordDict(r.id, r.content, r.createdAt)
  }

  /**
   * Two records render alike exactly when they agree on everything but
   * their owner: `to_dict` exposes id, content and created_at, and hides
   * the owner.
   */
  lemma ToDictHidesOnlyOwner(r: QRRecord, s: QRRecord)
    ensures ToDict(r) == ToDict(s) <==> r == s.(userId := r.userId)
  {
  }

  /**
   * The constraints the schema declares: primary keys are the table keys
   * (so ids are unique per table), `unique_id` is unique across users, and
   * every record's non-null `user_id` references an existing user.
   */
  ghost predicate Schema(users: map<int, User>, records: map<int, QRRecord>) {
    && (forall id :: id in users ==> users[id].id == id)
    && (forall id :: id in records ==> records[id].id == id)
    && (forall a, b :: a in users && b in users && users[a].uniqueId == users[b].uniqueId ==> a == b)
    && (forall id :: id in records ==> records[id].userId in users)
  }

  /** Whether some user has this `unique_id`. */
  ghost predicate Known(users: map<int, User>, uniqueId: string) {
    exists id :: id in users && users[id].uniqueId == uniqueId
  }

  /** Whether record `id` exists and its owner has the given `unique_id`. */
  ghost predicate IsOwner(users: map<int, User>, records: map<int, QRRecord>, uniqueId: string, id: int) {
    id in records && records[id].userId in users && users[records[id].userId].uniqueId == uniqueId
  }

  /** The rendered records whose owner has the given `unique_id`. */
  ghost function Owned(users: map<int, User>, records: map<int, QRRecord>, uniqueId: string): set<RecordDict> {
    set id | id in records && IsOwner(users, records, uniqueId, id) :: ToDict(records[id])
  }

  /** Nobody owns anything under a `unique_id` that no user has. */
  lemma OwnedByUnknownIsEmpty(users: map<int, User>, records: map<int, QRRecord>, uniqueId: string)
    requires !Known(users, uniqueId)
    ensures Owned(users, records, uniqueId) == {}
  {
    assert forall id :: id in records && records[id].userId in users ==>
        users[records[id].userId].uniqueId != uniqueId;
  }

  /** Two different users never share a record. */
  lemma OwnedDisjoint(users: map<int, User>, records: map<int, QRRecord>, u: string, v: string)
    requires Schema(users, records) && u != v
    ensures Owned(users, records, u) !! Owned(users, records, v)
  {
    forall d | d in Owned(users, records, u) ensures d !in Owned(users, records, v) {
      var id :| id in records && records[id].userId in users
        && users[records[id].userId].uniqueId == u && d == ToDict(records[id]);
      forall id' | id' in records && records[id'].userId in users && users[records[id'].userId].uniqueId == v
        ensures ToDict(records[id']) != d
      {
        assert records[id'] != records[id];
      }
    }
  }

  /**
   * Inserting a record with a fresh id adds its rendering to its owner's
   * records and to nobody else's; it was not there before.
   */
  lemma OwnedAfterInsert(users: map<int, User>, records: map<int, QRRecord>, r: QRRecord, u: string)
    requires Schema(users, records) && r.id !in records && r.userId in users
    ensures ToDict(r) !in Owned(users, records, u)
    ensures Owned(users, records[r.id := r], u)
         == Owned(users, records, u) + (if users[r.userId].uniqueId == u then {ToDict(r)} else {})
  {
    var after := records[r.id := r];
    forall d | d in Owned(users, after, u)
      ensures d in Owned(users, records, u) + (if users[r.userId].uniqueId == u then {ToDict(r)} else {})
    {
      var id :| id in after && after[id].userId in users
        && users[after[id].userId].uniqueId == u && d == ToDict(after[id]);
      if id != r.id {
        assert id in records && records[id] == after[id];
      }
    }
    forall d | d in Owned(users, records, u) ensures d in Owned(users, after, u) && d.id != r.id {
      var id :| id in records && records[id].userId in users
        && users[records[id].userId].uniqueId == u && d == ToDict(records[id]);
      assert id in after && after[id] == records[id];
    }
    if users[r.userId].uniqueId == u {
      assert r.id in after && after[r.id] == r;
    }
  }

  /** Removing a record takes its rendering out of its owner's records and changes nothing else. */
  lemma OwnedAfterRemove(users: map<int, User>, records: map<int, QRRecord>, id: int, u: string)
    requires Schema(users, records) && id in records
    ensures Owned(users, records - {id}, u) == Owned(users, records, u) - {ToDict(records[id])}
  {
    var after := records - {id};
    forall d | d in Owned(users, records, u) && d != ToDict(records[id])
      ensures d in Owned(users, after, u)
    {
      var k :| k in records && records[k].userId in users
        && users[records[k].userId].uniqueId == u && d == ToDict(records[k]);
      assert k != id && k in after;
    }
  }

  /** Adding a user with a fresh id and `unique_id` leaves every user's records as they were. */
  lemma OwnedAfterNewUser(users: map<int, User>, records: map<int, QRRecord>, user: User, u: string)
    requires Schema(users, records) && user.id !in users
    ensures Owned(users[user.id := user], records, u) == Owned(users, records, u)
  {
    var after := users[user.id := user];
    assert forall id :: id in records ==> (IsOwner(after, records, u, id) <==> IsOwner(users, records, u, id));
  }

  /** The rendered records of user `uid` among those with an id below `n`. */
  ghost function OwnedBelow(records: map<int, QRRecord>, uid: int, n: int): set<RecordDict> {
    set k | k in records && k < n && records[k].userId == uid :: ToDict(records[k])
  }

  /** One more step of a scan in key order adds at most the record at `n`, which was not there yet. */
  lemma OwnedBelowStep(users: map<int, User>, records: map<int, QRRecord>, uid: int, n: int)
    requires Schema(users, records)
    ensures n in records && records[n].userId == uid ==> ToDict(records[n]) !in OwnedBelow(records, uid, n)
    ensures OwnedBelow(records, uid, n + 1)
         == OwnedBelow(records, uid, n) + (if n in records && records[n].userId == uid then {ToDict(records[n])} else {})
  {
    forall d | d in OwnedBelow(records, uid, n) ensures d.id < n {
      var k :| k in records && k < n && records[k].userId == uid && d == ToDict(records[k]);
    }
    if n in records && records[n].userId == uid {
      assert ToDict(records[n]) in OwnedBelow(records, uid, n + 1);
    }
  }

  /** A scan past every id collects exactly the records of the user `uid`. */
  lemma OwnedBelowAll(users: map<int, User>, records: map<int, QRRecord>, uid: int, n: int)
    requires Schema(users, records) && uid in users
    requires forall k :: k in records ==> k < n
    ensures OwnedBelow(records, uid, n) == Owned(users, records, users[uid].uniqueId)
  {
    assert forall k :: k in records ==> (records[k].userId == uid <==> IsOwner(users, records, users[uid].uniqueId, k));
  }

  /** Everything a user owns is the rendering of a stored record with that id. */
  lemma OwnedAreStored(users: map<int, User>, records: map<int, QRRecord>, u: string, d: RecordDict)
    requires Schema(users, records) && d in Owned(users, records, u)
    ensures d.id in records && d == ToDict(records[d.id]) && IsOwner(users, records, u, d.id)
  {
    var k :| k in records && IsOwner(users, records, u, k) && d == ToDict(records[k]);
  }
}
