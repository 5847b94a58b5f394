/** The shared `mushroom_rooms` table (services/databaseService.ts): a table of
    rows keyed by room id, the room/row mappings, the participant filter used by
    leave and kick, the join procedure's guarded append, and the query that
    lists recent active rooms newest first.

    A lost connection or a rejected request is modelled by the `reachable`
    parameter of each operation: when it is false nothing changes and the
    operation reports `false` (or the empty list), as every operation of the
    service does instead of raising. */
module Store {
  import opened Types

  /** How long a room stays listed after it is created, in milliseconds. */
  const DAY_MS: int := 24 * 60 * 60 * 1000

  /** A row of the table; `participants` may be null in the table. */
  datatype Row = Row(
    id: string,
    hostNickname: string,
    hostFriendCode: string,
    category: Category,
    attribute: Option<Attribute>,
    slots: int,
    imageUrl: Option<string>,
    participants: Option<seq<Participant>>,
    startTime: int,
    createdAt: int,
    status: Status,
    minStrength: Option<int>)

  /** A row's participant list, a null column read as the empty list. */
  function Stored(row: Row): seq<Participant>
  {
    if row.participants.Some? then row.participants.value else []
  }

  /** The room a row is read back as; the host's id is not stored and reads
      back as the remote marker. */
  function FromRow(row: Row): (room: Room)
    ensures room.id == row.id && room.createdAt == row.createdAt && room.status == row.status
    ensures room.host.id == REMOTE_ID
  {
    Room(
      id := row.id,
      host := Participant(REMOTE_ID, row.hostNickname, row.hostFriendCode),
      category := row.category,
      attribute := row.attribute,
      slots := row.slots,
      participants := Stored(row),
      imageUrl := row.imageUrl,
      startTime := row.startTime,
      createdAt := row.createdAt,
      status := row.status,
      minStrength := row.minStrength)
  }

  /** The row a room is upserted as. Reading it back gives the room again,
      except that the host's id becomes the remote marker. */
  function ToRow(room: Room): (row: Row)
    ensures row.id == room.id
    ensures FromRow(row) == room.(host := room.host.(id := REMOTE_ID))
  {
    Row(
      id := room.id,
      hostNickname := room.host.nickname,
      hostFriendCode := room.host.friendCode,
      category := room.category,
      attribute := room.attribute,
      slots := room.slots,
      imageUrl := room.imageUrl,
      participants := Some(room.participants),
      startTime := room.startTime,
      createdAt := room.createdAt,
      status := room.status,
      minStrength := room.minStrength)
  }

  /** Writing a read-back room gives back the row, with a null participant
      column written as the empty list. */
  lemma RowRoundTrip(row: Row)
    ensures ToRow(FromRow(row)) == row.(participants := Some(Stored(row)))
  {
  }

  /** `ps.filter(p => p.friendCode !== code)`: every entry with that friend
      code is dropped, every other entry is kept in its original order. */
  function RemoveByCode(ps: seq<Participant>, code: string): (r: seq<Participant>)
    ensures |r| <= |ps|
    ensures forall p :: p in r <==> p in ps && p.friendCode != code
    ensures forall p :: multiset(r)[p] == if p.friendCode == code then 0 else multiset(ps)[p]
    ensures IsSubsequence(r, ps)
  {
    if ps == [] then []
    else
      var rest := RemoveByCode(ps[1..], code);
      assert ps == [ps[0]] + ps[1..];
      if ps[0].friendCode == code then
        assert rest != [] ==> rest[0] != ps[0];
        rest
      else
        assert ([ps[0]] + rest)[1..] == rest;
        [ps[0]] + rest
  }

  lemma NotListedAfterRemove(ps: seq<Participant>, code: string)
    ensures !Lists(RemoveByCode(ps, code), code)
  {
    var r := RemoveByCode(ps, code);
    forall i | 0 <= i < |r| ensures r[i].friendCode != code {
      assert r[i] in r;
    }
  }

  /** Removing a friend code nobody has leaves the list as it is. */
  lemma {:induction false} RemoveAbsent(ps: seq<Participant>, code: string)
    requires !Lists(ps, code)
    ensures RemoveByCode(ps, code) == ps
  {
    if ps != [] {
      assert ps[0].friendCode != code;
      assert !Lists(ps[1..], code) by {
        forall i | 0 <= i < |ps[1..]| ensures ps[1..][i].friendCode != code {
          assert ps[1..][i] == ps[i + 1];
        }
      }
      RemoveAbsent(ps[1..], code);
      assert ps == [ps[0]] + ps[1..];
    }
  }

  /** Removing twice is removing once. */
  lemma RemoveTwice(ps: seq<Participant>, code: string)
    ensures RemoveByCode(RemoveByCode(ps, code), code) == RemoveByCode(ps, code)
  {
    NotListedAfterRemove(ps, code);
    RemoveAbsent(RemoveByCode(ps, code), code);
  }

  /** Two removals give the same list in either order. */
  lemma {:induction false} RemoveCommutes(ps: seq<Participant>, a: string, b: string)
    ensures RemoveByCode(RemoveByCode(ps, a), b) == RemoveByCode(RemoveByCode(ps, b), a)
  {
    if ps != [] {
      RemoveCommutes(ps[1..], a, b);
      var x := ps[0];
      var ra, rb := RemoveByCode(ps[1..], a), RemoveByCode(ps[1..], b);
      if x.friendCode != a {
        assert RemoveByCode(ps, a) == [x] + ra;
        assert ([x] + ra)[1..] == ra;
      }
      if x.friendCode != b {
        assert RemoveByCode(ps, b) == [x] + rb;
        assert ([x] + rb)[1..] == rb;
      }
    }
  }

  /** A list stays unique by friend code when a newcomer with a fresh code is put in front. */
  lemma UniqueCons(x: Participant, rest: seq<Participant>)
    requires UniqueCodes(rest) && !Lists(rest, x.friendCode)
    ensures UniqueCodes([x] + rest)
  {
    var r := [x] + rest;
    forall i, j | 0 <= i < j < |r| ensures r[i].friendCode != r[j].friendCode {
      assert r[j] == rest[j - 1];
      if i > 0 {
        assert r[i] == rest[i - 1];
      }
    }
  }

  /** A filtered list of unique friend codes stays unique. */
  lemma {:induction false} RemoveKeepsUnique(ps: seq<Participant>, code: string)
    requires UniqueCodes(ps)
    ensures UniqueCodes(RemoveByCode(ps, code))
  {
    if ps != [] {
      var tail := ps[1..];
      var rest := RemoveByCode(tail, code);
      assert UniqueCodes(tail) by {
        forall i, j | 0 <= i < j < |tail| ensures tail[i].friendCode != tail[j].friendCode {
          assert tail[i] == ps[i + 1] && tail[j] == ps[j + 1];
        }
      }
      RemoveKeepsUnique(tail, code);
      if ps[0].friendCode != code {
        assert !Lists(rest, ps[0].friendCode) by {
          forall i | 0 <= i < |rest| ensures rest[i].friendCode != ps[0].friendCode {
            assert rest[i] in tail;
            var k :| 0 <= k < |tail| && tail[k] == rest[i];
            assert tail[k] == ps[k + 1];
          }
        }
        UniqueCons(ps[0], rest);
      }
    }
  }

  /** Removal never lengthens the list, so it keeps every room invariant. */
  lemma RemoveKeepsWellFormed(room: Room, code: string)
    requires WellFormed(room)
    ensures WellFormed(room.(participants := RemoveByCode(room.participants, code)))
  {
    var r := RemoveByCode(room.participants, code);
    RemoveKeepsUnique(room.participants, code);
    forall i | 0 <= i < |r| ensures r[i].friendCode != room.host.friendCode {
      assert r[i] in room.participants;
      var k :| 0 <= k < |room.participants| && room.participants[k] == r[i];
    }
  }

  /** The check the join procedure makes against the stored row: there is a
      free slot and nobody listed has the newcomer's friend code. */
  predicate Admits(row: Row, p: Participant)
  {
    |Stored(row)| < row.slots && !Lists(Stored(row), p.friendCode)
  }

  /** The row after a successful join: the newcomer appended at the end. */
  function Appended(row: Row, p: Participant): (r: Row)
    ensures Stored(r) == Stored(row) + [p]
    ensures r == row.(participants := r.participants)
  {
    row.(participants := Some(Stored(row) + [p]))
  }

  /** An admitted join keeps the row within capacity and unique by friend code;
      it keeps the host out exactly when the newcomer is not the host. */
  lemma JoinKeepsInvariants(row: Row, p: Participant)
    requires WellFormed(FromRow(row)) && Admits(row, p)
    ensures |Stored(Appended(row, p))| <= row.slots
    ensures UniqueCodes(Stored(Appended(row, p)))
    ensures WellFormed(FromRow(Appended(row, p))) <==> p.friendCode != row.hostFriendCode
  {
    var ps := Stored(row);
    var qs := ps + [p];
    forall i, j | 0 <= i < j < |qs| ensures qs[i].friendCode != qs[j].friendCode {
      if j == |ps| {
        assert qs[i] == ps[i];
      } else {
        assert qs[i] == ps[i] && qs[j] == ps[j];
      }
    }
    if p.friendCode == row.hostFriendCode {
      assert qs[|ps|] == p;
    } else {
      forall i | 0 <= i < |qs| ensures qs[i].friendCode != row.hostFriendCode {
        if i < |ps| {
          assert qs[i] == ps[i];
        }
      }
    }
  }

  /** Rows are stored under their own id. */
  predicate KeyedById(rows: map<string, Row>)
  {
    forall k :: k in rows ==> rows[k].id == k
  }

  /** Upsert keyed by id: the room's row is inserted or replaced, no other row changes. */
  function Upserted(rows: map<string, Row>, room: Room): (r: map<string, Row>)
    ensures r.Keys == rows.Keys + {room.id}
    ensures r[room.id] == ToRow(room)
    ensures forall k :: k in rows && k != room.id ==> r[k] == rows[k]
    ensures KeyedById(rows) ==> KeyedById(r)
  {
    rows[room.id := ToRow(room)]
  }

  /** The join procedure: an admitted newcomer is appended to that row only. */
  function AfterJoin(rows: map<string, Row>, id: string, p: Participant): (r: map<string, Row>)
    ensures r.Keys == rows.Keys
    ensures forall k :: k in rows && k != id ==> r[k] == rows[k]
    ensures id in rows && Admits(rows[id], p) ==> Stored(r[id]) == Stored(rows[id]) + [p]
    ensures id in rows && Admits(rows[id], p) ==> r[id] == Appended(rows[id], p)
    ensures !(id in rows && Admits(rows[id], p)) ==> r == rows
    ensures KeyedById(rows) ==> KeyedById(r)
  {
    if id in rows && Admits(rows[id], p) then rows[id := Appended(rows[id], p)] else rows
  }

  /** Leave and kick: every entry with the friend code is dropped from that
      row's list; an absent row leaves the table as it is. */
  function AfterLeave(rows: map<string, Row>, id: string, code: string): (r: map<string, Row>)
    ensures r.Keys == rows.Keys
    ensures forall k :: k in rows && k != id ==> r[k] == rows[k]
    ensures id in rows ==> Stored(r[id]) == RemoveByCode(Stored(rows[id]), code)
    ensures id in rows ==> r[id] == rows[id].(participants := r[id].participants) && r[id].participants.Some?
    ensures id !in rows ==> r == rows
    ensures KeyedById(rows) ==> KeyedById(r)
  {
    if id in rows then
      rows[id := rows[id].(participants := Some(RemoveByCode(Stored(rows[id]), code)))]
    else rows
  }

  /** Delete by id: that row is gone, no other row changes. */
  function Deleted(rows: map<string, Row>, id: string): (r: map<string, Row>)
    ensures r.Keys == rows.Keys - {id}
    ensures forall k :: k in r ==> r[k] == rows[k]
    ensures KeyedById(rows) ==> KeyedById(r)
  {
    rows - {id}
  }

  /** Syncing the same room twice is syncing it once. */
  lemma UpsertIdempotent(rows: map<string, Row>, room: Room)
    ensures Upserted(Upserted(rows, room), room) == Upserted(rows, room)
  {
  }

  /** A leave that matches nobody leaves the table as it is. */
  lemma LeaveAbsentCode(rows: map<string, Row>, id: string, code: string)
    requires id in rows && rows[id].participants.Some? && !Lists(Stored(rows[id]), code)
    ensures AfterLeave(rows, id, code) == rows
  {
    RemoveAbsent(Stored(rows[id]), code);
    assert rows[id].(participants := Some(Stored(rows[id]))) == rows[id];
  }

  /** The rows the listing query keeps: active and created within the last day. */
  predicate Listed(row: Row, now: int)
  {
    row.status == Active && row.createdAt > now - DAY_MS
  }

  predicate NewestFirst(rs: seq<Room>)
  {
    forall i, j :: 0 <= i < j < |rs| ==> rs[i].createdAt >= rs[j].createdAt
  }

  predicate DistinctIds(rs: seq<Room>)
  {
    forall i, j :: 0 <= i < j < |rs| ==> rs[i].id != rs[j].id
  }

  /** What the listing query may return for `rows` at time `now`: every listed
      row read back exactly once, nothing else, newest first. Rows created at
      the same instant may come in any order. */
  ghost predicate IsFetchResult(rows: map<string, Row>, now: int, out: seq<Room>)
  {
    && NewestFirst(out)
    && DistinctIds(out)
    && (forall i :: 0 <= i < |out| ==>
          out[i].id in rows && Listed(rows[out[i].id], now) && out[i] == FromRow(rows[out[i].id]))
    && (forall k :: k in rows && Listed(rows[k], now) ==> exists i :: 0 <= i < |out| && out[i].id == k)
  }

  /** Places `room` after every room at least as new and before the older ones. */
  function InsertNewestFirst(rs: seq<Room>, room: Room): (r: seq<Room>)
    requires NewestFirst(rs)
    ensures |r| == |rs| + 1
    ensures forall x :: x in r <==> x in rs || x == room
    ensures NewestFirst(r)
  {
    if rs == [] || rs[0].createdAt < room.createdAt then
      [room] + rs
    else
      var rest := InsertNewestFirst(rs[1..], room);
      var r := [rs[0]] + rest;
      assert forall i :: 0 < i < |r| ==> r[i] == rest[i - 1];
      assert forall x :: x in rest ==> x.createdAt <= rs[0].createdAt by {
        forall x | x in rest ensures x.createdAt <= rs[0].createdAt {
          if x != room {
            var k :| 0 <= k < |rs[1..]| && rs[1..][k] == x;
            assert x == rs[k + 1];
          }
        }
      }
      assert forall i :: 0 < i < |r| ==> r[i] in rest;
      r
  }

  /** Insertion adds exactly one copy of `room` and keeps every other room as
      many times as before. */
  lemma {:induction false} InsertAddsOnce(rs: seq<Room>, room: Room)
    requires NewestFirst(rs)
    ensures multiset(InsertNewestFirst(rs, room)) == multiset(rs) + multiset{room}
  {
    if rs != [] && rs[0].createdAt >= room.createdAt {
      InsertAddsOnce(rs[1..], room);
      assert InsertNewestFirst(rs, room) == [rs[0]] + InsertNewestFirst(rs[1..], room);
      assert rs == [rs[0]] + rs[1..];
    }
  }

  /** Inserting a room whose id is new keeps the ids distinct. */
  lemma {:induction false} InsertKeepsDistinct(rs: seq<Room>, room: Room)
    requires NewestFirst(rs) && DistinctIds(rs)
    requires forall i :: 0 <= i < |rs| ==> rs[i].id != room.id
    ensures DistinctIds(InsertNewestFirst(rs, room))
  {
    var r := InsertNewestFirst(rs, room);
    if rs == [] || rs[0].createdAt < room.createdAt {
      forall i, j | 0 <= i < j < |r| ensures r[i].id != r[j].id {
        assert r[j] == rs[j - 1];
        if i > 0 {
          assert r[i] == rs[i - 1];
        }
      }
    } else {
      var tail := rs[1..];
      assert DistinctIds(tail) by {
        forall i, j | 0 <= i < j < |tail| ensures tail[i].id != tail[j].id {
          assert tail[i] == rs[i + 1] && tail[j] == rs[j + 1];
        }
      }
      InsertKeepsDistinct(tail, room);
      var rest := InsertNewestFirst(tail, room);
      assert r == [rs[0]] + rest;
      forall i, j | 0 <= i < j < |r| ensures r[i].id != r[j].id {
        assert r[j] == rest[j - 1];
        if i > 0 {
          assert r[i] == rest[i - 1];
        } else {
          assert rest[j - 1] in rest;
          if rest[j - 1] != room {
            var k :| 0 <= k < |tail| && tail[k] == rest[j - 1];
            assert tail[k] == rs[k + 1];
          }
        }
      }
    }
  }

  /** A store holding the rows in place. */
  class RoomStore {
    var rows: map<string, Row>

    ghost predicate Valid()
      reads this
    {
      KeyedById(rows)
    }

    constructor ()
      ensures Valid() && rows == map[]
    {
      rows := map[];
    }

    /** `syncRoomToGlobal`: upsert of the room's row, conflict on id. */
    method Upsert(room: Room, reachable: bool) returns (ok: bool)
      requires Valid()
      modifies this
      ensures Valid()
      ensures ok == reachable
      ensures rows == if ok then Upserted(old(rows), room) else old(rows)
    {
      if reachable {
        rows := Upserted(rows, room);
      }
      ok := reachable;
    }

    /** `joinRoomGlobal`: the join procedure, as one guarded append. */
    method Join(id: string, p: Participant, reachable: bool) returns (ok: bool)
      requires Valid()
      modifies this
      ensures Valid()
      ensures ok <==> reachable && id in old(rows) && Admits(old(rows)[id], p)
      ensures rows == if reachable then AfterJoin(old(rows), id, p) else old(rows)
    {
      ok := reachable && id in rows && Admits(rows[id], p);
      if reachable {
        rows := AfterJoin(rows, id, p);
      }
    }

    /** `leaveRoomGlobal`: read the row's participants, write them back filtered. */
    method Leave(id: string, code: string, reachable: bool) returns (ok: bool)
      requires Valid()
      modifies this
      ensures Valid()
      ensures ok <==> reachable && id in old(rows)
      ensures rows == if ok then AfterLeave(old(rows), id, code) else old(rows)
    {
      if !reachable || id !in rows {
        return false;
      }
      rows := AfterLeave(rows, id, code);
      ok := true;
    }

    /** `deleteRoomGlobal`: delete by id; deleting an absent id still succeeds. */
    method Delete(id: string, reachable: bool) returns (ok: bool)
      requires Valid()
      modifies this
      ensures Valid()
      ensures ok == reachable
      ensures rows == if ok then Deleted(old(rows), id) else old(rows)
    {
      if reachable {
        rows := Deleted(rows, id);
      }
      ok := reachable;
    }

    /** `fetchGlobalRooms`: the active rooms of the last day, newest first;
        the empty list when the store cannot be reached. */
    method Fetch(now: int, reachable: bool) returns (out: seq<Room>)
      requires Valid()
      ensures !reachable ==> out == []
      ensures reachable ==> IsFetchResult(rows, now, out)
    {
      out := [];
      if !reachable {
        return;
      }
      var todo := rows.Keys;
      while todo != {}
        invariant todo <= rows.Keys
        invariant NewestFirst(out) && DistinctIds(out)
        invariant forall i :: 0 <= i < |out| ==>
          out[i].id in rows && out[i].id !in todo && Listed(rows[out[i].id], now)
          && out[i] == FromRow(rows[out[i].id])
        invariant forall k :: k in rows && k !in todo && Listed(rows[k], now) ==>
          exists i :: 0 <= i < |out| && out[i].id == k
        decreases todo
      {
        var k :| k in todo;
        todo := todo - {k};
        if Listed(rows[k], now) {
          var room := FromRow(rows[k]);
          ghost var before := out;
          InsertKeepsDistinct(out, room);
          out := InsertNewestFirst(out, room);
          forall i | 0 <= i < |out|
            ensures out[i].id in rows && out[i].id !in todo && Listed(rows[out[i].id], now)
            ensures out[i] == FromRow(rows[out[i].id])
          {
            assert out[i] in before || out[i] == room;
            if out[i] in before {
              var j :| 0 <= j < |before| && before[j] == out[i];
            }
          }
          forall k' | k' in rows && k' !in todo && Listed(rows[k'], now)
            ensures exists i :: 0 <= i < |out| && out[i].id == k'
          {
            if k' == k {
              assert room in out;
            } else {
              var j :| 0 <= j < |before| && before[j].id == k';
              assert before[j] in out;
            }
          }
        }
      }
    }
  }

  /** Rows created at distinct instants. */
  predicate DistinctCreation(rows: map<string, Row>)
  {
    forall k1, k2 :: k1 in rows && k2 in rows && k1 != k2 ==> rows[k1].createdAt != rows[k2].createdAt
  }

  predicate StrictlyNewestFirst(rs: seq<Room>)
  {
    forall i, j :: 0 <= i < j < |rs| ==> rs[i].createdAt > rs[j].createdAt
  }

  lemma EmptyOrHasHead(b: seq<Room>)
    ensures b == [] || b[0] in b
  {
  }

  /** Two lists strictly ordered newest first that hold the same rooms are equal. */
  lemma {:induction false} StrictOrderDetermined(a: seq<Room>, b: seq<Room>)
    requires StrictlyNewestFirst(a) && StrictlyNewestFirst(b)
    requires forall x :: x in a <==> x in b
    ensures a == b
    decreases |a|
  {
    if a == [] {
      EmptyOrHasHead(b);
    } else {
      HeadsAgree(a, b);
      TailsAgree(a, b);
      StrictOrderDetermined(a[1..], b[1..]);
      assert a == [a[0]] + a[1..] && b == [b[0]] + b[1..];
    }
  }

  /** The newest room comes first in both lists. */
  lemma HeadsAgree(a: seq<Room>, b: seq<Room>)
    requires StrictlyNewestFirst(a) && StrictlyNewestFirst(b)
    requires forall x :: x in a <==> x in b
    requires a != []
    ensures b != [] && a[0] == b[0]
  {
    assert a[0] in b;
    var j :| 0 <= j < |b| && b[j] == a[0];
    assert b[0] in a;
    var i :| 0 <= i < |a| && a[i] == b[0];
    assert a[0].createdAt >= a[i].createdAt == b[0].createdAt >= b[j].createdAt == a[0].createdAt;
    assert j == 0;
  }

  /** With the heads equal, the rest of each list holds the same rooms and
      stays strictly ordered. */
  lemma TailsAgree(a: seq<Room>, b: seq<Room>)
    requires StrictlyNewestFirst(a) && StrictlyNewestFirst(b)
    requires forall x :: x in a <==> x in b
    requires a != [] && b != [] && a[0] == b[0]
    ensures StrictlyNewestFirst(a[1..]) && StrictlyNewestFirst(b[1..])
    ensures forall x :: x in a[1..] <==> x in b[1..]
  {
    forall x ensures x in a[1..] <==> x in b[1..] {
      if x in a[1..] {
        var m :| 0 <= m < |a[1..]| && a[1..][m] == x;
        assert a[m + 1] == x && x.createdAt < a[0].createdAt;
        assert x in b;
      }
      if x in b[1..] {
        var m :| 0 <= m < |b[1..]| && b[1..][m] == x;
        assert b[m + 1] == x && x.createdAt < b[0].createdAt;
        assert x in a;
      }
    }
  }

  /** Two fetches of an unchanged table list the same rooms, each once; when no
      two rows of the table were created at the same instant they are the same list. */
  lemma FetchResultsAgree(rows: map<string, Row>, now: int, a: seq<Room>, b: seq<Room>)
    requires IsFetchResult(rows, now, a) && IsFetchResult(rows, now, b)
    ensures forall x :: x in a <==> x in b
    ensures DistinctCreation(rows) ==> a == b
  {
    forall x | x in a ensures x in b {
      var i :| 0 <= i < |a| && a[i] == x;
      var j :| 0 <= j < |b| && b[j].id == x.id;
    }
    forall x | x in b ensures x in a {
      var i :| 0 <= i < |b| && b[i] == x;
      var j :| 0 <= j < |a| && a[j].id == x.id;
    }
    if DistinctCreation(rows) {
      forall i, j | 0 <= i < j < |a| ensures a[i].createdAt > a[j].createdAt {
        assert a[i].id != a[j].id;
      }
      forall i, j | 0 <= i < j < |b| ensures b[i].createdAt > b[j].createdAt {
        assert b[i].id != b[j].id;
      }
      StrictOrderDetermined(a, b);
    }
  }

  /** A synced room that is active and less than a day old is listed by every
      later fetch, read back with only the host's id changed. */
  lemma SyncedRoomIsFetched(rows: map<string, Row>, room: Room, now: int, out: seq<Room>)
    requires IsFetchResult(Upserted(rows, room), now, out)
    requires room.status == Active && room.createdAt > now - DAY_MS
    ensures room.(host := room.host.(id := REMOTE_ID)) in out
  {
    var r := Upserted(rows, room);
    assert Listed(r[room.id], now);
    var i :| 0 <= i < |out| && out[i].id == room.id;
    assert out[i] == FromRow(r[room.id]);
  }

  /** The listing never shows an expired or inactive room. */
  lemma FetchHidesExpired(rows: map<string, Row>, now: int, out: seq<Room>)
    requires IsFetchResult(rows, now, out)
    ensures forall x :: x in out ==> x.status == Active && x.createdAt > now - DAY_MS
  {
    forall x | x in out ensures x.status == Active && x.createdAt > now - DAY_MS {
      var i :| 0 <= i < |out| && out[i] == x;
    }
  }
}
