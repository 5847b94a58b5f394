/** The client coordinator (App.tsx): the local room list, the saved profile,
    the page being shown, and the handlers that turn user actions into store
    operations. Store writes reach the local list only through a refresh, which
    the store's change feed triggers after every write; an opened share link is
    merged into the list directly. */
module App {
  import opened Types
  import Store
  import ShareLink
  import RoomView
  import Home

  datatype View = HomeView | CreateView | BoardView | RoomDetailView | MyPostsView

  /** What the create form submits: a room without id, participants, status
      and creation time. */
  datatype RoomForm = RoomForm(
    host: Participant,
    category: Category,
    attribute: Option<Attribute>,
    slots: int,
    imageUrl: Option<string>,
    startTime: int,
    minStrength: Option<int>)

  /** The form fields of a room. */
  function FormOf(room: Room): RoomForm
  {
    RoomForm(room.host, room.category, room.attribute, room.slots, room.imageUrl,
             room.startTime, room.minStrength)
  }

  /** `handleCreateRoom`'s new room: the submitted fields, an empty active room
      created `now`. It meets the room invariants exactly when its capacity is
      not negative. */
  function NewRoom(form: RoomForm, id: string, now: int): (r: Room)
    ensures FormOf(r) == form
    ensures r.id == id && r.participants == [] && r.status == Active && r.createdAt == now
    ensures WellFormed(r) <==> form.slots >= 0
  {
    Room(
      id := id,
      host := form.host,
      category := form.category,
      attribute := form.attribute,
      slots := form.slots,
      participants := [],
      imageUrl := form.imageUrl,
      startTime := form.startTime,
      createdAt := now,
      status := Active,
      minStrength := form.minStrength)
  }

  /** `rooms.filter(r => r.id !== id)`. */
  function WithoutId(rooms: seq<Room>, id: string): (r: seq<Room>)
    ensures forall x :: x in r <==> x in rooms && x.id != id
    ensures forall x :: multiset(r)[x] == if x.id == id then 0 else multiset(rooms)[x]
    ensures IsSubsequence(r, rooms)
  {
    if rooms == [] then []
    else
      var rest := WithoutId(rooms[1..], id);
      assert rooms == [rooms[0]] + rooms[1..];
      if rooms[0].id != id then
        assert ([rooms[0]] + rest)[1..] == rest;
        [rooms[0]] + rest
      else
        assert rest != [] ==> rest[0] != rooms[0];
        assert forall x :: x in rooms ==> x == rooms[0] || x in rooms[1..];
        rest
  }

  /** A room opened from a shared link goes first and replaces any room with
      its id, so it is listed exactly once. */
  function MergeShared(rooms: seq<Room>, room: Room): (r: seq<Room>)
    ensures |r| > 0 && r[0] == room
    ensures forall x :: x in r <==> x == room || (x in rooms && x.id != room.id)
    ensures forall i :: 0 < i < |r| ==> r[i].id != room.id
    ensures forall x :: multiset(r)[x] == if x == room then 1 else if x.id == room.id then 0 else multiset(rooms)[x]
    ensures IsSubsequence(r[1..], rooms)
  {
    var rest := WithoutId(rooms, room.id);
    var r := [room] + rest;
    assert r[1..] == rest;
    assert forall i :: 0 < i < |r| ==> r[i] in rest;
    r
  }

  /** Merging keeps the room ids distinct. */
  lemma MergeKeepsIdsDistinct(rooms: seq<Room>, room: Room)
    requires Store.DistinctIds(rooms)
    ensures Store.DistinctIds(MergeShared(rooms, room))
  {
    var r := MergeShared(rooms, room);
    var rest := WithoutId(rooms, room.id);
    assert r == [room] + rest;
    assert Store.DistinctIds(rest) by {
      SubsequenceKeepsDistinct(rest, rooms);
    }
    forall i, j | 0 <= i < j < |r| ensures r[i].id != r[j].id {
      if i > 0 {
        assert r[i] == rest[i - 1] && r[j] == rest[j - 1];
      }
    }
  }

  lemma {:induction false} SubsequenceKeepsDistinct(a: seq<Room>, b: seq<Room>)
    requires IsSubsequence(a, b) && Store.DistinctIds(b)
    ensures Store.DistinctIds(a)
    decreases |b|
  {
    if a != [] {
      var tail := b[1..];
      assert Store.DistinctIds(tail) by {
        forall i, j | 0 <= i < j < |tail| ensures tail[i].id != tail[j].id {
          assert tail[i] == b[i + 1] && tail[j] == b[j + 1];
        }
      }
      if a[0] == b[0] {
        SubsequenceKeepsDistinct(a[1..], tail);
        SubsequenceElements(a[1..], tail);
        forall i, j | 0 <= i < j < |a| ensures a[i].id != a[j].id {
          if i == 0 {
            assert a[j] == a[1..][j - 1] && a[j] in tail;
            var k :| 0 <= k < |tail| && tail[k] == a[j];
            assert tail[k] == b[k + 1];
          } else {
            assert a[i] == a[1..][i - 1] && a[j] == a[1..][j - 1];
          }
        }
      } else {
        SubsequenceKeepsDistinct(a, tail);
      }
    }
  }

  /** `rooms.find(r => r.id === id)`: the first room with that id. */
  function FindRoom(rooms: seq<Room>, id: string): (r: Option<Room>)
    ensures r.Some? <==> exists i :: 0 <= i < |rooms| && rooms[i].id == id
    ensures r.Some? ==> r.value.id == id
    ensures r.Some? ==>
      exists i :: 0 <= i < |rooms| && rooms[i] == r.value && forall j :: 0 <= j < i ==> rooms[j].id != id
  {
    if rooms == [] then None
    else if rooms[0].id == id then Some(rooms[0])
    else
      var r := FindRoom(rooms[1..], id);
      if r.Some? then
        var i :| 0 <= i < |rooms[1..]| && rooms[1..][i] == r.value
                && forall j :: 0 <= j < i ==> rooms[1..][j].id != id;
        assert rooms[i + 1] == r.value;
        assert forall j :: 0 <= j < i + 1 ==> rooms[j].id != id by {
          forall j | 0 <= j < i + 1 ensures rooms[j].id != id {
            if j > 0 {
              assert rooms[j] == rooms[1..][j - 1];
            }
          }
        }
        r
      else
        assert forall i :: 0 <= i < |rooms[1..]| ==> rooms[1..][i] == rooms[i + 1];
        r
  }

  /** `handleDeleteAction`'s gate: the room is in the local list and the
      viewer hosts it or carries the administrator flag. */
  predicate DeleteAllowed(rooms: seq<Room>, id: string, user: Option<UserProfile>)
  {
    var found := FindRoom(rooms, id);
    found.Some? && RoomView.CanDelete(found.value, user)
  }

  /** With a profile whose administrator flag is backed by the master code (as
      every profile the form saves is), a delete reaches the store only for the
      host of the room in the local list (which a share link can supply, see
      `LinkedHostDeletes`) or the holder of the master code. */
  lemma DeleteAuthority(rooms: seq<Room>, id: string, user: Option<UserProfile>)
    requires user.Some? ==> Home.AdminHonest(user.value)
    requires DeleteAllowed(rooms, id, user)
    ensures user.Some?
    ensures exists room :: (room in rooms && room.id == id &&
      (room.host.friendCode == user.value.friendCode || user.value.friendCode == MASTER_ADMIN_CODE))
  {
    var room := FindRoom(rooms, id).value;
    var i :| 0 <= i < |rooms| && rooms[i] == room && forall j :: 0 <= j < i ==> rooms[j].id != id;
    assert room in rooms;
  }

  /** The flag is trusted as stored: a profile loaded with the flag on and any
      other code may delete a room it does not host. */
  lemma ForgedFlagDeletes(rooms: seq<Room>, id: string, nickname: string, code: string)
    requires exists i :: 0 <= i < |rooms| && rooms[i].id == id
    requires code != MASTER_ADMIN_CODE
    ensures DeleteAllowed(rooms, id, Some(UserProfile(nickname, code, true)))
    ensures !Home.AdminHonest(UserProfile(nickname, code, true))
  {
  }

  /** The host the delete gate trusts is the one in the local list, and a
      share link puts its own room there: a link naming any id and the
      viewer's own friend code makes the viewer the host of the local copy, so
      the gate passes for that id whatever the stored row's host is. */
  lemma LinkedHostDeletes(rooms: seq<Room>, id: string, user: UserProfile,
                          nickname: string, cat: Category, attr: Option<Attribute>,
                          slots: int, start: int, suffix: string, now: int)
    requires id != ""
    ensures var token := ShareLink.Encoded(ShareLink.LinkRecord(nickname, user.friendCode, cat, attr, slots, start, id));
      && ShareLink.Decode(token, suffix, now).Some?
      && DeleteAllowed(MergeShared(rooms, ShareLink.Decode(token, suffix, now).value), id, Some(user))
  {
    var token := ShareLink.Encoded(ShareLink.LinkRecord(nickname, user.friendCode, cat, attr, slots, start, id));
    var room := ShareLink.Decode(token, suffix, now).value;
    var merged := MergeShared(rooms, room);
    assert merged[0] == room && room.id == id;
    assert FindRoom(merged, id) == Some(room);
  }

  /** The app's state. */
  class Coordinator {
    var view: View
    var user: Option<UserProfile>
    var rooms: seq<Room>
    var currentRoomId: Option<string>
    const store: Store.RoomStore

    ghost predicate Valid()
      reads this, store
    {
      store.Valid()
    }

    constructor (store: Store.RoomStore)
      requires store.Valid()
      ensures Valid() && this.store == store
      ensures view == HomeView && user == None && rooms == [] && currentRoomId == None
    {
      this.store := store;
      view := HomeView;
      user := None;
      rooms := [];
      currentRoomId := None;
    }

    /** The saved profile read back on start, taken as it is stored. */
    method LoadProfile(saved: Option<UserProfile>)
      requires Valid()
      modifies this
      ensures Valid()
      ensures user == if saved.Some? then saved else old(user)
      ensures view == old(view) && rooms == old(rooms) && currentRoomId == old(currentRoomId)
    {
      if saved.Some? {
        user := saved;
      }
    }

    /** `handleSaveUser`. */
    method SaveUser(profile: UserProfile)
      requires Valid()
      modifies this
      ensures Valid()
      ensures user == Some(profile)
      ensures view == old(view) && rooms == old(rooms) && currentRoomId == old(currentRoomId)
    {
      user := Some(profile);
    }

    /** A shared link on start: a room that decodes is merged into the local
      list and shown; anything else changes nothing. */
    method OpenSharedLink(token: ShareLink.Token, suffix: string, now: int)
      requires Valid()
      modifies this
      ensures Valid()
      ensures
        var decoded := ShareLink.Decode(token, suffix, now);
        if decoded.Some? then
          rooms == MergeShared(old(rooms), decoded.value)
          && currentRoomId == Some(decoded.value.id) && view == RoomDetailView
        else
          rooms == old(rooms) && currentRoomId == old(currentRoomId) && view == old(view)
      ensures user == old(user)
    {
      var decoded := ShareLink.Decode(token, suffix, now);
      if decoded.Some? {
        var room := decoded.value;
        rooms := MergeShared(rooms, room);
        currentRoomId := Some(room.id);
        view := RoomDetailView;
      }
    }

    /** `loadGlobalData`: the local list is replaced by what the store lists,
      whatever it held before; a failed fetch empties it. */
    method Refresh(now: int, reachable: bool)
      requires Valid()
      modifies this
      ensures Valid()
      ensures reachable ==> Store.IsFetchResult(store.rows, now, rooms)
      ensures !reachable ==> rooms == []
      ensures view == old(view) && user == old(user) && currentRoomId == old(currentRoomId)
    {
      rooms := store.Fetch(now, reachable);
    }

    /** `handleCreateRoom`: the new room is synced; on success it is shown. */
    method CreateRoom(form: RoomForm, id: string, now: int, reachable: bool) returns (ok: bool)
      requires Valid()
      modifies this, store
      ensures Valid()
      ensures ok == reachable
      ensures store.rows == if ok then Store.Upserted(old(store.rows), NewRoom(form, id, now)) else old(store.rows)
      ensures ok ==> currentRoomId == Some(id) && view == RoomDetailView
      ensures !ok ==> currentRoomId == old(currentRoomId) && view == old(view)
      ensures rooms == old(rooms) && user == old(user)
    {
      var room := NewRoom(form, id, now);
      ok := store.Upsert(room, reachable);
      if ok {
        currentRoomId := Some(room.id);
        view := RoomDetailView;
      }
    }

    /** `handleJoinAction`: nothing without a profile; otherwise the profile's
      nickname and code are offered to the store's join check. */
    method Join(roomId: string, pid: string, reachable: bool) returns (ok: bool)
      requires Valid()
      modifies store
      ensures Valid()
      ensures user.None? ==> !ok && store.rows == old(store.rows)
      ensures user.Some? ==>
        var p := Participant(pid, user.value.nickname, user.value.friendCode);
        && (ok <==> reachable && roomId in old(store.rows) && Store.Admits(old(store.rows)[roomId], p))
        && store.rows == if reachable then Store.AfterJoin(old(store.rows), roomId, p) else old(store.rows)
    {
      if user.None? {
        return false;
      }
      var p := Participant(pid, user.value.nickname, user.value.friendCode);
      ok := store.Join(roomId, p, reachable);
    }

    /** `handleLeaveAction`: nothing without a profile; otherwise the profile's
      own code is filtered out of the room. */
    method Leave(roomId: string, reachable: bool) returns (ok: bool)
      requires Valid()
      modifies store
      ensures Valid()
      ensures user.None? ==> !ok && store.rows == old(store.rows)
      ensures user.Some? ==>
        && (ok <==> reachable && roomId in old(store.rows))
        && store.rows == if ok then Store.AfterLeave(old(store.rows), roomId, user.value.friendCode)
                         else old(store.rows)
    {
      if user.None? {
        return false;
      }
      ok := store.Leave(roomId, user.value.friendCode, reachable);
    }

    /** `handleKickAction`: the target's code is filtered out of the room by the
      same operation as leave; the handler itself checks no role. */
    method Kick(roomId: string, target: string, reachable: bool) returns (ok: bool)
      requires Valid()
      modifies store
      ensures Valid()
      ensures ok <==> reachable && roomId in old(store.rows)
      ensures store.rows == if ok then Store.AfterLeave(old(store.rows), roomId, target) else old(store.rows)
    {
      ok := store.Leave(roomId, target, reachable);
    }

    /** `handleDeleteAction`: the store is asked only when the delete gate
      passes; a successful delete returns to the board. */
    method Delete(roomId: string, reachable: bool) returns (ok: bool)
      requires Valid()
      modifies this, store
      ensures Valid()
      ensures ok <==> reachable && DeleteAllowed(old(rooms), roomId, old(user))
      ensures store.rows == if ok then Store.Deleted(old(store.rows), roomId) else old(store.rows)
      ensures view == if ok then BoardView else old(view)
      ensures rooms == old(rooms) && user == old(user) && currentRoomId == old(currentRoomId)
    {
      if !DeleteAllowed(rooms, roomId, user) {
        return false;
      }
      ok := store.Delete(roomId, reachable);
      if ok {
        view := BoardView;
      }
    }
  }

  /** Host A opens a room for two; B and C join, D is turned away, A kicks B,
      and D then gets in. */
  method TwoSlotScenario()
  {
    var store := new Store.RoomStore();
    var app := new Coordinator(store);
    var a := UserProfile("A", "111111111111", false);
    var pb := Participant("p-b", "B", "222222222222");
    var pc := Participant("p-c", "C", "333333333333");
    var form := RoomForm(Participant("host-a", a.nickname, a.friendCode), Normal, None, 2, None, 0, None);
    var ok := app.CreateRoom(form, "room-1", 0, true);
    assert Store.Stored(store.rows["room-1"]) == [] && store.rows["room-1"].slots == 2;

    app.SaveUser(UserProfile("B", "222222222222", false));
    ok := app.Join("room-1", "p-b", true);
    assert ok && Store.Stored(store.rows["room-1"]) == [pb];

    app.SaveUser(UserProfile("C", "333333333333", false));
    assert !Lists([pb], pc.friendCode) by {
      assert [pb][0].friendCode != pc.friendCode;
    }
    ok := app.Join("room-1", "p-c", true);
    assert ok && Store.Stored(store.rows["room-1"]) == [pb, pc];

    KickThenRejoin(app, pb, pc);
  }

  /** The room of two is full with B and C: D is turned away, the host kicks B,
      and D then gets in. */
  method KickThenRejoin(app: Coordinator, pb: Participant, pc: Participant)
    requires app.Valid() && "room-1" in app.store.rows
    requires app.store.rows["room-1"].slots == 2 && Store.Stored(app.store.rows["room-1"]) == [pb, pc]
    requires pb.friendCode == "222222222222" && pc.friendCode == "333333333333"
    modifies app, app.store
  {
    var store := app.store;
    var a := UserProfile("A", "111111111111", false);
    var pd := Participant("p-d", "D", "444444444444");
    var ok;
    app.SaveUser(UserProfile("D", "444444444444", false));
    ok := app.Join("room-1", "p-d", true);
    assert !ok && Store.Stored(store.rows["room-1"]) == [pb, pc];

    app.SaveUser(a);
    ok := app.Kick("room-1", pb.friendCode, true);
    assert Store.RemoveByCode([pb, pc], pb.friendCode) == [pc] by {
      assert [pb, pc][1..] == [pc];
      assert Store.RemoveByCode([pc], pb.friendCode) == [pc] by {
        assert [pc][1..] == [];
      }
    }
    assert ok && Store.Stored(store.rows["room-1"]) == [pc];

    app.SaveUser(UserProfile("D", "444444444444", false));
    assert !Lists([pc], pd.friendCode) by {
      assert [pc][0].friendCode != pd.friendCode;
    }
    ok := app.Join("room-1", "p-d", true);
    assert ok && Store.Stored(store.rows["room-1"]) == [pc, pd];
  }

  /** V hosts a synced room. M, who neither hosts it nor carries the flag,
      opens a link naming that room's id with M's own code, and the delete
      then removes V's row. */
  method LinkedDeleteScenario()
  {
    var store := new Store.RoomStore();
    var app := new Coordinator(store);
    var form := RoomForm(Participant("host-v", "V", "555555555555"), Huge, None, 3, None, 0, None);
    var ok := app.CreateRoom(form, "room-v", 0, true);
    assert "room-v" in store.rows && store.rows["room-v"].hostFriendCode == "555555555555";

    var me := UserProfile("M", "666666666666", false);
    app.SaveUser(me);
    var before := app.rooms;
    var token := ShareLink.Encoded(ShareLink.LinkRecord("M", me.friendCode, Normal, None, 1, 0, "room-v"));
    app.OpenSharedLink(token, "s", 0);
    LinkedHostDeletes(before, "room-v", me, "M", Normal, None, 1, 0, "s", 0);
    ok := app.Delete("room-v", true);
    assert ok && "room-v" !in store.rows;
  }
}
