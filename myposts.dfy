/** The "my battles" page (components/MyPosts.tsx): the rooms the user hosts
    and the rooms the user has joined as a participant. */
module MyPosts {
  import opened Types
  import Store

  predicate HostedBy(room: Room, user: UserProfile)
  {
    room.host.friendCode == user.friendCode
  }

  /** Listed as a participant in a room the user does not host. */
  predicate JoinedBy(room: Room, user: UserProfile)
  {
    room.host.friendCode != user.friendCode && Lists(room.participants, user.friendCode)
  }

  /** The rooms the user hosts, in their original order. */
  function Hosted(rooms: seq<Room>, user: UserProfile): (r: seq<Room>)
    ensures forall x :: x in r <==> x in rooms && HostedBy(x, user)
    ensures IsSubsequence(r, rooms)
  {
    if rooms == [] then []
    else
      var rest := Hosted(rooms[1..], user);
      if HostedBy(rooms[0], user) then
        assert ([rooms[0]] + rest)[1..] == rest;
        [rooms[0]] + rest
      else
        assert rest != [] ==> rest[0] != rooms[0];
        assert forall x :: x in rooms ==> x == rooms[0] || x in rooms[1..];
        rest
  }

  /** The rooms the user has joined but does not host, in their original order. */
  function Joined(rooms: seq<Room>, user: UserProfile): (r: seq<Room>)
    ensures forall x :: x in r <==> x in rooms && JoinedBy(x, user)
    ensures IsSubsequence(r, rooms)
  {
    if rooms == [] then []
    else
      var rest := Joined(rooms[1..], user);
      if JoinedBy(rooms[0], user) then
        assert ([rooms[0]] + rest)[1..] == rest;
        [rooms[0]] + rest
      else
        assert rest != [] ==> rest[0] != rooms[0];
        assert forall x :: x in rooms ==> x == rooms[0] || x in rooms[1..];
        rest
  }

  /** No room is in both lists; a room the user hosts is only in the hosted
      list even when the user is also among its participants. */
  lemma HostedJoinedDisjoint(rooms: seq<Room>, user: UserProfile)
    ensures forall x :: x in Hosted(rooms, user) ==> x !in Joined(rooms, user)
    ensures forall x :: x in rooms && HostedBy(x, user) ==>
      x in Hosted(rooms, user) && x !in Joined(rooms, user)
  {
  }

  lemma {:induction false} HostedConcat(a: seq<Room>, b: seq<Room>, user: UserProfile)
    ensures Hosted(a + b, user) == Hosted(a, user) + Hosted(b, user)
  {
    if a == [] {
      assert a + b == b;
    } else {
      assert (a + b)[1..] == a[1..] + b;
      HostedConcat(a[1..], b, user);
    }
  }

  lemma {:induction false} JoinedConcat(a: seq<Room>, b: seq<Room>, user: UserProfile)
    ensures Joined(a + b, user) == Joined(a, user) + Joined(b, user)
  {
    if a == [] {
      assert a + b == b;
    } else {
      assert (a + b)[1..] == a[1..] + b;
      JoinedConcat(a[1..], b, user);
    }
  }

  /** The ids of a list of rooms, in order. */
  function Ids(rooms: seq<Room>): (r: seq<string>)
    ensures |r| == |rooms|
    ensures forall i :: 0 <= i < |rooms| ==> r[i] == rooms[i].id
  {
    if rooms == [] then [] else [rooms[0].id] + Ids(rooms[1..])
  }

  lemma IdsConcat(a: seq<Room>, b: seq<Room>)
    ensures Ids(a + b) == Ids(a) + Ids(b)
  {
  }

  /** A room after the user has left it: their friend code filtered out. */
  function LeftBy(room: Room, user: UserProfile): (r: Room)
    ensures !JoinedBy(r, user)
    ensures HostedBy(r, user) == HostedBy(room, user) && r.id == room.id
    ensures r == room.(participants := r.participants)
    ensures r.participants == Store.RemoveByCode(room.participants, user.friendCode)
  {
    Store.NotListedAfterRemove(room.participants, user.friendCode);
    room.(participants := Store.RemoveByCode(room.participants, user.friendCode))
  }

  /** When the user leaves the room at index `i`, that room drops out of the
      joined list and every other joined room stays where it was. */
  lemma LeavingDropsFromJoined(rooms: seq<Room>, i: nat, user: UserProfile)
    requires i < |rooms|
    ensures Joined(rooms[i := LeftBy(rooms[i], user)], user)
         == Joined(rooms[..i], user) + Joined(rooms[i + 1..], user)
  {
    var left := LeftBy(rooms[i], user);
    UpdateSplits(rooms, i, left);
    JoinedConcat(rooms[..i] + [left], rooms[i + 1..], user);
    JoinedConcat(rooms[..i], [left], user);
    assert Joined([left], user) == [] by {
      assert !JoinedBy(left, user);
      assert [left][1..] == [];
    }
  }

  /** Replacing the element at `i` is splicing it between the two sides. */
  lemma UpdateSplits(rooms: seq<Room>, i: nat, x: Room)
    requires i < |rooms|
    ensures rooms[i := x] == (rooms[..i] + [x]) + rooms[i + 1..]
  {
  }

  /** Lists that agree room by room on the id and on who hosts give hosted
      lists naming the same rooms. */
  lemma {:induction false} HostedIdsAgree(a: seq<Room>, b: seq<Room>, user: UserProfile)
    requires |a| == |b|
    requires forall i :: 0 <= i < |a| ==> a[i].id == b[i].id && (HostedBy(a[i], user) <==> HostedBy(b[i], user))
    ensures Ids(Hosted(a, user)) == Ids(Hosted(b, user))
  {
    if a != [] {
      HostedIdsAgree(a[1..], b[1..], user);
      var ra, rb := Hosted(a[1..], user), Hosted(b[1..], user);
      if HostedBy(a[0], user) {
        IdsConcat([a[0]], ra);
        IdsConcat([b[0]], rb);
      }
    }
  }

  /** Leaving a room leaves the hosted list naming the same rooms. */
  lemma LeavingKeepsHosted(rooms: seq<Room>, i: nat, user: UserProfile)
    requires i < |rooms|
    ensures Ids(Hosted(rooms[i := LeftBy(rooms[i], user)], user)) == Ids(Hosted(rooms, user))
  {
    HostedIdsAgree(rooms[i := LeftBy(rooms[i], user)], rooms, user);
  }
}
