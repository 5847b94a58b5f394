/** The role predicates and the offered actions of a room's detail page
    (components/RoomDetail.tsx). The viewer is optional: a visitor who opened
    a shared link may have no saved profile. */
module RoomView {
  import opened Types
  import Store
  import Home

  /** The viewer hosts the room; never without a viewer. */
  predicate IsHost(room: Room, user: Option<UserProfile>)
  {
    user.Some? && user.value.friendCode == room.host.friendCode
  }

  /** The stored administrator flag, taken as it is. */
  predicate IsAdmin(user: Option<UserProfile>)
  {
    user.Some? && user.value.isAdmin
  }

  predicate CanDelete(room: Room, user: Option<UserProfile>)
  {
    IsHost(room, user) || IsAdmin(user)
  }

  /** Some participant has the viewer's friend code; never without a viewer. */
  predicate IsJoined(room: Room, user: Option<UserProfile>)
  {
    user.Some? && Lists(room.participants, user.value.friendCode)
  }

  predicate IsFull(room: Room)
  {
    |room.participants| >= room.slots
  }

  /** The join button. */
  predicate JoinOffered(room: Room, user: Option<UserProfile>)
  {
    !IsHost(room, user) && !IsJoined(room, user) && !IsFull(room)
  }

  /** The leave button. */
  predicate LeaveOffered(room: Room, user: Option<UserProfile>)
  {
    IsJoined(room, user) && !IsHost(room, user)
  }

  /** The "room full" banner. */
  predicate FullBannerShown(room: Room, user: Option<UserProfile>)
  {
    IsFull(room) && !IsJoined(room, user) && !IsHost(room, user)
  }

  /** The kick control beside each participant. */
  predicate KickOffered(room: Room, user: Option<UserProfile>)
  {
    IsHost(room, user)
  }

  /** The delete button carries the administrator label. */
  predicate AdminDeleteLabel(room: Room, user: Option<UserProfile>)
  {
    IsAdmin(user) && !IsHost(room, user)
  }

  /** The number of empty-slot placeholders drawn under the participants. */
  function EmptySlots(room: Room): (n: nat)
    ensures n + |room.participants| >= room.slots
    ensures |room.participants| <= room.slots ==> n + |room.participants| == room.slots
    ensures |room.participants| >= room.slots ==> n == 0
  {
    if room.slots - |room.participants| > 0 then room.slots - |room.participants| else 0
  }

  /** Without a saved profile the viewer holds no role: not host, not
      administrator, not a participant, and no delete right. */
  lemma NoProfileNoRole(room: Room)
    ensures !IsHost(room, None) && !IsAdmin(None) && !IsJoined(room, None)
    ensures !CanDelete(room, None) && !KickOffered(room, None) && !AdminDeleteLabel(room, None)
  {
  }

  /** For a profile whose flag is backed by the master code, the delete right
      belongs only to the host's friend code or the master code; the host
      always has it, and so does the master code with the flag on. */
  lemma DeleteRightHonest(room: Room, user: UserProfile)
    requires Home.AdminHonest(user)
    ensures CanDelete(room, Some(user)) ==>
      user.friendCode == room.host.friendCode || user.friendCode == MASTER_ADMIN_CODE
    ensures user.friendCode == room.host.friendCode ==> CanDelete(room, Some(user))
    ensures user.isAdmin ==> CanDelete(room, Some(user)) && user.friendCode == MASTER_ADMIN_CODE
  {
  }

  /** At most one of join, leave and the full banner is shown, and the host is
      offered none of them. */
  lemma OfferedActionsExclusive(room: Room, user: Option<UserProfile>)
    ensures !(JoinOffered(room, user) && LeaveOffered(room, user))
    ensures !(JoinOffered(room, user) && FullBannerShown(room, user))
    ensures !(LeaveOffered(room, user) && FullBannerShown(room, user))
    ensures IsHost(room, user) ==>
      !JoinOffered(room, user) && !LeaveOffered(room, user) && !FullBannerShown(room, user)
  {
  }

  /** A visitor with no profile is offered the join button whenever the room
      has room, although the join handler does nothing without a profile. */
  lemma JoinOfferedWithoutProfile(room: Room)
    requires !IsFull(room)
    ensures JoinOffered(room, None)
    ensures !LeaveOffered(room, None) && !KickOffered(room, None) && !CanDelete(room, None)
  {
  }

  /** When the page shows the stored row as it is, the join button is offered
      only when the store's join check will admit the viewer, and the admitted
      row keeps every room invariant, the host's exclusion included. */
  lemma JoinGateSound(room: Room, user: UserProfile, pid: string)
    requires WellFormed(room) && JoinOffered(room, Some(user))
    ensures Store.Admits(Store.ToRow(room), Participant(pid, user.nickname, user.friendCode))
    ensures WellFormed(Store.FromRow(Store.Appended(Store.ToRow(room),
                                                     Participant(pid, user.nickname, user.friendCode))))
  {
    var row := Store.ToRow(room);
    var p := Participant(pid, user.nickname, user.friendCode);
    assert Store.Stored(row) == room.participants;
    assert Store.FromRow(row).participants == room.participants;
    Store.JoinKeepsInvariants(row, p);
  }
}
