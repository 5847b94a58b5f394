/** The data model shared by every part of the app: participants, mushroom
    rooms, user profiles and the single super-admin credential. */
module Types {

  datatype Option<T> = None | Some(value: T)

  /** The six mushroom categories a room can be posted under. */
  datatype Category = Huge | Event | Normal | Small | NormalAttr | LargeAttr

  /** The eleven mushroom attributes. */
  datatype Attribute =
    Electric | Water | Crystal | Fire | Poison | Blue | Pink | Yellow | Red | Ice | White

  /** A room's informational status; admission never consults it. */
  datatype Status = Active | Full | Closed

  /** A member of a room; `friendCode` is the identity key within a room. */
  datatype Participant = Participant(id: string, nickname: string, friendCode: string)

  /** A mushroom room. `startTime` and `createdAt` are instants in milliseconds. */
  datatype Room = Room(
    id: string,
    host: Participant,
    category: Category,
    attribute: Option<Attribute>,
    slots: int,
    participants: seq<Participant>,
    imageUrl: Option<string>,
    startTime: int,
    createdAt: int,
    status: Status,
    minStrength: Option<int>)

  /** The locally saved profile; an absent `isAdmin` behaves as `false`. */
  datatype UserProfile = UserProfile(nickname: string, friendCode: string, isAdmin: bool)

  /** The one friend code whose holder may claim administrator rights. */
  const MASTER_ADMIN_CODE: string := "lloginatw"

  /** The host id given to every room read back from the store or a link. */
  const REMOTE_ID: string := "remote"

  /** Whether `ps` lists a participant whose friend code is `code`. */
  predicate Lists(ps: seq<Participant>, code: string)
  {
    exists i :: 0 <= i < |ps| && ps[i].friendCode == code
  }

  /** No two participants share a friend code. */
  predicate UniqueCodes(ps: seq<Participant>)
  {
    forall i, j :: 0 <= i < j < |ps| ==> ps[i].friendCode != ps[j].friendCode
  }

  /** The room invariants: within capacity, unique by friend code, host excluded. */
  predicate WellFormed(room: Room)
  {
    && |room.participants| <= room.slots
    && UniqueCodes(room.participants)
    && !Lists(room.participants, room.host.friendCode)
  }

  /** `a` is `b` with some elements dropped and the rest in their original order. */
  predicate IsSubsequence<T(==)>(a: seq<T>, b: seq<T>)
    decreases |b|
  {
    if a == [] then true
    else if b == [] then false
    else if a[0] == b[0] then IsSubsequence(a[1..], b[1..])
    else IsSubsequence(a, b[1..])
  }

  /** Every element of a subsequence occurs in the sequence it was taken from. */
  lemma {:induction false} SubsequenceElements<T>(a: seq<T>, b: seq<T>)
    requires IsSubsequence(a, b)
    ensures forall x :: x in a ==> x in b
    decreases |b|
  {
    if a != [] {
      if a[0] == b[0] {
        SubsequenceElements(a[1..], b[1..]);
        assert forall x :: x in a ==> x == a[0] || x in a[1..];
      } else {
        SubsequenceElements(a, b[1..]);
      }
    }
  }
}
