/** Share links (utils/helpers.ts): a room is projected onto a small record that
    travels as a text token, and a token is read back into a fresh active room.
    The text encoding itself (JSON, URI escaping, base64) is a bijection this
    model does not look inside: a token either carries a record or is unreadable. */
module ShareLink {
  import opened Types

  /** The fields a link carries: host nickname and code, category, attribute,
      slots, start time and id. */
  datatype LinkRecord = LinkRecord(
    h: string,
    c: string,
    cat: Category,
    a: Option<Attribute>,
    s: int,
    t: int,
    id: string)

  /** A link token: the encoding of a record, or text that does not decode to one. */
  datatype Token = Encoded(data: LinkRecord) | Unreadable(text: string)

  /** The prefix of the id a decoded room gets when its link carries none. */
  const SHARED_PREFIX: string := "shared-"

  /** Encoding never fails; what it keeps is stated by `RoundTrip`. */
  function Encode(room: Room): (t: Token)
    ensures t.Encoded?
  {
    Encoded(LinkRecord(room.host.nickname, room.host.friendCode, room.category,
                       room.attribute, room.slots, room.startTime, room.id))
  }

  /** Reads a token back into a room: an empty id is replaced by a generated one
      (`suffix` stands for the random part), the host id is the remote marker,
      the room has no participants, is active and is created `now`. An unreadable
      token gives no room at all. */
  function Decode(token: Token, suffix: string, now: int): (r: Option<Room>)
    ensures r.Some? <==> token.Encoded?
    ensures r.Some? ==>
      && r.value.participants == [] && r.value.status == Active
      && r.value.host.id == REMOTE_ID && r.value.createdAt == now
      && r.value.imageUrl.None? && r.value.minStrength.None?
      && r.value.id != ""
  {
    match token
    case Unreadable(_) => None
    case Encoded(d) =>
      Some(Room(
        id := if d.id != "" then d.id else SHARED_PREFIX + suffix,
        host := Participant(REMOTE_ID, d.h, d.c),
        category := d.cat,
        attribute := d.a,
        slots := d.s,
        participants := [],
        imageUrl := None,
        startTime := d.t,
        createdAt := now,
        status := Active,
        minStrength := None))
  }

  /** Decoding an encoded room keeps the linked fields (the id when it is not
      empty) and sets the host id, the empty participant list and the active
      status whatever the original held. */
  lemma RoundTrip(room: Room, suffix: string, now: int)
    ensures Decode(Encode(room), suffix, now).Some?
    ensures
      var d := Decode(Encode(room), suffix, now).value;
      && (room.id != "" ==> d.id == room.id)
      && d.host == room.host.(id := REMOTE_ID)
      && d.category == room.category && d.attribute == room.attribute
      && d.slots == room.slots && d.startTime == room.startTime
      && d.participants == [] && d.status == Active
  {
  }

  /** The rooms a link can carry: a decoded room encodes to the same record. */
  lemma DecodeThenEncode(token: Token, suffix: string, now: int)
    requires token.Encoded? && token.data.id != ""
    ensures Encode(Decode(token, suffix, now).value) == token
  {
  }
}
