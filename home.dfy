/** The profile form of the home page (components/Home.tsx): the typed friend
    code, its whitespace-free form, the administrator toggle that only the
    master code may keep on, and the profile saved on submit. */
module Home {
  import opened Types
  import FriendCode

  /** `friendCode.replace(/\s/g, '')`. */
  function CleanFriendCode(code: string): string
  {
    FriendCode.StripWhitespace(code)
  }

  predicate IsMasterCode(code: string)
  {
    CleanFriendCode(code) == MASTER_ADMIN_CODE
  }

  /** A profile whose administrator flag is backed by the master code. */
  predicate AdminHonest(user: UserProfile)
  {
    user.isAdmin ==> user.friendCode == MASTER_ADMIN_CODE
  }

  /** The profile a submit saves: the cleaned code, and the toggle kept only
      for the master code. */
  function SubmittedProfile(nickname: string, code: string, toggle: bool): (u: UserProfile)
    ensures u.nickname == nickname
    ensures u.friendCode == CleanFriendCode(code)
    ensures forall i :: 0 <= i < |u.friendCode| ==> !FriendCode.IsWhitespace(u.friendCode[i])
    ensures u.isAdmin <==> IsMasterCode(code) && toggle
    ensures AdminHonest(u)
  {
    UserProfile(nickname, CleanFriendCode(code), if IsMasterCode(code) then toggle else false)
  }

  /** Saved profiles hold a code the form accepted: twelve digits or the master code. */
  lemma SubmittedCodeAccepted(nickname: string, code: string, toggle: bool)
    requires FriendCode.IsValid(code)
    ensures var u := SubmittedProfile(nickname, code, toggle);
      u.friendCode == MASTER_ADMIN_CODE || (|u.friendCode| == 12 && FriendCode.AllDigits(u.friendCode))
  {
  }

  /** The form's state. */
  class ProfileForm {
    var nickname: string
    var friendCode: string
    var isAdmin: bool
    var isEditing: bool

    /** The toggle is on only for the master code. */
    ghost predicate Valid()
      reads this
    {
      isAdmin ==> IsMasterCode(friendCode)
    }

    /** The form opened on the saved profile, if any, after its first effect
        run, which switches off a toggle the code does not back. */
    constructor (user: Option<UserProfile>)
      ensures Valid()
      ensures isEditing <==> user.None?
      ensures nickname == (if user.Some? then user.value.nickname else "")
      ensures friendCode == (if user.Some? then user.value.friendCode else "")
      ensures isAdmin <==> user.Some? && user.value.isAdmin && IsMasterCode(user.value.friendCode)
    {
      isEditing := user.None?;
      nickname := if user.Some? then user.value.nickname else "";
      friendCode := if user.Some? then user.value.friendCode else "";
      isAdmin := user.Some? && user.value.isAdmin;
      new;
      if !IsMasterCode(friendCode) && isAdmin {
        isAdmin := false;
      }
    }

    method EditNickname(input: string)
      requires Valid()
      modifies this
      ensures Valid()
      ensures nickname == input
      ensures friendCode == old(friendCode) && isAdmin == old(isAdmin) && isEditing == old(isEditing)
    {
      nickname := input;
    }

    /** A keystroke in the code field; the effect re-runs when the cleaned code
        changes and switches the toggle off unless the code is the master code. */
    method EditFriendCode(input: string)
      requires Valid()
      modifies this
      ensures Valid()
      ensures friendCode == input
      ensures isAdmin <==> old(isAdmin) && IsMasterCode(input)
      ensures nickname == old(nickname) && isEditing == old(isEditing)
    {
      var before := CleanFriendCode(friendCode);
      friendCode := input;
      if CleanFriendCode(friendCode) != before {
        if !IsMasterCode(friendCode) && isAdmin {
          isAdmin := false;
        }
      }
    }

    /** The administrator switch; it is drawn only for the master code. */
    method ToggleAdmin()
      requires Valid()
      modifies this
      ensures Valid()
      ensures isAdmin <==> if IsMasterCode(friendCode) then !old(isAdmin) else old(isAdmin)
      ensures nickname == old(nickname) && friendCode == old(friendCode) && isEditing == old(isEditing)
    {
      if IsMasterCode(friendCode) {
        isAdmin := !isAdmin;
      }
    }

    /** `handleSubmit`: with a nickname and an accepted code the profile is
        saved and editing ends; otherwise nothing is saved. */
    method Submit() returns (saved: Option<UserProfile>)
      requires Valid()
      modifies this
      ensures Valid()
      ensures saved.Some? <==> old(nickname) != "" && FriendCode.IsValid(old(friendCode))
      ensures saved.Some? ==> saved.value == SubmittedProfile(old(nickname), old(friendCode), old(isAdmin))
      ensures isEditing == (if saved.Some? then false else old(isEditing))
      ensures nickname == old(nickname) && friendCode == old(friendCode) && isAdmin == old(isAdmin)
    {
      if nickname != "" && FriendCode.IsValid(friendCode) {
        saved := Some(SubmittedProfile(nickname, friendCode, isAdmin));
        isEditing := false;
      } else {
        saved := None;
      }
    }
  }
}
