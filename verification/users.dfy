/** The users app's constants. */
module UserConstants {

  /** Length limit for the user model's character fields. */
  const MaxFieldLength: nat := 150

  /** Usernames that would collide with the API's own user routes. */
  const ReservedUsernames: seq<string> := ["me", "admin", "superuser", "set_password", "subscriptions"]

  const AdminUserRole := "admin"
  const DefaultUserRole := "user"

  /** Every reserved name is short enough to be stored as a username, so reserving it is not vacuous. */
  lemma ReservedNamesFit()
    ensures forall name | name in ReservedUsernames :: 0 < |name| <= MaxFieldLength
  {
  }

  /** Stored value and label of each role. */
  const UserRoleChoices: seq<(string, string)> := [("admin", "Admin"), ("user", "User")]

  /** The stored values the role field accepts. */
  function RoleKeys(): (keys: seq<string>)
    ensures |keys| == |UserRoleChoices|
    ensures forall i :: 0 <= i < |keys| ==> keys[i] == UserRoleChoices[i].0
  {
    seq(|UserRoleChoices|, i requires 0 <= i < |UserRoleChoices| => UserRoleChoices[i].0)
  }

  /** Both named roles are keys of the choices, and they differ. */
  lemma RoleConstantsAreChoices()
    ensures AdminUserRole in RoleKeys() && DefaultUserRole in RoleKeys()
    ensures AdminUserRole != DefaultUserRole
  {
    assert RoleKeys()[0] == AdminUserRole;
    assert RoleKeys()[1] == DefaultUserRole;
  }
}

/** `reserved_username_validator`. */
module UserValidators {
  import opened Wrappers
  import opened Text
  import opened UserConstants

  datatype UsernameError = ReservedUsername

  /** Rejects a username whose lower-case form is one of the reserved names. */
  function ReservedUsernameValidator(value: string): (r: Outcome<UsernameError>)
    ensures r.Fail? <==> AsciiLower(value) in ReservedUsernames
  {
    if AsciiLower(value) in ReservedUsernames then Fail(ReservedUsername) else Pass
  }

  /** Changing the case of letters never changes the verdict. */
  lemma VerdictIgnoresCase(value: string)
    ensures ReservedUsernameValidator(AsciiUpper(value)) == ReservedUsernameValidator(value)
    ensures ReservedUsernameValidator(AsciiLower(value)) == ReservedUsernameValidator(value)
  {
    assert AsciiLower(AsciiUpper(value)) == AsciiLower(value);
    assert AsciiLower(AsciiLower(value)) == AsciiLower(value);
  }

  /** Membership is equality with a whole name, so a rejected value has the length of a reserved name. */
  lemma RejectedHaveReservedLength(value: string)
    requires ReservedUsernameValidator(value).Fail?
    ensures |value| in {2, 5, 9, 12, 13}
  {
    var i :| 0 <= i < |ReservedUsernames| && ReservedUsernames[i] == AsciiLower(value);
  }

  /** Every reserved name is already lower case and so is rejected as written. */
  lemma EveryReservedNameRejected(name: string)
    requires name in ReservedUsernames
    ensures ReservedUsernameValidator(name).Fail?
  {
    var i :| 0 <= i < |ReservedUsernames| && ReservedUsernames[i] == name;
    assert AsciiLower(name) == name;
  }

  lemma UsernameExamples()
    ensures ReservedUsernameValidator("ADMIN").Fail?
    ensures ReservedUsernameValidator("Me").Fail?
    ensures ReservedUsernameValidator("admin2").Pass?
    ensures ReservedUsernameValidator("mee").Pass?
  {
    assert AsciiLower("ADMIN") == "admin";
    assert AsciiLower("Me") == "me";
    if ReservedUsernameValidator("admin2").Fail? {
      RejectedHaveReservedLength("admin2");
    }
    if ReservedUsernameValidator("mee").Fail? {
      RejectedHaveReservedLength("mee");
    }
  }
}
