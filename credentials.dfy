/** The shape checks a registration must pass before anything is stored. */
module Credentials {

  /** `is_valid_email`: the string holds an '@' somewhere and is at least
      five characters long. Nothing else about its form is checked. */
  function IsValidEmail(s: string): (ok: bool)
    ensures ok <==> 5 <= |s| && exists i :: 0 <= i < |s| && s[i] == '@'
  {
    '@' in s && |s| >= 5
  }

  /** `is_valid_password`: at least six characters, of any kind. */
  function IsValidPassword(s: string): (ok: bool)
    ensures ok <==> 6 <= |s|
  {
    |s| >= 6
  }
}
