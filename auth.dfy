/** The signed-in user and the checks the password-change form makes before contacting the backend. */
module Auth {

  datatype User = User(username: string, role: string)

  /** `currentUser` when nobody is signed in. */
  const SignedOut: User := User("", "")

  /** The payload of the `secureUpdateOwnPassword` request. */
  datatype PasswordChange = PasswordChange(username: string, currentPassword: string, newPassword: string)

  /** What the password-change form does: warn about a blank field, report a mismatch, or send. */
  datatype PasswordCheck = MissingField | Mismatch | Send(request: PasswordChange)

  /** The form's checks, in the order they are made: a blank field first, then the confirmation. */
  function CheckPasswordChange(username: string, current: string, newPassword: string, confirm: string): (r: PasswordCheck)
    ensures r.MissingField? <==> current == "" || newPassword == "" || confirm == ""
    ensures r.Mismatch? <==> current != "" && newPassword != "" && confirm != "" && newPassword != confirm
    ensures r.Send? ==> r.request == PasswordChange(username, current, confirm) && newPassword == confirm
  {
    if current == "" || newPassword == "" || confirm == "" then MissingField
    else if newPassword != confirm then Mismatch
    else Send(PasswordChange(username, current, newPassword))
  }
}
