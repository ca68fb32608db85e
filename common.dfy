/** Small shared vocabulary: an optional value, what the backend's
    identity service and `members` table hand back to the application, and
    the calls made to them. */
module Common {

  datatype Option<+T> = None | Some(value: T)

  /** The identity resolved from a session (only its id is used by the core). */
  datatype User = User(id: string)

  /** A row of the `members` table, as selected with `select("status")`;
      the column may hold SQL null. */
  datatype MemberRow = MemberRow(status: Option<string>)

  /** The one status value that grants access. */
  const ActiveStatus: string := "active"

  /** The sign-in page, where both the gate and the actions send a browser. */
  const LoginPath: string := "/login"

  /** A call made to the backend: the identity service's `getUser`,
      `signInWithPassword`, `signOut` and `signUp`, and the read of a
      member's `status` from the `members` table. */
  datatype Call =
    | GetUser
    | SelectMemberStatus(userId: string)
    | SignInWithPassword(email: string, password: string)
    | SignOut
    | SignUp(email: string, password: string, fullName: Option<string>)
}
