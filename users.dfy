/** The values the chat server passes around: a connected user and an optional result. */
module Users {

  datatype Option<T> = None | Some(value: T)

  /**
   * One slot of the session's user array. `U` is a connected user: the id it was
   * given on joining (the fill pointer at that moment), its filtered pseudo, and an
   * opaque handle standing for its network connection. `Empty` is Go's zero value
   * `user{}`, which the server uses to mark a free slot.
   */
  datatype User = Empty | U(id: nat, pseudo: string, conn: nat)
  {
    /** The pseudo field as Go reads it: the zero value `user{}` has the empty pseudo. */
    function DisplayName(): (r: string)
    {
      if U? then pseudo else ""
    }
  }
}
