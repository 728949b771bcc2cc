/** The `-pass` flag, shared by both servers. */
module Passwords {
  import opened Wrappers

  /** Python's `if args.password`: an absent or empty password leaves the server open. */
  predicate Configured(password: Option<string>): (configured: bool)
    ensures configured ==> password.Some?
    ensures password == None || password == Some("") ==> !configured
    ensures forall p :: p != "" && password == Some(p) ==> configured
  {
    password.Some? && password.value != ""
  }
}
