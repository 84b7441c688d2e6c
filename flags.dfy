/** The canonical flag vocabulary, `EmailFlag` in pynemail/email.py: the
    system flags of section 2.3.2 of RFC 3501 without `\Recent`. */
module Flags {
  import opened Wrappers

  datatype EmailFlag = Answered | Seen | Flagged | Deleted | Draft

  /** `EmailFlag.<name>`: the member with that name, `None` where Python
      raises `AttributeError`. */
  function Named(name: string): (r: Option<EmailFlag>)
    ensures r.Some? <==> name in {"ANSWERED", "SEEN", "FLAGGED", "DELETED", "DRAFT"}
  {
    if name == "ANSWERED" then Some(Answered)
    else if name == "SEEN" then Some(Seen)
    else if name == "FLAGGED" then Some(Flagged)
    else if name == "DELETED" then Some(Deleted)
    else if name == "DRAFT" then Some(Draft)
    else None
  }

  /** The keys `EmailFlag.REPLIED` and `EmailFlag.READ` that the backend flag
      maps are written with name no member, so evaluating either map raises
      `AttributeError`; the members meant are `ANSWERED` and `SEEN`. */
  lemma MapKeysAsWritten()
    ensures Named("REPLIED") == None && Named("READ") == None
    ensures Named("ANSWERED") == Some(Answered) && Named("SEEN") == Some(Seen)
  {
  }
}
