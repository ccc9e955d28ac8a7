/** The outbound port `EmailService`, modelled as an append-only log of the
    messages it was asked to send. */
module EmailPort {
  import opened UserModel

  /** One call to the port: `sendWelcomeEmail(user)` or `sendPromotionalEmail(user, content)`. */
  datatype SentEmail = Welcome(recipient: User) | Promotional(recipient: User, content: string)

  class EmailOutbox {
    /** Every message sent, oldest first. */
    var sent: seq<SentEmail>

    constructor ()
      ensures sent == []
    {
      sent := [];
    }

    method SendWelcomeEmail(user: User)
      modifies this
      ensures sent == old(sent) + [Welcome(user)]
    {
      sent := sent + [Welcome(user)];
    }

    method SendPromotionalEmail(user: User, content: string)
      modifies this
      ensures sent == old(sent) + [Promotional(user, content)]
    {
      sent := sent + [Promotional(user, content)];
    }
  }
}
