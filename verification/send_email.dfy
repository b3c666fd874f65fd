/** The `POST /send-email` handler (index.js:87-139) with the store lookup's
    error and the mail API's verdict as inputs. */
module SendEmail {
  import opened Wrappers
  import opened Store
  import Utf8
  import Mime
  import RawMessage
  import Base64

  /** The JSON request body; a field it lacks is `None`. */
  datatype Request = Request(to: Option<string>, subject: Option<string>, body: Option<string>)

  /** JS truthiness of a string field: present and not empty. */
  predicate Truthy(field: Option<string>) {
    field.Some? && field.value != ""
  }

  predicate FieldsPresent(req: Request) {
    Truthy(req.to) && Truthy(req.subject) && Truthy(req.body)
  }

  /** The `gmail.users.messages.send` request (index.js:128-131), with the
      credentials set on the per-request OAuth client (index.js:106-110):
      the same token fields the callback stores. */
  datatype MailSend = MailSend(userId: string, raw: string, credentials: Tokens)

  datatype Reply = SuccessReply | ErrorReply(error: string)

  /** The HTTP status and JSON reply, whether the store was queried, and the
      mail request made, if any. */
  datatype Handled = Handled(status: int, reply: Reply, lookedUp: bool, sent: Option<MailSend>)

  /** The status as a function of the three decisions the handler makes. */
  function StatusFor(fieldsPresent: bool, userFound: bool, sendAccepted: bool): (status: int)
    ensures status == 200 <==> fieldsPresent && userFound && sendAccepted
    ensures status == 400 <==> !fieldsPresent || !userFound
    ensures status == 500 <==> fieldsPresent && userFound && !sendAccepted
  {
    if !fieldsPresent || !userFound then 400 else if sendAccepted then 200 else 500
  }

  /** The `raw` field for a message, from the text to the octets to base64url. */
  function RawFor(to: string, subject: string, body: string): string {
    RawMessage.Raw(Utf8.Encode(Mime.Compose(to, subject, body)))
  }

  /** `lookupFails` is the `err` the store reports; `sendAccepted` is whether
      everything inside the `try` (client set-up and the send) succeeds. */
  function Handle(db: Db, lookupFails: bool, req: Request, sendAccepted: bool): (h: Handled)
    ensures h.status == StatusFor(FieldsPresent(req), !lookupFails && req.to.Some? && req.to.value in db, sendAccepted)
    ensures !FieldsPresent(req) ==> h.reply == ErrorReply("Missing fields") && !h.lookedUp && h.sent.None?
    ensures FieldsPresent(req) ==> h.lookedUp
    ensures FieldsPresent(req) && (lookupFails || req.to.value !in db) ==>
              h.reply == ErrorReply("User not connected") && h.sent.None?
    ensures h.sent.Some? <==> FieldsPresent(req) && !lookupFails && req.to.value in db
    ensures h.sent.Some? ==>
              h.sent.value == MailSend("me", RawFor(req.to.value, req.subject.value, req.body.value),
                                       Tokens(db[req.to.value].accessToken, db[req.to.value].refreshToken,
                                                   db[req.to.value].expiryDate))
    ensures h.status == 200 <==> h.reply == SuccessReply
    ensures h.status == 500 ==> h.reply == ErrorReply("Email failed")
  {
    if !(Truthy(req.to) && Truthy(req.subject) && Truthy(req.body)) then
      Handled(400, ErrorReply("Missing fields"), false, None)
    else
      var to := req.to.value;
      var user := Get(db, to);
      if lookupFails || user.None? then
        Handled(400, ErrorReply("User not connected"), true, None)
      else
        var row := user.value;
        var creds := Tokens(row.accessToken, row.refreshToken, row.expiryDate);
        var send := MailSend("me", RawFor(to, req.subject.value, req.body.value), creds);
        if sendAccepted then Handled(200, SuccessReply, true, Some(send))
        else Handled(500, ErrorReply("Email failed"), true, Some(send))
  }

  /** What the handler submits is the unpadded base64url text of exactly the
      message octets: only `A-Z a-z 0-9 - _`, ceil(4n/3) characters for n
      octets, and decoding it after restoring the padding gives the octets. */
  lemma SubmittedRawDecodesToMessage(db: Db, lookupFails: bool, req: Request, sendAccepted: bool)
    requires Handle(db, lookupFails, req, sendAccepted).sent.Some?
    ensures var raw := Handle(db, lookupFails, req, sendAccepted).sent.value.raw;
            var octets := Utf8.Encode(Mime.Compose(req.to.value, req.subject.value, req.body.value));
            && RawMessage.DecodeRaw(raw) == Some(octets)
            && raw == Base64.Encode(Base64.UrlSafe, octets, false)
            && |raw| == (4 * |octets| + 2) / 3
            && forall i :: 0 <= i < |raw| ==> Base64.IsUrlSafeChar(raw[i])
  {
    var octets := Utf8.Encode(Mime.Compose(req.to.value, req.subject.value, req.body.value));
    RawMessage.DecodeRawInvertsRaw(octets);
    RawMessage.RawIsUnpaddedBase64Url(octets);
    RawMessage.RawAlphabetAndLength(octets);
  }
}
