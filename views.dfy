/** The login endpoint: from a request body with `mail` and `mdp` and the
    account table to a status and a response body. */
module Views {
  import opened Models
  import opened Serializers

  datatype Option<T> = None | Some(value: T)

  /** The two fields read from the request body; either may be absent. */
  datatype Request = Request(mail: Option<string>, mdp: Option<string>)

  /** The response: an error body carrying its message, or the serialized
      account. `ServerError` is the lookup's uncaught multiple-rows failure. */
  datatype Response =
    | BadRequest(error: string)
    | NotFound(error: string)
    | Unauthorized(error: string)
    | Ok(body: seq<Entry>)
    | ServerError

  const RequiredMessage := "Mail et mot de passe requis"
  const NotFoundMessage := "Utilisateur non trouvé"
  const WrongPasswordMessage := "Mot de passe incorrect"

  /** The HTTP status code each response is sent with. */
  function Status(r: Response): int {
    match r
    case BadRequest(_) => 400
    case NotFound(_) => 404
    case Unauthorized(_) => 401
    case Ok(_) => 200
    case ServerError => 500
  }

  /** A field counts as missing when it is absent or the empty string, which
      is what the falsiness test of the source accepts for a text value. */
  predicate Missing(x: Option<string>) {
    x.None? || x.value == ""
  }

  predicate Present(req: Request) {
    !Missing(req.mail) && !Missing(req.mdp)
  }

  /** Some row has the supplied mail and a stored password equal to the
      supplied one. */
  ghost predicate Matches(t: Table, mail: string, mdp: string) {
    exists i :: 0 <= i < |t| && t[i].mail == mail && t[i].mdp == mdp
  }

  /** The login check. The checks run in order: missing fields, unknown mail,
      wrong password; only then is the account returned. */
  function Post(t: Table, req: Request): (r: Response)
    ensures r.BadRequest? <==> !Present(req)
    ensures !Present(req) ==> r == BadRequest(RequiredMessage)
    ensures r.NotFound? <==> Present(req) && !HasMail(t, req.mail.value)
    ensures r.NotFound? ==> r.error == NotFoundMessage
    ensures r.Unauthorized? ==>
      r.error == WrongPasswordMessage && Present(req) &&
      exists i :: 0 <= i < |t| && t[i].mail == req.mail.value && t[i].mdp != req.mdp.value &&
        forall j :: 0 <= j < |t| && t[j].mail == req.mail.value ==> j == i
    ensures r.Ok? ==>
      Present(req) &&
      exists i :: 0 <= i < |t| && t[i].mail == req.mail.value && t[i].mdp == req.mdp.value &&
        r.body == Serialize(t[i])
    ensures r.ServerError? <==>
      Present(req) &&
      exists i, j :: 0 <= i < j < |t| && t[i].mail == req.mail.value && t[j].mail == req.mail.value
  {
    if Missing(req.mail) || Missing(req.mdp) then
      BadRequest(RequiredMessage)
    else
      match Get(t, req.mail.value)
      case DoesNotExist => NotFound(NotFoundMessage)
      case MultipleObjectsReturned => ServerError
      case Found(user) =>
        if user.mdp != req.mdp.value then Unauthorized(WrongPasswordMessage)
        else Ok(Serialize(user))
  }

  /** A missing field is rejected before the table is consulted: the answer
      is the same for every table. */
  lemma MissingFieldIgnoresTable(t1: Table, t2: Table, req: Request)
    requires !Present(req)
    ensures Post(t1, req) == Post(t2, req) == BadRequest(RequiredMessage)
  {
  }

  /** The full classification on a table whose mails are unique: each status
      holds exactly when its condition does, and the lookup never fails. */
  lemma PostOnUniqueTable(t: Table, req: Request)
    requires MailsUnique(t)
    ensures Status(Post(t, req)) == 400 <==> !Present(req)
    ensures Status(Post(t, req)) == 404 <==> Present(req) && !HasMail(t, req.mail.value)
    ensures Status(Post(t, req)) == 401 <==>
      Present(req) && HasMail(t, req.mail.value) && !Matches(t, req.mail.value, req.mdp.value)
    ensures Status(Post(t, req)) == 200 <==> Present(req) && Matches(t, req.mail.value, req.mdp.value)
    ensures Status(Post(t, req)) != 500
  {
  }


  /** Unknown mail with any non-empty password is answered 404, never 401:
      the existence check precedes the password check, so the password
      cannot be probed for a mail that has no account. */
  lemma UnknownMailIsNotFoundForAnyPassword(t: Table, mail: string, p1: string, p2: string)
    requires mail != "" && p1 != "" && p2 != ""
    requires !HasMail(t, mail)
    ensures Post(t, Request(Some(mail), Some(p1))) == Post(t, Request(Some(mail), Some(p2)))
    ensures Status(Post(t, Request(Some(mail), Some(p1)))) == 404
  {
  }

  /** On success the body is the serialization of THE row with that mail:
      with unique mails the answer is fully determined by that row. */
  lemma SuccessReturnsTheAccount(t: Table, i: int, req: Request)
    requires MailsUnique(t)
    requires 0 <= i < |t|
    requires Present(req) && req.mail.value == t[i].mail && req.mdp.value == t[i].mdp
    ensures Post(t, req) == Ok(Serialize(t[i]))
  {
  }


  /** A successful response never exposes the stored password. */
  lemma SuccessOmitsPassword(t: Table, req: Request)
    requires Post(t, req).Ok?
    ensures "mdp" !in Names(Post(t, req).body)
    ensures Names(Post(t, req).body) == ["id", "nom", "prenom", "mail", "role"]
  {
  }

  /** Reference model: the same check over the table keyed by mail, where a
      lookup is a map membership test and cannot find more than one row. */
  ghost function Authenticate(accounts: map<string, Login>, req: Request): Response
  {
    if !Present(req) then BadRequest(RequiredMessage)
    else if req.mail.value !in accounts then NotFound(NotFoundMessage)
    else if accounts[req.mail.value].mdp != req.mdp.value then Unauthorized(WrongPasswordMessage)
    else Ok(Serialize(accounts[req.mail.value]))
  }

  /** On a table with unique mails, the row-level check agrees with the
      reference model over the table keyed by mail. */
  lemma PostAgreesWithAuthenticate(t: Table, req: Request)
    requires MailsUnique(t)
    ensures Post(t, req) == Authenticate(ByMail(t), req)
  {
  }


  /** The answer depends only on which rows the table holds, not on the order
      the database returns them in. */
  lemma PostIgnoresRowOrder(t1: Table, t2: Table, req: Request)
    requires MailsUnique(t1) && MailsUnique(t2)
    requires forall u :: u in t1 <==> u in t2
    ensures Post(t1, req) == Post(t2, req)
  {
    PostAgreesWithAuthenticate(t1, req);
    PostAgreesWithAuthenticate(t2, req);
    ByMailIgnoresOrder(t1, t2);
  }
}
