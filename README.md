# Login check of the PPRCollecte backend

This project models the account login endpoint of the PPRCollecte
geospatial data-collection API (`LoginAPIView.post`), the account
serializer it answers with (`LoginSerializer`), and the `login` table it
reads (`Login`, with its unique `mail` column). It proves what the endpoint
decides for every table and every request whose body is a JSON object or
a form.

- `models.dfy`, module `Models`: the `Login` row, the table as a sequence
  of rows in database order, the mail-uniqueness constraint
  (`MailsUnique`), and the single-object lookup by mail (`Get`). The lookup
  has three outcomes: no row, one row, or more than one row. The table
  keyed by mail (`ByMail`) is the abstract view the proofs compare against.
- `serializers.dfy`, module `Serializers`: a model serializer restricted to
  a declared field list (`Project`), and the account serializer over the
  fields `id, nom, prenom, mail, role` (`Serialize`). A serialized body is
  an ordered sequence of (field name, value) entries.
- `views.dfy`, module `Views`: the request (two optional text fields), the
  response, and the check itself (`Post`). The check runs in a fixed order:
  - 400 when a field is absent or empty;
  - 404 when no account has the mail;
  - 401 when the stored password differs;
  - 200 with the serialized account otherwise.
  `Authenticate` is a reference definition of the same check over the table
  keyed by mail.

`Post` is a function of the table and the request, and its only result is
the response. So the check cannot change the table: this holds by
construction rather than by a lemma.

The lookup raises `MultipleObjectsReturned` when several rows match, and
the view does not catch it. The model gives that case as `ServerError`
(status 500). `PostOnUniqueTable` proves it cannot happen while `mail` is
unique.

The code compares the stored password with the supplied one as plain text
(`views.py:29`). The model follows the code.

## Model

| member | source | states |
|---|---|---|
| `Models.MatchingIndices` | API_GeoDjango/pprcollecte/api/views.py:25 | the positions selected by an exact-match filter on `mail`: ascending, every one a row with that mail, and every row with that mail among them |
| `Models.Get` | API_GeoDjango/pprcollecte/api/views.py:24-27 | the lookup yields `DoesNotExist` exactly when no row has the mail, `MultipleObjectsReturned` exactly when two rows do, and otherwise the one row with that mail |
| `Models.GetUnderUniqueMails` | API_GeoDjango/pprcollecte/api/models.py:7 | with unique mails, looking up a row's mail finds exactly that row |
| `Models.ByMail` | API_GeoDjango/pprcollecte/api/models.py:7 | with unique mails the table is a map keyed by mail: its keys are the table's mails and each maps to the row holding it |
| `Models.ByMailIgnoresOrder` | API_GeoDjango/pprcollecte/api/models.py:4-14 | two tables with unique mails and the same rows give the same map, whatever the row order |
| `Serializers.Project` | API_GeoDjango/pprcollecte/api/serializers.py:6-9 | one entry per declared field, in declaration order, each holding that field's name and the row's value unchanged |
| `Serializers.Serialize` | API_GeoDjango/pprcollecte/api/serializers.py:9 | the account body has exactly the names `id, nom, prenom, mail, role` in that order, never `mdp`, and each value is the row's own |
| `Serializers.ProjectOmitsUndeclared` | API_GeoDjango/pprcollecte/api/serializers.py:9 | a column missing from the field list never appears in the output, and the output does not depend on it |
| `Serializers.SerializeForgetsOnlyPassword` | API_GeoDjango/pprcollecte/api/serializers.py:6-9 | two rows serialize alike exactly when they agree on every column except `mdp` |
| `Serializers.SerializeInjectiveOnTable` | API_GeoDjango/pprcollecte/api/serializers.py:9 | on a table with unique mails, distinct rows give distinct bodies |
| `Views.Post` | API_GeoDjango/pprcollecte/api/views.py:16-33 | 400 exactly when a field is absent or empty; 404 exactly when both are present and no row has the mail; 401 only for the single row with that mail whose password differs; 200 only with the body of a row with that mail and password; 500 exactly when two rows share the mail |
| `Views.MissingFieldIgnoresTable` | API_GeoDjango/pprcollecte/api/views.py:18-22 | with a field absent or empty, the answer is 400 with the same message for every table |
| `Views.PostOnUniqueTable` | API_GeoDjango/pprcollecte/api/views.py:21-33 | with unique mails: 400, 404, 401 and 200 each hold exactly when their condition does, and 500 never happens |
| `Views.UnknownMailIsNotFoundForAnyPassword` | API_GeoDjango/pprcollecte/api/views.py:21-30 | an unknown mail with any non-empty password gets the same answer, 404 and never 401 |
| `Views.SuccessReturnsTheAccount` | API_GeoDjango/pprcollecte/api/views.py:25-33 | with unique mails, the right mail and password give 200 with the body of that account's row |
| `Views.SuccessOmitsPassword` | API_GeoDjango/pprcollecte/api/views.py:32-33 | a 200 body has the fields `id, nom, prenom, mail, role` and no `mdp` |
| `Views.PostAgreesWithAuthenticate` | API_GeoDjango/pprcollecte/api/views.py:16-33 | with unique mails, the row-level check gives the same response as the reference check over the table keyed by mail |
| `Views.PostIgnoresRowOrder` | API_GeoDjango/pprcollecte/api/views.py:25 | with unique mails, the response depends only on which rows the table holds, not on their order |

## Left out

- The ORM query machinery and the PostgreSQL storage behind `login` (`managed = False`): the table is a sequence of rows, and the lookup is an exact-match filter on it.
- The `Piste` model, `PisteSerializer` and `PisteListCreateAPIView`: a generic list/create view and a GeoJSON serializer from the framework, with line geometry in floating point and no logic of their own.
- URL routing (`urls.py`) and the HTTP response objects: a response is its status and body.
- Request values other than text or absent: a JSON body could carry a number, a boolean or a list in `mail` or `mdp`. Those values are falsy or truthy in their own way, and the ORM would cast them. The model takes each field as optional text.
- Request bodies that are not a JSON object or a form: a JSON array or scalar body makes the field read raise an uncaught attribute error (status 500), and a body the framework cannot parse is refused by its parser with a 400 of its own. The model starts from a body already parsed into its two fields.
- Password hashing: the code compares plain text, and so does the model.
- `Login.__str__` (models.py:16-17) returns the mail for display only, and the check never uses it.
- The uniqueness of the implicit `id` primary key: nothing in the check depends on it.
