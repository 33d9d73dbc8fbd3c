/** The account serializer: the projection of a `Login` row onto the fields
    the API exposes. */
module Serializers {
  import opened Models

  /** The columns of the `login` table. */
  datatype Column = Id | Nom | Prenom | Mail | Mdp | Role

  /** A serialized field value: the primary key is an integer, every other
      column is text. */
  datatype Value = Int(n: int) | Text(s: string)

  /** One entry of the serialized body: a field name and its value. */
  type Entry = (string, Value)

  /** The column's field name in the serialized body. */
  function ColumnName(c: Column): string {
    match c
    case Id => "id"
    case Nom => "nom"
    case Prenom => "prenom"
    case Mail => "mail"
    case Mdp => "mdp"
    case Role => "role"
  }

  /** The value a row holds in a column. */
  function ColumnValue(u: Login, c: Column): Value {
    match c
    case Id => Int(u.id)
    case Nom => Text(u.nom)
    case Prenom => Text(u.prenom)
    case Mail => Text(u.mail)
    case Mdp => Text(u.mdp)
    case Role => Text(u.role)
  }

  /** Distinct columns have distinct field names, so that
      `ProjectOmitsUndeclared` can tell an undeclared field from a declared one. */
  lemma ColumnNameInjective(c: Column, d: Column)
    ensures ColumnName(c) == ColumnName(d) ==> c == d
  {
  }

  /** The fields the account serializer declares, in declaration order. */
  const LoginFields: seq<Column> := [Id, Nom, Prenom, Mail, Role]

  /** The field names of a serialized body, in order. */
  function Names(d: seq<Entry>): (ns: seq<string>)
    ensures |ns| == |d|
    ensures forall k :: 0 <= k < |d| ==> ns[k] == d[k].0
  {
    if |d| == 0 then [] else [d[0].0] + Names(d[1..])
  }

  /** A model serializer restricted to the declared `fields`: one entry per
      declared field, in declaration order, each holding the row's value for
      that column unchanged. */
  function Project(u: Login, fields: seq<Column>): (d: seq<Entry>)
    ensures |d| == |fields|
    ensures forall k :: 0 <= k < |fields| ==>
      d[k].0 == ColumnName(fields[k]) && d[k].1 == ColumnValue(u, fields[k])
  {
    if |fields| == 0 then [] else [(ColumnName(fields[0]), ColumnValue(u, fields[0]))] + Project(u, fields[1..])
  }

  /** The account serializer's output for one row. */
  function Serialize(u: Login): (d: seq<Entry>)
    ensures Names(d) == ["id", "nom", "prenom", "mail", "role"]
    ensures "mdp" !in Names(d)
    ensures d == [("id", Int(u.id)), ("nom", Text(u.nom)), ("prenom", Text(u.prenom)),
                  ("mail", Text(u.mail)), ("role", Text(u.role))]
  {
    Project(u, LoginFields)
  }

  /** A field dropped from the declared list never appears in the output, and
      the output never depends on a column that is not declared. */
  lemma {:induction false} ProjectOmitsUndeclared(u: Login, v: Login, fields: seq<Column>, c: Column)
    requires c !in fields
    requires forall f :: f in fields ==> ColumnValue(u, f) == ColumnValue(v, f)
    ensures ColumnName(c) !in Names(Project(u, fields))
    ensures Project(u, fields) == Project(v, fields)
  {
    if |fields| > 0 {
      ProjectOmitsUndeclared(u, v, fields[1..], c);
      ColumnNameInjective(c, fields[0]);
    }
  }

  /** The serialized body determines every column but the password, and
      rows that differ only in the password serialize alike. */
  lemma SerializeForgetsOnlyPassword(u: Login, v: Login)
    ensures Serialize(u) == Serialize(v) <==> u.(mdp := "") == v.(mdp := "")
  {
  }

  /** On a table with unique mails, distinct rows serialize differently,
      because the mail is kept. */
  lemma SerializeInjectiveOnTable(t: Table, i: int, j: int)
    requires MailsUnique(t)
    requires 0 <= i < |t| && 0 <= j < |t| && i != j
    ensures Serialize(t[i]) != Serialize(t[j])
  {
  }
}
