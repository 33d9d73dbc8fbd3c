/** The `login` account table and the one query the login check runs on it:
    looking an account up by its mail address. */
module Models {

  /** One row of the `login` table. `id` is the primary key the ORM adds;
      `mdp` is the password, stored as entered. */
  datatype Login = Login(id: int, nom: string, prenom: string, mail: string, mdp: string, role: string)

  /** The table's rows, in the order the database returns them. */
  type Table = seq<Login>

  /** The `unique=True` constraint on `mail`: no two rows share a mail address. */
  ghost predicate MailsUnique(t: Table) {
    forall i, j :: 0 <= i < |t| && 0 <= j < |t| && t[i].mail == t[j].mail ==> i == j
  }

  /** Some row has this mail address. */
  ghost predicate HasMail(t: Table, mail: string) {
    exists i :: 0 <= i < |t| && t[i].mail == mail
  }

  /** The positions of the rows whose mail equals `mail`, in ascending order:
      the rows an exact-match filter on `mail` selects. */
  function MatchingIndices(t: Table, mail: string): (r: seq<nat>)
    ensures forall k :: 0 <= k < |r| ==> r[k] < |t| && t[r[k]].mail == mail
    ensures forall a, b :: 0 <= a < b < |r| ==> r[a] < r[b]
    ensures forall i :: 0 <= i < |t| && t[i].mail == mail ==> i in r
  {
    if |t| == 0 then []
    else
      var r := MatchingIndices(t[..|t| - 1], mail);
      if t[|t| - 1].mail == mail then r + [|t| - 1] else r
  }

  /** What a single-object lookup on the table can yield. */
  datatype Lookup = DoesNotExist | Found(row: Login) | MultipleObjectsReturned

  /** A lookup by mail that expects exactly one row: none is `DoesNotExist`,
      more than one is `MultipleObjectsReturned`. */
  function Get(t: Table, mail: string): (r: Lookup)
    ensures r.DoesNotExist? <==> !HasMail(t, mail)
    ensures r.Found? ==>
      exists i :: 0 <= i < |t| && t[i] == r.row && t[i].mail == mail &&
        forall j :: 0 <= j < |t| && t[j].mail == mail ==> j == i
    ensures r.MultipleObjectsReturned? <==>
      exists i, j :: 0 <= i < j < |t| && t[i].mail == mail && t[j].mail == mail
  {
    var ix := MatchingIndices(t, mail);
    if |ix| == 0 then
      assert forall i :: 0 <= i < |t| && t[i].mail == mail ==> i in ix;
      DoesNotExist
    else if |ix| == 1 then
      assert forall j :: 0 <= j < |t| && t[j].mail == mail ==> j == ix[0] by {
        forall j | 0 <= j < |t| && t[j].mail == mail ensures j == ix[0] {
          assert j in ix;
        }
      }
      Found(t[ix[0]])
    else
      assert ix[0] < ix[1];
      MultipleObjectsReturned
  }

  /** With mail addresses unique, the lookup never finds more than one row,
      and it finds exactly the row that carries the mail address. */
  lemma GetUnderUniqueMails(t: Table, i: int)
    requires MailsUnique(t)
    requires 0 <= i < |t|
    ensures Get(t, t[i].mail) == Found(t[i])
  {
  }

  /** The table keyed by mail address. Well defined because mails are unique. */
  ghost function ByMail(t: Table): (m: map<string, Login>)
    requires MailsUnique(t)
    ensures forall mail :: mail in m <==> HasMail(t, mail)
    ensures forall i :: 0 <= i < |t| ==> t[i].mail in m && m[t[i].mail] == t[i]
  {
    map i | 0 <= i < |t| :: t[i].mail := t[i]
  }

  /** Two tables holding the same rows, each with unique mails, give the same
      map: the order in which the database returns rows does not matter. */
  lemma ByMailIgnoresOrder(t1: Table, t2: Table)
    requires MailsUnique(t1) && MailsUnique(t2)
    requires forall u :: u in t1 <==> u in t2
    ensures ByMail(t1) == ByMail(t2)
  {
    var m1, m2 := ByMail(t1), ByMail(t2);
    forall mail | mail in m1 ensures mail in m2 && m1[mail] == m2[mail] {
      var i :| 0 <= i < |t1| && t1[i].mail == mail;
      assert t1[i] in t2;
      var j :| 0 <= j < |t2| && t2[j] == t1[i];
    }
    forall mail | mail in m2 ensures mail in m1 {
      var j :| 0 <= j < |t2| && t2[j].mail == mail;
      assert t2[j] in t1;
      var i :| 0 <= i < |t1| && t1[i] == t2[j];
    }
  }
}
