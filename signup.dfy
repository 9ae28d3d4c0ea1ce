/** The credential table and the signup decision: a taken username is refused first,
    then a weak password, and only then is one row appended. */
module Signup {
  import opened Seqs
  import opened PyText
  import opened PasswordPolicy

  /** One row of the credential table. */
  datatype Credential = Credential(username: string, passwordHash: string)

  function UsernameOf(c: Credential): string { c.username }

  /** The `username` column. */
  function Usernames(rows: seq<Credential>): seq<string>
  {
    Map(UsernameOf, rows)
  }

  const UsernameTaken: string := "Username already exists."
  const SignupSucceeded: string := "Signup successful! You can now log in."

  /** The message that lists the unmet requirements. */
  function WeakPasswordMessage(missing: seq<string>): string
  {
    "Password must contain: " + Join(missing, ", ") + "."
  }

  /** What a signup request leads to. */
  datatype Decision = DuplicateUsername | WeakPassword(missing: seq<string>) | Accepted(row: Credential)

  /** The decision for `username` and `password` against the current table; `hash` stands
      for the password hashing. */
  function Decide(rows: seq<Credential>, username: string, password: string, hash: string -> string): Decision
  {
    if username in Usernames(rows) then DuplicateUsername
    else if Deficiencies(password) != [] then WeakPassword(Deficiencies(password))
    else Accepted(Credential(username, hash(password)))
  }

  /** The message shown for a decision. */
  function Message(d: Decision): string
  {
    match d
    case DuplicateUsername => UsernameTaken
    case WeakPassword(missing) => WeakPasswordMessage(missing)
    case Accepted(_) => SignupSucceeded
  }

  /** The table after a decision. */
  function Apply(rows: seq<Credential>, d: Decision): seq<Credential>
  {
    if d.Accepted? then rows + [d.row] else rows
  }

  /** The credential table. */
  class UserStore {
    var rows: seq<Credential>

    /** `read_users` on a missing file: an empty table. */
    constructor ()
      ensures rows == []
    {
      rows := [];
    }

    /** `signup` on a form submission. */
    method Signup(username: string, password: string, hash: string -> string) returns (message: string)
      modifies this
      ensures message == Message(Decide(old(rows), username, password, hash))
      ensures rows == Apply(old(rows), Decide(old(rows), username, password, hash))
    {
      if username in Usernames(rows) {
        message := UsernameTaken;
      } else {
        var missing := IsStrongPassword(password);
        if missing != [] {
          message := WeakPasswordMessage(missing);
        } else {
          var hashed := hash(password);
          rows := rows + [Credential(username, hashed)];
          message := SignupSucceeded;
        }
      }
    }
  }

  /** A taken username is refused whatever the password, and the table stays as it is. */
  lemma TakenUsernameRefused(rows: seq<Credential>, username: string, password: string, hash: string -> string)
    requires username in Usernames(rows)
    ensures Apply(rows, Decide(rows, username, password, hash)) == rows
    ensures Message(Decide(rows, username, password, hash)) == "Username already exists."
  {
  }

  /** For a new username the table grows by exactly the row of the user and the hash of the
      password when the password is strong, and is unchanged otherwise. */
  lemma NewUsernameGrowsIffStrong(rows: seq<Credential>, username: string, password: string, hash: string -> string)
    requires username !in Usernames(rows)
    ensures var after := Apply(rows, Decide(rows, username, password, hash));
      && (after == rows + [Credential(username, hash(password))] <==> Deficiencies(password) == [])
      && (Deficiencies(password) != [] ==> after == rows)
  {
    var after := Apply(rows, Decide(rows, username, password, hash));
    if Deficiencies(password) != [] {
      assert |after| != |rows + [Credential(username, hash(password))]|;
    }
  }

  /** Signup keeps usernames unique: the table maintains the uniqueness that the store
      itself does not enforce. */
  lemma SignupKeepsUsernamesUnique(rows: seq<Credential>, username: string, password: string, hash: string -> string)
    requires Distinct(Usernames(rows))
    ensures Distinct(Usernames(Apply(rows, Decide(rows, username, password, hash))))
  {
    var d := Decide(rows, username, password, hash);
    if d.Accepted? {
      var row := d.row;
      MapAppend(UsernameOf, rows, [row]);
      var names := Usernames(rows + [row]);
      assert names == Usernames(rows) + [username];
      forall i, j | 0 <= i < j < |names| ensures names[i] != names[j] {
        if j == |names| - 1 {
          assert names[i] == Usernames(rows)[i];
        } else {
          assert names[i] == Usernames(rows)[i] && names[j] == Usernames(rows)[j];
        }
      }
    }
  }

  /** A piece of a joined list occurs in the joined text. */
  lemma {:induction false} JoinContainsParts(parts: seq<string>, sep: string, k: nat)
    requires k < |parts|
    ensures Contains(Join(parts, sep), parts[k])
  {
    if |parts| == 1 {
      ContainsItself(parts[0]);
    } else {
      var rest := Join(parts[1..], sep);
      if k == 0 {
        ContainsItself(parts[0]);
        ContainsInMiddle("", parts[0], sep + rest, parts[0]);
        assert "" + parts[0] + (sep + rest) == Join(parts, sep);
      } else {
        JoinContainsParts(parts[1..], sep, k - 1);
        ContainsInMiddle(parts[0] + sep, rest, "", parts[k]);
        assert parts[0] + sep + rest + "" == Join(parts, sep);
      }
    }
  }

  /** The refusal of a weak password names every rule the password breaks. */
  lemma WeakMessageNamesEveryFailure(rows: seq<Credential>, username: string, password: string,
                                     hash: string -> string, r: Rule)
    requires username !in Usernames(rows)
    requires !Holds(r, password)
    ensures Contains(Message(Decide(rows, username, password, hash)), Requirement(r))
  {
    var missing := Deficiencies(password);
    RequirementReportedIffRuleFails(password, r);
    var k :| 0 <= k < |missing| && missing[k] == Requirement(r);
    JoinContainsParts(missing, ", ", k);
    ContainsInMiddle("Password must contain: ", Join(missing, ", "), ".", Requirement(r));
  }
}
