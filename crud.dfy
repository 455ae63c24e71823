/** backend/db/crud.py: the queries on the `users` and
    `language_translations` tables. A table is the sequence of its rows in
    the order the database returns them; `.first()` is the first row of
    that sequence. SQL `ILIKE '%text%'` is case-insensitive containment. */
module Crud {
  import opened Wrappers
  import opened Text
  import opened Models

  /** Position of the first user whose email is exactly `email`
      (case-sensitive), or `|users|` when there is none. */
  function FindUser(users: seq<User>, email: string): (i: nat)
    ensures i <= |users|
    ensures i < |users| ==> users[i].email == email
    ensures forall j :: 0 <= j < i ==> users[j].email != email
  {
    if users == [] then 0
    else if users[0].email == email then 0
    else 1 + FindUser(users[1..], email)
  }

  /** `get_user_by_email`: the user with exactly this email, or none. */
  function UserByEmail(users: seq<User>, email: string): (r: Option<User>)
    ensures r.None? <==> forall u :: u in users ==> u.email != email
    ensures r.Some? ==> r.value in users && r.value.email == email
  {
    var i := FindUser(users, email);
    if i < |users| then Some(users[i]) else None
  }

  /** The `unique=True` constraint on `users.email`. */
  predicate UniqueEmails(users: seq<User>) {
    forall i, j :: 0 <= i < j < |users| ==> users[i].email != users[j].email
  }

  /** With unique emails the lookup finds the one user with that email. */
  lemma UserByEmailUnique(users: seq<User>, k: nat)
    requires UniqueEmails(users) && k < |users|
    ensures UserByEmail(users, users[k].email) == Some(users[k])
    ensures FindUser(users, users[k].email) == k
  {
    var i := FindUser(users, users[k].email);
    assert i <= k;
  }

  /** The record `create_user` builds: the hash of the password, never the
      password itself, and no reset token. */
  function NewUser(email: string, password: string, role: Role, license: License, hash: string -> string): (u: User)
    ensures u.email == email && u.role == role && u.license == license
    ensures u.hashedPassword == hash(password) && u.resetToken.None?
  {
    User(email, hash(password), role, license, None)
  }

  /** The `users` table, updated in place by the routes. */
  class UserTable {
    var users: seq<User>

    constructor (users: seq<User>)
      ensures this.users == users
    {
      this.users := users;
    }

    /** `create_user`: one new row at the end, the others untouched. */
    method CreateUser(email: string, password: string, role: Role, license: License, hash: string -> string)
      returns (u: User)
      modifies this
      ensures u == NewUser(email, password, role, license, hash)
      ensures users == old(users) + [u]
    {
      u := NewUser(email, password, role, license, hash);
      users := users + [u];
    }

    /** Assigning the attributes of the row at position `i`, then `commit`. */
    method Update(i: nat, u: User)
      requires i < |users|
      modifies this
      ensures users == old(users)[i := u]
    {
      users := users[i := u];
    }
  }

  /** The filter of `get_language_translation`: exact language equality
      and `input_text ILIKE '%text%'`. */
  predicate TranslationMatches(row: LanguageTranslation, inputLang: string, outputLang: string, text: string) {
    row.inputLang == inputLang && row.outputLang == outputLang && ContainsIgnoreCase(row.inputText, text)
  }

  /** `get_language_translation`: every matching row, in table order. */
  function LanguageTranslations(rows: seq<LanguageTranslation>, inputLang: string, outputLang: string, text: string)
    : (r: seq<LanguageTranslation>)
    ensures |r| <= |rows|
    ensures forall row :: row in r <==> row in rows && TranslationMatches(row, inputLang, outputLang, text)
  {
    if rows == [] then []
    else
      var rest := LanguageTranslations(rows[1..], inputLang, outputLang, text);
      assert forall row :: row in rows <==> row == rows[0] || row in rows[1..];
      if TranslationMatches(rows[0], inputLang, outputLang, text) then [rows[0]] + rest else rest
  }

  /** The first row of the result is the first matching row of the table. */
  lemma {:induction false} FirstTranslation(rows: seq<LanguageTranslation>, inputLang: string, outputLang: string, text: string)
    requires LanguageTranslations(rows, inputLang, outputLang, text) != []
    ensures exists i :: 0 <= i < |rows| && rows[i] == LanguageTranslations(rows, inputLang, outputLang, text)[0]
                        && forall j :: 0 <= j < i ==> !TranslationMatches(rows[j], inputLang, outputLang, text)
  {
    if !TranslationMatches(rows[0], inputLang, outputLang, text) {
      FirstTranslation(rows[1..], inputLang, outputLang, text);
      var i :| 0 <= i < |rows[1..]| && rows[1..][i] == LanguageTranslations(rows[1..], inputLang, outputLang, text)[0]
               && forall j :: 0 <= j < i ==> !TranslationMatches(rows[1..][j], inputLang, outputLang, text);
      assert rows[i + 1] == rows[1..][i];
      assert forall j :: 1 <= j < i + 1 ==> rows[j] == rows[1..][j - 1];
    } else {
      assert rows[0] == LanguageTranslations(rows, inputLang, outputLang, text)[0];
    }
  }
}
