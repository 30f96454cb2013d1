/** The credential check of the login screen: a guard on the two input fields,
    then a search of the fetched user rows for the first one whose stored email
    equals the input email ignoring case and whose stored password equals the
    input password exactly. */
module Login {

  datatype Option<T> = None | Some(value: T)

  /** One row of the users sheet. A column the row lacks, or one that holds `null`,
      is `None`. The columns
      the credential check does not read (name, role, class, contact) are kept in
      `details`. */
  datatype User = User(email: Option<string>, password: Option<string>, details: map<string, string>)

  /** The three outcomes of a login attempt whose fetch succeeded. */
  datatype LoginResult =
    | MissingInfo          // an input field was empty; the sheet is not consulted
    | LoggedIn(user: User) // the record passed to `setUser`
    | InvalidCredentials   // no record matched

  /** ASCII case folding, standing in for `toLowerCase`. */
  function LowerChar(c: char): (d: char)
    ensures !('A' <= d <= 'Z')
    ensures 'A' <= c <= 'Z' ==> d as int == c as int + 32
    ensures !('A' <= c <= 'Z') ==> d == c
  {
    if 'A' <= c <= 'Z' then (c as int + 32) as char else c
  }

  /** `s` holds no ASCII capital letter. */
  predicate NoCapitals(s: string)
  {
    forall i :: 0 <= i < |s| ==> !('A' <= s[i] <= 'Z')
  }

  /** `toLowerCase` on a whole string: the result has the same length, holds no
      capital letter, and leaves a string that has none unchanged. */
  function Lower(s: string): (r: string)
    ensures |r| == |s|
    ensures forall i :: 0 <= i < |s| ==> r[i] == LowerChar(s[i])
    ensures NoCapitals(r)
    ensures NoCapitals(s) ==> r == s
  {
    seq(|s|, i requires 0 <= i < |s| => LowerChar(s[i]))
  }

  /** Lower-casing twice is lower-casing once. */
  lemma LowerIdempotent(s: string)
    ensures Lower(Lower(s)) == Lower(s)
  {
  }

  /** A string is its own lower-cased form exactly when it holds no capital letter. */
  lemma LowerFixedPoints(s: string)
    ensures Lower(s) == s <==> NoCapitals(s)
  {
  }

  /** Two strings are equal once both are lower-cased: the same as equal lengths
      and agreement character by character with the case of ASCII letters ignored. */
  predicate SameIgnoringCase(a: string, b: string)
    ensures SameIgnoringCase(a, b) <==>
      |a| == |b| && forall i :: 0 <= i < |a| ==> LowerChar(a[i]) == LowerChar(b[i])
  {
    assert |a| == |b| && (forall i :: 0 <= i < |a| ==> LowerChar(a[i]) == LowerChar(b[i])) ==>
      forall i :: 0 <= i < |a| ==> Lower(a)[i] == Lower(b)[i];
    Lower(a) == Lower(b)
  }

  /** The predicate given to `data.find`. A row without an email never matches,
      since `undefined` equals no string; neither does a row without a password.
      The password must be equal exactly; the email only up to letter case. */
  predicate Matches(u: User, email: string, password: string)
    ensures u.email.None? || u.password.None? ==> !Matches(u, email, password)
    ensures Matches(u, email, password) ==> u.password.value == password
    ensures Matches(u, email, password) <==>
      u.email.Some? && u.password == Some(password) && |u.email.value| == |email| &&
      forall i :: 0 <= i < |email| ==> LowerChar(u.email.value[i]) == LowerChar(email[i])
  {
    u.email.Some? && SameIgnoringCase(u.email.value, email) && u.password == Some(password)
  }

  /** `data.find(...)`, as the index of the first matching row. */
  function FindFirst(users: seq<User>, email: string, password: string): (r: Option<nat>)
    ensures r.Some? ==> r.value < |users| && Matches(users[r.value], email, password)
    ensures r.Some? ==> forall j :: 0 <= j < r.value ==> !Matches(users[j], email, password)
    ensures r.None? ==> forall j :: 0 <= j < |users| ==> !Matches(users[j], email, password)
  {
    if users == [] then None
    else if Matches(users[0], email, password) then Some(0)
    else match FindFirst(users[1..], email, password)
      case None => None
      case Some(i) => Some(i + 1)
  }

  /** `handleLogin` after a successful fetch returned `users`. */
  function HandleLogin(email: string, password: string, users: seq<User>): (r: LoginResult)
    ensures r == MissingInfo <==> email == "" || password == ""
    ensures r == InvalidCredentials <==>
      email != "" && password != "" && forall u :: u in users ==> !Matches(u, email, password)
    ensures r.LoggedIn? ==> r.user in users && Matches(r.user, email, password)
    ensures r.LoggedIn? ==> r.user.email.Some? && r.user.password == Some(password)
    ensures r.LoggedIn? ==>
      exists i :: (0 <= i < |users| && users[i] == r.user &&
                   forall j :: 0 <= j < i ==> !Matches(users[j], email, password))
  {
    if email == "" || password == "" then MissingInfo
    else match FindFirst(users, email, password)
      case None => InvalidCredentials
      case Some(i) => LoggedIn(users[i])
  }

  /** Two characters fold to the same one exactly when they are equal or one
      is the ASCII capital of the other. */
  lemma LowerCharSame(c: char, d: char)
    ensures LowerChar(c) == LowerChar(d) <==>
      c == d || ('A' <= c <= 'Z' && d as int == c as int + 32) || ('A' <= d <= 'Z' && c as int == d as int + 32)
  {
  }

  /** An empty field is rejected whatever the sheet holds. */
  lemma MissingInfoIgnoresUsers(email: string, password: string, users1: seq<User>, users2: seq<User>)
    requires email == "" || password == ""
    ensures HandleLogin(email, password, users1) == MissingInfo
    ensures HandleLogin(email, password, users1) == HandleLogin(email, password, users2)
  {
  }

  /** The email is compared ignoring case: two inputs that differ only in the
      case of letters give the same outcome. */
  lemma EmailCaseIgnored(email1: string, email2: string, password: string, users: seq<User>)
    requires SameIgnoringCase(email1, email2)
    ensures HandleLogin(email1, password, users) == HandleLogin(email2, password, users)
  {
  }

  /** The password is compared exactly: an input that differs from the stored
      password in any way, letter case included, never matches. */
  lemma PasswordCaseSensitive(u: User, email: string, p: string, q: string)
    requires u.password == Some(p) && p != q
    ensures !Matches(u, email, q)
  {
  }

  /** When the row at index `i` is the first match, it is the one logged in. */
  lemma FirstMatchWins(email: string, password: string, users: seq<User>, i: nat)
    requires email != "" && password != ""
    requires i < |users| && Matches(users[i], email, password)
    requires forall j :: 0 <= j < i ==> !Matches(users[j], email, password)
    ensures HandleLogin(email, password, users) == LoggedIn(users[i])
  {
  }

  /** Rows after a match do not change the outcome. */
  lemma {:induction false} LaterRowsIgnored(email: string, password: string, users: seq<User>, more: seq<User>)
    requires exists u :: u in users && Matches(u, email, password)
    ensures HandleLogin(email, password, users + more) == HandleLogin(email, password, users)
  {
    if email != "" && password != "" {
      var i :| 0 <= i < |users| && Matches(users[i], email, password);
      var k := FindFirst(users, email, password).value;
      FirstMatchWins(email, password, users + more, k);
    }
  }
}
