/**
 * The string-building helpers of `ds.connect.database`: SQL literal quoting
 * (`as_sql_list`), the credential checks and connection strings of the
 * `ConnectDatabase` constructor, tenant extraction, password masking in
 * `repr`, and the access-token byte layout handed to the ODBC driver.
 * Opening the connection itself (ODBC, Azure CLI, the file system) is not
 * part of the model: its outcome is a parameter where the code branches on it.
 */
module Database {
  import opened Wrappers
  import opened Text

  // ---------------------------------------------------------------------
  // SQL literals: `as_sql_list`
  // ---------------------------------------------------------------------

  /** The quote at index `i` has no quote on either side. */
  predicate LoneQuote(s: string, i: int)
    requires 0 <= i < |s|
  {
    s[i] == '\'' && (i == 0 || s[i - 1] != '\'') && (i == |s| - 1 || s[i + 1] != '\'')
  }

  /** `re.sub("(?<!')'(?!')", "''", s[i..])`, the look-arounds reading the whole of `s`. */
  function EscapeFrom(s: string, i: nat): string
    requires i <= |s|
    decreases |s| - i
  {
    if i == |s| then ""
    else (if LoneQuote(s, i) then "''" else [s[i]]) + EscapeFrom(s, i + 1)
  }

  /** Every lone quote doubled; quotes already in a run of two or more are kept. */
  function SqlEscape(s: string): string
  {
    EscapeFrom(s, 0)
  }

  /** Reading back the body of a SQL string literal: `''` stands for one quote. */
  function SqlUnescape(t: string): string
    decreases |t|
  {
    if |t| == 0 then ""
    else if |t| >= 2 && t[0] == '\'' && t[1] == '\'' then "'" + SqlUnescape(t[2..])
    else [t[0]] + SqlUnescape(t[1..])
  }

  predicate NoQuotePair(s: string)
  {
    forall i | 0 <= i < |s| - 1 :: !(s[i] == '\'' && s[i + 1] == '\'')
  }

  predicate NoLoneQuote(s: string)
  {
    forall i | 0 <= i < |s| :: !LoneQuote(s, i)
  }

  lemma {:induction false} EscapeFromRoundTrip(s: string, i: nat)
    requires i <= |s| && NoQuotePair(s)
    ensures SqlUnescape(EscapeFrom(s, i)) == s[i..]
    decreases |s| - i
  {
    if i < |s| {
      EscapeFromRoundTrip(s, i + 1);
      var rest := EscapeFrom(s, i + 1);
      if s[i] == '\'' {
        assert LoneQuote(s, i);
        assert ("''" + rest)[2..] == rest;
      } else {
        assert ([s[i]] + rest)[1..] == rest;
      }
      assert s[i..] == [s[i]] + s[i + 1..];
    }
  }

  /** A text without adjacent quotes is read back exactly from its SQL literal. */
  lemma SqlEscapeRoundTrip(s: string)
    requires NoQuotePair(s)
    ensures SqlUnescape(SqlEscape(s)) == s
  {
    EscapeFromRoundTrip(s, 0);
  }

  lemma {:induction false} EscapeFromKeeps(s: string, i: nat)
    requires i <= |s| && forall k | i <= k < |s| :: !LoneQuote(s, k)
    ensures EscapeFrom(s, i) == s[i..]
    decreases |s| - i
  {
    if i < |s| {
      EscapeFromKeeps(s, i + 1);
      assert s[i..] == [s[i]] + s[i + 1..];
    }
  }

  /** Text whose quotes are all already paired (such as `''`) is left untouched. */
  lemma SqlEscapeKeepsPairs(s: string)
    requires NoLoneQuote(s)
    ensures SqlEscape(s) == s
  {
    EscapeFromKeeps(s, 0);
  }

  /** `str(x)` of a list element. */
  function PyStr(v: Raw): (r: string)
    ensures v.Null? ==> r == "None"
    ensures v.Text? ==> r == v.s
  {
    match v
    case Null => "None"
    case Text(s) => s
    case Int(i) => IntToString(i)
  }

  function SqlLiteral(v: Raw): string
  {
    Quote(SqlEscape(PyStr(v)))
  }

  /** `ConnectDatabase.as_sql_list`. */
  function AsSqlList(xs: seq<Raw>): (r: string)
    ensures |r| >= 2 && r[0] == '(' && r[|r| - 1] == ')'
    ensures xs == [] ==> r == "()"
  {
    "(" + Join(seq(|xs|, i requires 0 <= i < |xs| => SqlLiteral(xs[i])), ", ") + ")"
  }

  /** The documented call `as_sql_list(['d', "don't do it"])`. */
  lemma AsSqlListExample()
    ensures AsSqlList([Text("d"), Text("don't do it")]) == "('d', 'don''t do it')"
  {
    EscapeExample();
    assert SqlEscape("d") == "d" by {
      assert !LoneQuote("d", 0);
    }
    AsSqlListPair("d", "don't do it");
    ExampleText();
  }

  lemma ExampleText()
    ensures "(" + Quote("d") + ", " + Quote("don''t do it") + ")" == "('d', 'don''t do it')"
  {
    assert Quote("d") == "'d'";
    assert Quote("don''t do it") == "'don''t do it'";
    assert "(" + "'d'" + ", " == "('d', ";
    assert "('d', " + "'don''t do it'" == "('d', 'don''t do it'";
  }

  lemma AsSqlListPair(a: string, b: string)
    ensures AsSqlList([Text(a), Text(b)]) == "(" + Quote(SqlEscape(a)) + ", " + Quote(SqlEscape(b)) + ")"
  {
    var xs := [Text(a), Text(b)];
    var items := seq(|xs|, i requires 0 <= i < |xs| => SqlLiteral(xs[i]));
    assert items == [SqlLiteral(Text(a)), SqlLiteral(Text(b))];
    assert Join(items[1..], ", ") == SqlLiteral(Text(b));
  }

  lemma EscapeExample()
    ensures SqlEscape("don't do it") == "don''t do it"
  {
    var s := "don't do it";
    assert LoneQuote(s, 3);
    assert forall k | 4 <= k < |s| :: s[k] != '\'';
    EscapeFromKeeps(s, 4);
    assert EscapeFrom(s, 3) == "''" + s[4..];
    assert EscapeFrom(s, 0) == "don''t do it";
  }

  // ---------------------------------------------------------------------
  // Credentials
  // ---------------------------------------------------------------------

  /** A credentials dictionary, keys in insertion order. */
  type Credentials = seq<(string, string)>

  predicate HasKey(c: Credentials, k: string)
  {
    exists i | 0 <= i < |c| :: c[i].0 == k
  }

  /** `credentials[k]`: the value stored under the key. */
  function Get(c: Credentials, k: string): (v: string)
    requires HasKey(c, k)
    ensures exists i | 0 <= i < |c| :: c[i] == (k, v)
  {
    if c[0].0 == k then c[0].1 else Get(c[1..], k)
  }

  /** The expected keys that are absent, in the order they are expected. */
  function Missing(c: Credentials, expected: seq<string>): (r: seq<string>)
    ensures |r| <= |expected|
  {
    if expected == [] then []
    else (if HasKey(c, expected[0]) then [] else [expected[0]]) + Missing(c, expected[1..])
  }

  /** A field is reported missing exactly when it is expected and absent. */
  lemma {:induction false} MissingMembers(c: Credentials, expected: seq<string>, k: string)
    ensures k in Missing(c, expected) <==> k in expected && !HasKey(c, k)
  {
    if expected != [] {
      MissingMembers(c, expected[1..], k);
      assert expected == [expected[0]] + expected[1..];
    }
  }

  const AllFields: seq<string> := ["ServerName", "Auth", "User", "Password", "Database", "Driver", "SourceType"]
  const TokenFields: seq<string> := ["ServerName", "Database", "Driver", "TenantId"]
  const MfaFields: seq<string> := ["ServerName", "Auth", "User", "Password", "Database", "Driver"]

  function MissingMessage(missing: seq<string>): string
  {
    "The following fields are missing from `credentials`: " + Join(QuoteAll(missing), ", ")
  }

  const OtherMessage := "`other` must be a series of authentication arguments starting with, and separated by, semicolons"
  const NoSourceMessage := "No `credentials` or `path` (Windows only) supplied"
  const NoPathMessage := "`path` does not seem to exist"

  /** `missing` lists fields of `expected` in their order. */
  lemma MissingInOrder(c: Credentials, expected: seq<string>, i: int, j: int)
    requires 0 <= i < j < |Missing(c, expected)|
    ensures exists a, b | 0 <= a < b < |expected| :: expected[a] == Missing(c, expected)[i] && expected[b] == Missing(c, expected)[j]
  {
    var a, b := MissingPositions(c, expected, i, j);
  }

  /** Where entries i and j of `missing` come from in `expected`. */
  lemma {:induction false} MissingPositions(c: Credentials, expected: seq<string>, i: int, j: int) returns (a: int, b: int)
    requires 0 <= i < j < |Missing(c, expected)|
    ensures 0 <= a < b < |expected|
    ensures expected[a] == Missing(c, expected)[i] && expected[b] == Missing(c, expected)[j]
    decreases |expected|
  {
    var m := Missing(c, expected);
    var tail := expected[1..];
    var rest := Missing(c, tail);
    if HasKey(c, expected[0]) {
      assert m == rest;
      a, b := MissingPositions(c, tail, i, j);
      assert tail[a] == expected[a + 1] && tail[b] == expected[b + 1];
      a, b := a + 1, b + 1;
    } else if i == 0 {
      assert m == [expected[0]] + rest;
      assert m[j] == rest[j - 1];
      b := MissingPosition(c, tail, j - 1);
      assert tail[b] == expected[b + 1];
      a, b := 0, b + 1;
    } else {
      assert m == [expected[0]] + rest;
      assert m[i] == rest[i - 1] && m[j] == rest[j - 1];
      a, b := MissingPositions(c, tail, i - 1, j - 1);
      assert tail[a] == expected[a + 1] && tail[b] == expected[b + 1];
      a, b := a + 1, b + 1;
    }
  }

  /** Where entry j of `missing` comes from in `expected`. */
  lemma {:induction false} MissingPosition(c: Credentials, expected: seq<string>, j: int) returns (b: int)
    requires 0 <= j < |Missing(c, expected)|
    ensures 0 <= b < |expected| && expected[b] == Missing(c, expected)[j]
    decreases |expected|
  {
    var m := Missing(c, expected);
    var rest := Missing(c, expected[1..]);
    if HasKey(c, expected[0]) {
      assert m == rest;
      var b' := MissingPosition(c, expected[1..], j);
      b := b' + 1;
    } else if j == 0 {
      b := 0;
    } else {
      assert m == [expected[0]] + rest;
      var b' := MissingPosition(c, expected[1..], j - 1);
      b := b' + 1;
    }
  }

  // ---------------------------------------------------------------------
  // Tenant: `re.sub("^.+@|\\.com$", "", user).lower()`
  // ---------------------------------------------------------------------

  /** The index of the last `c` in `s[..n]` at index `lo` or later. */
  function LastIndex(s: string, c: char, lo: nat, n: nat): (r: Option<nat>)
    requires n <= |s|
    ensures r.Some? ==> lo <= r.value < n && s[r.value] == c
    ensures r.Some? ==> forall j | r.value < j < n :: s[j] != c
    ensures r.None? ==> forall j | lo <= j < n :: s[j] != c
    decreases n
  {
    if n <= lo then None
    else if s[n - 1] == c then Some(n - 1)
    else LastIndex(s, c, lo, n - 1)
  }

  /** Length of the first line: `.` does not match a newline. */
  function LineEnd(s: string): (n: nat)
    ensures n <= |s| && (n < |s| ==> s[n] == '\n')
    ensures forall j | 0 <= j < n :: s[j] != '\n'
  {
    if s == [] then 0 else if s[0] == '\n' then 0 else 1 + LineEnd(s[1..])
  }

  /**
   * `^.+@` matches through the last `@` of the first line that has at least one
   * character before it (the greedy `.+`), and only at the start.
   */
  function DropAccount(s: string): (r: string)
    ensures |r| <= |s| && r == s[|s| - |r|..]
  {
    match LastIndex(s, '@', 1, LineEnd(s))
    case None => s
    case Some(a) => s[a + 1..]
  }

  /** `\.com$`: `$` matches at the end or before a final newline. */
  function DropCom(s: string): (r: string)
  {
    if |s| >= 4 && s[|s| - 4..] == ".com" then s[..|s| - 4]
    else if |s| >= 5 && s[|s| - 5..] == ".com\n" then s[..|s| - 5] + "\n"
    else s
  }

  function Tenant(user: string): string
  {
    LowerStr(DropCom(DropAccount(user)))
  }

  /** For an address `name@domain.com` the tenant is the lower-cased domain. */
  lemma TenantOfAddress(name: string, domain: string)
    requires |name| > 0 && '\n' !in name && '@' !in domain && '\n' !in domain
    ensures Tenant(name + "@" + domain + ".com") == LowerStr(domain)
  {
    var s := name + "@" + domain + ".com";
    AddressOneLine(name, domain);
    AddressLastAt(name, domain);
    assert LineEnd(s) == |s|;
    assert LastIndex(s, '@', 1, |s|) == Some(|name|);
    assert DropAccount(s) == domain + ".com";
  }

  lemma AddressOneLine(name: string, domain: string)
    requires '\n' !in name && '\n' !in domain
    ensures var s := name + "@" + domain + ".com";
      forall j | 0 <= j < |s| :: s[j] != '\n'
  {
    var s := name + "@" + domain + ".com";
    var a := |name|;
    forall j | 0 <= j < |s|
      ensures s[j] != '\n'
    {
      if j < a {
        assert s[j] == name[j];
      } else if a < j < a + 1 + |domain| {
        assert s[j] == domain[j - a - 1];
      }
    }
  }

  lemma AddressLastAt(name: string, domain: string)
    requires '@' !in domain
    ensures var s := name + "@" + domain + ".com";
      s[|name|] == '@' && forall j | |name| < j < |s| :: s[j] != '@'
  {
    var s := name + "@" + domain + ".com";
    var a := |name|;
    forall j | a < j < |s|
      ensures s[j] != '@'
    {
      if j < a + 1 + |domain| {
        assert s[j] == domain[j - a - 1];
      }
    }
  }

  // ---------------------------------------------------------------------
  // Connection strings and the constructor's checks
  // ---------------------------------------------------------------------

  function TokenConnString(driver: string, server: string, database: string, other: string): string
  {
    "DRIVER={" + driver + "};SERVER=" + server + ";DATABASE=" + database + other
  }

  function MfaPrefix(driver: string, server: string, database: string, user: string): string
  {
    "DRIVER={" + driver + "};SERVER=" + server + ";DATABASE=" + database + ";UID=" + user + ";"
  }

  function MfaConnString(driver: string, server: string, database: string, user: string,
                         password: string, auth: string, other: string): string
  {
    MfaPrefix(driver, server, database, user) + "PWD=" + password + ";AUTHENTICATION=" + auth + other
  }

  function AccessConnString(path: string): string
  {
    "Driver={Microsoft Access Driver (*.mdb, *.accdb)};DBQ=" + path + ";"
  }

  /** `connection_type`: "Token", "MFA" or "Local Database". */
  datatype Kind = Token | Mfa | LocalDatabase

  /** What the constructor sets up before it opens the connection. */
  datatype Connection = Connection(kind: Kind, connString: string, tenant: Option<string>)

  lemma {:induction false} Present(c: Credentials, expected: seq<string>)
    requires Missing(c, expected) == []
    ensures forall k | k in expected :: HasKey(c, k)
  {
    if expected != [] {
      Present(c, expected[1..]);
      assert expected == [expected[0]] + expected[1..];
    }
  }

  /** The token branch: its own field check, then the connection string and the tenant. */
  function TokenConnection(c: Credentials, other: string): (r: Result<Connection>)
    requires HasKey(c, "User")
    ensures r.Ok? <==> forall k | k in TokenFields :: HasKey(c, k)
    ensures r.Err? ==> r == Err(MissingMessage(Missing(c, TokenFields)))
    ensures r.Ok? ==> r.value.kind == Token && r.value.tenant == Some(Tenant(Get(c, "User")))
  {
    var missing := Missing(c, TokenFields);
    if missing != [] then
      MissingMembers(c, TokenFields, missing[0]);
      Err(MissingMessage(missing))
    else
      Present(c, TokenFields);
      Ok(Connection(Token,
                    TokenConnString(Get(c, "Driver"), Get(c, "ServerName"), Get(c, "Database"), other),
                    Some(Tenant(Get(c, "User")))))
  }

  /** The MFA branch: user, password and authentication method go into the string. */
  function MfaConnection(c: Credentials, other: string): (r: Result<Connection>)
    ensures r.Ok? <==> forall k | k in MfaFields :: HasKey(c, k)
    ensures r.Err? ==> r == Err(MissingMessage(Missing(c, MfaFields)))
    ensures r.Ok? ==> r.value.kind == Mfa && r.value.tenant == None
  {
    var missing := Missing(c, MfaFields);
    if missing != [] then
      MissingMembers(c, MfaFields, missing[0]);
      Err(MissingMessage(missing))
    else
      Present(c, MfaFields);
      Ok(Connection(Mfa, MfaFrom(c, other), None))
  }

  /** The MFA connection string, once every MFA field is known to be present. */
  function MfaFrom(c: Credentials, other: string): string
    requires forall k | k in MfaFields :: HasKey(c, k)
  {
    assert MfaFields[5] == "Driver" && MfaFields[0] == "ServerName" && MfaFields[4] == "Database";
    assert MfaFields[2] == "User" && MfaFields[3] == "Password" && MfaFields[1] == "Auth";
    MfaConnString(Get(c, "Driver"), Get(c, "ServerName"), Get(c, "Database"),
                  Get(c, "User"), Get(c, "Password"), Get(c, "Auth"), other)
  }

  /** The checks made when `credentials` is given, in the order the constructor makes them. */
  function ConnectWith(c: Credentials, other: string, token: bool, platform: string): (r: Result<Connection>)
    ensures Missing(c, AllFields) != [] ==> r == Err(MissingMessage(Missing(c, AllFields)))
    ensures Missing(c, AllFields) == [] && |other| > 0 && other[0] != ';' ==> r == Err(OtherMessage)
    ensures r.Ok? ==> |other| == 0 || other[0] == ';'
    ensures r.Ok? ==> (r.value.kind == Token <==> token || platform == "Mac")
    ensures r.Ok? ==> r.value.kind != LocalDatabase
  {
    var missing := Missing(c, AllFields);
    if missing != [] then Err(MissingMessage(missing))
    else if |other| > 0 && other[0] != ';' then Err(OtherMessage)
    else if token || platform == "Mac" then
      Present(c, AllFields);
      TokenConnection(c, other)
    else MfaConnection(c, other)
  }

  /**
   * `ConnectDatabase.__init__` up to the ODBC call. `platform` is the value of
   * `get_os()`; `pathExists` the outcome of `os.path.exists(path)`.
   */
  function Connect(credentials: Option<Credentials>, other: string, token: bool,
                   path: Option<string>, platform: string, pathExists: bool): (r: Result<Connection>)
    ensures credentials.None? ==> (r.Ok? <==> path.Some? && platform == "Windows" && pathExists)
    ensures credentials.None? && r.Ok? ==> r.value == Connection(LocalDatabase, AccessConnString(path.value), None)
    ensures credentials.None? && r.Err? ==>
              r.message == if path.Some? && platform == "Windows" then NoPathMessage else NoSourceMessage
  {
    match credentials
    case Some(c) => ConnectWith(c, other, token, platform)
    case None =>
      if path.Some? && platform == "Windows" then
        if pathExists then Ok(Connection(LocalDatabase, AccessConnString(path.value), None))
        else Err(NoPathMessage)
      else Err(NoSourceMessage)
  }

  /**
   * Once the seven fields are present, the token branch can only miss
   * `TenantId`, and the MFA branch's own check never fails.
   */
  lemma SecondChecks(c: Credentials)
    requires Missing(c, AllFields) == []
    ensures Missing(c, TokenFields) == (if HasKey(c, "TenantId") then [] else ["TenantId"])
    ensures Missing(c, MfaFields) == []
  {
    assert forall k | k in AllFields :: HasKey(c, k) by {
      forall k | k in AllFields ensures HasKey(c, k) {
        MissingMembers(c, AllFields, k);
      }
    }
    assert "ServerName" in AllFields && "Database" in AllFields && "Driver" in AllFields;
    assert Missing(c, TokenFields[3..]) == (if HasKey(c, "TenantId") then [] else ["TenantId"]);
    assert Missing(c, TokenFields[2..]) == Missing(c, TokenFields[3..]);
    assert Missing(c, TokenFields[1..]) == Missing(c, TokenFields[2..]);
    assert forall k | k in MfaFields :: HasKey(c, k);
    NothingMissing(c, MfaFields);
  }

  lemma {:induction false} NothingMissing(c: Credentials, expected: seq<string>)
    requires forall k | k in expected :: HasKey(c, k)
    ensures Missing(c, expected) == []
  {
    if expected != [] {
      assert expected[0] in expected;
      NothingMissing(c, expected[1..]);
    }
  }

  // ---------------------------------------------------------------------
  // Password masking
  // ---------------------------------------------------------------------

  const PwdKey := "PWD="
  const AuthKey := ";AUTHENTICATION="

  /**
   * `^(.+?PWD=)(.+?)(;AUTHENTICATION=.+)$` on a line without newlines: the lazy
   * groups pick the first `PWD=` after at least one character and the first
   * `;AUTHENTICATION=` after at least one password character; at least one
   * character must follow it.
   */
  function MaskLine(t: string): (r: string)
  {
    match FindFrom(t, PwdKey, 1)
    case None => t
    case Some(p) =>
      match FindFrom(t, AuthKey, p + 5)
      case None => t
      case Some(q) => if q + 16 < |t| then t[..p + 4] + "*****" + t[q..] else t
  }

  /** `_Hidden_Password_String.__repr__`: a newline anywhere but at the very end prevents a match. */
  function MaskPassword(s: string): (r: string)
    ensures (exists i | 0 <= i < |s| - 1 :: s[i] == '\n') ==> r == s
  {
    if exists i | 0 <= i < |s| - 1 :: s[i] == '\n' then s
    else if |s| > 0 && s[|s| - 1] == '\n' then MaskLine(s[..|s| - 1]) + "\n"
    else MaskLine(s)
  }

  /** Text in which no `=` is three characters after a `P`. */
  predicate NoPwdKey(x: string)
  {
    forall k | 3 <= k < |x| && x[k] == '=' :: x[k - 3] != 'P'
  }

  lemma NoPwdKeyAppend(a: string, b: string)
    requires NoPwdKey(a) && NoPwdKey(b)
    requires forall i | 0 <= i < |b| && i < 3 :: b[i] != '='
    ensures NoPwdKey(a + b)
  {
    var ab := a + b;
    forall k | 3 <= k < |ab| && ab[k] == '='
      ensures ab[k - 3] != 'P'
    {
      if k >= |a| + 3 {
        assert ab[k] == b[k - |a|] && ab[k - 3] == b[k - 3 - |a|];
      } else if k < |a| {
        assert ab[k] == a[k] && ab[k - 3] == a[k - 3];
      }
    }
  }

  lemma NoPwdKeyInMfaPrefix(driver: string, server: string, database: string, user: string)
    requires '=' !in driver && '=' !in server && '=' !in database && '=' !in user
    ensures NoPwdKey(MfaPrefix(driver, server, database, user) + "PWD")
  {
    NoPwdKeyAppend("DRIVER={", driver);
    NoPwdKeyAppend("DRIVER={" + driver, "};SERVER=");
    NoPwdKeyAppend("DRIVER={" + driver + "};SERVER=", server);
    NoPwdKeyAppend("DRIVER={" + driver + "};SERVER=" + server, ";DATABASE=");
    NoPwdKeyAppend("DRIVER={" + driver + "};SERVER=" + server + ";DATABASE=", database);
    NoPwdKeyAppend("DRIVER={" + driver + "};SERVER=" + server + ";DATABASE=" + database, ";UID=");
    NoPwdKeyAppend("DRIVER={" + driver + "};SERVER=" + server + ";DATABASE=" + database + ";UID=", user);
    NoPwdKeyAppend("DRIVER={" + driver + "};SERVER=" + server + ";DATABASE=" + database + ";UID=" + user, ";");
    NoPwdKeyAppend(MfaPrefix(driver, server, database, user), "PWD");
  }

  lemma FirstPwdKey(pre: string, rest: string)
    requires |pre| > 0 && NoPwdKey(pre + "PWD")
    ensures FindFrom(pre + PwdKey + rest, PwdKey, 1) == Some(|pre|)
  {
    var t := pre + PwdKey + rest;
    var p := |pre|;
    assert t[p..p + 4] == PwdKey;
    MatchAtSlice(t, PwdKey, p);
    forall j | 1 <= j < p
      ensures !MatchAt(t, PwdKey, j)
    {
      assert (pre + "PWD")[j + 3] == t[j + 3] && (pre + "PWD")[j] == t[j];
      assert t[j + 3] != '=' || t[j] != 'P';
      assert t[j..j + 4][0] == t[j] && t[j..j + 4][3] == t[j + 3];
      MatchAtSlice(t, PwdKey, j);
    }
    FindFromFirst(t, PwdKey, 1, p);
  }

  lemma FirstAuthKey(head: string, password: string, post: string)
    requires |password| > 0 && ';' !in password
    ensures FindFrom(head + password + AuthKey + post, AuthKey, |head| + 1) == Some(|head| + |password|)
  {
    var t := head + password + AuthKey + post;
    var q := |head| + |password|;
    assert t[q..q + 16] == AuthKey;
    MatchAtSlice(t, AuthKey, q);
    forall j | |head| + 1 <= j < q
      ensures !MatchAt(t, AuthKey, j)
    {
      assert t[j] == password[j - |head|];
      assert t[j..j + 16][0] == t[j];
      MatchAtSlice(t, AuthKey, j);
    }
    FindFromFirst(t, AuthKey, |head| + 1, q);
  }

  /**
   * The password between the first `PWD=` and the following
   * `;AUTHENTICATION=` is replaced by `*****`; everything else is kept.
   */
  lemma MaskLineHidesPassword(pre: string, password: string, post: string)
    requires |pre| > 0 && NoPwdKey(pre + "PWD")
    requires |password| > 0 && ';' !in password && |post| > 0
    ensures MaskLine(pre + PwdKey + password + AuthKey + post) == pre + PwdKey + "*****" + AuthKey + post
  {
    var t := pre + PwdKey + password + AuthKey + post;
    var p := |pre|;
    var q := p + 4 + |password|;
    assert t == pre + PwdKey + (password + AuthKey + post);
    FirstPwdKey(pre, password + AuthKey + post);
    assert t == (pre + PwdKey) + password + AuthKey + post;
    FirstAuthKey(pre + PwdKey, password, post);
    assert t[..p + 4] == pre + PwdKey;
    assert t[q..] == AuthKey + post;
  }

  lemma NoNewlineInMfa(driver: string, server: string, database: string, user: string,
                       password: string, auth: string, other: string)
    requires '\n' !in driver && '\n' !in server && '\n' !in database && '\n' !in user
    requires '\n' !in password && '\n' !in auth && '\n' !in other
    ensures forall i | 0 <= i < |MfaConnString(driver, server, database, user, password, auth, other)| ::
              MfaConnString(driver, server, database, user, password, auth, other)[i] != '\n'
  {
    var s := MfaConnString(driver, server, database, user, password, auth, other);
    assert '\n' !in s;
    forall i | 0 <= i < |s|
      ensures s[i] != '\n'
    {
      assert s[i] in s;
    }
  }

  /**
   * `repr` of the MFA connection string shows every field but the password,
   * for field values that carry no `=`, `;` or newline of their own.
   */
  lemma MaskMfaConnString(driver: string, server: string, database: string, user: string,
                          password: string, auth: string, other: string)
    requires '=' !in driver && '=' !in server && '=' !in database && '=' !in user
    requires |password| > 0 && ';' !in password && |auth + other| > 0
    requires '\n' !in driver && '\n' !in server && '\n' !in database && '\n' !in user
    requires '\n' !in password && '\n' !in auth && '\n' !in other
    ensures MaskPassword(MfaConnString(driver, server, database, user, password, auth, other))
         == MfaConnString(driver, server, database, user, "*****", auth, other)
  {
    var pre := MfaPrefix(driver, server, database, user);
    var s := MfaConnString(driver, server, database, user, password, auth, other);
    NoPwdKeyInMfaPrefix(driver, server, database, user);
    assert s == pre + PwdKey + password + AuthKey + (auth + other);
    MaskLineHidesPassword(pre, password, auth + other);
    NoNewlineInMfa(driver, server, database, user, password, auth, other);
  }

  /** A connection string without the two keys is shown as it is. */
  lemma MaskWithoutPassword(s: string)
    requires !Contains(s, PwdKey)
    ensures MaskPassword(s) == s
  {
    if !(exists i | 0 <= i < |s| - 1 :: s[i] == '\n') && |s| > 0 && s[|s| - 1] == '\n' {
      var t := s[..|s| - 1];
      assert s == t + "\n";
      if FindFrom(t, PwdKey, 1).Some? {
        var p := FindFrom(t, PwdKey, 1).value;
        MatchAtAppend(t, "\n", PwdKey, p);
        assert false;
      }
    } else if !(exists i | 0 <= i < |s| - 1 :: s[i] == '\n') {
      if FindFrom(s, PwdKey, 1).Some? {
        assert false;
      }
    }
  }

  // ---------------------------------------------------------------------
  // `ConnectDatabase.__repr__`
  // ---------------------------------------------------------------------

  function ReprLine(k: string, v: string): string
  {
    k + ": " + (if k == "Password" then "*****" else v)
  }

  function Repr(c: Credentials): (r: string)
    ensures |r| > 0 && r[0] == '\n'
  {
    "\n" + Join(seq(|c|, i requires 0 <= i < |c| => ReprLine(c[i].0, c[i].1)), "\n")
  }

  /** Two dictionaries that differ only in the password value print alike. */
  lemma ReprHidesPassword(c: Credentials, d: Credentials)
    requires |c| == |d|
    requires forall i | 0 <= i < |c| :: c[i].0 == d[i].0 && (c[i].0 != "Password" ==> c[i].1 == d[i].1)
    ensures Repr(c) == Repr(d)
  {
    var lc := seq(|c|, i requires 0 <= i < |c| => ReprLine(c[i].0, c[i].1));
    var ld := seq(|d|, i requires 0 <= i < |d| => ReprLine(d[i].0, d[i].1));
    assert lc == ld;
  }

  /** Every other value appears in the output, on its own line after its key. */
  lemma ReprShowsOthers(c: Credentials, i: int)
    requires 0 <= i < |c| && c[i].0 != "Password"
    ensures Contains(Repr(c), c[i].0 + ": " + c[i].1)
  {
    var lines := seq(|c|, j requires 0 <= j < |c| => ReprLine(c[j].0, c[j].1));
    JoinContains(lines, "\n", i);
    var w :| 0 <= w <= |Join(lines, "\n")| && MatchAt(Join(lines, "\n"), lines[i], w);
    MatchAtPrepend(Join(lines, "\n"), "\n", lines[i], w);
  }

  lemma {:induction false} JoinContains(parts: seq<string>, sep: string, i: int)
    requires 0 <= i < |parts|
    ensures exists w | 0 <= w <= |Join(parts, sep)| :: MatchAt(Join(parts, sep), parts[i], w)
  {
    if |parts| == 1 {
      MatchAtSlice(parts[0], parts[0], 0);
      assert MatchAt(Join(parts, sep), parts[i], 0);
    } else if i == 0 {
      MatchAtSlice(parts[0], parts[0], 0);
      MatchAtAppend(parts[0], sep + Join(parts[1..], sep), parts[0], 0);
      assert parts[0] + (sep + Join(parts[1..], sep)) == Join(parts, sep);
      assert MatchAt(Join(parts, sep), parts[i], 0);
    } else {
      JoinContains(parts[1..], sep, i - 1);
      var w :| 0 <= w <= |Join(parts[1..], sep)| && MatchAt(Join(parts[1..], sep), parts[1..][i - 1], w);
      MatchAtPrepend(Join(parts[1..], sep), parts[0] + sep, parts[i], w);
      assert (parts[0] + sep) + Join(parts[1..], sep) == Join(parts, sep);
      assert MatchAt(Join(parts, sep), parts[i], |parts[0] + sep| + w);
    }
  }

  // ---------------------------------------------------------------------
  // `_prepare_token`
  // ---------------------------------------------------------------------

  newtype byte = x: int | 0 <= x < 256

  const Int32Max := 0x7FFF_FFFF

  /** `struct.pack("=i", v)` on a little-endian host. */
  function Int32LE(v: int): (r: seq<byte>)
    requires 0 <= v <= Int32Max
    ensures |r| == 4
  {
    [(v % 256) as byte, (v / 256 % 256) as byte, (v / 65536 % 256) as byte, (v / 16777216) as byte]
  }

  function DecodeInt32LE(b: seq<byte>): int
    requires |b| == 4
  {
    b[0] as int + 256 * b[1] as int + 65536 * b[2] as int + 16777216 * b[3] as int
  }

  lemma Int32RoundTrip(v: int)
    requires 0 <= v <= Int32Max
    ensures DecodeInt32LE(Int32LE(v)) == v
  {
    var b := Int32LE(v);
    assert v == v % 256 + 256 * (v / 256);
    assert v / 256 == v / 256 % 256 + 256 * (v / 65536);
    assert v / 65536 == v / 65536 % 256 + 256 * (v / 16777216);
  }

  /** The token bytes, each followed by a zero byte, after their 4-byte length. */
  function TokenStruct(token: seq<byte>): (r: seq<byte>)
    requires 2 * |token| <= Int32Max
    ensures |r| == 4 + 2 * |token|
    ensures DecodeInt32LE(r[..4]) == 2 * |token|
    ensures forall i | 0 <= i < |token| :: token[i] == r[4 + 2 * i] && r[5 + 2 * i] == 0
  {
    Int32RoundTrip(2 * |token|);
    Int32LE(2 * |token|) + Widen(token)
  }

  function Widen(token: seq<byte>): (r: seq<byte>)
    ensures |r| == 2 * |token|
    ensures forall i | 0 <= i < |token| :: token[i] == r[2 * i] && r[2 * i + 1] == 0
  {
    if token == [] then [] else [token[0], 0] + Widen(token[1..])
  }

  /** What the driver reads back: the length prefix, then every other byte. */
  function ReadTokenStruct(b: seq<byte>): (r: Option<seq<byte>>)
  {
    if |b| < 4 then None
    else
      var n := DecodeInt32LE(b[..4]);
      if n < 0 || n % 2 != 0 || |b| != 4 + n then None
      else Some(seq(n / 2, i requires 0 <= i < n / 2 => b[4 + 2 * i]))
  }

  lemma TokenRoundTrip(token: seq<byte>)
    requires 2 * |token| <= Int32Max
    ensures ReadTokenStruct(TokenStruct(token)) == Some(token)
  {
    var b := TokenStruct(token);
    var n := 2 * |token|;
    assert n / 2 == |token|;
    var read := seq(n / 2, i requires 0 <= i < n / 2 => b[4 + 2 * i]);
    assert read == token;
  }

  /** `_prepare_token`: the loop that builds `exptoken`, then the packed length. */
  method PrepareToken(token: seq<byte>) returns (r: Result<seq<byte>>)
    ensures r.Ok? <==> 2 * |token| <= Int32Max
    ensures r.Ok? ==> r.value == TokenStruct(token)
  {
    var exptoken: seq<byte> := [];
    var i := 0;
    while i < |token|
      invariant 0 <= i <= |token|
      invariant exptoken == Widen(token[..i])
    {
      WidenAppend(token[..i], token[i]);
      assert token[..i + 1] == token[..i] + [token[i]];
      exptoken := exptoken + [token[i], 0];
      i := i + 1;
    }
    assert token[..i] == token;
    r := Pack(token, exptoken);
  }

  /** `struct.pack("=i", len(exptoken)) + exptoken`. */
  method Pack(token: seq<byte>, exptoken: seq<byte>) returns (r: Result<seq<byte>>)
    requires exptoken == Widen(token)
    ensures r.Ok? <==> 2 * |token| <= Int32Max
    ensures r.Ok? ==> r.value == TokenStruct(token)
  {
    if |exptoken| > Int32Max {
      r := Err("'i' format requires -2147483648 <= number <= 2147483647");
    } else {
      r := Ok(Int32LE(|exptoken|) + exptoken);
    }
  }

  lemma {:induction false} WidenAppend(t: seq<byte>, x: byte)
    ensures Widen(t + [x]) == Widen(t) + [x, 0]
    decreases |t|
  {
    if t == [] {
      assert Widen([x]) == [x, 0] + Widen([]);
    } else {
      assert (t + [x])[1..] == t[1..] + [x];
      WidenAppend(t[1..], x);
    }
  }
}
