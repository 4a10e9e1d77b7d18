/** The two persistent stores behind registration: the PostgreSQL table of API keys
    (a list of rows; a lookup returns the first matching row in table order, one of
    the rows the unordered SELECT may return) and the MongoDB collection of users (a map
    from email to the stored password field). Connection failures and SQL errors are
    a `dbOk` flag; the random key is a `freshKey` parameter. */
module Database {
  import opened Wrappers
  import Text

  /** Email substring that earns the PREMIUM tier. */
  const PremiumCondition: string := "gmail.com"
  const Freemium: string := "FREEMIUM"
  const Premium: string := "PREMIUM"

  /** One row of `api_keys`; the account type column may be NULL. */
  datatype ApiKeyRow = ApiKeyRow(apiKey: string, userEmail: string, accountType: Option<string>)

  type Registry = seq<ApiKeyRow>

  /** One document of the `users` collection. */
  datatype UserDoc = UserDoc(email: string, password: string)

  type Users = map<string, string>

  /** The registration-time tier rule. */
  function AccountTypeFor(email: string): (t: string)
    ensures t == Premium <==> Text.Contains(email, PremiumCondition)
    ensures t == Freemium <==> !Text.Contains(email, PremiumCondition)
  {
    if Text.Contains(email, PremiumCondition) then Premium else Freemium
  }

  /** The tier rule stated by position: PREMIUM exactly when "gmail.com" occurs
      somewhere in the email. */
  lemma PremiumIffOccurs(email: string)
    ensures AccountTypeFor(email) == Premium <==> exists i :: Text.OccursAt(email, PremiumCondition, i)
  {
    Text.ContainsIff(email, PremiumCondition);
  }

  /** `get_api_key_info`: a row whose key equals `apiKey` (the first in table order),
      or nothing. */
  function GetApiKeyInfo(reg: Registry, apiKey: string): (r: Option<ApiKeyRow>)
    ensures r.None? <==> forall k :: 0 <= k < |reg| ==> reg[k].apiKey != apiKey
    ensures r.Some? ==> r.value in reg && r.value.apiKey == apiKey
    ensures r.Some? ==> exists k :: 0 <= k < |reg| && reg[k] == r.value &&
                                   forall j :: 0 <= j < k ==> reg[j].apiKey != apiKey
    decreases |reg|
  {
    if |reg| == 0 then None
    else if reg[0].apiKey == apiKey then Some(reg[0])
    else
      var r := GetApiKeyInfo(reg[1..], apiKey);
      assert forall k :: 0 < k < |reg| ==> reg[k] == reg[1..][k - 1];
      r
  }

  /** The outcome of `insert_api_key_in_db`: the key and tier, or the empty string. */
  datatype KeyInsert = Inserted(apiKey: string, accountType: string) | InsertFailed

  /** `insert_api_key_in_db`: on success one row `(key, email, tier)` is added and
      returned; on any database error nothing is added. */
  function InsertApiKey(reg: Registry, email: string, freshKey: string, dbOk: bool): (r: (KeyInsert, Registry))
    ensures dbOk ==> r.0 == Inserted(freshKey, AccountTypeFor(email))
    ensures dbOk ==> r.1 == reg + [ApiKeyRow(freshKey, email, Some(AccountTypeFor(email)))]
    ensures !dbOk ==> r.0 == InsertFailed && r.1 == reg
  {
    if dbOk then
      var accountType := AccountTypeFor(email);
      (Inserted(freshKey, accountType), reg + [ApiKeyRow(freshKey, email, Some(accountType))])
    else (InsertFailed, reg)
  }

  /** A key not used before is found after its insertion, with the email and tier
      it was inserted with; lookups of other keys are unaffected. */
  lemma InsertThenLookup(reg: Registry, email: string, freshKey: string, other: string)
    requires forall k :: 0 <= k < |reg| ==> reg[k].apiKey != freshKey
    ensures GetApiKeyInfo(InsertApiKey(reg, email, freshKey, true).1, freshKey)
              == Some(ApiKeyRow(freshKey, email, Some(AccountTypeFor(email))))
    ensures other != freshKey ==>
              GetApiKeyInfo(InsertApiKey(reg, email, freshKey, true).1, other) == GetApiKeyInfo(reg, other)
  {
    LookupAppend(reg, ApiKeyRow(freshKey, email, Some(AccountTypeFor(email))), freshKey);
    LookupAppend(reg, ApiKeyRow(freshKey, email, Some(AccountTypeFor(email))), other);
  }

  /** Appending a row changes a lookup only if no earlier row had the key. */
  lemma {:induction false} LookupAppend(reg: Registry, row: ApiKeyRow, apiKey: string)
    ensures GetApiKeyInfo(reg + [row], apiKey) ==
              if GetApiKeyInfo(reg, apiKey).Some? then GetApiKeyInfo(reg, apiKey)
              else if row.apiKey == apiKey then Some(row)
              else None
    decreases |reg|
  {
    if |reg| > 0 {
      assert (reg + [row])[1..] == reg[1..] + [row];
      LookupAppend(reg[1..], row, apiKey);
    } else {
      assert reg + [row] == [row];
    }
  }

  /** `get_user_info`: the user document for the email, if any. */
  function GetUserInfo(users: Users, email: string): (r: Option<UserDoc>)
    ensures r.Some? <==> email in users
    ensures r.Some? ==> r.value == UserDoc(email, users[email])
  {
    if email in users then Some(UserDoc(email, users[email])) else None
  }

  /** `create_user_in_db`: refuse an existing email, otherwise store `{email, password}`;
      any database error is a refusal that changes nothing. */
  function CreateUser(users: Users, email: string, password: string, dbOk: bool): (r: (bool, Users))
    ensures r.0 <==> dbOk && email !in users
    ensures !r.0 ==> r.1 == users
    ensures r.0 ==> r.1 == users[email := password]
  {
    if !dbOk then (false, users)
    else if email in users then (false, users)
    else (true, users[email := password])
  }

  /** A created user reads back with exactly the stored password, and nobody else
      changes. */
  lemma CreateThenGet(users: Users, email: string, password: string, other: string)
    requires email !in users
    ensures GetUserInfo(CreateUser(users, email, password, true).1, email) == Some(UserDoc(email, password))
    ensures other != email ==>
              GetUserInfo(CreateUser(users, email, password, true).1, other) == GetUserInfo(users, other)
  {
  }
}
