/** `loginUser`: posts the credentials and, when the answer carries an access
    token, persists the tokens and the user in durable storage. The HTTP
    exchange itself is a parameter: the model receives its outcome. */
module LoginApi {
  import opened Base

  datatype User = User(id: string, username: string, role: string)

  /** A field of a JSON body: absent (read as `undefined`), `null`, or a value. */
  datatype Field<T> = Missing | Null | Present(value: T)

  /** The body of a successful `POST /auth/login`; any field may be missing or
      `null`. Token fields are taken to hold text when present. */
  datatype LoginData = LoginData(accessToken: Field<string>, refreshToken: Field<string>, user: Field<User>)

  /** The value as the context stores it: `null` and `undefined` both become
      the absent user. */
  function AsOption<T>(f: Field<T>): (r: Option<T>)
    ensures r.Some? <==> f.Present?
    ensures r.Some? ==> r.value == f.value
  {
    match f
    case Present(v) => Some(v)
    case _ => None
  }

  /** What the HTTP request produced: a 2xx body, or a rejection carrying the
      error object (abstracted to a number). */
  datatype Response = Answered(data: LoginData) | RequestFailed(error: int)

  /** `loginUser` resolves with `response.data` or rethrows the request error. */
  datatype LoginResult = Returned(data: LoginData) | Threw(error: int)

  /** `Storage.setItem` stores `String(value)`: "undefined" for a missing
      field and "null" for a `null` one. */
  function StoredText(v: Field<string>): (r: string)
    ensures v.Present? ==> r == v.value
    ensures v.Missing? ==> r == "undefined"
    ensures v.Null? ==> r == "null"
  {
    match v
    case Present(t) => t
    case Missing => "undefined"
    case Null => "null"
  }

  /** Stand-in for `JSON.stringify(user)` over the three declared fields
      (string escaping is not modelled). `JSON.stringify(undefined)` is
      `undefined`, which `setItem` stores as "undefined"; `null` gives "null". */
  function UserJson(u: Field<User>): (r: string)
    ensures u.Missing? ==> r == "undefined"
    ensures u.Null? ==> r == "null"
    ensures u.Present? ==> |r| > 0 && r[0] == '{'
  {
    match u
    case Present(v) => "{\"id\":\"" + v.id + "\",\"username\":\"" + v.username + "\",\"role\":\"" + v.role + "\"}"
    case Missing => "undefined"
    case Null => "null"
  }

  /** `response.data.accessToken` is truthy. */
  predicate HasToken(data: LoginData)
  {
    data.accessToken.Present? && data.accessToken.value != ""
  }

  /** Runs `loginUser` against the given outcome of the request and the
      durable store; returns the promise's settlement and the new store. */
  function LoginUser(durable: map<string, string>, response: Response): (r: (LoginResult, map<string, string>))
    ensures response.RequestFailed? ==> r == (Threw(response.error), durable)
    ensures response.Answered? ==> r.0 == Returned(response.data)
    ensures response.Answered? && !HasToken(response.data) ==> r.1 == durable
    ensures response.Answered? && HasToken(response.data) ==>
              && r.1.Keys == durable.Keys + {AccessTokenKey, RefreshTokenKey, UserKey}
              && r.1[AccessTokenKey] == response.data.accessToken.value
              && r.1[RefreshTokenKey] == StoredText(response.data.refreshToken)
              && r.1[UserKey] == UserJson(response.data.user)
              && (forall k :: k in durable && k !in {AccessTokenKey, RefreshTokenKey, UserKey} ==> r.1[k] == durable[k])
  {
    match response
    case RequestFailed(e) => (Threw(e), durable)
    case Answered(data) =>
      if HasToken(data) then
        var d1 := durable[AccessTokenKey := data.accessToken.value];
        var d2 := d1[RefreshTokenKey := StoredText(data.refreshToken)];
        var d3 := d2[UserKey := UserJson(data.user)];
        (Returned(data), d3)
      else
        (Returned(data), durable)
  }
}
