/**
 * The client's auth store module: a token and a user, the getter
 * `isAuthenticated` (the token is truthy), the mutations that assign them,
 * and the actions that commit those mutations around an API call. Each
 * action receives the call's outcome as a parameter; navigation after an
 * action is not modelled.
 */
module AuthStore {
  import opened Js

  class AuthState {
    var token: Value
    var user: Value

    constructor ()
      ensures token == Null && user == Null
    {
      token, user := Null, Null;
    }

    /**
     * The getter `isAuthenticated`, `!!state.token`: a null, undefined or
     * empty token is unauthenticated, a string token authenticates exactly
     * when non-empty, and an object token always does.
     */
    function Authenticated(): (b: bool)
      reads this
      ensures token == Null || token == Undefined || token == Str("") ==> !b
      ensures token.Str? ==> (b <==> token.s != "")
      ensures token.Object? ==> b
    {
      Truthy(token)
    }

    method SetToken(t: Value)
      modifies this
      ensures token == t && user == old(user)
    {
      token := t;
    }

    method SetUser(u: Value)
      modifies this
      ensures user == u && token == old(token)
    {
      user := u;
    }

    /** CLEAR_AUTH: both fields null, so not authenticated. */
    method ClearAuth()
      modifies this
      ensures token == Null && user == Null
      ensures !Authenticated()
    {
      token := Null;
      user := Null;
    }

    /**
     * login and register: on success the token and the user become the
     * response's `token` and `user` properties (undefined when missing);
     * a failed call rejects before any commit.
     */
    method Login(response: ApiResult<map<string, Value>>) returns (r: ApiResult<map<string, Value>>)
      modifies this
      ensures r == response
      ensures response.Ok? ==> token == Get(response.data, "token") && user == Get(response.data, "user")
      ensures response.Err? ==> token == old(token) && user == old(user)
      ensures response.Ok? ==> (Authenticated() <==> Truthy(Get(response.data, "token")))
    {
      if response.Ok? {
        SetToken(Get(response.data, "token"));
        SetUser(Get(response.data, "user"));
      }
      r := response;
    }

    method Register(response: ApiResult<map<string, Value>>) returns (r: ApiResult<map<string, Value>>)
      modifies this
      ensures r == response
      ensures response.Ok? ==> token == Get(response.data, "token") && user == Get(response.data, "user")
      ensures response.Err? ==> token == old(token) && user == old(user)
      ensures response.Ok? && "token" !in response.data ==> !Authenticated()
    {
      if response.Ok? {
        SetToken(Get(response.data, "token"));
        SetUser(Get(response.data, "user"));
      }
      r := response;
    }

    /**
     * logout: the API error, if any, is swallowed and the auth is cleared in
     * `finally`. This is the evidently intended action: as written, `actions`
     * closes after `login`, so `logout` is a plain key of the module object
     * and cannot be dispatched.
     */
    method Logout(response: ApiResult<()>)
      modifies this
      ensures token == Null && user == Null && !Authenticated()
    {
      ClearAuth();
    }

    /**
     * updateProfile: the user becomes the response data on success. Like
     * `logout`, it sits outside `actions` as written and cannot be dispatched.
     */
    method UpdateProfile(response: ApiResult<Value>) returns (r: ApiResult<Value>)
      modifies this
      ensures r == response && token == old(token)
      ensures user == if response.Ok? then response.data else old(user)
    {
      if response.Ok? {
        SetUser(response.data);
      }
      r := response;
    }

    /**
     * deleteAccount: the auth is cleared only after the API call succeeded.
     * Like `logout`, it sits outside `actions` as written and cannot be
     * dispatched.
     */
    method DeleteAccount(response: ApiResult<()>) returns (r: ApiResult<()>)
      modifies this
      ensures r == response
      ensures response.Ok? ==> token == Null && user == Null && !Authenticated()
      ensures response.Err? ==> token == old(token) && user == old(user)
    {
      if response.Ok? {
        ClearAuth();
      }
      r := response;
    }
  }
}
