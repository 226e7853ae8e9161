/** The authentication middleware (`auth`, `optionalAuth`) and the role gate
    (`requireRole`) put in front of the handlers. Token signature checking is
    not modelled: the verifier is a parameter returning the decoded user id
    or the kind of failure the token library raises. */
module Auth {
  import opened Http
  import opened Text
  import opened Classroom

  /** What verifying an access token can give. */
  datatype Verified =
    | Decoded(userId: UserId)
    | Malformed      // JsonWebTokenError
    | Expired        // TokenExpiredError
    | Unverifiable   // any other failure while verifying or looking up

  /** Why `auth` refused a request; each answers 401 with its own message. */
  datatype AuthFailure = MissingToken | UnknownUser | InvalidToken | ExpiredToken | AuthError

  datatype Identity = Identified(p: Principal) | Refused(why: AuthFailure)

  const BearerPrefix: string := "Bearer "

  /** The token is the header with the first "Bearer " removed. */
  function BearerToken(header: string): string
  {
    ReplaceFirst(header, BearerPrefix, "")
  }

  /** The `auth` middleware. The caller's role is the one stored for the
      token's user, not anything carried in the token. */
  function Authenticate(st: Store, header: Option<string>, verify: string -> Verified): (r: Identity)
    ensures (header.None? || !StartsWith(header.value, BearerPrefix)) ==> r == Refused(MissingToken)
    ensures header.Some? && StartsWith(header.value, BearerPrefix) ==>
      var v := verify(header.value[|BearerPrefix|..]);
      && (v.Decoded? && v.userId in st.users ==> r == Identified(Principal(v.userId, st.users[v.userId].role)))
      && (v.Decoded? && v.userId !in st.users ==> r == Refused(UnknownUser))
      && (v.Malformed? ==> r == Refused(InvalidToken))
      && (v.Expired? ==> r == Refused(ExpiredToken))
      && (v.Unverifiable? ==> r == Refused(AuthError))
    ensures r.Identified? ==> r.p.id in st.users && st.users[r.p.id].role == r.p.role
  {
    if header.None? || !StartsWith(header.value, BearerPrefix) then
      Refused(MissingToken)
    else
      ReplacePrefix(header.value, BearerPrefix);
      match verify(BearerToken(header.value))
      case Decoded(u) =>
        if u in st.users then Identified(Principal(u, st.users[u].role)) else Refused(UnknownUser)
      case Malformed => Refused(InvalidToken)
      case Expired => Refused(ExpiredToken)
      case Unverifiable => Refused(AuthError)
  }

  /** `auth` as a status: every refusal, whatever its message, is 401. */
  function Identify(st: Store, header: Option<string>, verify: string -> Verified): (r: Result<Principal>)
    ensures r.Err? ==> r.status == Unauthenticated
    ensures r.Ok? <==> Authenticate(st, header, verify).Identified?
    ensures r.Ok? ==> r.value == Authenticate(st, header, verify).p
  {
    match Authenticate(st, header, verify)
    case Identified(p) => Ok(p)
    case Refused(_) => Err(Unauthenticated)
  }

  /** The `optionalAuth` middleware: it never refuses; it attaches a user only
      when the header carries a bearer token that verifies to a stored user. */
  function OptionalAuth(st: Store, header: Option<string>, verify: string -> Verified): (r: Option<Principal>)
    ensures r.Some? ==> r.value.id in st.users && st.users[r.value.id].role == r.value.role
  {
    if header.None? || !StartsWith(header.value, BearerPrefix) then None
    else
      match verify(BearerToken(header.value))
      case Decoded(u) => if u in st.users then Some(Principal(u, st.users[u].role)) else None
      case _ => None
  }

  /** `optionalAuth` attaches exactly the user `auth` would accept, and lets
      through without a user every request `auth` would refuse. */
  lemma OptionalAuthAgreesWithAuth(st: Store, header: Option<string>, verify: string -> Verified)
    ensures forall p :: OptionalAuth(st, header, verify) == Some(p) <==> Authenticate(st, header, verify) == Identified(p)
    ensures OptionalAuth(st, header, verify).None? <==> Authenticate(st, header, verify).Refused?
  {
  }

  /** An argument of `requireRole`: a role name or an array of role names. */
  datatype RoleArg = RoleName(role: Role) | RoleList(roles: seq<Role>)

  /** The roles `requireRole(...args)` admits. The function declares a single
      parameter, so only the first argument is read; a lone name becomes a
      one-element list. With no argument nothing is admitted. */
  function AllowedRoles(args: seq<RoleArg>): (r: seq<Role>)
    ensures |args| == 0 ==> r == []
    ensures |args| > 0 && args[0].RoleName? ==> r == [args[0].role]
    ensures |args| > 0 && args[0].RoleList? ==> r == args[0].roles
  {
    if |args| == 0 then []
    else match args[0]
      case RoleName(role) => [role]
      case RoleList(roles) => roles
  }

  /** Passing two role names as two arguments admits only the first. */
  lemma SecondNameIgnored(a: Role, b: Role)
    requires a != b
    ensures b !in AllowedRoles([RoleName(a), RoleName(b)])
    ensures AllowedRoles([RoleName(a), RoleName(b)]) == [a]
  {
  }

  /** The `requireRole` middleware: 401 without a user, 403 when the user's
      role is not admitted, and otherwise the request passes on unchanged. */
  function RequireRole(user: Option<Principal>, args: seq<RoleArg>): (r: Result<Principal>)
    ensures user.None? ==> r == Err(Unauthenticated)
    ensures user.Some? ==> (r == Err(Forbidden) <==> user.value.role !in AllowedRoles(args))
    ensures r.Ok? ==> user == Some(r.value)
  {
    if user.None? then Err(Unauthenticated)
    else if user.value.role !in AllowedRoles(args) then Err(Forbidden)
    else Ok(user.value)
  }

  /** `auth` followed by `requireRole(args)`, the prefix of every gated route. */
  function Gate(st: Store, header: Option<string>, verify: string -> Verified, args: seq<RoleArg>): (r: Result<Principal>)
    ensures !Authenticate(st, header, verify).Identified? ==> r == Err(Unauthenticated)
    ensures Authenticate(st, header, verify).Identified? ==>
      var p := Authenticate(st, header, verify).p;
      && (p.role !in AllowedRoles(args) ==> r == Err(Forbidden))
      && (p.role in AllowedRoles(args) ==> r == Ok(p))
  {
    var p :- Identify(st, header, verify);
    RequireRole(Some(p), args)
  }
}
