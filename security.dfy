/**
 * The permission gate in front of the protected paths: the HTTP method picks
 * an action, the configuration maps the action to a permission group, and the
 * group decides whether an API key is needed and which auth level it must
 * carry. The user directory is a parameter, `users`, from a key to the
 * `(username, auth_level)` pair it answers (`(None, None)` for an unknown key).
 */
module Security {
  import opened Wrappers
  import Text
  import Responses

  /** The permission group of each action. */
  datatype Permissions = Permissions(read: string, write: string, delete: string, other: string)

  /** The settings the gate reads. An absent or empty credential name disables that source. */
  datatype Config = Config(
    protectedPrefixes: seq<string>,
    readOnly: bool,
    authHeader: Option<string>,
    authCookie: Option<string>,
    authQuery: Option<string>,
    permissions: Permissions)

  datatype Request = Request(
    verb: string,
    path: string,
    headers: map<string, string>,
    cookies: map<string, string>,
    query: map<string, string>)

  /** The directory's answer for a key; either part may be `None`. */
  datatype Identity = Identity(username: Option<string>, level: Option<int>)

  /**
   * The gate's outcome: hand the request on to the endpoint, answer it with
   * `respond(code)`, or let an exception escape (a server error).
   */
  datatype Verdict = Forward | Deny(code: string) | Fault(error: string)

  datatype Action = Read | Write | Delete | Other

  /** The five group names configuration loading accepts. */
  const Groups: set<string> := {"everyone", "users", "contributors", "admin", "nobody"}

  predicate ValidPermissions(p: Permissions) {
    p.read in Groups && p.write in Groups && p.delete in Groups && p.other in Groups
  }

  /** The codes the gate can answer with. */
  const GateCodes: set<string> :=
    {"read_only", "disabled_feature", "no_api_key", "invalid_api_key", "insufficient_permissions"}

  function ActionOf(verb: string): Action {
    if verb == "GET" || verb == "HEAD" then Read
    else if verb == "PUT" || verb == "PATCH" || verb == "POST" then Write
    else if verb == "DELETE" then Delete
    else Other
  }

  function GroupFor(p: Permissions, a: Action): string {
    match a
    case Read => p.read
    case Write => p.write
    case Delete => p.delete
    case Other => p.other
  }

  /** `path.startswith(prefixes)` for a tuple of prefixes. */
  predicate IsProtected(prefixes: seq<string>, path: string) {
    exists i :: 0 <= i < |prefixes| && Text.StartsWith(path, prefixes[i])
  }

  predicate Truthy(s: Option<string>) {
    s.Some? && s.value != ""
  }

  predicate TruthyLevel(l: Option<int>) {
    l.Some? && l.value != 0
  }

  /** `name and source.get(name)`: the value under a configured name, when both are non-empty. */
  function Source(name: Option<string>, source: map<string, string>): (r: Option<string>)
    ensures r.Some? <==> name.Some? && name.value != "" && name.value in source && source[name.value] != ""
    ensures r.Some? ==> r.value == source[name.value]
  {
    if Truthy(name) && name.value in source && source[name.value] != "" then Some(source[name.value]) else None
  }

  /** The API key a request carries: from the header, else the cookie, else the query parameter. */
  function Credential(cfg: Config, req: Request): (r: Option<string>)
    ensures r.Some? ==> r.value != ""
    ensures r.None? <==>
      Source(cfg.authHeader, req.headers).None? && Source(cfg.authCookie, req.cookies).None? &&
      Source(cfg.authQuery, req.query).None?
  {
    var fromHeader := Source(cfg.authHeader, req.headers);
    if fromHeader.Some? then fromHeader
    else
      var fromCookie := Source(cfg.authCookie, req.cookies);
      if fromCookie.Some? then fromCookie
      else Source(cfg.authQuery, req.query)
  }

  /** `auth_level >= threshold`; comparing `None` with an int raises. */
  function AtLeast(level: Option<int>, threshold: int): Verdict {
    match level
    case None => Fault("TypeError")
    case Some(l) => if l >= threshold then Forward else Deny("insufficient_permissions")
  }

  /** `check_permissions(request, group)`: `Forward` stands for its `None`. */
  function CheckPermissions(cfg: Config, req: Request, group: string, users: string -> Identity): (v: Verdict)
    ensures v.Deny? ==> v.code in GateCodes - {"read_only"}
  {
    if group == "everyone" then Forward
    else if group == "nobody" then Deny("disabled_feature")
    else
      match Credential(cfg, req)
      case None => Deny("no_api_key")
      case Some(key) =>
        var who := users(key);
        if !Truthy(who.username) && !TruthyLevel(who.level) then Deny("invalid_api_key")
        else if group == "users" then AtLeast(who.level, 1)
        else if group == "contributors" then AtLeast(who.level, 2)
        else if group == "admin" then (if who.level == Some(3) then Forward else Deny("insufficient_permissions"))
        else Fault("ValueError")
  }

  /** `PermissionMiddleware.dispatch`: `Forward` stands for calling the next handler. */
  function Dispatch(cfg: Config, req: Request, users: string -> Identity): (v: Verdict)
    ensures v.Deny? ==> v.code in GateCodes && v.code in Responses.Table
  {
    if !IsProtected(cfg.protectedPrefixes, req.path) then Forward
    else
      match ActionOf(req.verb)
      case Read => CheckPermissions(cfg, req, cfg.permissions.read, users)
      case Write => if cfg.readOnly then Deny("read_only") else CheckPermissions(cfg, req, cfg.permissions.write, users)
      case Delete => if cfg.readOnly then Deny("read_only") else CheckPermissions(cfg, req, cfg.permissions.delete, users)
      case Other => CheckPermissions(cfg, req, cfg.permissions.other, users)
  }

  // ---------------------------------------------------------------------------
  // Properties of the gate
  // ---------------------------------------------------------------------------

  /** A path under no protected prefix is forwarded, whatever the request and the directory. */
  lemma UnprotectedForwarded(cfg: Config, req: Request, users: string -> Identity)
    requires !IsProtected(cfg.protectedPrefixes, req.path)
    ensures Dispatch(cfg, req, users) == Forward
  {
  }

  /** GET and HEAD read; PUT, PATCH and POST write; DELETE deletes; every other method is `other`. */
  lemma MethodActions(verb: string)
    ensures ActionOf(verb) == Read <==> verb in {"GET", "HEAD"}
    ensures ActionOf(verb) == Write <==> verb in {"PUT", "PATCH", "POST"}
    ensures ActionOf(verb) == Delete <==> verb == "DELETE"
  {
  }

  /**
   * Unless read-only mode stops it first, a protected request is judged by the
   * group of its method's action, and by no other group.
   */
  /** A group's check reads the configuration only through the credential sources. */
  lemma CheckReadsOnlySources(cfg: Config, cfg': Config, req: Request, group: string, users: string -> Identity)
    requires cfg'.authHeader == cfg.authHeader && cfg'.authCookie == cfg.authCookie && cfg'.authQuery == cfg.authQuery
    ensures CheckPermissions(cfg', req, group, users) == CheckPermissions(cfg, req, group, users)
  {
    assert Credential(cfg', req) == Credential(cfg, req);
  }

  lemma ChecksOnlyTheActionGroup(cfg: Config, cfg': Config, req: Request, users: string -> Identity)
    requires cfg'.protectedPrefixes == cfg.protectedPrefixes && cfg'.readOnly == cfg.readOnly
    requires cfg'.authHeader == cfg.authHeader && cfg'.authCookie == cfg.authCookie && cfg'.authQuery == cfg.authQuery
    requires GroupFor(cfg'.permissions, ActionOf(req.verb)) == GroupFor(cfg.permissions, ActionOf(req.verb))
    ensures Dispatch(cfg', req, users) == Dispatch(cfg, req, users)
    ensures IsProtected(cfg.protectedPrefixes, req.path) && !(cfg.readOnly && ActionOf(req.verb) in {Write, Delete}) ==>
      Dispatch(cfg, req, users) == CheckPermissions(cfg, req, GroupFor(cfg.permissions, ActionOf(req.verb)), users)
  {
    CheckReadsOnlySources(cfg, cfg', req, GroupFor(cfg.permissions, ActionOf(req.verb)), users);
  }

  /** In read-only mode every protected write or delete is refused, before any credential or lookup. */
  lemma ReadOnlyRefusesChanges(cfg: Config, req: Request, users: string -> Identity)
    requires cfg.readOnly && IsProtected(cfg.protectedPrefixes, req.path)
    requires req.verb in {"PUT", "PATCH", "POST", "DELETE"}
    ensures Dispatch(cfg, req, users) == Deny("read_only")
  {
  }

  /** Read-only mode does not change how reads and other methods are judged. */
  lemma ReadOnlyKeepsReads(cfg: Config, req: Request, users: string -> Identity)
    requires ActionOf(req.verb) in {Read, Other}
    ensures Dispatch(cfg.(readOnly := true), req, users) == Dispatch(cfg.(readOnly := false), req, users)
  {
  }

  /** Group `everyone` lets the request through with no credential read and no lookup. */
  lemma EveryoneNeedsNothing(cfg: Config, req: Request, users: string -> Identity)
    ensures CheckPermissions(cfg, req, "everyone", users) == Forward
  {
  }

  /** Group `nobody` refuses every request, including one with an admin's key. */
  lemma NobodyRefusesAll(cfg: Config, req: Request, users: string -> Identity)
    ensures CheckPermissions(cfg, req, "nobody", users) == Deny("disabled_feature")
  {
  }

  /** The header wins over the cookie and the query parameter, and the cookie over the query parameter. */
  lemma CredentialPrecedence(cfg: Config, req: Request)
    ensures Source(cfg.authHeader, req.headers).Some? ==> Credential(cfg, req) == Source(cfg.authHeader, req.headers)
    ensures Source(cfg.authHeader, req.headers).None? && Source(cfg.authCookie, req.cookies).Some? ==>
      Credential(cfg, req) == Source(cfg.authCookie, req.cookies)
    ensures Source(cfg.authHeader, req.headers).None? && Source(cfg.authCookie, req.cookies).None? ==>
      Credential(cfg, req) == Source(cfg.authQuery, req.query)
  {
  }

  /** An empty value counts as absent: the request reads as if that header were not sent. */
  lemma EmptyHeaderIsAbsent(cfg: Config, req: Request)
    requires cfg.authHeader.Some? && cfg.authHeader.value in req.headers && req.headers[cfg.authHeader.value] == ""
    ensures Credential(cfg, req) == Credential(cfg, req.(headers := req.headers - {cfg.authHeader.value}))
  {
  }

  /** Every refusal of the gate is a client error: 401 when no key was found, 403 for every other refusal. */
  lemma DenialStatuses(cfg: Config, req: Request, users: string -> Identity)
    ensures var v := Dispatch(cfg, req, users);
      v.Deny? ==> Responses.Table[v.code].status == (if v.code == "no_api_key" then 401 else 403)
  {
    Responses.MissingCredentialStatuses();
    Responses.RefusalStatuses();
  }

  /** A group that needs a key and finds none answers `no_api_key`, whatever the directory holds. */
  lemma MissingKey(cfg: Config, req: Request, group: string, users: string -> Identity)
    requires group != "everyone" && group != "nobody"
    requires Credential(cfg, req).None?
    ensures CheckPermissions(cfg, req, group, users) == Deny("no_api_key")
  {
  }

  /** A key the directory answers `(None, None)` for (or any pair of falsy values) is `invalid_api_key`. */
  lemma UnknownKey(cfg: Config, req: Request, group: string, users: string -> Identity)
    requires group != "everyone" && group != "nobody"
    requires Credential(cfg, req).Some?
    requires !Truthy(users(Credential(cfg, req).value).username) && !TruthyLevel(users(Credential(cfg, req).value).level)
    ensures CheckPermissions(cfg, req, group, users) == Deny("invalid_api_key")
  {
  }

  /**
   * For a recognised key with an auth level: `users` admits level 1 and up,
   * `contributors` level 2 and up, `admin` level 3 only; everything else is
   * `insufficient_permissions`.
   */
  lemma LevelRules(cfg: Config, req: Request, users: string -> Identity, level: int)
    requires Credential(cfg, req).Some?
    requires users(Credential(cfg, req).value).level == Some(level)
    requires Truthy(users(Credential(cfg, req).value).username) || level != 0
    ensures CheckPermissions(cfg, req, "users", users) == if level >= 1 then Forward else Deny("insufficient_permissions")
    ensures CheckPermissions(cfg, req, "contributors", users) == if level >= 2 then Forward else Deny("insufficient_permissions")
    ensures CheckPermissions(cfg, req, "admin", users) == if level == 3 then Forward else Deny("insufficient_permissions")
  {
  }

  /** Admin is not a threshold: a level above 3 passes `contributors` but not `admin`. */
  lemma AdminNeedsExactlyThree(cfg: Config, req: Request, users: string -> Identity)
    requires Credential(cfg, req).Some?
    requires users(Credential(cfg, req).value) == Identity(Some("root"), Some(4))
    ensures CheckPermissions(cfg, req, "contributors", users) == Forward
    ensures CheckPermissions(cfg, req, "admin", users) == Deny("insufficient_permissions")
  {
  }

  /**
   * An unrecognised group raises, but only after a key was found and the
   * directory recognised it; without a key the answer is still `no_api_key`.
   */
  lemma UnknownGroupRaisesLate(cfg: Config, req: Request, group: string, users: string -> Identity)
    requires group !in Groups
    ensures Credential(cfg, req).None? ==> CheckPermissions(cfg, req, group, users) == Deny("no_api_key")
    ensures (Credential(cfg, req).Some? &&
             (Truthy(users(Credential(cfg, req).value).username) || TruthyLevel(users(Credential(cfg, req).value).level)))
      ==> CheckPermissions(cfg, req, group, users) == Fault("ValueError")
  {
  }

  /**
   * With the five accepted group names and a directory that gives a level to
   * every named user, the gate never raises: every protected request is
   * either forwarded or answered with one of the gate's codes.
   */
  lemma ValidConfigNeverFaults(cfg: Config, req: Request, users: string -> Identity)
    requires ValidPermissions(cfg.permissions)
    requires forall k :: Truthy(users(k).username) ==> users(k).level.Some?
    ensures !Dispatch(cfg, req, users).Fault?
  {
    if IsProtected(cfg.protectedPrefixes, req.path) {
      ValidGroupNeverFaults(cfg, req, GroupFor(cfg.permissions, ActionOf(req.verb)), users);
    }
  }

  /** One accepted group's check never raises when every named user has a level. */
  lemma ValidGroupNeverFaults(cfg: Config, req: Request, group: string, users: string -> Identity)
    requires group in Groups
    requires forall k :: Truthy(users(k).username) ==> users(k).level.Some?
    ensures !CheckPermissions(cfg, req, group, users).Fault?
  {
    if Credential(cfg, req).Some? {
      var who := users(Credential(cfg, req).value);
      assert Truthy(who.username) ==> who.level.Some?;
    }
  }

  /** The configuration's defaults, with the API key read from the `X-API-KEY` header. */
  const DefaultConfig := Config(["/archive"], false, Some("X-API-KEY"), Some(""), None,
                                Permissions("users", "contributors", "admin", "everyone"))

  /** Under the defaults, a write needs a contributor: level 1 is refused, level 2 is let through. */
  lemma DefaultWriteNeedsContributor(users: string -> Identity)
    requires users("k1") == Identity(Some("ann"), Some(1)) && users("k2") == Identity(Some("bob"), Some(2))
    ensures Dispatch(DefaultConfig, Request("PATCH", "/archive/anime/1", map["X-API-KEY" := "k1"], map[], map[]), users)
      == Deny("insufficient_permissions")
    ensures Dispatch(DefaultConfig, Request("PATCH", "/archive/anime/1", map["X-API-KEY" := "k2"], map[], map[]), users)
      == Forward
  {
    var path := "/archive/anime/1";
    assert Text.StartsWith(path, DefaultConfig.protectedPrefixes[0]);
    var low := Request("PATCH", path, map["X-API-KEY" := "k1"], map[], map[]);
    var high := Request("PATCH", path, map["X-API-KEY" := "k2"], map[], map[]);
    assert Credential(DefaultConfig, low) == Some("k1");
    assert Credential(DefaultConfig, high) == Some("k2");
  }
}
