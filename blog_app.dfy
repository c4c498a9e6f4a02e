/**
 * The authorisation gate that the blog API's mutating handlers (`postBlog`,
 * `updateBlog`, `deleteBlog`) run before touching the database: the request's
 * auth header, the configured mechanism descriptor `<kind>|<target>`, the
 * `%CONFIG_DIR%` substitution in the target and, for the kind "file", the
 * file-based validator.
 */
module App {
  import opened GoTypes
  import opened GoStrings
  import Pbkdf2Auth

  /** The descriptor delimiter, '|'. */
  const PIPE: byte := 124

  /** The one mechanism kind that is validated. */
  const FILE_KIND: GoString := Ascii("file")

  /** The placeholder in a target that stands for the configuration directory. */
  const CONFIG_DIR_PLACEHOLDER: GoString := Ascii("%CONFIG_DIR%")

  datatype Config = Config(apiAuthMech: GoString, tcpPort: GoString, webAuthMech: GoString)

  /** The fields of `BlogApp` the handlers read; none of them is ever written by a handler. */
  datatype BlogApp = BlogApp(appPath: GoString, configPath: GoString, authHeader: GoString, confStruct: Config)

  /** The part of an incoming request the gate looks at: its headers, by name. */
  datatype Request = Request(headers: map<GoString, GoString>)

  /** A parsed mechanism descriptor. */
  datatype Mechanism = Mechanism(kind: GoString, target: GoString)

  /** How a handler leaves the gate: it answers 401, or goes on to its database work. */
  datatype Decision = Unauthorized | Proceed

  /** `c.GetHeader(name)`: the header's value, or the empty string when it is absent. */
  function GetHeader(req: Request, name: GoString): (v: GoString)
    ensures name !in req.headers ==> v == []
  {
    if name in req.headers then req.headers[name] else []
  }

  /**
   * `parseAuthMechStr(mechStr)`: the first two pieces of `mechStr` split at
   * '|'. Without a '|' there is no second piece and indexing it panics. The
   * error it also returns is always nil and is not modelled.
   */
  function ParseAuthMechStr(mechStr: GoString): (r: Exec<Mechanism>)
    ensures r.Done? <==> PIPE in mechStr
    ensures r.Done? ==> PIPE !in r.value.kind && PIPE !in r.value.target
  {
    var authType := Split(mechStr, [PIPE]);
    SplitSingle(mechStr, PIPE);
    if |authType| < 2 then IndexOutOfRange
    else Done(Mechanism(authType[0], authType[1]))
  }

  /**
   * `strings.Replace(target, "%CONFIG_DIR%", configPath, -1)`: every
   * occurrence of the placeholder, leftmost first and without overlap, is
   * replaced by the configuration directory. That is, the target is cut at
   * the placeholders into pieces that no longer hold one, and the pieces are
   * glued back with the directory.
   */
  function ResolvePath(target: GoString, configPath: GoString): (r: GoString)
    ensures r == Join(Split(target, CONFIG_DIR_PLACEHOLDER), configPath)
    ensures forall k :: 0 <= k < |Split(target, CONFIG_DIR_PLACEHOLDER)| ==>
              Free(Split(target, CONFIG_DIR_PLACEHOLDER)[k], CONFIG_DIR_PLACEHOLDER)
  {
    ReplaceAllIsJoinSplit(target, CONFIG_DIR_PLACEHOLDER, configPath);
    SplitFieldsFree(target, CONFIG_DIR_PLACEHOLDER);
    ReplaceAll(target, CONFIG_DIR_PLACEHOLDER, configPath)
  }

  /**
   * The gate shared by `postBlog`, `updateBlog` and `deleteBlog`. A request
   * that carries a token is refused; one that carries none goes through the
   * configured mechanism, which for the kind "file" validates the (empty)
   * token against the store at the resolved path, and for any other kind
   * validates nothing.
   */
  function Gate(app: BlogApp, req: Request, fs: Pbkdf2Auth.FileSystem, key: Pbkdf2Auth.Pbkdf2): (r: Exec<Decision>)
    ensures r == Done(Proceed) ==> GetHeader(req, app.authHeader) == []
  {
    var authTok := GetHeader(req, app.authHeader);
    if authTok != [] then Done(Unauthorized)
    else
      match ParseAuthMechStr(app.confStruct.apiAuthMech)
      case IndexOutOfRange => IndexOutOfRange
      case Done(mech) =>
        if mech.kind == FILE_KIND then
          match Pbkdf2Auth.Verdict(fs, ResolvePath(mech.target, app.configPath), authTok, key)
          case IndexOutOfRange => IndexOutOfRange
          case Done(authorization) => if authorization then Done(Proceed) else Done(Unauthorized)
        else Done(Proceed)
  }

  // ---------------------------------------------------------------- parsing

  /** Parsing a descriptor built from a kind and a target gives them back. */
  lemma ParseRoundTrip(kind: GoString, target: GoString)
    requires PIPE !in kind && PIPE !in target
    ensures ParseAuthMechStr(kind + [PIPE] + target) == Done(Mechanism(kind, target))
  {
    SplitJoin([kind, target], PIPE);
  }

  /** Whatever follows a second '|' is discarded. */
  lemma {:induction false} ParseDiscardsRest(kind: GoString, target: GoString, rest: GoString)
    requires PIPE !in kind && PIPE !in target
    ensures ParseAuthMechStr(kind + [PIPE] + target + [PIPE] + rest) == Done(Mechanism(kind, target))
  {
    var more := Split(rest, [PIPE]);
    SplitSingle(rest, PIPE);
    JoinSplit(rest, [PIPE]);
    var fields := [kind, target] + more;
    forall k | 0 <= k < |fields| ensures PIPE !in fields[k] {
      if k >= 2 {
        assert fields[k] == more[k - 2];
      }
    }
    SplitJoin(fields, PIPE);
    assert fields[1..] == [target] + more;
    assert fields[2..] == more;
    assert Join(fields[1..], [PIPE]) == target + [PIPE] + rest;
    assert Join(fields, [PIPE]) == kind + [PIPE] + (target + [PIPE] + rest);
    assert kind + [PIPE] + (target + [PIPE] + rest) == kind + [PIPE] + target + [PIPE] + rest;
    assert Split(kind + [PIPE] + target + [PIPE] + rest, [PIPE]) == fields;
  }

  /**
   * The kind is the text before the first '|', and the target the text
   * between the first '|' and the second one or the end.
   */
  lemma {:induction false} ParseReadsFirstTwoPieces(mechStr: GoString)
    requires ParseAuthMechStr(mechStr).Done?
    ensures var m := ParseAuthMechStr(mechStr).value;
      || mechStr == m.kind + [PIPE] + m.target
      || (|mechStr| > |m.kind| + 1 + |m.target| && mechStr[..|m.kind| + 1 + |m.target| + 1] == m.kind + [PIPE] + m.target + [PIPE])
  {
    var r := Split(mechStr, [PIPE]);
    JoinSplit(mechStr, [PIPE]);
    assert Join(r, [PIPE]) == r[0] + [PIPE] + Join(r[1..], [PIPE]);
    if |r| > 2 {
      assert Join(r[1..], [PIPE]) == r[1] + [PIPE] + Join(r[2..], [PIPE]);
      assert mechStr == (r[0] + [PIPE] + r[1] + [PIPE]) + Join(r[2..], [PIPE]);
    }
  }

  // ----------------------------------------------------------- substitution

  /** A target without the placeholder is used unchanged. */
  lemma ResolvePathWithoutPlaceholder(target: GoString, configPath: GoString)
    requires Free(target, CONFIG_DIR_PLACEHOLDER)
    ensures ResolvePath(target, configPath) == target
  {
  }

  /** The placeholder at the head of a target becomes the configuration directory. */
  lemma ResolvePathExample(configPath: GoString)
    ensures ResolvePath(CONFIG_DIR_PLACEHOLDER + Ascii("/tokens.db"), configPath) == configPath + Ascii("/tokens.db")
  {
    var file := Ascii("/tokens.db");
    var s := CONFIG_DIR_PLACEHOLDER + file;
    assert |CONFIG_DIR_PLACEHOLDER| == 12 && |file| == 10;
    assert s[..|CONFIG_DIR_PLACEHOLDER|] == CONFIG_DIR_PLACEHOLDER;
    assert s[|CONFIG_DIR_PLACEHOLDER|..] == file;
    assert ReplaceAll(file, CONFIG_DIR_PLACEHOLDER, configPath) == file;
  }

  // ------------------------------------------------------------------- gate

  /**
   * In all three handlers, a request that presents a token is refused,
   * before the descriptor is even parsed.
   */
  lemma GateRefusesPresentedToken(app: BlogApp, req: Request, fs: Pbkdf2Auth.FileSystem, key: Pbkdf2Auth.Pbkdf2)
    requires GetHeader(req, app.authHeader) != []
    ensures Gate(app, req, fs, key) == Done(Unauthorized)
  {
  }

  /**
   * In all three handlers, with the kind "file" the request proceeds exactly
   * when the validator accepts the empty token against the store at the
   * resolved path.
   */
  lemma GateFileKind(app: BlogApp, req: Request, fs: Pbkdf2Auth.FileSystem, key: Pbkdf2Auth.Pbkdf2)
    requires GetHeader(req, app.authHeader) == []
    requires ParseAuthMechStr(app.confStruct.apiAuthMech).Done?
    requires ParseAuthMechStr(app.confStruct.apiAuthMech).value.kind == FILE_KIND
    ensures var path := ResolvePath(ParseAuthMechStr(app.confStruct.apiAuthMech).value.target, app.configPath);
      && (Gate(app, req, fs, key) == Done(Proceed) <==> Pbkdf2Auth.Verdict(fs, path, [], key) == Done(true))
      && (Gate(app, req, fs, key) == Done(Unauthorized) <==> Pbkdf2Auth.Verdict(fs, path, [], key) == Done(false))
  {
  }

  /**
   * In all three handlers, any other kind validates nothing and lets every
   * token-less request through.
   */
  lemma GateFailsOpen(app: BlogApp, req: Request, fs: Pbkdf2Auth.FileSystem, key: Pbkdf2Auth.Pbkdf2)
    requires GetHeader(req, app.authHeader) == []
    requires ParseAuthMechStr(app.confStruct.apiAuthMech).Done?
    requires ParseAuthMechStr(app.confStruct.apiAuthMech).value.kind != FILE_KIND
    ensures Gate(app, req, fs, key) == Done(Proceed)
  {
  }

  /** A descriptor without '|' makes every token-less request panic. */
  lemma GateMalformedDescriptorPanics(app: BlogApp, req: Request, fs: Pbkdf2Auth.FileSystem, key: Pbkdf2Auth.Pbkdf2)
    requires GetHeader(req, app.authHeader) == []
    requires PIPE !in app.confStruct.apiAuthMech
    ensures Gate(app, req, fs, key) == IndexOutOfRange
  {
  }

  /**
   * The decision depends on the token only through whether it is empty, so
   * every token-less request to the same app and store gets the same answer.
   */
  lemma GateIgnoresTokenValue(app: BlogApp, req1: Request, req2: Request, fs: Pbkdf2Auth.FileSystem, key: Pbkdf2Auth.Pbkdf2)
    requires (GetHeader(req1, app.authHeader) == []) == (GetHeader(req2, app.authHeader) == [])
    ensures Gate(app, req1, fs, key) == Gate(app, req2, fs, key)
  {
  }

  /**
   * `Config`'s fields are unexported, so the JSON decoding in `main` leaves
   * `apiAuthMech` empty; with that descriptor every request without a token
   * panics and every request with one is refused.
   */
  lemma GateWithEmptyDescriptor(app: BlogApp, req: Request, fs: Pbkdf2Auth.FileSystem, key: Pbkdf2Auth.Pbkdf2)
    requires app.confStruct.apiAuthMech == []
    ensures Gate(app, req, fs, key) == if GetHeader(req, app.authHeader) == [] then IndexOutOfRange else Done(Unauthorized)
  {
  }
}
