/** The signed session cookie: minted and verified by backend/core/session_cookie.py, and
    verified a second time by frontend/middleware.ts. */
module SessionCookie {
  import opened Wrappers
  import opened Base64
  import opened TextCodec

  const VALID_ROLES := {"user", "partner", "admin", "executive", "super_admin"}

  /** The settings both processes read, an unset one being empty. */
  datatype Env = Env(cookieSecret: string, otpPepper: string, resendApiKey: string,
                     backendProduction: bool, nodeProduction: bool)

  const DEV_SECRET := "dev-session-cookie-secret"

  function BackendSecret(env: Env): Option<string> {
    if env.cookieSecret != "" then Some(env.cookieSecret)
    else if env.otpPepper != "" then Some(env.otpPepper)
    else if env.resendApiKey != "" then Some(env.resendApiKey)
    else if env.backendProduction then None
    else Some(DEV_SECRET)
  }

  /** Empty when the middleware has no secret to check against. */
  function MiddlewareSecret(env: Env): string {
    if env.cookieSecret != "" then env.cookieSecret
    else if env.otpPepper != "" then env.otpPepper
    else if env.nodeProduction then ""
    else DEV_SECRET
  }

  /** What the runtimes provide: the hex HMAC of a message under a secret, Python's int() and
      the finite results of JavaScript's Number(). */
  datatype Platform = Platform(hmac: (string, string) -> string,
                               int_: string -> Option<int>,
                               number: string -> Option<real>)

  function Digit(n: nat): char
    requires n < 10
  {
    '0' + n as char
  }

  function Natural(n: nat): string {
    if n < 10 then [Digit(n)] else Natural(n / 10) + [Digit(n % 10)]
  }

  /** str(n). */
  function Decimal(n: int): string {
    if n < 0 then "-" + Natural(-n) else Natural(n)
  }

  const TWO_TO_53 := 0x20_0000_0000_0000

  ghost predicate Sound(p: Platform) {
    && (forall secret, message :: '|' !in p.hmac(secret, message) && IsAscii(p.hmac(secret, message)))
    && (forall n :: p.int_(Decimal(n)) == Some(n))
    && (forall n :: -TWO_TO_53 < n < TWO_TO_53 ==> p.number(Decimal(n)) == Some(n as real))
  }

  // ---- the backend ------------------------------------------------------------

  datatype SignError = InvalidRole | NoSecret

  function Payload(uid: string, role: string, exp: string): string {
    uid + "|" + role + "|" + exp
  }

  function Sign(p: Platform, env: Env, uid: string, role: string, ttl: int, now: real): Result<string, SignError> {
    if role !in VALID_ROLES then Err(InvalidRole)
    else
      var payload := Payload(uid, role, Decimal(now.Floor + ttl));
      match BackendSecret(env)
      case None => Err(NoSecret)
      case Some(secret) => Ok(StripPads(UrlSafeEncode(Utf8(payload + "|" + p.hmac(secret, payload)))))
  }

  function LastBar(s: string): Option<nat> {
    if s == "" then None
    else if s[|s| - 1] == '|' then Some(|s| - 1)
    else LastBar(s[..|s| - 1])
  }

  lemma {:induction false} LastBarBound(s: string)
    ensures LastBar(s).Some? ==> LastBar(s).value < |s|
  {
    if s != "" && s[|s| - 1] != '|' {
      LastBarBound(s[..|s| - 1]);
    }
  }

  /** s.rsplit("|", cuts). */
  function RSplit(s: string, cuts: nat): seq<string> {
    LastBarBound(s);
    match LastBar(s)
    case Some(i) => if cuts == 0 then [s] else RSplit(s[..i], cuts - 1) + [s[i + 1..]]
    case None => [s]
  }

  /** Strict UTF-8 decoding, of ASCII bytes. */
  function DecodeAscii(b: seq<Byte>): Option<string> {
    if forall i :: 0 <= i < |b| ==> b[i] < 128 then Some(Text(b)) else None
  }

  function Verify(p: Platform, env: Env, token: string, now: real): Option<(string, string)> {
    if !IsAscii(token) then None
    else match UrlSafeDecode(token + Pads(PyPad(|token|)))
      case None => None
      case Some(bytes) => match DecodeAscii(bytes)
        case None => None
        case Some(raw) => VerifyRaw(p, env, raw, now)
  }

  function VerifyRaw(p: Platform, env: Env, raw: string, now: real): Option<(string, string)> {
    var parts := RSplit(raw, 3);
    if |parts| != 4 || BackendSecret(env).None? then None
    else
      var (uid, role, exp, sig) := (parts[0], parts[1], parts[2], parts[3]);
      if sig != p.hmac(BackendSecret(env).value, Payload(uid, role, exp)) then None
      else match p.int_(exp)
        case None => None
        case Some(n) => if n as real < now || role !in VALID_ROLES then None else Some((uid, role))
  }

  // ---- the middleware -----------------------------------------------------------

  function FirstBar(s: string): Option<nat> {
    if s == "" then None
    else if s[0] == '|' then Some(0)
    else match FirstBar(s[1..])
      case None => None
      case Some(i) => Some(i + 1)
  }

  lemma {:induction false} FirstBarBound(s: string)
    ensures FirstBar(s).Some? ==> FirstBar(s).value < |s|
  {
    if s != "" && s[0] != '|' {
      FirstBarBound(s[1..]);
    }
  }

  /** s.split('|'). */
  function Split(s: string): (parts: seq<string>)
    ensures |parts| > 0
  {
    FirstBarBound(s);
    match FirstBar(s)
    case Some(i) => [s[..i]] + Split(s[i + 1..])
    case None => [s]
  }

  function MiddlewareVerify(p: Platform, env: Env, token: string, now: real): Option<string> {
    if token == "" || MiddlewareSecret(env) == "" then None
    else match JsDecode(token)
      case None => None
      case Some(bytes) => MiddlewareVerifyRaw(p, MiddlewareSecret(env), Text(bytes), now)
  }

  function MiddlewareVerifyRaw(p: Platform, secret: string, raw: string, now: real): Option<string> {
    var parts := Split(raw);
    if |parts| != 4 then None
    else
      var (uid, role, exp, sig) := (parts[0], parts[1], parts[2], parts[3]);
      if uid == "" || role !in VALID_ROLES || sig != p.hmac(secret, Payload(uid, role, exp)) then None
      else match p.number(exp)
        case None => None
        case Some(x) => if x < now.Floor as real then None else Some(role)
  }

  function BitXor(a: nat, b: nat): nat
    decreases a + b
  {
    if a == 0 && b == 0 then 0
    else 2 * BitXor(a / 2, b / 2) + if a % 2 == b % 2 then 0 else 1
  }

  function BitOr(a: nat, b: nat): nat
    decreases a + b
  {
    if a == 0 && b == 0 then 0
    else 2 * BitOr(a / 2, b / 2) + if a % 2 == 0 && b % 2 == 0 then 0 else 1
  }

  lemma {:induction false} XorIsZero(a: nat, b: nat)
    ensures BitXor(a, b) == 0 <==> a == b
    decreases a + b
  {
    if a != 0 || b != 0 {
      XorIsZero(a / 2, b / 2);
    }
  }

  lemma {:induction false} OrIsZero(a: nat, b: nat)
    ensures BitOr(a, b) == 0 <==> a == 0 && b == 0
    decreases a + b
  {
    if a != 0 || b != 0 {
      OrIsZero(a / 2, b / 2);
    }
  }

  /** The middleware's constant-time comparison. */
  method SameSignature(sig: string, expected: string) returns (same: bool)
    ensures same <==> sig == expected
  {
    if |sig| != |expected| {
      return false;
    }
    var mismatch: nat := 0;
    for i := 0 to |sig|
      invariant mismatch == 0 <==> sig[..i] == expected[..i]
    {
      var diff := BitXor(sig[i] as int, expected[i] as int);
      XorIsZero(sig[i] as int, expected[i] as int);
      OrIsZero(mismatch, diff);
      mismatch := BitOr(mismatch, diff);
      assert sig[..i + 1] == sig[..i] + [sig[i]] && expected[..i + 1] == expected[..i] + [expected[i]];
    }
    assert sig[..|sig|] == sig && expected[..|sig|] == expected;
    return mismatch == 0;
  }

  method VerifySessionCookie(p: Platform, env: Env, token: string, now: real) returns (role: Option<string>)
    ensures role == MiddlewareVerify(p, env, token, now)
  {
    if token == "" {
      return None;
    }
    var secret := MiddlewareSecret(env);
    if secret == "" {
      return None;
    }
    var bytes := JsDecode(token);
    if bytes.None? || Text(bytes.value) == "" {
      return None;
    }
    var parts := Split(Text(bytes.value));
    if |parts| != 4 || parts[0] == "" || parts[1] !in VALID_ROLES {
      return None;
    }
    var expected := p.hmac(secret, Payload(parts[0], parts[1], parts[2]));
    var same := SameSignature(parts[3], expected);
    if !same {
      return None;
    }
    var exp := p.number(parts[2]);
    if exp.None? || exp.value < now.Floor as real {
      return None;
    }
    return Some(parts[1]);
  }
}
