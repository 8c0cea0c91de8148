/** Digest authentication with stateless nonces (src/digestAuthenticator.cpp, section 3.4.1 of
    RFC 7616). The hash is a parameter; header parsing is not part of this model. */
module Digest {
  import opened Options
  import opened Texts

  const REALM: Text := "AIMP Remote Control"
  const NONCE_LIFETIME_SECONDS := 900
  const COLON: Text := [':']
  const SCHEME_END: Text := [':', '/', '/']
  const SLASH: Text := ['/']
  const AUTH: Text := "auth"

  type Hash = Text -> Text

  datatype AuthSettings = AuthSettings(enabled: bool, username: Text, ha1: Text) {
    predicate IsActive() {
      enabled && username != [] && ha1 != []
    }
  }

  /** A request; `fields` are those of its Authorization header, if it has one. */
  datatype Request = Request(verb: Text, path: Text, target: Text, fields: Option<map<string, Text>>) {
    function Field(name: string): Text {
      if fields.Some? && name in fields.value then fields.value[name] else []
    }
  }

  datatype Decision = Accept | Challenge(stale: bool, nonce: Text)

  datatype NonceState = Invalid | Valid | Expired

  // ---------------------------------------------------------------- the parts

  function RequestPathOf(digestUri: Text): Text {
    var scheme := Find(digestUri, SCHEME_END, 0);
    if scheme.None? then digestUri
    else
      var slash := Find(digestUri, SLASH, scheme.value + 3);
      if slash.None? then SLASH else digestUri[slash.value..]
  }

  function NonceSecret(md5: Hash, s: AuthSettings): Text {
    var prefix: Text := "nonce:";
    md5(prefix + s.ha1)
  }

  function MakeNonce(md5: Hash, s: AuthSettings, now: int): Text {
    Decimal(now) + COLON + md5(Decimal(now) + COLON + NonceSecret(md5, s))
  }

  function CheckNonce(md5: Hash, s: AuthSettings, nonce: Text, now: int): NonceState {
    var colon := Find(nonce, COLON, 0);
    if colon.None? then Invalid
    else
      var ts := nonce[..colon.value];
      if nonce[colon.value + 1..] != md5(ts + COLON + NonceSecret(md5, s)) then Invalid
      else
        var issued := ParseInt64(ts);
        if issued.None? then Invalid
        else if now - issued.value <= NONCE_LIFETIME_SECONDS then Valid
        else Expired
  }

  /** The response of section 3.4.1 of RFC 7616, with qop=auth or, as in RFC 2069, without. */
  function Response(md5: Hash, ha1: Text, verb: Text, uri: Text, nonce: Text, nc: Text, cnonce: Text, withQop: bool)
    : Text
  {
    var ha2 := md5(verb + COLON + uri);
    if withQop
    then md5(ha1 + COLON + nonce + COLON + nc + COLON + cnonce + COLON + AUTH + COLON + ha2)
    else md5(ha1 + COLON + nonce + COLON + ha2)
  }

  /** Everything but the age of the nonce is in order. */
  predicate WellSigned(md5: Hash, s: AuthSettings, r: Request) {
    && r.fields.Some?
    && r.Field("username") == s.username
    && r.Field("realm") == REALM
    && (RequestPathOf(r.Field("uri")) == r.path || RequestPathOf(r.Field("uri")) == r.target)
    && (r.Field("qop") == [] || r.Field("qop") == AUTH)
    && r.Field("response") ==
         Response(md5, s.ha1, r.verb, r.Field("uri"), r.Field("nonce"), r.Field("nc"), r.Field("cnonce"),
                  r.Field("qop") != [])
  }

  /** The decision; `now` is when the nonce is checked and `later` when a new one is made. */
  function Decide(md5: Hash, s: AuthSettings, r: Request, now: int, later: int): Decision {
    if !s.IsActive() then Accept
    else
      var state := CheckNonce(md5, s, r.Field("nonce"), now);
      if !WellSigned(md5, s, r) || state.Invalid? then Challenge(false, MakeNonce(md5, s, later))
      else if state.Expired? then Challenge(true, MakeNonce(md5, s, later))
      else Accept
  }

  // ---------------------------------------------------------------- the class

  /** Bitwise exclusive or of two numbers, bit by bit. */
  function Xor(a: nat, b: nat): nat {
    if a == 0 && b == 0 then 0 else 2 * Xor(a / 2, b / 2) + if a % 2 == b % 2 then 0 else 1
  }

  function Or(a: nat, b: nat): nat {
    if a == 0 && b == 0 then 0 else 2 * Or(a / 2, b / 2) + if a % 2 == 0 && b % 2 == 0 then 0 else 1
  }

  lemma {:induction false} XorZero(a: nat, b: nat)
    ensures Xor(a, b) == 0 <==> a == b
  {
    if a != 0 || b != 0 {
      XorZero(a / 2, b / 2);
    }
  }

  lemma {:induction false} OrZero(a: nat, b: nat)
    ensures Or(a, b) == 0 <==> a == 0 && b == 0
  {
    if a != 0 || b != 0 {
      OrZero(a / 2, b / 2);
    }
  }

  /** Compares all characters whatever it finds on the way. */
  method EqualConstantTime(a: Text, b: Text) returns (equal: bool)
    ensures equal <==> a == b
  {
    var diff: nat := if |a| == |b| then 0 else 1;
    var i := 0;
    while i < |a| && i < |b|
      invariant 0 <= i && (|a| == |b| ==> i <= |a|)
      invariant diff == 0 <==> |a| == |b| && a[..i] == b[..i]
    {
      XorZero(a[i] as int, b[i] as int);
      OrZero(diff, Xor(a[i] as int, b[i] as int));
      if |a| == |b| {
        assert a[..i + 1] == a[..i] + [a[i]] && b[..i + 1] == b[..i] + [b[i]];
      }
      diff := Or(diff, Xor(a[i] as int, b[i] as int));
      i := i + 1;
    }
    if |a| == |b| {
      assert a[..|a|] == a && b[..|b|] == b;
    }
    equal := diff == 0;
  }

  class DigestAuthenticator {
    const md5: Hash
    var settings: AuthSettings

    constructor (hash: Hash)
      ensures md5 == hash && settings == AuthSettings(false, [], [])
    {
      md5 := hash;
      settings := AuthSettings(false, [], []);
    }

    method SetSettings(newSettings: AuthSettings)
      modifies this
      ensures settings == newSettings
    {
      settings := newSettings;
    }

    /** The checks in the order of the program; the first that fails challenges the client. */
    method Authorize(r: Request, now: int, later: int) returns (d: Decision)
      ensures d == Decide(md5, settings, r, now, later)
    {
      if !settings.IsActive() {
        return Accept;
      }
      var refusal := Challenge(false, MakeNonce(md5, settings, later));
      if r.fields.None? {
        return refusal;
      }
      if r.Field("username") != settings.username || r.Field("realm") != REALM {
        return refusal;
      }
      var signedUri := RequestPathOf(r.Field("uri"));
      if signedUri != r.path && signedUri != r.target {
        return refusal;
      }
      var nonce := r.Field("nonce");
      var state := CheckNonce(md5, settings, nonce, now);
      if state == Invalid {
        return refusal;
      }
      var ha2 := md5(r.verb + COLON + r.Field("uri"));
      var qop := r.Field("qop");
      var expected: Text;
      if qop == [] {
        expected := md5(settings.ha1 + COLON + nonce + COLON + ha2);
      } else if qop == AUTH {
        expected := md5(settings.ha1 + COLON + nonce + COLON + r.Field("nc") + COLON + r.Field("cnonce") + COLON +
                        AUTH + COLON + ha2);
      } else {
        return refusal;
      }
      var equal := EqualConstantTime(expected, r.Field("response"));
      if !equal {
        return refusal;
      }
      if state == Expired {
        return Challenge(true, MakeNonce(md5, settings, later));
      }
      return Accept;
    }
  }

  // ---------------------------------------------------------------- nonces

  /** A nonce made by a server with the same credentials, before a restart or after, is recognised, and
      is valid exactly until it is 900 seconds old. */
  lemma NonceChecks(md5: Hash, s: AuthSettings, issued: int, now: int)
    requires MIN_INT64 <= issued <= MAX_INT64
    ensures CheckNonce(md5, s, MakeNonce(md5, s, issued), now) ==
      if now - issued <= NONCE_LIFETIME_SECONDS then Valid else Expired
  {
    var ts := Decimal(issued);
    var nonce := MakeNonce(md5, s, issued);
    var mac := md5(ts + COLON + NonceSecret(md5, s));
    assert nonce == ts + COLON + mac;
    forall i | 0 <= i < |ts|
      ensures !OccursAt(nonce, COLON, i)
    {
      assert nonce[i..i + 1] == [ts[i]];
    }
    assert nonce[|ts|..|ts| + 1] == COLON;
    assert OccursAt(nonce, COLON, |ts|);
    var colon := Find(nonce, COLON, 0);
    assert colon == Some(|ts|);
    assert nonce[..|ts|] == ts && nonce[|ts| + 1..] == mac;
    ParseDecimal(issued);
  }

  // ---------------------------------------------------------------- the signed uri

  /** The scheme ends where it ends without the rest. */
  lemma SchemeFound(scheme: Text, rest: Text)
    requires Find(scheme + SCHEME_END, SCHEME_END, 0) == Some(|scheme|)
    ensures Find(scheme + SCHEME_END + rest, SCHEME_END, 0) == Some(|scheme|)
  {
    var prefix := scheme + SCHEME_END;
    var uri := prefix + rest;
    forall i | 0 <= i < |scheme|
      ensures !OccursAt(uri, SCHEME_END, i)
    {
      assert uri[i..i + 3] == prefix[i..i + 3];
      assert !OccursAt(prefix, SCHEME_END, i);
    }
    assert uri[|scheme|..|scheme| + 3] == SCHEME_END;
    FindIs(uri, SCHEME_END, 0, |scheme|);
  }

  /** A part without slashes is passed over. */
  lemma SlashFound(uri: Text, start: nat, end: nat)
    requires start <= end <= |uri|
    requires forall i :: start <= i < end ==> uri[i] != '/'
    requires end < |uri| ==> uri[end] == '/'
    ensures Find(uri, SLASH, start) == if end < |uri| then Some(end) else None
  {
    hide OccursAt, Find;
    forall i: nat
      ensures OccursAt(uri, SLASH, i) <==> i < |uri| && uri[i] == '/'
    {
      OccursOne(uri, '/', i);
    }
    if end < |uri| {
      FindIs(uri, SLASH, start, end);
    } else {
      FindNone(uri, SLASH, start);
    }
  }

  /** The path of an absolute uri: what follows the authority, or "/". */
  lemma AbsoluteUri(scheme: Text, authority: Text, path: Text)
    requires Find(scheme + SCHEME_END, SCHEME_END, 0) == Some(|scheme|)
    requires '/' !in authority
    requires path == [] || path[0] == '/'
    ensures RequestPathOf(scheme + SCHEME_END + authority + path) == if path == [] then SLASH else path
  {
    hide Find, OccursAt;
    var uri := scheme + SCHEME_END + authority + path;
    var start, end := |scheme| + 3, |scheme| + 3 + |authority|;
    assert uri == scheme + SCHEME_END + (authority + path);
    SchemeFound(scheme, authority + path);
    assert forall i :: start <= i < end ==> uri[i] == authority[i - start];
    SlashFound(uri, start, end);
    assert uri[end..] == path;
  }

  /** A uri without "://" is its own request path, and no other is. */
  lemma OriginFormUri(uri: Text)
    ensures RequestPathOf(uri) == uri <==> Find(uri, SCHEME_END, 0).None?
  {
    var scheme := Find(uri, SCHEME_END, 0);
    if scheme.Some? {
      assert |uri| >= 3;
    }
  }

  // ---------------------------------------------------------------- what a client computes

  /** KD of section 3.3 of RFC 7616. */
  function Kd(md5: Hash, secret: Text, data: Text): Text {
    md5(secret + COLON + data)
  }

  /** What the client computes: section 3.4.1 of RFC 7616, or RFC 2069 when it sends no qop. */
  function ClientResponse(md5: Hash, ha1: Text, verb: Text, uri: Text, nonce: Text, nc: Text, cnonce: Text,
                          withQop: bool): Text
  {
    var ha2 := md5(verb + COLON + uri);
    if withQop then Kd(md5, ha1, nonce + (COLON + (nc + (COLON + (cnonce + (COLON + (AUTH + (COLON + ha2))))))))
    else Kd(md5, ha1, nonce + COLON + ha2)
  }

  lemma ResponsesAgree(md5: Hash, ha1: Text, verb: Text, uri: Text, nonce: Text, nc: Text, cnonce: Text, withQop: bool)
    ensures ClientResponse(md5, ha1, verb, uri, nonce, nc, cnonce, withQop)
         == Response(md5, ha1, verb, uri, nonce, nc, cnonce, withQop)
  {
    var ha2 := md5(verb + COLON + uri);
    assert ha1 + COLON + (nonce + (COLON + (nc + (COLON + (cnonce + (COLON + (AUTH + (COLON + ha2))))))))
        == ha1 + COLON + nonce + COLON + nc + COLON + cnonce + COLON + AUTH + COLON + ha2;
    assert ha1 + COLON + (nonce + COLON + ha2) == ha1 + COLON + nonce + COLON + ha2;
  }

  // ---------------------------------------------------------------- who is accepted

  /** The nonce carries a time and the server's mark on it: the hash of the time and a secret, itself a
      hash of the password's hash. */
  predicate Marked(md5: Hash, ha1: Text, nonce: Text, time: Text) {
    ':' !in time && nonce == time + [':'] + md5(time + [':'] + md5(['n', 'o', 'n', 'c', 'e', ':'] + ha1))
  }

  /** A marked nonce whose time is this number of seconds. */
  ghost predicate IssuedAt(md5: Hash, ha1: Text, nonce: Text, issued: int) {
    exists time :: Marked(md5, ha1, nonce, time) && ParseInt64(time) == Some(issued)
  }

  /** The request names the user and the realm, signs its own path or target, and carries the response that
      only the password's hash yields over its own fields. */
  predicate ProvesPassword(md5: Hash, s: AuthSettings, r: Request) {
    var uri, qop := r.Field("uri"), r.Field("qop");
    && r.fields.Some?
    && r.Field("username") == s.username && r.Field("realm") == "AIMP Remote Control"
    && (RequestPathOf(uri) == r.path || RequestPathOf(uri) == r.target)
    && (qop == [] || qop == ['a', 'u', 't', 'h'])
    && r.Field("response") ==
         ClientResponse(md5, s.ha1, r.verb, uri, r.Field("nonce"), r.Field("nc"), r.Field("cnonce"), qop != [])
  }

  lemma MarkedTimeUnique(md5: Hash, ha1: Text, nonce: Text, a: Text, b: Text)
    requires Marked(md5, ha1, nonce, a) && Marked(md5, ha1, nonce, b)
    ensures a == b
  {
    assert nonce[|a|] == ':' && nonce[|b|] == ':';
    assert forall i :: 0 <= i < |a| ==> nonce[i] == a[i];
    assert forall i :: 0 <= i < |b| ==> nonce[i] == b[i];
    assert |a| == |b|;
    assert a == nonce[..|a|] && b == nonce[..|b|];
  }

  lemma MarkedIsFound(md5: Hash, ha1: Text, nonce: Text, time: Text)
    requires Marked(md5, ha1, nonce, time)
    ensures Find(nonce, COLON, 0) == Some(|time|)
    ensures nonce[..|time|] == time
    ensures nonce[|time| + 1..] == md5(time + [':'] + md5(['n', 'o', 'n', 'c', 'e', ':'] + ha1))
  {
    hide Find;
    forall i: nat | i <= |time|
      ensures OccursAt(nonce, COLON, i) <==> i == |time|
    {
      OccursOne(nonce, ':', i);
      assert i < |time| ==> nonce[i] == time[i];
    }
    FindIs(nonce, COLON, 0, |time|);
  }

  lemma SecretIs(md5: Hash, s: AuthSettings)
    ensures NonceSecret(md5, s) == md5(['n', 'o', 'n', 'c', 'e', ':'] + s.ha1)
  {}

  lemma CheckMarked(md5: Hash, s: AuthSettings, nonce: Text, time: Text, now: int)
    requires Marked(md5, s.ha1, nonce, time)
    ensures CheckNonce(md5, s, nonce, now) ==
      match ParseInt64(time)
      case None => Invalid
      case Some(issued) => if now - issued <= 900 then Valid else Expired
  {
    MarkedIsFound(md5, s.ha1, nonce, time);
    SecretIs(md5, s);
    hide Find, ParseInt64, NonceSecret, Marked;
  }

  lemma CheckUnmarked(md5: Hash, s: AuthSettings, nonce: Text, now: int)
    requires !exists time :: Marked(md5, s.ha1, nonce, time)
    ensures CheckNonce(md5, s, nonce, now) == Invalid
  {
    hide Find, ParseInt64, NonceSecret;
    SecretIs(md5, s);
    var colon := Find(nonce, COLON, 0);
    if colon.Some? {
      var time := nonce[..colon.value];
      forall i | 0 <= i < |time|
        ensures time[i] != ':'
      {
        OccursOne(nonce, ':', i);
      }
      OccursOne(nonce, ':', colon.value);
      assert nonce == time + [':'] + nonce[colon.value + 1..];
      assert !Marked(md5, s.ha1, nonce, time);
    }
  }

  /** What the check of a nonce finds, for every text. */
  lemma NonceStates(md5: Hash, s: AuthSettings, nonce: Text, now: int)
    ensures CheckNonce(md5, s, nonce, now).Valid? <==>
      exists issued :: IssuedAt(md5, s.ha1, nonce, issued) && now - issued <= 900
    ensures CheckNonce(md5, s, nonce, now).Expired? <==>
      exists issued :: IssuedAt(md5, s.ha1, nonce, issued) && now - issued > 900
  {
    hide CheckNonce, Marked, ParseInt64;
    if time :| Marked(md5, s.ha1, nonce, time) {
      CheckMarked(md5, s, nonce, time, now);
      forall issued
        ensures IssuedAt(md5, s.ha1, nonce, issued) <==> ParseInt64(time) == Some(issued)
      {
        if other :| Marked(md5, s.ha1, nonce, other) && ParseInt64(other) == Some(issued) {
          MarkedTimeUnique(md5, s.ha1, nonce, time, other);
        }
      }
      if ParseInt64(time).Some? {
        assert IssuedAt(md5, s.ha1, nonce, ParseInt64(time).value);
      }
    } else {
      CheckUnmarked(md5, s, nonce, now);
    }
  }

  lemma ProvesIsWellSigned(md5: Hash, s: AuthSettings, r: Request)
    ensures ProvesPassword(md5, s, r) <==> WellSigned(md5, s, r)
  {
    ResponsesAgree(md5, s.ha1, r.verb, r.Field("uri"), r.Field("nonce"), r.Field("nc"), r.Field("cnonce"),
                   r.Field("qop") != []);
    hide RequestPathOf, Response, ClientResponse;
    var auth: Text := ['a', 'u', 't', 'h'];
    assert AUTH == auth;
    hide Request.Field;
  }

  /** Who is accepted: everyone while authentication is off or not set up; otherwise exactly who proves the
      password over a nonce the server marked at most 900 seconds ago. Who proves it over an older one is
      told so, and everyone else is asked for credentials; the nonce in the answer is newly marked. */
  lemma AcceptedExactly(md5: Hash, s: AuthSettings, r: Request, now: int, later: int)
    ensures Decide(md5, s, r, now, later) == Accept <==>
      || !(s.enabled && s.username != [] && s.ha1 != [])
      || (&& ProvesPassword(md5, s, r)
          && exists issued :: IssuedAt(md5, s.ha1, r.Field("nonce"), issued) && now - issued <= 900)
    ensures Decide(md5, s, r, now, later) == Challenge(true, MakeNonce(md5, s, later)) <==>
      && s.enabled && s.username != [] && s.ha1 != []
      && ProvesPassword(md5, s, r)
      && exists issued :: IssuedAt(md5, s.ha1, r.Field("nonce"), issued) && now - issued > 900
    ensures Decide(md5, s, r, now, later).Challenge? ==>
      Marked(md5, s.ha1, Decide(md5, s, r, now, later).nonce, Decimal(later))
  {
    hide CheckNonce, WellSigned, ProvesPassword, IssuedAt, MakeNonce, Marked;
    ProvesIsWellSigned(md5, s, r);
    NonceStates(md5, s, r.Field("nonce"), now);
    MadeNonceMarked(md5, s, later);
    hide Request.Field;
  }

  lemma MadeNonceMarked(md5: Hash, s: AuthSettings, later: int)
    ensures Marked(md5, s.ha1, MakeNonce(md5, s, later), Decimal(later))
  {
    SecretIs(md5, s);
    hide NonceSecret;
    assert Decimal(later) + [':'] + md5(Decimal(later) + [':'] + NonceSecret(md5, s)) == MakeNonce(md5, s, later);
  }

  /** Without the password's response nobody is accepted. */
  lemma NoPasswordRefused(md5: Hash, s: AuthSettings, r: Request, now: int, later: int)
    requires s.enabled && s.username != [] && s.ha1 != []
    requires r.Field("response") !=
      ClientResponse(md5, s.ha1, r.verb, r.Field("uri"), r.Field("nonce"), r.Field("nc"), r.Field("cnonce"),
                     r.Field("qop") != [])
    ensures Decide(md5, s, r, now, later) == Challenge(false, MakeNonce(md5, s, later))
  {
    assert !ProvesPassword(md5, s, r);
    ProvesIsWellSigned(md5, s, r);
    hide WellSigned, ProvesPassword, CheckNonce, MakeNonce;
  }

  // ---------------------------------------------------------------- an honest client

  /** The Authorization header of a client that knows the credentials and signs a nonce; as in RFC 2069 it leaves
      out three of the fields when it sends no qop. */
  function HonestFields(md5: Hash, s: AuthSettings, verb: Text, uri: Text, nonce: Text, nc: Text, cnonce: Text,
                        withQop: bool): map<string, Text>
  {
    var legacy := map["username" := s.username, "realm" := REALM, "uri" := uri, "nonce" := nonce,
                      "response" := ClientResponse(md5, s.ha1, verb, uri, nonce, nc, cnonce, withQop)];
    if withQop then legacy["qop" := AUTH]["nc" := nc]["cnonce" := cnonce] else legacy
  }

  /** The client knows the credentials, and signs this uri and nonce. */
  ghost predicate Signs(md5: Hash, s: AuthSettings, r: Request, uri: Text, nonce: Text) {
    exists nc, cnonce, withQop :: r.fields == Some(HonestFields(md5, s, r.verb, uri, nonce, nc, cnonce, withQop))
  }

  /** The uri is the target with scheme and authority before it; a target that is only "/" may be left out. */
  predicate IsAbsoluteForm(uri: Text, scheme: Text, authority: Text, target: Text) {
    && target != [] && target[0] == '/'
    && Find(scheme + SCHEME_END, SCHEME_END, 0) == Some(|scheme|)
    && '/' !in authority
    && (uri == scheme + SCHEME_END + authority + target || (target == SLASH && uri == scheme + SCHEME_END + authority))
  }

  ghost predicate AbsoluteForm(uri: Text, target: Text) {
    exists scheme, authority :: IsAbsoluteForm(uri, scheme, authority, target)
  }

  /** What RFC 7616 has a client sign: the target as it stands on the request line, or the absolute uri. */
  ghost predicate HonestRequest(md5: Hash, s: AuthSettings, r: Request, nonce: Text) {
    exists uri :: Signs(md5, s, r, uri, nonce)
      && (AbsoluteForm(uri, r.target) || (uri == r.target && Find(uri, SCHEME_END, 0).None?))
  }

  lemma HonestFieldValues(md5: Hash, s: AuthSettings, r: Request, uri: Text, nonce: Text, nc: Text, cnonce: Text,
                          withQop: bool)
    requires r.fields == Some(HonestFields(md5, s, r.verb, uri, nonce, nc, cnonce, withQop))
    ensures r.Field("username") == s.username && r.Field("realm") == REALM
    ensures r.Field("uri") == uri && r.Field("nonce") == nonce
    ensures withQop ==> r.Field("nc") == nc && r.Field("cnonce") == cnonce
    ensures r.Field("qop") == (if withQop then AUTH else [])
    ensures r.Field("response") == ClientResponse(md5, s.ha1, r.verb, uri, nonce, nc, cnonce, withQop)
  {
    hide ClientResponse;
  }

  lemma LegacyResponse(md5: Hash, ha1: Text, verb: Text, uri: Text, nonce: Text, nc: Text, cnonce: Text, nc': Text,
                       cnonce': Text)
    ensures Response(md5, ha1, verb, uri, nonce, nc, cnonce, false) ==
            Response(md5, ha1, verb, uri, nonce, nc', cnonce', false)
  {}

  lemma SignerIsWellSigned(md5: Hash, s: AuthSettings, r: Request, uri: Text, nonce: Text)
    requires Signs(md5, s, r, uri, nonce)
    ensures r.Field("nonce") == nonce && r.Field("uri") == uri
    ensures WellSigned(md5, s, r) <==> RequestPathOf(uri) == r.path || RequestPathOf(uri) == r.target
  {
    var nc, cnonce, withQop :| r.fields == Some(HonestFields(md5, s, r.verb, uri, nonce, nc, cnonce, withQop));
    ResponsesAgree(md5, s.ha1, r.verb, uri, nonce, nc, cnonce, withQop);
    LegacyResponse(md5, s.ha1, r.verb, uri, nonce, nc, cnonce, r.Field("nc"), r.Field("cnonce"));
    HonestFieldValues(md5, s, r, uri, nonce, nc, cnonce, withQop);
    assert AUTH != [];
    hide RequestPathOf, Response, ClientResponse, HonestFields;
    assert r.fields.Some?;
    hide Request.Field;
  }

  /** The answer to a request that is in order. */
  function Answer(md5: Hash, s: AuthSettings, issued: int, now: int, later: int): Decision {
    if now - issued <= NONCE_LIFETIME_SECONDS then Accept else Challenge(true, MakeNonce(md5, s, later))
  }

  /** Whoever knows the credentials and signs a nonce made with them is refused over the uri only. */
  lemma SignerDecision(md5: Hash, s: AuthSettings, r: Request, uri: Text, issued: int, now: int, later: int)
    requires s.IsActive() && MIN_INT64 <= issued <= MAX_INT64
    requires Signs(md5, s, r, uri, MakeNonce(md5, s, issued))
    ensures Decide(md5, s, r, now, later) ==
      if RequestPathOf(uri) == r.path || RequestPathOf(uri) == r.target then Answer(md5, s, issued, now, later)
      else Challenge(false, MakeNonce(md5, s, later))
  {
    hide WellSigned, MakeNonce, CheckNonce, Signs, RequestPathOf, Request.Field;
    SignerIsWellSigned(md5, s, r, uri, MakeNonce(md5, s, issued));
    NonceChecks(md5, s, issued, now);
  }

  lemma AbsoluteFormNamesTarget(uri: Text, target: Text)
    requires AbsoluteForm(uri, target)
    ensures RequestPathOf(uri) == target
  {
    hide Find, RequestPathOf;
    var scheme, authority :| IsAbsoluteForm(uri, scheme, authority, target);
    if uri == scheme + SCHEME_END + authority + target {
      AbsoluteUri(scheme, authority, target);
    } else {
      AbsoluteUri(scheme, authority, []);
      assert scheme + SCHEME_END + authority + [] == uri;
    }
  }

  /** A client that signs the absolute uri is accepted exactly if its nonce is at most 900 seconds old, and
      otherwise told that it is stale, for every target, also one with "://" in it. */
  lemma SigningTheAbsoluteUri(md5: Hash, s: AuthSettings, r: Request, uri: Text, issued: int, now: int, later: int)
    requires s.IsActive() && MIN_INT64 <= issued <= MAX_INT64
    requires Signs(md5, s, r, uri, MakeNonce(md5, s, issued)) && AbsoluteForm(uri, r.target)
    ensures Decide(md5, s, r, now, later) == Answer(md5, s, issued, now, later)
  {
    hide Decide, MakeNonce, Signs, RequestPathOf, AbsoluteForm, Answer;
    SignerDecision(md5, s, r, uri, issued, now, later);
    AbsoluteFormNamesTarget(uri, r.target);
  }

  /** A client that signs the request target as it stands is answered likewise exactly if the target contains
      no "://" or what follows it happens to be the request's path; otherwise it is refused. */
  lemma SigningTheTarget(md5: Hash, s: AuthSettings, r: Request, issued: int, now: int, later: int)
    requires s.IsActive() && MIN_INT64 <= issued <= MAX_INT64
    requires Signs(md5, s, r, r.target, MakeNonce(md5, s, issued))
    ensures Decide(md5, s, r, now, later) ==
      if Find(r.target, SCHEME_END, 0).None? || RequestPathOf(r.target) == r.path
      then Answer(md5, s, issued, now, later)
      else Challenge(false, MakeNonce(md5, s, later))
  {
    OriginFormUri(r.target);
    hide Decide, MakeNonce, Signs, RequestPathOf, Answer, Find;
    SignerDecision(md5, s, r, r.target, issued, now, later);
  }

  lemma HonestDecision(md5: Hash, s: AuthSettings, r: Request, issued: int, now: int, later: int)
    requires s.IsActive() && MIN_INT64 <= issued <= MAX_INT64
    requires HonestRequest(md5, s, r, MakeNonce(md5, s, issued))
    ensures Decide(md5, s, r, now, later) == Answer(md5, s, issued, now, later)
  {
    hide Decide, MakeNonce, Signs, RequestPathOf, AbsoluteForm, Answer, Find;
    var nonce := MakeNonce(md5, s, issued);
    var uri :| Signs(md5, s, r, uri, nonce)
      && (AbsoluteForm(uri, r.target) || (uri == r.target && Find(uri, SCHEME_END, 0).None?));
    if AbsoluteForm(uri, r.target) {
      SigningTheAbsoluteUri(md5, s, r, uri, issued, now, later);
    } else {
      SigningTheTarget(md5, s, r, issued, now, later);
    }
  }

  /** An honest request on a server-made nonce is accepted exactly if the nonce is at most 900 seconds
      old; otherwise the client is told the nonce is stale, and its next request, signed on the nonce
      in that answer and made within 900 seconds, is accepted. Nothing but the credentials links the
      servers that made and checked the nonces, so either may have restarted in between. */
  lemma HonestClientConverges(md5: Hash, s: AuthSettings, r: Request, issued: int, now: int, later: int,
                              again: Request, now2: int, later2: int)
    requires s.IsActive() && MIN_INT64 <= issued <= MAX_INT64 && MIN_INT64 <= later <= MAX_INT64
    requires HonestRequest(md5, s, r, MakeNonce(md5, s, issued))
    requires HonestRequest(md5, s, again, MakeNonce(md5, s, later))
    ensures Decide(md5, s, r, now, later) ==
      if now - issued <= NONCE_LIFETIME_SECONDS then Accept else Challenge(true, MakeNonce(md5, s, later))
    ensures now2 - later <= NONCE_LIFETIME_SECONDS ==> Decide(md5, s, again, now2, later2) == Accept
  {
    hide Decide, MakeNonce, HonestRequest;
    HonestDecision(md5, s, r, issued, now, later);
    HonestDecision(md5, s, again, later, now2, later2);
  }

  lemma AuthorityOnly(before: Text, host: Text)
    requires Find(before + SCHEME_END, SCHEME_END, 0) == Some(|before|) && '/' !in host
    ensures RequestPathOf(before + SCHEME_END + host) == SLASH != before + SCHEME_END + host
  {
    hide Find, RequestPathOf;
    AbsoluteUri(before, host, []);
    var uri := before + SCHEME_END + host;
    assert uri + [] == uri;
    assert |uri| >= 3;
  }

  /** An honest client that signs its target is refused, and asked for its credentials again, if the
      target ends in a url without a path, as a query may, unless it asked for "/". */
  lemma UrlInQueryRefused(md5: Hash, s: AuthSettings, r: Request, issued: int, now: int, later: int, before: Text,
                          host: Text)
    requires s.IsActive() && MIN_INT64 <= issued <= MAX_INT64
    requires Find(before + SCHEME_END, SCHEME_END, 0) == Some(|before|) && '/' !in host
    requires r.target == before + SCHEME_END + host && r.path != SLASH
    requires Signs(md5, s, r, r.target, MakeNonce(md5, s, issued))
    ensures Decide(md5, s, r, now, later) == Challenge(false, MakeNonce(md5, s, later))
  {
    hide RequestPathOf, Find, Signs, Decide, MakeNonce;
    AuthorityOnly(before, host);
    SignerDecision(md5, s, r, r.target, issued, now, later);
  }

  const GET: Text := ['G', 'E', 'T']
  const PAGE: Text := ['/', 'p']
  const QUERY: Text := ['/', 'p', '?', 'u', '=', 'x']
  const HOST: Text := ['y']

  lemma QueryScheme()
    ensures Find(QUERY + SCHEME_END, SCHEME_END, 0) == Some(|QUERY|)
  {
    var uri := QUERY + SCHEME_END;
    hide Find;
    forall i | 0 <= i < |QUERY|
      ensures !OccursAt(uri, SCHEME_END, i)
    {
      assert uri[i..i + 3][0] == QUERY[i] != ':';
    }
    assert uri[|QUERY|..|QUERY| + 3] == SCHEME_END;
    FindIs(uri, SCHEME_END, 0, |QUERY|);
  }

  /** Such a request: GET /p?u=x://y, signed by a client that knows the credentials on a fresh nonce. */
  lemma UrlInQueryExample(md5: Hash, s: AuthSettings, issued: int, later: int, nc: Text, cnonce: Text, withQop: bool)
    requires s.IsActive() && MIN_INT64 <= issued <= MAX_INT64
    ensures var target := QUERY + SCHEME_END + HOST;
      var fields := HonestFields(md5, s, GET, target, MakeNonce(md5, s, issued), nc, cnonce, withQop);
      Decide(md5, s, Request(GET, PAGE, target, Some(fields)), issued, later) ==
        Challenge(false, MakeNonce(md5, s, later))
  {
    var target := QUERY + SCHEME_END + HOST;
    QueryScheme();
    assert PAGE != SLASH;
    hide HonestFields, Decide, MakeNonce, Find;
    var nonce := MakeNonce(md5, s, issued);
    var r := Request(GET, PAGE, target, Some(HonestFields(md5, s, GET, target, nonce, nc, cnonce, withQop)));
    assert Signs(md5, s, r, target, nonce);
    UrlInQueryRefused(md5, s, r, issued, issued, later, QUERY, HOST);
  }
}
