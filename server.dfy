/** The HTTP handler's decision logic: where a request's token comes from,
    the token gate, the auth cookie, the scheme of the feed's base URL, the
    traversal guard for audio paths, the duration and description of a feed
    item, the order and enclosure links of the feed's items, and the
    defaults `New` applies. A request is reduced to the values these
    helpers read from it. */
module Server {
  import opened Common
  import opened Text
  import opened Decimal
  import opened Paths
  import opened Models
  import opened Sorting
  import opened Config
  import opened Auth
  import opened Library

  /** What the helpers read from an `http.Request`: the first `token` query
      value, the first values of the `X-Podcast-Token`, `Authorization` and
      `X-Forwarded-Proto` headers ("" when absent), the `podcast_token`
      cookie, whether the connection is TLS, and the `Host`. */
  datatype Request = Request(
    queryToken: string,
    tokenHeader: string,
    authorization: string,
    cookie: Option<string>,
    forwardedProto: string,
    tls: bool,
    host: string)

  const AuthCookieName: string := "podcast_token"
  const StatusUnauthorized: int := 401

  /** The case-insensitive "bearer " scheme prefix of a trimmed
      `Authorization` value. */
  predicate IsBearer(authz: string) {
    HasPrefix(ToLower(authz), "bearer ")
  }

  /** `extractToken`: the query parameter, else the token header, else the
      rest of a Bearer `Authorization` value; the cookie only when an
      `Authorization` value is present that is not Bearer. */
  function ExtractToken(r: Request): (t: string)
    ensures t != "" ==> !IsSpace(t[0]) && !IsSpace(t[|t| - 1])
  {
    var q := TrimSpace(r.queryToken);
    if q != "" then q
    else
      var h := TrimSpace(r.tokenHeader);
      if h != "" then h
      else
        var authz := TrimSpace(r.authorization);
        if authz == "" then ""
        else if IsBearer(authz) then TrimSpace(authz[7..])
        else if r.cookie.Some? && TrimSpace(r.cookie.value) != "" then TrimSpace(r.cookie.value)
        else ""
  }

  /** The extracted token never carries surrounding white space. */
  lemma ExtractTokenTrimmed(r: Request)
    ensures TrimSpace(ExtractToken(r)) == ExtractToken(r)
  {
    var q, h, authz := TrimSpace(r.queryToken), TrimSpace(r.tokenHeader), TrimSpace(r.authorization);
    if q != "" {
      TrimSpaceIdempotent(r.queryToken);
    } else if h != "" {
      TrimSpaceIdempotent(r.tokenHeader);
    } else if authz == "" {
    } else if IsBearer(authz) {
      TrimSpaceIdempotent(authz[7..]);
    } else if r.cookie.Some? && TrimSpace(r.cookie.value) != "" {
      TrimSpaceIdempotent(r.cookie.value);
    }
  }

  /** The order of the sources: the first non-blank of query parameter,
      token header and Bearer value wins; behind a non-Bearer
      `Authorization` value the non-blank cookie is used, and without one
      the token is "". */
  lemma ExtractTokenPrecedence(r: Request)
    ensures !IsBlank(r.queryToken) ==> ExtractToken(r) == TrimSpace(r.queryToken)
    ensures IsBlank(r.queryToken) && !IsBlank(r.tokenHeader) ==> ExtractToken(r) == TrimSpace(r.tokenHeader)
    ensures IsBlank(r.queryToken) && IsBlank(r.tokenHeader) && IsBearer(TrimSpace(r.authorization)) ==>
              ExtractToken(r) == TrimSpace(TrimSpace(r.authorization)[7..])
    ensures IsBlank(r.queryToken) && IsBlank(r.tokenHeader) && IsBlank(r.authorization) ==> ExtractToken(r) == ""
    ensures IsBlank(r.queryToken) && IsBlank(r.tokenHeader) && !IsBlank(r.authorization)
            && !IsBearer(TrimSpace(r.authorization)) ==>
              ExtractToken(r) == (if r.cookie.Some? then TrimSpace(r.cookie.value) else "")
  {
  }

  /** The cookie is read only behind a present, non-Bearer
      `Authorization` value: in every other request any cookie, or none,
      gives the same token. */
  lemma CookieNeedsAuthorization(r: Request, c: Option<string>)
    requires IsBlank(r.authorization) || IsBearer(TrimSpace(r.authorization))
    ensures ExtractToken(r.(cookie := c)) == ExtractToken(r)
  {
  }

  /** `requireToken`'s outcome. */
  datatype AuthOutcome = Allowed(token: string) | Rejected(status: int)

  /** `requireToken`: with no validator every request passes with token "";
      otherwise an empty or invalid token is refused with 401. */
  function RequireToken(validator: Option<string -> bool>, r: Request): (o: AuthOutcome)
    ensures validator.None? ==> o == Allowed("")
    ensures validator.Some? ==>
      (o.Allowed? <==> ExtractToken(r) != "" && validator.value(ExtractToken(r)))
    ensures validator.Some? && o.Allowed? ==> o.token == ExtractToken(r)
    ensures o.Rejected? ==> o.status == StatusUnauthorized
  {
    if validator.None? then Allowed("")
    else
      var token := ExtractToken(r);
      if token == "" || !validator.value(token) then Rejected(StatusUnauthorized)
      else Allowed(token)
  }

  /** Behind a token store, a request passes exactly when its extracted
      token is one of the store's tokens. */
  lemma RequireTokenWithStore(tokens: set<string>, r: Request)
    requires WellFormedTokens(tokens)
    ensures RequireToken(Some(t => TokenValid(tokens, t)), r).Allowed? <==> ExtractToken(r) in tokens
  {
    ExtractTokenTrimmed(r);
  }

  /** The cookie `setAuthCookie` sets. */
  datatype Cookie = Cookie(name: string, value: string, path: string, httpOnly: bool, secure: bool)

  /** `isHTTPSRequest`: TLS, or a first `X-Forwarded-Proto` element equal
      to "https" in any letter case. */
  function IsHttpsRequest(r: Request): (b: bool)
    ensures r.tls ==> b
    ensures IsBlank(r.forwardedProto) ==> (b <==> r.tls)
    ensures !r.tls && !IsBlank(r.forwardedProto) ==> (b <==> EqualFold(FirstForwarded(r), "https"))
  {
    r.tls ||
      (var forwarded := TrimSpace(r.forwardedProto);
       forwarded != "" && EqualFold(TrimSpace(Split(forwarded, ',')[0]), "https"))
  }

  /** `setAuthCookie`: nothing for an empty token; otherwise an HTTP-only
      cookie for the whole site, secure exactly on HTTPS requests. */
  function SetAuthCookie(r: Request, token: string): (c: Option<Cookie>)
    ensures c.None? <==> token == ""
    ensures c.Some? ==> c.value.name == AuthCookieName && c.value.value == token && c.value.path == "/"
    ensures c.Some? ==> c.value.httpOnly && (c.value.secure <==> IsHttpsRequest(r))
  {
    if token == "" then None
    else Some(Cookie(AuthCookieName, token, "/", true, IsHttpsRequest(r)))
  }

  /** The bytes `http.SetCookie` keeps in a cookie value: printable ASCII
      other than '"', ';' and '\'. */
  predicate CookieValueChar(c: char) {
    0x20 <= c as int < 0x7F && c != '"' && c != ';' && c != '\\'
  }

  /** The value a client sends back for a cookie set with value `v`:
      `http.SetCookie` drops every other byte (so a non-ASCII character
      loses all of its UTF-8 bytes), and the double quotes it puts around a
      value holding a space or a comma are removed again when the server
      reads the request's cookie. */
  function CookieWireValue(v: string): (w: string)
    ensures |w| <= |v|
    ensures forall i :: 0 <= i < |w| ==> CookieValueChar(w[i])
    ensures (forall i :: 0 <= i < |v| ==> CookieValueChar(v[i])) ==> w == v
  {
    if v == [] then []
    else (if CookieValueChar(v[0]) then [v[0]] else []) + CookieWireValue(v[1..])
  }

  /** A token with a semicolon does not survive the cookie: "a;b" comes
      back as "ab". */
  lemma CookieDropsSemicolon(token: string)
    requires token == "a;b"
    ensures CookieWireValue(token) == "ab"
  {
    assert token[1..] == ";b" && token[2..] == "b";
  }

  /** A later request that sends the cookie back, with a non-Bearer
      `Authorization` value and no other token, yields the trimmed value
      that survived `http.SetCookie`; for a trimmed token of cookie-value
      bytes that is the token itself. */
  lemma CookieRoundTrip(r: Request, token: string, later: Request)
    requires SetAuthCookie(r, token).Some?
    requires later.cookie == Some(CookieWireValue(SetAuthCookie(r, token).value.value))
    requires IsBlank(later.queryToken) && IsBlank(later.tokenHeader)
    requires !IsBlank(later.authorization) && !IsBearer(TrimSpace(later.authorization))
    ensures ExtractToken(later) == TrimSpace(CookieWireValue(token))
    ensures TrimSpace(token) == token && (forall i :: 0 <= i < |token| ==> CookieValueChar(token[i])) ==>
              ExtractToken(later) == token
  {
    var w := CookieWireValue(token);
    ExtractTokenPrecedence(later);
    assert ExtractToken(later) == TrimSpace(w);
    if TrimSpace(token) == token && (forall i :: 0 <= i < |token| ==> CookieValueChar(token[i])) {
      assert w == token;
    }
  }

  /** The scheme and host of `requestBaseURL`. */
  datatype BaseUrl = BaseUrl(scheme: string, host: string)

  /** The first comma-separated element of `X-Forwarded-Proto`, trimmed. */
  function FirstForwarded(r: Request): string {
    TrimSpace(Split(TrimSpace(r.forwardedProto), ',')[0])
  }

  /** `requestBaseURL`: the scheme is a non-blank first forwarded element
      as given, else "https" on TLS when no forwarded value is present,
      else "http"; a blank host gives no URL. */
  function RequestBaseUrl(r: Request): (u: Option<BaseUrl>)
    ensures u.None? <==> IsBlank(r.host)
    ensures u.Some? ==> u.value.host == TrimSpace(r.host) && u.value.scheme != ""
    ensures u.Some? && IsBlank(r.forwardedProto) ==> u.value.scheme == (if r.tls then "https" else "http")
    ensures u.Some? && !IsBlank(r.forwardedProto) ==>
      u.value.scheme == (if FirstForwarded(r) != "" then FirstForwarded(r) else "http")
  {
    var scheme :=
      if TrimSpace(r.forwardedProto) != "" then
        (if FirstForwarded(r) != "" then FirstForwarded(r) else "http")
      else if r.tls then "https" else "http";
    var host := TrimSpace(r.host);
    if host == "" then None else Some(BaseUrl(scheme, host))
  }

  /** The cases of TestRequestBaseURL: a plain request is "http", a TLS
      one "https", one forwarded as "https" is "https", and an empty host
      gives no URL. */
  lemma RequestBaseUrlExamples(plain: Request, host: string, https: string)
    requires host == "example.com" && https == "https"
    requires plain == Request("", "", "", None, "", false, host)
    ensures RequestBaseUrl(plain) == Some(BaseUrl("http", host))
    ensures RequestBaseUrl(plain.(tls := true)) == Some(BaseUrl(https, host))
    ensures RequestBaseUrl(plain.(forwardedProto := https)) == Some(BaseUrl(https, host))
    ensures RequestBaseUrl(plain.(host := "")) == None
  {
    TrimSpaceOfTrimmed(host);
    TrimSpaceOfTrimmed(https);
    assert Split(https, ',') == [https] by { SplitNoSep(https, ','); }
  }

  /** A non-blank forwarded scheme wins, even over TLS. */
  lemma ForwardedSchemeWins(r: Request)
    requires !IsBlank(r.host) && !IsBlank(r.forwardedProto) && FirstForwarded(r) != ""
    ensures RequestBaseUrl(r).value.scheme == FirstForwarded(r)
  {
  }

  /** A base URL with scheme "https" only comes from an HTTPS request; and
      without forwarding the two agree exactly. */
  lemma BaseSchemeAgreesWithHttps(r: Request)
    requires !IsBlank(r.host)
    ensures RequestBaseUrl(r).value.scheme == "https" ==> IsHttpsRequest(r)
    ensures IsBlank(r.forwardedProto) ==> (RequestBaseUrl(r).value.scheme == "https" <==> IsHttpsRequest(r))
  {
    var u := RequestBaseUrl(r);
    var https := IsHttpsRequest(r);
    if u.value.scheme == "https" && !r.tls && !IsBlank(r.forwardedProto) {
      LowerHttps(FirstForwarded(r));
    }
  }

  lemma LowerHttps(s: string)
    requires s == "https"
    ensures ToLower(s) == s
  {
  }

  /** When the forwarded value is present but its first element is blank,
      the scheme stays "http" even on a TLS connection that
      `isHTTPSRequest` calls HTTPS. */
  lemma BlankFirstForwardedIgnoresTls(r: Request)
    requires !IsBlank(r.host) && r.tls && !IsBlank(r.forwardedProto) && FirstForwarded(r) == ""
    ensures RequestBaseUrl(r).value.scheme == "http" && IsHttpsRequest(r)
  {
  }

  /** A relative path that leaves its starting directory. */
  predicate Climbs(rel: string) {
    rel == ".." || HasPrefix(rel, "../")
  }

  /** `pathWithinRoot`: the path from the root to the target can be
      computed and does not climb out with "..". */
  function PathWithinRoot(root: string, target: string): (b: bool)
    ensures b ==> IsRooted(root) == IsRooted(target)
  {
    var rel := Rel(root, target);
    rel.Success? && !Climbs(rel.value)
  }

  /** The root's components are a prefix of the target's, and the
      target does not go on with "..". */
  predicate WithinComponents(b: seq<string>, t: seq<string>) {
    |b| <= |t| && t[..|b|] == b && (|t| == |b| || t[|b|] != "..")
  }

  /** Components that can be rendered with '/' between them. */
  predicate Separable(comps: seq<string>) {
    forall i :: 0 <= i < |comps| ==> comps[i] != "" && '/' !in comps[i]
  }

  lemma DotsThenSeparable(n: nat, t: seq<string>, k: nat)
    requires Separable(t) && k <= |t|
    ensures Separable(Dots(n) + t[k..])
  {
    var comps := Dots(n) + t[k..];
    forall i | 0 <= i < |comps|
      ensures comps[i] != "" && '/' !in comps[i]
    {
      if i >= n {
        assert comps[i] == t[k + i - n];
      }
    }
  }

  /** With `k` the length of the common prefix of `b` and `t`, the path
      `Rel` renders climbs out exactly when `t` does not extend `b`. */
  lemma ClimbsUnlessWithin(b: seq<string>, t: seq<string>, k: nat)
    requires Separable(t)
    requires k <= |b| && k <= |t| && b[..k] == t[..k]
    requires k < |b| && k < |t| ==> b[k] != t[k]
    requires !(k < |b| && b[k] == "..")
    ensures Climbs(Render(Dots(|b| - k) + t[k..], false)) <==> !WithinComponents(b, t)
  {
    var comps := Dots(|b| - k) + t[k..];
    DotsThenSeparable(|b| - k, t, k);
    RenderClimbs(comps);
    if k < |b| {
      assert comps[0] == "..";
      assert !WithinComponents(b, t);
    } else {
      assert comps == t[k..];
    }
  }

  /** A base that still climbs where the target goes on differently is
      never extended by the target. */
  lemma NotWithinAtClimb(b: seq<string>, t: seq<string>, k: nat)
    requires k <= |b| && k <= |t| && b[..k] == t[..k]
    requires k < |b| && k < |t| ==> b[k] != t[k]
    requires k < |b| && b[k] == ".."
    ensures !WithinComponents(b, t)
  {
  }

  /** A target is within the root exactly when both are rooted or both
      are relative, the root's cleaned components are a prefix of the
      target's, and the target does not go on with "..". */
  lemma PathWithinRootIff(root: string, target: string)
    ensures PathWithinRoot(root, target) <==>
      IsRooted(root) == IsRooted(target) && WithinComponents(Components(root), TargetComponents(target))
  {
    if IsRooted(root) == IsRooted(target) {
      var b, t := Components(root), TargetComponents(target);
      var k := CommonPrefix(b, t);
      if !(k < |b| && b[k] == "..") {
        ClimbsUnlessWithin(b, t, k);
      } else {
        NotWithinAtClimb(b, t, k);
      }
    }
  }

  /** For absolute paths, which clean to components without "..", within
      means that the root's components are a prefix of the target's. */
  lemma AbsolutePathWithinRoot(root: string, target: string)
    requires IsRooted(root) && IsRooted(target)
    ensures PathWithinRoot(root, target) <==>
      (var b, t := Components(root), Components(target); |b| <= |t| && t[..|b|] == b)
  {
    PathWithinRootIff(root, target);
    var b, t := Components(root), Components(target);
    assert TargetComponents(target) == t;
    assert forall i :: 0 <= i < |t| ==> IsPlain(t[i]);
  }

  /** The root itself and a file below it are within; a sibling of the
      root is not. */
  lemma PathWithinRootExamples(root: string, inside: string, sibling: string)
    requires root == "/srv/audio" && inside == "/srv/audio/ep.mp3" && sibling == "/srv/other"
    ensures PathWithinRoot(root, root)
    ensures PathWithinRoot(root, inside)
    ensures !PathWithinRoot(root, sibling)
  {
    var srv, audio, ep, other := "srv", "audio", "ep.mp3", "other";
    PlainExamples(srv, audio, ep, other);
    ExampleJoins(root, inside, sibling, srv, audio, ep, other);
    ComponentsOfPlain([srv, audio]);
    ComponentsOfPlain([srv, audio, ep]);
    ComponentsOfPlain([srv, other]);
    AbsolutePathWithinRoot(root, root);
    AbsolutePathWithinRoot(root, inside);
    AbsolutePathWithinRoot(root, sibling);
    assert [srv, audio, ep][..2] == [srv, audio];
    assert [srv, other][1] != audio;
  }

  /** The traversal case of TestPathWithinRoot: a path that climbs out of
      the root with ".." and into a sibling cleans to a path outside it. */
  lemma TraversalOutside(root: string, traversal: string)
    requires root == "/srv/audio" && traversal == "/srv/audio/../other/file.mp3"
    ensures !PathWithinRoot(root, traversal)
  {
    var srv, audio, up, other, file := "srv", "audio", "..", "other", "file.mp3";
    PlainExamples(srv, audio, "ep.mp3", other);
    assert IsPlain(file) by { assert file[0] == 'f' && '/' !in file; }
    ExampleJoins(root, "/srv/audio/ep.mp3", "/srv/other", srv, audio, "ep.mp3", other);
    TraversalJoin(traversal, srv, audio, up, other, file);
    var parts := [srv, audio, up, other, file];
    SplitRooted(parts);
    TraversalResolve(srv, audio, other, file);
    assert [""] + parts == ["", srv, audio, "..", other, file];
    assert IsRooted(traversal);
    assert Components(traversal) == [srv, other, file];
    ComponentsOfPlain([srv, audio]);
    AbsolutePathWithinRoot(root, traversal);
    assert [srv, other, file][..2] != [srv, audio] by { assert [srv, other, file][1] != audio; }
  }

  lemma TraversalJoin(traversal: string, srv: string, audio: string, up: string, other: string, file: string)
    requires traversal == "/srv/audio/../other/file.mp3"
    requires srv == "srv" && audio == "audio" && up == ".." && other == "other" && file == "file.mp3"
    ensures traversal == "/" + Join([srv, audio, up, other, file], "/")
    ensures forall i :: 0 <= i < 5 ==> '/' !in [srv, audio, up, other, file][i]
  {
    var tail := Join([up, other, file], "/");
    JoinThree(up, other, file, "/");
    assert [srv, audio, up, other, file][2..] == [up, other, file];
    assert [srv, audio, up, other, file][1..][1..] == [up, other, file];
    assert Join([srv, audio, up, other, file], "/") == srv + "/" + (audio + "/" + tail);
    TraversalSpelling(traversal, srv, audio, tail);
  }

  lemma TraversalSpelling(traversal: string, srv: string, audio: string, tail: string)
    requires traversal == "/srv/audio/../other/file.mp3"
    requires srv == "srv" && audio == "audio" && tail == ".." + "/" + "other" + "/" + "file.mp3"
    ensures traversal == "/" + (srv + "/" + (audio + "/" + tail))
  {
  }

  /** Cleaning "", srv, audio, "..", other, file drops audio again. */
  lemma TraversalResolve(srv: string, audio: string, other: string, file: string)
    requires IsPlain(srv) && IsPlain(audio) && IsPlain(other) && IsPlain(file)
    requires '/' !in srv && '/' !in audio && '/' !in other && '/' !in file
    ensures Resolve(["", srv, audio, "..", other, file], true) == [srv, other, file]
  {
    var ps := ["", srv, audio, "..", other, file];
    ResolvePlain(ps[..3], true);
    assert ps[..3] == ["", srv, audio];
    assert ps[..4][..3] == ps[..3];
    assert ps[..5][..4] == ps[..4];
    assert ps[..5] == ps[..6][..5] && ps == ps[..6];
    assert Resolve(ps[..4], true) == [srv];
    assert Resolve(ps[..5], true) == [srv, other];
  }

  lemma PlainExamples(srv: string, audio: string, ep: string, other: string)
    requires srv == "srv" && audio == "audio" && ep == "ep.mp3" && other == "other"
    ensures IsPlain(srv) && IsPlain(audio) && IsPlain(ep) && IsPlain(other)
    ensures audio != other
  {
  }

  lemma ExampleJoins(root: string, inside: string, sibling: string,
                     srv: string, audio: string, ep: string, other: string)
    requires root == "/srv/audio" && inside == "/srv/audio/ep.mp3" && sibling == "/srv/other"
    requires srv == "srv" && audio == "audio" && ep == "ep.mp3" && other == "other"
    ensures root == "/" + Join([srv, audio], "/")
    ensures inside == "/" + Join([srv, audio, ep], "/")
    ensures sibling == "/" + Join([srv, other], "/")
  {
    assert Join([audio, ep], "/") == audio + "/" + ep;
    assert [srv, audio, ep][1..] == [audio, ep];
  }

  /** The `%02d:%02d:%02d` rendering of a whole number of seconds. */
  function FormatSeconds(total: nat): (d: string)
    ensures 8 <= |d|
  {
    Pad2(total / 3600) + ":" + Pad2((total % 3600) / 60) + ":" + Pad2(total % 60)
  }

  /** `formatDuration`: nothing for a non-positive length, otherwise the
      length rounded half up to whole seconds and rendered, even when
      that rounds down to zero seconds. */
  function FormatDuration(seconds: real): (d: string)
    ensures d == "" <==> seconds <= 0.0
  {
    if seconds <= 0.0 then "" else FormatSeconds((seconds + 0.5).Floor)
  }

  /** Reading a rendered length back: three fields, each a number, minutes
      and seconds below 60, adding up to the length. */
  lemma FormatSecondsRoundTrip(total: nat)
    requires total <= MaxInt64
    ensures var parts := Split(FormatSeconds(total), ':');
      && |parts| == 3
      && Atoi(parts[0]).Some? && Atoi(parts[1]).Some? && Atoi(parts[2]).Some?
      && Atoi(parts[1]).value < 60 && Atoi(parts[2]).value < 60
      && Atoi(parts[0]).value * 3600 + Atoi(parts[1]).value * 60 + Atoi(parts[2]).value == total
  {
    var h, m, s := total / 3600, (total % 3600) / 60, total % 60;
    ClockArithmetic(total);
    SplitThree(Pad2(h), Pad2(m), Pad2(s));
    AtoiOfPad2(h);
    AtoiOfPad2(m);
    AtoiOfPad2(s);
  }

  /** A positive length reads back as hours, minutes and seconds whose
      total is the length rounded to the nearest second, halves up. */
  lemma FormatDurationRoundTrip(seconds: real)
    requires 0.0 < seconds && seconds + 0.5 < (MaxInt64 + 1) as real
    ensures var parts := Split(FormatDuration(seconds), ':');
      && |parts| == 3
      && Atoi(parts[0]).Some? && Atoi(parts[1]).Some? && Atoi(parts[2]).Some?
      && Atoi(parts[1]).value < 60 && Atoi(parts[2]).value < 60
      && var total := Atoi(parts[0]).value * 3600 + Atoi(parts[1]).value * 60 + Atoi(parts[2]).value;
         seconds - 0.5 < total as real <= seconds + 0.5
  {
    FormatSecondsRoundTrip((seconds + 0.5).Floor);
  }

  lemma ClockArithmetic(total: nat)
    ensures var h, m, s := total / 3600, (total % 3600) / 60, total % 60;
      0 <= h <= total && 0 <= m < 60 && 0 <= s < 60 && h * 3600 + m * 60 + s == total
  {
  }

  lemma SplitThree(a: string, b: string, c: string)
    requires AllDigits(a) && AllDigits(b) && AllDigits(c)
    ensures Split(a + ":" + b + ":" + c, ':') == [a, b, c]
  {
    var parts := [a, b, c];
    assert parts[1..] == [b, c];
    assert [b, c][1..] == [c];
    assert Join([b, c], [':']) == b + [':'] + c;
    assert Join(parts, [':']) == a + [':'] + (b + [':'] + c);
    assert a + [':'] + (b + [':'] + c) == a + ":" + b + ":" + c;
    SplitJoin(parts, ':');
  }

  /** The whole lengths of TestFormatDuration: nothing for 0 and -5, 61 s
      is "00:01:01" and 3661 s is "01:01:01". */
  lemma FormatDurationExamples(zero: real, negative: real, minute: real, hour: real)
    requires zero == 0.0 && negative == -5.0 && minute == 61.0 && hour == 3661.0
    ensures FormatDuration(zero) == "" && FormatDuration(negative) == ""
    ensures FormatDuration(minute) == "00:01:01"
    ensures FormatDuration(hour) == "01:01:01"
  {
    Pad2Examples();
    DurationOf(minute, 61, "00", "01", "01");
    DurationOf(hour, 3661, "01", "01", "01");
  }

  /** Rounding: 59.5 s rounds up to "00:01:00" (TestFormatDuration), and
      a length below half a second renders as "00:00:00". */
  lemma FormatDurationRounding(half: real, short: real)
    requires half == 59.5 && short == 0.3
    ensures FormatDuration(half) == "00:01:00"
    ensures FormatDuration(short) == "00:00:00"
  {
    Pad2Examples();
    DurationOf(half, 60, "00", "01", "00");
    DurationOf(short, 0, "00", "00", "00");
  }

  /** The rendering of a positive length from its rounded value and the
      three fields of that value. */
  lemma DurationOf(seconds: real, total: nat, h: string, m: string, s: string)
    requires 0.0 < seconds && (seconds + 0.5).Floor == total
    requires Pad2(total / 3600) == h && Pad2((total % 3600) / 60) == m && Pad2(total % 60) == s
    ensures FormatDuration(seconds) == h + ":" + m + ":" + s
  {
  }

  lemma Pad2Examples()
    ensures Pad2(0) == "00" && Pad2(1) == "01"
  {
  }

  /** The separator `episodeDescription` joins with: space, en dash, space. */
  const DescriptionSeparator: string := " – "

  /** `episodeDescription` uses the artist and the album only when they
      are present and non-empty. */
  predicate HasArtist(ep: Episode) {
    ep.artist.Some? && ep.artist.value != ""
  }

  predicate HasAlbum(ep: Episode) {
    ep.album.Some? && ep.album.value != ""
  }

  /** The pieces of a description: the artist first when there is one,
      the album just before the file name when there is one, and the file
      name last. */
  function DescriptionParts(ep: Episode): (parts: seq<string>)
    ensures |parts| == 1 + (if HasArtist(ep) then 1 else 0) + (if HasAlbum(ep) then 1 else 0)
    ensures parts[|parts| - 1] == ep.filename
    ensures HasArtist(ep) ==> parts[0] == ep.artist.value
    ensures HasAlbum(ep) ==> parts[|parts| - 2] == ep.album.value
  {
    (if HasArtist(ep) then [ep.artist.value] else [])
    + (if HasAlbum(ep) then [ep.album.value] else [])
    + [ep.filename]
  }

  /** `episodeDescription`: the non-empty artist, the non-empty album and
      the file name, in that order, joined with the separator. */
  function EpisodeDescription(ep: Episode): (d: string)
    ensures HasSuffix(d, ep.filename)
  {
    JoinEndsWithLast(DescriptionParts(ep), DescriptionSeparator);
    Join(DescriptionParts(ep), DescriptionSeparator)
  }

  lemma {:induction false} JoinEndsWithLast(parts: seq<string>, sep: string)
    requires |parts| >= 1
    ensures HasSuffix(Join(parts, sep), parts[|parts| - 1])
  {
    if |parts| > 1 {
      JoinEndsWithLast(parts[1..], sep);
    }
  }

  /** The four shapes of a description: artist, album and file name
      separated by " – ", with the missing or empty ones and their
      separators left out; the bare file name when there is neither. */
  lemma DescriptionCases(ep: Episode)
    ensures var d, sep, f := EpisodeDescription(ep), DescriptionSeparator, ep.filename;
      && (HasArtist(ep) && HasAlbum(ep) ==> d == ep.artist.value + sep + ep.album.value + sep + f)
      && (HasArtist(ep) && !HasAlbum(ep) ==> d == ep.artist.value + sep + f)
      && (!HasArtist(ep) && HasAlbum(ep) ==> d == ep.album.value + sep + f)
      && (!HasArtist(ep) && !HasAlbum(ep) ==> d == f)
  {
    var parts, sep := DescriptionParts(ep), DescriptionSeparator;
    if |parts| == 3 {
      JoinThree(parts[0], parts[1], parts[2], sep);
      assert parts == [parts[0], parts[1], parts[2]];
    } else if |parts| == 2 {
      JoinTwo(parts[0], parts[1], sep);
      assert parts == [parts[0], parts[1]];
    }
  }

  lemma JoinTwo(a: string, b: string, sep: string)
    ensures Join([a, b], sep) == a + sep + b
  {
    assert [a, b][1..] == [b];
  }

  lemma JoinThree(a: string, b: string, c: string, sep: string)
    ensures Join([a, b, c], sep) == a + sep + b + sep + c
  {
    assert [a, b, c][1..] == [b, c];
    JoinTwo(b, c, sep);
  }

  /** TestEpisodeDescription: a bare file name, and "Artist – Album –
      song.mp3" with both tags. */
  lemma DescriptionExample(ep: Episode, artist: string, album: string)
    requires ep.filename == "song.mp3" && artist == "Artist" && album == "Album"
    ensures EpisodeDescription(ep.(artist := None, album := None)) == "song.mp3"
    ensures EpisodeDescription(ep.(artist := Some(artist), album := Some(album)))
              == "Artist" + DescriptionSeparator + "Album" + DescriptionSeparator + "song.mp3"
  {
    DescriptionCases(ep.(artist := None, album := None));
    DescriptionCases(ep.(artist := Some(artist), album := Some(album)));
  }

  /** `buildRSSFeed`'s order: the newer episode first, and among episodes
      modified at the same time the one with the larger id first. */
  predicate RssBefore(a: Episode, b: Episode) {
    if a.modifiedAt == b.modifiedAt then StrLess(b.id, a.id) else a.modifiedAt > b.modifiedAt
  }

  /** Not before by `RssBefore` means the other way round or an equal key. */
  lemma NotRssBefore(a: Episode, b: Episode)
    requires !RssBefore(a, b)
    ensures RssBefore(b, a) || (a.modifiedAt == b.modifiedAt && a.id == b.id)
  {
    if a.modifiedAt == b.modifiedAt && a.id != b.id {
      StrLessTotal(a.id, b.id);
    }
  }

  lemma RssBeforeAsymmetric(a: Episode, b: Episode)
    requires RssBefore(a, b)
    ensures !RssBefore(b, a)
  {
    if a.modifiedAt == b.modifiedAt {
      StrLessAsymmetric(b.id, a.id);
    }
  }

  lemma RssBeforeTransitive(a: Episode, b: Episode, c: Episode)
    requires RssBefore(a, b) && RssBefore(b, c)
    ensures RssBefore(a, c)
  {
    if a.modifiedAt == b.modifiedAt == c.modifiedAt {
      StrLessTransitive(c.id, b.id, a.id);
    }
  }

  /** `RssBefore` is a strict weak order, as `sort.SliceStable` needs. */
  lemma RssBeforeIsStrictWeakOrder()
    ensures StrictWeakOrder(RssBefore)
  {
    forall x, y | RssBefore(x, y) ensures !RssBefore(y, x) {
      RssBeforeAsymmetric(x, y);
    }
    forall x, y, z | RssBefore(x, y) && RssBefore(y, z) ensures RssBefore(x, z) {
      RssBeforeTransitive(x, y, z);
    }
    forall x, y, z | !RssBefore(x, y) && !RssBefore(y, z) ensures !RssBefore(x, z) {
      NotRssBefore(x, y);
      NotRssBefore(y, z);
      if RssBefore(x, z) {
        if RssBefore(y, x) && RssBefore(z, y) {
          RssBeforeTransitive(z, y, x);
          RssBeforeAsymmetric(x, z);
        } else if RssBefore(y, x) {
          RssBeforeAsymmetric(x, z);
        } else if RssBefore(z, y) {
          RssBeforeAsymmetric(x, z);
        } else {
          StrLessIrreflexive(x.id);
        }
      }
    }
  }

  /** The order of the feed's items. */
  function FeedOrder(episodes: seq<Episode>): seq<Episode> {
    InsertionSort(episodes, RssBefore)
  }

  /** The feed lists every episode once, newest first, ties broken by the
      larger id, and episodes with the same time and id in their listed
      order. */
  lemma FeedOrderProperties(episodes: seq<Episode>)
    ensures multiset(FeedOrder(episodes)) == multiset(episodes)
    ensures forall i, j :: 0 <= i < j < |episodes| ==>
      FeedOrder(episodes)[i].modifiedAt >= FeedOrder(episodes)[j].modifiedAt
    ensures forall i, j :: 0 <= i < j < |episodes| && FeedOrder(episodes)[i].modifiedAt == FeedOrder(episodes)[j].modifiedAt ==>
      !StrLess(FeedOrder(episodes)[i].id, FeedOrder(episodes)[j].id)
    ensures forall y :: EquivalentTo(FeedOrder(episodes), y, RssBefore) == EquivalentTo(episodes, y, RssBefore)
  {
    InsertionSortPermutes(episodes, RssBefore);
    RssBeforeIsStrictWeakOrder();
    InsertionSortSorted(episodes, RssBefore);
    forall y ensures EquivalentTo(FeedOrder(episodes), y, RssBefore) == EquivalentTo(episodes, y, RssBefore) {
      InsertionSortStable(episodes, y, RssBefore);
    }
  }

  /** A URL as the feed writes it: the query is a set of parameters
      (their percent-encoding is not modelled). */
  datatype Url = Url(scheme: string, host: string, path: string, query: map<string, string>)

  /** `strings.TrimLeft(s, "/")`. */
  function TrimLeadingSlashes(s: string): (r: string)
    ensures r == [] || r[0] != '/'
  {
    if s != [] && s[0] == '/' then TrimLeadingSlashes(s[1..]) else s
  }

  /** `path.Join("audio", rel)`: an empty element is skipped, and the
      clean "audio" alone is left as it is (`AudioIsClean`). */
  function AudioJoin(rel: string): string {
    if rel == "" then "audio" else Clean("audio/" + rel)
  }

  lemma AudioIsClean(audio: string)
    requires audio == "audio"
    ensures Clean(audio) == audio
  {
    assert Join([audio], "/") == audio;
    CleanOfPlainRelative([audio]);
  }

  /** The path of an episode's enclosure. */
  function EnclosurePath(rel: string): (p: string)
    ensures |p| >= 1 && p[0] == '/'
  {
    "/" + TrimLeadingSlashes(AudioJoin(rel))
  }

  /** An episode's enclosure (and link) URL: the request's host, the audio
      path, the token as the only query parameter when there is one, and
      always the "https" scheme. */
  function EnclosureUrl(base: BaseUrl, rel: string, token: string): (u: Url)
    ensures u.scheme == "https" && u.host == base.host && u.path == EnclosurePath(rel)
    ensures token == "" ==> u.query == map[]
    ensures token != "" ==> u.query == map["token" := token]
  {
    Url("https", base.host, EnclosurePath(rel), if token == "" then map[] else map["token" := token])
  }

  /** An episode whose relative path is written with plain components is
      served below "/audio/" at that same path. */
  lemma EnclosurePathOfPlain(parts: seq<string>)
    requires |parts| >= 1 && forall i :: 0 <= i < |parts| ==> IsPlain(parts[i])
    ensures EnclosurePath(Join(parts, "/")) == "/audio/" + Join(parts, "/")
  {
    AudioJoinOfPlain(parts);
    EnclosurePathOfAudio(Join(parts, "/"));
  }

  lemma EnclosurePathOfAudio(rel: string)
    requires AudioJoin(rel) == "audio/" + rel
    ensures EnclosurePath(rel) == "/audio/" + rel
  {
    var joined := "audio/" + rel;
    assert joined[0] == 'a';
    assert TrimLeadingSlashes(joined) == joined;
  }

  lemma AudioJoinOfPlain(parts: seq<string>)
    requires |parts| >= 1 && forall i :: 0 <= i < |parts| ==> IsPlain(parts[i])
    ensures AudioJoin(Join(parts, "/")) == "audio/" + Join(parts, "/")
  {
    var rel := Join(parts, "/");
    JoinStartsWith(parts, "/");
    assert rel != "";
    var all := PrefixAudio(parts);
    CleanOfPlainRelative(all);
  }

  lemma PrefixAudio(parts: seq<string>) returns (all: seq<string>)
    requires |parts| >= 1 && forall i :: 0 <= i < |parts| ==> IsPlain(parts[i])
    ensures |all| >= 1 && forall i :: 0 <= i < |all| ==> IsPlain(all[i])
    ensures Join(all, "/") == "audio/" + Join(parts, "/")
  {
    var audio := "audio";
    all := [audio] + parts;
    assert all[1..] == parts;
    assert IsPlain(audio);
  }

  /** The `Go` zero time, in seconds from 1970-01-01 UTC. */
  const ZeroTime: int := -62135596800

  /** One `<item>`; `pubDate` is absent for the zero time and the
      formatting of times is not modelled. */
  datatype RssItem = RssItem(
    title: string,
    link: Url,
    guid: string,
    pubDate: Option<int>,
    description: string,
    enclosure: Url,
    length: int,
    duration: string,
    author: string)

  /** The item `buildRSSFeed` writes for one episode. */
  function ItemFor(feed: FeedMetadata, base: BaseUrl, ep: Episode, token: string): RssItem
  {
    var url := EnclosureUrl(base, ep.relativePath, token);
    RssItem(
      ep.title, url, ep.id,
      if ep.modifiedAt == ZeroTime then None else Some(ep.modifiedAt),
      EpisodeDescription(ep), url, ep.filesizeBytes,
      if ep.durationSeconds.Some? then FormatDuration(ep.durationSeconds.value) else "",
      if ep.artist.Some? then ep.artist.value else feed.author)
  }

  /** What an item carries: its link and enclosure are the episode's
      enclosure URL, its guid the episode's id, no publication date for the
      zero time, no duration when none was decoded, and as author the
      episode's artist when it has one (even an empty one), else the
      feed's author. */
  lemma ItemForFields(feed: FeedMetadata, base: BaseUrl, ep: Episode, token: string)
    ensures var item := ItemFor(feed, base, ep, token);
      && item.link == item.enclosure == EnclosureUrl(base, ep.relativePath, token)
      && item.guid == ep.id && item.title == ep.title && item.length == ep.filesizeBytes
      && item.description == EpisodeDescription(ep)
      && (item.pubDate.None? <==> ep.modifiedAt == ZeroTime)
      && (ep.durationSeconds.None? ==> item.duration == "")
      && (ep.durationSeconds.Some? ==> item.duration == FormatDuration(ep.durationSeconds.value))
      && (ep.artist.Some? ==> item.author == ep.artist.value)
      && (ep.artist.None? ==> item.author == feed.author)
  {
  }

  /** The items of the feed: the episodes copied, stably sorted and turned
      into items one by one. */
  method BuildRssItems(feed: FeedMetadata, base: BaseUrl, episodes: seq<Episode>, token: string)
    returns (items: seq<RssItem>)
    ensures |items| == |episodes|
    ensures forall i :: 0 <= i < |items| ==> items[i] == ItemFor(feed, base, FeedOrder(episodes)[i], token)
  {
    var sorted := new Episode[|episodes|](i requires 0 <= i < |episodes| => episodes[i]);
    assert sorted[..] == episodes;
    SortInPlace(sorted, RssBefore);
    items := ItemsOf(feed, base, sorted, token);
  }

  /** One item per episode of `sorted`, in its order. */
  method ItemsOf(feed: FeedMetadata, base: BaseUrl, sorted: array<Episode>, token: string)
    returns (items: seq<RssItem>)
    ensures |items| == sorted.Length
    ensures forall i :: 0 <= i < |items| ==> items[i] == ItemFor(feed, base, sorted[i], token)
  {
    items := [];
    for i := 0 to sorted.Length
      invariant |items| == i
      invariant forall k :: 0 <= k < i ==> items[k] == ItemFor(feed, base, sorted[k], token)
    {
      var item := ItemFor(feed, base, sorted[i], token);
      items := items + [item];
    }
  }

  /** Whether any episode has a time other than the zero time. */
  predicate HasTime(episodes: seq<Episode>) {
    exists i :: 0 <= i < |episodes| && episodes[i].modifiedAt != ZeroTime
  }

  /** The feed's last build time: the latest time among the episodes, not
      counting zero times, or `now` when there is none. */
  method LastBuild(episodes: seq<Episode>, now: int) returns (last: int)
    ensures !HasTime(episodes) ==> last == now
    ensures HasTime(episodes) ==>
      && (exists i :: 0 <= i < |episodes| && episodes[i].modifiedAt != ZeroTime && last == episodes[i].modifiedAt)
      && (forall i :: 0 <= i < |episodes| && episodes[i].modifiedAt != ZeroTime ==> episodes[i].modifiedAt <= last)
  {
    last := ZeroTime;
    for i := 0 to |episodes|
      invariant last == ZeroTime <==> !HasTime(episodes[..i])
      invariant last != ZeroTime ==> exists k :: 0 <= k < i && episodes[k].modifiedAt == last
      invariant forall k :: 0 <= k < i && episodes[k].modifiedAt != ZeroTime ==> episodes[k].modifiedAt <= last
    {
      var t := episodes[i].modifiedAt;
      if t != ZeroTime && (last == ZeroTime || t > last) {
        last := t;
      }
      assert episodes[..i + 1][i] == episodes[i];
      assert HasTime(episodes[..i + 1]) <==> HasTime(episodes[..i]) || t != ZeroTime;
    }
    assert episodes[..|episodes|] == episodes;
    if last == ZeroTime {
      last := now;
    }
  }

  /** The `<channel>` of the feed; the constant namespace, version and
      generator fields are not modelled. */
  datatype RssChannel = RssChannel(
    title: string,
    link: Url,
    description: string,
    language: string,
    lastBuildDate: int,
    author: string,
    self: Url,
    items: seq<RssItem>)

  /** `buildRSSFeed`: the channel describes the feed, links to the bare
      host and to the requested feed URL itself, and holds one item per
      episode in feed order. */
  method BuildRssFeed(feed: FeedMetadata, base: BaseUrl, requestPath: string, requestQuery: map<string, string>,
                      episodes: seq<Episode>, token: string, now: int)
    returns (channel: RssChannel)
    ensures channel.title == feed.title && channel.description == feed.description
    ensures channel.language == feed.language && channel.author == feed.author
    ensures channel.link == Url(base.scheme, base.host, "", map[])
    ensures channel.self == Url(base.scheme, base.host, requestPath, requestQuery)
    ensures !HasTime(episodes) ==> channel.lastBuildDate == now
    ensures HasTime(episodes) ==>
      && (exists i :: 0 <= i < |episodes| && episodes[i].modifiedAt != ZeroTime && channel.lastBuildDate == episodes[i].modifiedAt)
      && (forall i :: 0 <= i < |episodes| && episodes[i].modifiedAt != ZeroTime ==> episodes[i].modifiedAt <= channel.lastBuildDate)
    ensures |channel.items| == |episodes|
    ensures forall i :: 0 <= i < |episodes| ==>
      channel.items[i] == ItemFor(feed, base, FeedOrder(episodes)[i], token)
  {
    var last := LastBuild(episodes, now);
    var items := BuildRssItems(feed, base, episodes, token);
    channel := RssChannel(
      feed.title, Url(base.scheme, base.host, "", map[]), feed.description, feed.language,
      last, feed.author, Url(base.scheme, base.host, requestPath, requestQuery), items);
  }

  /** Every enclosure in the feed is an https URL on the request's host,
      carrying the token exactly when the request had one. */
  lemma FeedEnclosures(feed: FeedMetadata, base: BaseUrl, episodes: seq<Episode>, token: string, i: nat)
    requires i < |episodes|
    ensures var item := ItemFor(feed, base, FeedOrder(episodes)[i], token);
      && item.enclosure.scheme == "https" && item.enclosure.host == base.host
      && ("token" in item.enclosure.query <==> token != "")
      && (token != "" ==> item.enclosure.query["token"] == token)
  {
  }

  /** `New`'s defaults: an empty title becomes "Home Podcast", an empty
      description becomes the title. */
  function FeedDefaults(feed: FeedMetadata): (f: FeedMetadata)
    ensures f.title != "" && f.description != ""
    ensures feed.title != "" ==> f.title == feed.title
    ensures feed.description != "" ==> f.description == feed.description
    ensures feed.description == "" ==> f.description == f.title
    ensures f.language == feed.language && f.author == feed.author
  {
    var title := if feed.title == "" then "Home Podcast" else feed.title;
    var description := if feed.description == "" then title else feed.description;
    feed.(title := title, description := description)
  }

  /** Applying the defaults twice changes nothing more. */
  lemma FeedDefaultsIdempotent(feed: FeedMetadata)
    ensures FeedDefaults(FeedDefaults(feed)) == FeedDefaults(feed)
  {
  }

  /** The audio root `New` keeps: the cleaned root, made absolute against
      the working directory when it is relative and the working directory
      is known, else left as cleaned. */
  function AbsRoot(root: string, cwd: Option<string>): (r: string)
    ensures IsRooted(root) ==> r == Clean(root)
    ensures !IsRooted(root) && cwd.Some? && IsRooted(cwd.value) ==> IsRooted(r)
    ensures !IsRooted(root) && cwd.None? ==> r == Clean(root)
  {
    var clean := Clean(root);
    if IsRooted(clean) then clean
    else if cwd.Some? then Clean(cwd.value + "/" + clean)
    else clean
  }

  /** The handler's state: token gate, audio root, feed metadata and the
      set of allowed extensions. */
  datatype Handler = Handler(
    validator: Option<string -> bool>,
    audioRoot: string,
    feed: FeedMetadata,
    allowed: set<string>)

  /** `New`. */
  method New(validator: Option<string -> bool>, audioRoot: string, allowedExtensions: seq<string>,
             feed: FeedMetadata, cwd: Option<string>)
    returns (h: Handler)
    ensures h.validator == validator
    ensures h.audioRoot == AbsRoot(audioRoot, cwd)
    ensures h.feed == FeedDefaults(feed)
    ensures forall x :: x in h.allowed <==>
      exists i :: 0 <= i < |allowedExtensions| && EqualFold(allowedExtensions[i], x) && x == ToLower(x)
  {
    var allowed := LowerExtensions(allowedExtensions);
    h := Handler(validator, AbsRoot(audioRoot, cwd), FeedDefaults(feed), allowed);
  }
}
