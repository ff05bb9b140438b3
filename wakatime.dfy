/**
 * The WakaTime statistics fetcher: it checks a username and an optional API
 * domain, builds the one stats URL it requests, and maps a failed request onto
 * a typed error. The HTTP call itself is not modelled; what the network
 * answered is a parameter (`Reply`) of `Fetch`.
 */
module Wakatime {
  import opened Wrappers

  /** The host requested when no API domain override is given. */
  const DefaultHost: string := "wakatime.com"

  /** The hosts a caller may name as an API domain override. */
  const AllowedApiDomains: seq<string> := ["wakatime.com"]

  // The fixed pieces of the stats URL around the host and the username.
  const Scheme: string := "https://"
  const UsersPath: string := "/api/v1/users/"
  const StatsPath: string := "/stats"
  const StatsQuery: string := "is_including_today=true"

  // The fixed text before the quoted value in two of the error messages.
  const DomainMessageHead: string := "Invalid API domain '"
  const UserMessageHead: string := "Could not resolve to a User with the login of '"

  /** The errors the fetcher raises. `MissingParam` is a MissingParamError
      naming the absent parameters; the other three are CustomErrors, each
      with a message and a stable code. */
  datatype Error =
    | MissingParam(params: seq<string>)
    | UsernameInvalid
    | ApiDomainInvalid(domain: string)
    | UserNotFound(username: string)
  {
    predicate IsCustom() { !MissingParam? }

    /** The codes are distinct, so the code alone tells the kind. */
    function Code(): (r: string)
      requires IsCustom()
      ensures (r == "WAKATIME_USERNAME_INVALID") == UsernameInvalid?
      ensures (r == "WAKATIME_API_DOMAIN_INVALID") == ApiDomainInvalid?
      ensures (r == "WAKATIME_USER_NOT_FOUND") == UserNotFound?
    {
      match this
      case UsernameInvalid => "WAKATIME_USERNAME_INVALID"
      case ApiDomainInvalid(_) => "WAKATIME_API_DOMAIN_INVALID"
      case UserNotFound(_) => "WAKATIME_USER_NOT_FOUND"
    }

    /** The domain and user messages quote the offending value between
        fixed text. */
    function Message(): (r: string)
      requires IsCustom()
      ensures UsernameInvalid? ==> r == "Invalid username format."
      ensures ApiDomainInvalid? ==>
        && |DomainMessageHead| + 2 <= |r|
        && r[..|DomainMessageHead|] == DomainMessageHead
        && r[|DomainMessageHead|..|r| - 2] == domain
        && r[|r| - 2..] == "'."
      ensures UserNotFound? ==>
        && |UserMessageHead| + 1 <= |r|
        && r[..|UserMessageHead|] == UserMessageHead
        && r[|UserMessageHead|..|r| - 1] == username
        && r[|r| - 1..] == "'"
    {
      match this
      case UsernameInvalid => "Invalid username format."
      case ApiDomainInvalid(d) =>
        var m := DomainMessageHead + d + "'.";
        assert m[..|DomainMessageHead|] == DomainMessageHead;
        assert m[|DomainMessageHead|..|m| - 2] == d;
        assert m[|m| - 2..] == "'.";
        m
      case UserNotFound(u) =>
        var m := UserMessageHead + u + "'";
        assert m[..|UserMessageHead|] == UserMessageHead;
        assert m[|UserMessageHead|..|m| - 1] == u;
        assert m[|m| - 1..] == "'";
        m
    }
  }

  /** The outcome of the input checks: the host and URL to request, or the
      error thrown before any request is made. */
  datatype Checked = Accepted(host: string, url: string) | Refused(error: Error)

  // ---------------------------------------------------------------------
  // Username format
  // ---------------------------------------------------------------------

  /** A character of the class `[A-Za-z0-9-_]`. */
  predicate IsUsernameChar(c: char)
  {
    'A' <= c <= 'Z' || 'a' <= c <= 'z' || '0' <= c <= '9' || c == '-' || c == '_'
  }

  /** An unreserved URI character (section 2.3 of RFC 3986):
      ALPHA / DIGIT / "-" / "." / "_" / "~". */
  predicate IsUnreserved(c: char)
  {
    'A' <= c <= 'Z' || 'a' <= c <= 'z' || '0' <= c <= '9' || c == '-' || c == '.' || c == '_' || c == '~'
  }

  /** The accepted username format, stated character by character. */
  predicate ValidUsername(s: string)
  {
    |s| > 0 && forall i :: 0 <= i < |s| ==> IsUsernameChar(s[i])
  }

  /** The anchored pattern `^[A-Za-z0-9-_]+$` matched as it reads: one class
      character, then either the true end of the input (no `m` flag, so a
      trailing newline does not count as the end) or one more round of `+`. */
  predicate MatchesUsernamePattern(s: string)
    // the pattern accepts exactly the non-empty strings of class characters
    ensures MatchesUsernamePattern(s) <==> ValidUsername(s)
    decreases |s|
  {
    if |s| == 0 then false
    else
      assert forall i :: 1 <= i < |s| ==> s[i] == s[1..][i - 1];
      IsUsernameChar(s[0]) && (|s| == 1 || MatchesUsernamePattern(s[1..]))
  }

  /** Every accepted username consists of unreserved URI characters, so it can
      add no path separator, query or fragment to the URL it is placed in. */
  lemma UsernameIsUnreserved(s: string)
    requires ValidUsername(s)
    ensures forall i :: 0 <= i < |s| ==> IsUnreserved(s[i])
    ensures '/' !in s && '?' !in s && '#' !in s
  {
  }

  // ---------------------------------------------------------------------
  // API domain
  // ---------------------------------------------------------------------

  /** `replace(/\/$/gi, "")`: removes one `/` at the very end, if there is one.
      The pattern is anchored at the end, so the global flag never makes it
      match twice. */
  function StripTrailingSlash(d: string): (r: string)
    ensures r <= d && |d| - 1 <= |r|
    ensures |d| > 0 && d[|d| - 1] == '/' ==> d == r + "/"
    ensures |d| == 0 || d[|d| - 1] != '/' ==> r == d
  {
    if |d| > 0 && d[|d| - 1] == '/' then d[..|d| - 1] else d
  }

  /** Stripping undoes exactly one appended slash, whatever the domain is. */
  lemma StripUndoesOneSlash(d: string)
    ensures StripTrailingSlash(d + "/") == d
  {
    assert (d + "/")[..|d|] == d;
  }

  // ---------------------------------------------------------------------
  // Stats URL and its parser
  // ---------------------------------------------------------------------

  /** The first position of `c` in `s`, or `|s|` when `c` does not occur. */
  function IndexOf(s: string, c: char): (i: nat)
    ensures i <= |s|
    ensures i < |s| ==> s[i] == c
    ensures forall k :: 0 <= k < i ==> s[k] != c
    decreases |s|
  {
    if |s| == 0 || s[0] == c then 0
    else
      var j := IndexOf(s[1..], c);
      assert forall k :: 1 <= k < 1 + j ==> s[k] == s[1..][k - 1];
      1 + j
  }

  /** Looking for `c` skips a prefix that does not contain it. */
  lemma {:induction false} IndexOfAfter(a: string, b: string, c: char)
    requires c !in a
    ensures IndexOf(a + b, c) == |a| + IndexOf(b, c)
    decreases |a|
  {
    if |a| > 0 {
      assert (a + b)[0] == a[0];
      assert (a + b)[1..] == a[1..] + b;
      IndexOfAfter(a[1..], b, c);
    } else {
      assert a + b == b;
    }
  }

  /** Splits `s` before the first `c`: the head holds no `c` and the tail is
      empty or starts with `c`. */
  function SplitAtFirst(s: string, c: char): (r: (string, string))
    ensures s == r.0 + r.1 && c !in r.0
    ensures r.1 == [] || r.1[0] == c
  {
    var i := IndexOf(s, c);
    assert s == s[..i] + s[i..];
    (s[..i], s[i..])
  }

  /** The split is determined by the two halves it must have. */
  lemma SplitAtFirstOf(a: string, b: string, c: char)
    requires c !in a && (b == [] || b[0] == c)
    ensures SplitAtFirst(a + b, c) == (a, b)
  {
    IndexOfAfter(a, b, c);
    assert (a + b)[..|a|] == a && (a + b)[|a|..] == b;
  }

  /** `s` without the prefix `p`, when `s` starts with it. */
  function DropPrefix(p: string, s: string): (r: Option<string>)
    ensures r.Some? <==> p <= s
    ensures r.Some? ==> s == p + r.value
  {
    if p <= s then
      assert s == s[..|p|] + s[|p|..];
      Some(s[|p|..])
    else None
  }

  lemma DropPrefixOf(p: string, s: string)
    ensures DropPrefix(p, p + s) == Some(s)
  {
    assert p <= p + s;
    assert (p + s)[|p|..] == s;
  }

  /** The part of the URL after the username. */
  const UrlTail: string := StatsPath + "?" + StatsQuery

  /** A URL with two holes: `scheme + host + middle + username + tail`. */
  datatype UrlTemplate = UrlTemplate(scheme: string, middle: string, tail: string)
  {
    /** Both the middle and the tail open with the `/` that ends the hole
        before them. */
    predicate Delimited()
    {
      |middle| > 0 && middle[0] == '/' && |tail| > 0 && tail[0] == '/'
    }

    function Fill(host: string, username: string): string
    {
      scheme + (host + (middle + (username + tail)))
    }

    /** Reads a filled URL back into its two holes: the host runs up to the
        first `/` after the scheme, the username up to the next `/`. */
    function Unfill(url: string): Option<(string, string)>
    {
      match DropPrefix(scheme, url)
      case None => None
      case Some(rest) =>
        var (host, after) := SplitAtFirst(rest, '/');
        match DropPrefix(middle, after)
        case None => None
        case Some(rest') =>
          var (username, tail') := SplitAtFirst(rest', '/');
          if tail' == tail then Some((host, username)) else None
    }
  }

  /** Filling then reading back gives the two parts, provided neither holds
      a `/`. */
  lemma FillThenUnfill(t: UrlTemplate, host: string, username: string)
    requires t.Delimited()
    requires '/' !in host && '/' !in username
    ensures t.Unfill(t.Fill(host, username)) == Some((host, username))
  {
    var rest' := username + t.tail;
    var after := t.middle + rest';
    var rest := host + after;
    DropPrefixOf(t.scheme, rest);
    SplitAtFirstOf(host, after, '/');
    DropPrefixOf(t.middle, rest');
    SplitAtFirstOf(username, t.tail, '/');
  }

  /** Whatever the reader accepts is a filled URL whose parts hold no `/`. */
  lemma UnfillThenFill(t: UrlTemplate, url: string, host: string, username: string)
    requires t.Unfill(url) == Some((host, username))
    ensures url == t.Fill(host, username)
    ensures '/' !in host && '/' !in username
  {
    var d1 := DropPrefix(t.scheme, url);
    var rest := d1.value;
    var s1 := SplitAtFirst(rest, '/');
    var d2 := DropPrefix(t.middle, s1.1);
    var rest' := d2.value;
    var s2 := SplitAtFirst(rest', '/');
    assert d1.Some? && d2.Some?;
    assert host == s1.0 && username == s2.0 && s2.1 == t.tail;
    assert rest' == username + t.tail;
    assert s1.1 == t.middle + (username + t.tail);
    assert rest == host + (t.middle + (username + t.tail));
    assert url == t.scheme + rest;
  }

  /** The shape of every stats URL. */
  const StatsTemplate: UrlTemplate := UrlTemplate(Scheme, UsersPath, UrlTail)

  /** The URL requested for `username` on `host`: it starts with the scheme
      and the host, ends with the fixed tail, and reads back into the host
      and username whenever neither holds a `/`. */
  function StatsUrl(host: string, username: string): (r: string)
    ensures Scheme + host <= r
    ensures |UrlTail| <= |r| && r[|r| - |UrlTail|..] == UrlTail
    ensures '/' !in host && '/' !in username ==> ParseStatsUrl(r) == Some((host, username))
  {
    var t := StatsTemplate;
    var r := t.Fill(host, username);
    assert t.scheme == Scheme && t.tail == UrlTail;
    assert r == (Scheme + host) + (t.middle + (username + UrlTail));
    assert r == (Scheme + host + t.middle + username) + UrlTail;
    if '/' !in host && '/' !in username then
      StatsTemplateChars();
      FillThenUnfill(t, host, username);
      r
    else r
  }

  /** Reads a stats URL back into its host and username. */
  function ParseStatsUrl(url: string): Option<(string, string)>
  {
    StatsTemplate.Unfill(url)
  }

  /** The characters the fixed parts of the stats URL hold and lack. */
  lemma StatsTemplateChars()
    ensures StatsTemplate.Delimited()
    ensures '?' !in Scheme && '?' !in UsersPath && '?' !in StatsPath
    ensures '#' !in Scheme && '#' !in UsersPath && '#' !in StatsPath && '#' !in StatsQuery
  {
  }

  /** No allow-listed domain holds a `/`, `?` or `#`: each is a bare host
      name. */
  lemma AllowedDomainsAreBareHosts(d: string)
    requires d in AllowedApiDomains
    ensures '/' !in d && '?' !in d && '#' !in d
  {
    assert d == "wakatime.com";
  }

  /** Whatever the parser accepts is a built URL, and the parts it returns
      hold no `/`: parsing and building are inverse on exactly these inputs. */
  lemma ParseThenBuild(url: string, host: string, username: string)
    ensures ParseStatsUrl(url) == Some((host, username)) ==>
      && url == StatsUrl(host, username)
      && '/' !in host && '/' !in username
  {
    if ParseStatsUrl(url) == Some((host, username)) {
      UnfillThenFill(StatsTemplate, url, host, username);
    }
  }

  /** The first `c` of a filled URL lies in the tail when no other part
      holds one; everything from the tail on is the tail. */
  lemma IndexOfFill(t: UrlTemplate, host: string, username: string, c: char)
    requires c !in t.scheme && c !in host && c !in t.middle && c !in username
    ensures var n := |t.scheme| + |host| + |t.middle| + |username|;
      && IndexOf(t.Fill(host, username), c) == n + IndexOf(t.tail, c)
      && t.Fill(host, username)[n..] == t.tail
  {
    IndexOfAfter(username, t.tail, c);
    IndexOfAfter(t.middle, username + t.tail, c);
    IndexOfAfter(host, t.middle + (username + t.tail), c);
    IndexOfAfter(t.scheme, host + (t.middle + (username + t.tail)), c);
  }

  /** The query of a URL: what follows its first `?`, if it has one. */
  function QueryOf(url: string): Option<string>
  {
    var q := IndexOf(url, '?');
    if q < |url| then Some(url[q + 1..]) else None
  }

  /** Where the tail alone fixes the query and holds no fragment, so does
      the filled URL, for parts free of `?` and `#`. */
  lemma QueryOfFill(t: UrlTemplate, host: string, username: string)
    requires '?' !in t.scheme && '?' !in host && '?' !in t.middle && '?' !in username
    requires '#' !in t.scheme && '#' !in host && '#' !in t.middle && '#' !in username
    requires '#' !in t.tail
    ensures QueryOf(t.Fill(host, username)) == QueryOf(t.tail)
    ensures '#' !in t.Fill(host, username)
  {
    var url := t.Fill(host, username);
    var n := |t.scheme| + |host| + |t.middle| + |username|;
    IndexOfFill(t, host, username, '?');
    var k := IndexOf(t.tail, '?');
    if k < |t.tail| {
      assert url[n + k + 1..] == url[n..][k + 1..];
    }
  }

  /** The tail of the stats URL holds its query after its only `?`. */
  lemma UrlTailQuery()
    ensures QueryOf(UrlTail) == Some(StatsQuery)
    ensures '#' !in UrlTail
  {
    StatsTemplateChars();
    var query := "?" + StatsQuery;
    assert UrlTail == StatsPath + query;
    assert query[0] == '?' && query[1..] == StatsQuery;
    IndexOfAfter(StatsPath, query, '?');
    assert IndexOf(UrlTail, '?') == |StatsPath|;
    assert UrlTail[|StatsPath|..] == query;
    assert UrlTail[|StatsPath| + 1..] == query[1..];
  }

  /** In a URL built from a host and username free of `?` and `#`, the query
      is exactly `is_including_today=true` and there is no fragment. */
  lemma UrlQueryIsFixed(host: string, username: string)
    requires '?' !in host && '?' !in username
    requires '#' !in host && '#' !in username
    ensures QueryOf(StatsUrl(host, username)) == Some(StatsQuery)
    ensures '#' !in StatsUrl(host, username)
  {
    var t := StatsTemplate;
    assert t.scheme == Scheme && t.middle == UsersPath && t.tail == UrlTail;
    StatsTemplateChars();
    UrlTailQuery();
    QueryOfFill(t, host, username);
    assert StatsUrl(host, username) == t.Fill(host, username);
  }

  // ---------------------------------------------------------------------
  // Input checks
  // ---------------------------------------------------------------------

  /** JavaScript truthiness of an optional string argument. */
  predicate Given(s: Option<string>)
  {
    s.Some? && s.value != ""
  }

  /** The checks run before the request, in source order: the username must be
      given, then match the format, then a given domain (one trailing slash
      removed) must be allow-listed; without a domain the default host is used. */
  function Validate(username: Option<string>, apiDomain: Option<string>): (r: Checked)
    // a missing username is reported before anything else
    ensures username == None || username == Some("") ==> r == Refused(MissingParam(["username"]))
    // a badly formed username is reported before any domain error
    ensures Given(username) && !ValidUsername(username.value) ==> r == Refused(UsernameInvalid)
    ensures r.Refused? && r.error.ApiDomainInvalid? ==>
      Given(username) && ValidUsername(username.value) && Given(apiDomain)
      && r.error.domain == StripTrailingSlash(apiDomain.value)
      && r.error.domain !in AllowedApiDomains
    // a given domain that is not allow-listed after sanitising is refused, naming it
    ensures
      && Given(username) && ValidUsername(username.value) && Given(apiDomain)
      && StripTrailingSlash(apiDomain.value) !in AllowedApiDomains
      ==> r == Refused(ApiDomainInvalid(StripTrailingSlash(apiDomain.value)))
    ensures r.Refused? ==> !r.error.UserNotFound?
    ensures r.Accepted? <==>
      Given(username) && ValidUsername(username.value)
      && (!Given(apiDomain) || StripTrailingSlash(apiDomain.value) in AllowedApiDomains)
    // the requested host is always allow-listed
    ensures r.Accepted? ==> r.host in AllowedApiDomains
    ensures r.Accepted? && (apiDomain == None || apiDomain == Some("")) ==> r.host == DefaultHost
    ensures r.Accepted? && Given(apiDomain) ==> r.host == StripTrailingSlash(apiDomain.value)
    ensures r.Accepted? ==> r.url == StatsUrl(r.host, username.value)
  {
    if !Given(username) then Refused(MissingParam(["username"]))
    else
      if !MatchesUsernamePattern(username.value) then Refused(UsernameInvalid)
      else if !Given(apiDomain) then
        Accepted(DefaultHost, StatsUrl(DefaultHost, username.value))
      else
        var sanitized := StripTrailingSlash(apiDomain.value);
        if sanitized !in AllowedApiDomains then Refused(ApiDomainInvalid(sanitized))
        else Accepted(sanitized, StatsUrl(sanitized, username.value))
  }

  /** An accepted request has the fixed URL shape: parsing it gives back the
      host and the username unchanged, its query is the fixed one and it has
      no fragment. */
  lemma AcceptedUrlShape(username: Option<string>, apiDomain: Option<string>)
    ensures var r := Validate(username, apiDomain);
      r.Accepted? ==>
        && ParseStatsUrl(r.url) == Some((r.host, username.value))
        && QueryOf(r.url) == Some(StatsQuery)
        && '#' !in r.url
  {
    var r := Validate(username, apiDomain);
    if r.Accepted? {
      UsernameIsUnreserved(username.value);
      AllowedDomainsAreBareHosts(r.host);
      UrlQueryIsFixed(r.host, username.value);
    }
  }

  // ---------------------------------------------------------------------
  // The request and its failures
  // ---------------------------------------------------------------------

  /** A response the HTTP client received. */
  datatype Response = Response(status: int)

  /** The error the HTTP client throws; `response` is absent when nothing was
      received (a DNS or connection failure). */
  datatype HttpError = HttpError(response: Option<Response>)

  /** The response body: an envelope whose `data` field is the statistics. */
  datatype Body<T> = Body(data: T)

  /** What the HTTP client does with the request: resolve with a body or throw. */
  datatype Reply<T> = Resolved(body: Body<T>) | Thrown(err: HttpError)

  /** What the fetcher does: return the statistics, raise one of its own
      errors, rethrow the client's error unchanged, or fail with a TypeError
      when the client's error has no `response` to read a status from. */
  datatype Outcome<T> =
    | Returned(value: T)
    | Raised(error: Error)
    | Rethrown(err: HttpError)
    | ResponseTypeError

  /** A received status outside 200..299 means "user not found"; inside it
      the original error is rethrown (None). */
  function ClassifyStatus(username: string, status: int): (r: Option<Error>)
    ensures r.Some? <==> status < 200 || 299 < status
    ensures r.Some? ==>
      && r.value.IsCustom()
      && r.value.Code() == "WAKATIME_USER_NOT_FOUND"
      && r.value.Message() == "Could not resolve to a User with the login of '" + username + "'"
  {
    if status < 200 || status > 299 then Some(UserNotFound(username)) else None
  }

  /** The whole fetch, with the network's answer to the request as `reply`. */
  function Fetch<T>(username: Option<string>, apiDomain: Option<string>, reply: Reply<T>): (r: Outcome<T>)
    // input errors are raised whatever the network would have answered
    ensures Validate(username, apiDomain).Refused? ==> r == Raised(Validate(username, apiDomain).error)
    ensures r.Returned? <==> Validate(username, apiDomain).Accepted? && reply.Resolved?
    ensures r.Returned? ==> r.value == reply.body.data
    // the client's error is rethrown only when it carries a 2xx status
    ensures r.Rethrown? ==>
      && reply.Thrown? && r.err == reply.err
      && reply.err.response.Some? && 200 <= reply.err.response.value.status <= 299
    ensures r.Raised? && r.error.UserNotFound? ==>
      username.Some? && r.error.username == username.value
      && reply.Thrown? && reply.err.response.Some?
      && (reply.err.response.value.status < 200 || 299 < reply.err.response.value.status)
    // a received status decides between "user not found" and rethrowing
    ensures
      && Validate(username, apiDomain).Accepted? && reply.Thrown? && reply.err.response.Some?
      ==> var s := reply.err.response.value.status;
        r == (if s < 200 || 299 < s then Raised(UserNotFound(username.value)) else Rethrown(reply.err))
    // an error without a response is never propagated as it is
    ensures Validate(username, apiDomain).Accepted? && reply.Thrown? && reply.err.response.None? ==>
      r == ResponseTypeError
  {
    match Validate(username, apiDomain)
    case Refused(e) => Raised(e)
    case Accepted(_, _) =>
      match reply
      case Resolved(body) => Returned(body.data)
      case Thrown(err) =>
        match err.response
        case None => ResponseTypeError
        case Some(resp) =>
          match ClassifyStatus(username.value, resp.status)
          case Some(e) => Raised(e)
          case None => Rethrown(err)
  }

  // ---------------------------------------------------------------------
  // Examples
  // ---------------------------------------------------------------------

  /** The allow-listed domain with a trailing slash is accepted as the
      default host. */
  lemma TrailingSlashDomainAccepted()
    ensures Validate(Some("octocat"), Some("wakatime.com/"))
      == Accepted(DefaultHost, StatsUrl(DefaultHost, "octocat"))
  {
    StripUndoesOneSlash("wakatime.com");
    assert "wakatime.com" + "/" == "wakatime.com/";
    assert ValidUsername("octocat");
  }

  /** Only one slash is removed, so a doubled slash is refused, and the
      message names the sanitised domain. */
  lemma DoubledSlashDomainRefused()
    ensures Validate(Some("octocat"), Some("wakatime.com//"))
      == Refused(ApiDomainInvalid("wakatime.com/"))
  {
    StripUndoesOneSlash("wakatime.com/");
    assert "wakatime.com/" + "/" == "wakatime.com//";
    assert ValidUsername("octocat");
  }

  /** A bad username with a bad domain reports the username. */
  lemma UsernameErrorBeforeDomainError()
    ensures Validate(Some("a/b"), Some("evil.example")) == Refused(UsernameInvalid)
  {
    assert "a/b"[1] == '/';
  }

  /** The end anchor does not accept a trailing newline. */
  lemma TrailingNewlineRejected()
    ensures Validate(Some("octocat\n"), None) == Refused(UsernameInvalid)
  {
    assert "octocat\n"[7] == '\n';
  }

  /** A 404 for a well-formed request is a "user not found" naming the user. */
  lemma NotFoundNamesUser()
    ensures Fetch<int>(Some("octocat"), None, Thrown(HttpError(Some(Response(404)))))
      == Raised(UserNotFound("octocat"))
  {
    assert ValidUsername("octocat");
  }
}
