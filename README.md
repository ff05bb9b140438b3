# WakaTime statistics fetcher — Dafny model

This project models `fetchWakatimeStats` from github-readme-stats: the fetcher
that asks the WakaTime API for one user's coding statistics. Before it sends
its single GET request it checks its two inputs, in a fixed order:

1. the `username` must be given (a missing or empty value raises a
   MissingParamError naming `"username"`);
2. the username must match `^[A-Za-z0-9-_]+$` (else `WAKATIME_USERNAME_INVALID`);
3. an `api_domain` override, if given, has one trailing `/` removed and must
   then be in the allow-list `["wakatime.com"]` (else
   `WAKATIME_API_DOMAIN_INVALID`, naming the sanitised domain); without one
   the host is `wakatime.com`.

It then requests `https://<host>/api/v1/users/<username>/stats?is_including_today=true`
and returns the `data` field of the response body. When the HTTP client
throws, a received status outside 200..299 becomes `WAKATIME_USER_NOT_FOUND`
naming the username, a 2xx status rethrows the client's error, and an error
with no response at all fails with a TypeError, because the status is read
from `err.response` without a guard.

Everything lives in module `Wakatime` (`wakatime.dfy`); `wrappers.dfy` holds
the `Option` type used for arguments that may be undefined. The code is pure,
so the model is made of datatypes, functions and lemmas. An argument is
truthy (`Given`) when it is present and non-empty. The regular expression
is modelled twice. `MatchesUsernamePattern` walks the string the way the
anchored `+` reads it. `ValidUsername` states the format character by
character. The matcher's contract proves the two equal. The URL has an
inverse, `ParseStatsUrl`, and building and parsing are proved to undo each
other in both directions.

A transport error with no response does not propagate. Line 45 reads
`err.response.status` without a guard, so the call fails with a TypeError.
`Fetch` yields `ResponseTypeError` there and never `Rethrown`.

## Model

| member | source | states |
|---|---|---|
| `Wakatime.Validate` | src/fetchers/wakatime.js:15-36 | an absent or empty username is refused with MissingParam(["username"]) whatever the domain; a malformed username is refused with UsernameInvalid before any domain check; a valid username with a given domain whose sanitised form is not allow-listed is refused with ApiDomainInvalid naming that sanitised form, and a domain error arises in no other case; acceptance holds exactly when the username is valid and the domain is absent, empty or allow-listed after sanitising; the accepted host is always allow-listed, is `wakatime.com` when the domain is absent or empty and the sanitised override otherwise |
| `Wakatime.MatchesUsernamePattern` | src/fetchers/wakatime.js:13-19 | the anchored pattern accepts a string exactly when it is non-empty and every character is in A–Z, a–z, 0–9, `-` or `_` |
| `Wakatime.UsernameIsUnreserved` | src/fetchers/wakatime.js:13 | every character of an accepted username is an RFC 3986 unreserved character, so it holds no `/`, `?` or `#` |
| `Wakatime.TrailingNewlineRejected` | src/fetchers/wakatime.js:13-24 | the `$` anchor does not accept a trailing newline: `"octocat\n"` is refused as UsernameInvalid |
| `Wakatime.StripTrailingSlash` | src/fetchers/wakatime.js:28 | the sanitised domain is a prefix of the input at most one character shorter; a trailing `/` is exactly what is removed, and a domain not ending in `/` is unchanged |
| `Wakatime.StripUndoesOneSlash` | src/fetchers/wakatime.js:28 | sanitising `d + "/"` gives back `d` for every `d` |
| `Wakatime.TrailingSlashDomainAccepted` | src/fetchers/wakatime.js:25-35 | `"wakatime.com/"` is accepted with host `wakatime.com` |
| `Wakatime.DoubledSlashDomainRefused` | src/fetchers/wakatime.js:28-33 | only one slash is removed: `"wakatime.com//"` is refused and the error names `"wakatime.com/"` |
| `Wakatime.UsernameErrorBeforeDomainError` | src/fetchers/wakatime.js:15-36 | a bad username with a bad domain reports the username error |
| `Wakatime.StatsUrl` | src/fetchers/wakatime.js:40 | the URL starts with `https://` and the host, ends with `/stats?is_including_today=true`, and parsing it gives back the host and the username whenever neither holds a `/` |
| `Wakatime.AllowedDomainsAreBareHosts` | src/fetchers/wakatime.js:11 | no allow-listed domain holds a `/`, `?` or `#` |
| `Wakatime.ParseThenBuild` | src/fetchers/wakatime.js:40 | every URL the parser accepts is the stats URL of the parts it returns, and those parts hold no `/` |
| `Wakatime.UrlQueryIsFixed` | src/fetchers/wakatime.js:40 | when host and username hold no `?` or `#`, the query of the stats URL is exactly `is_including_today=true` and the URL has no fragment |
| `Wakatime.AcceptedUrlShape` | src/fetchers/wakatime.js:11-40 | for every accepted input the URL parses back to the chosen host and the given username, its query is the fixed one and it has no fragment |
| `Wakatime.Error.Code` | src/fetchers/wakatime.js:20-49 | the three custom error codes are distinct, so each code identifies exactly one error kind |
| `Wakatime.Error.Message` | src/fetchers/wakatime.js:20-49 | the username message is fixed; the domain message is `Invalid API domain '` + domain + `'.` and the user message is `Could not resolve to a User with the login of '` + username + `'` |
| `Wakatime.ClassifyStatus` | src/fetchers/wakatime.js:45-51 | a received status maps to an error exactly when it is outside 200..299, and that error has code WAKATIME_USER_NOT_FOUND and a message naming the username |
| `Wakatime.Fetch` | src/fetchers/wakatime.js:15-53 | input errors are raised whatever the network answers; the statistics are returned exactly when the inputs are accepted and the client resolves, and they are the body's `data` field; for an accepted request whose client error carries a status, a status outside 200..299 raises UserNotFound naming the given username and a status inside it rethrows the client's error unchanged, and neither outcome arises otherwise; an error without a response yields a TypeError, never the raw error |
| `Wakatime.NotFoundNamesUser` | src/fetchers/wakatime.js:45-50 | a 404 for a well-formed request raises UserNotFound("octocat") |

## Left out

- The `axios.get` call and the async/Promise machinery: the network's answer is the `reply` parameter of `Fetch`, and the request is represented only by the URL it would be given.
- `Fetch`: the model states that the outcome of refused input does not depend on the reply. It cannot state that no request is sent, because sending is not modelled.
- The response payload is opaque (a type parameter). A body without a `data` field makes the call return `undefined`; this is not modelled. A null or undefined body throws a TypeError at line 43. That error is caught, and line 45 then throws a second TypeError reading `err.response.status`. This path is not modelled either.
- The internals of `CustomError` and `MissingParamError` (defined in `src/common/utils.js`, which is not part of this model). The custom errors are error kinds with the codes and messages written in `wakatime.js`. `MissingParam` carries only the list of missing parameter names, because its code and message are not visible.
- Non-string arguments and JavaScript coercion. Inputs are optional strings, and truthiness is "present and non-empty".
- The regular-expression engine itself. The pattern is modelled directly as a predicate over the whole string. The `i` flag on the domain pattern has no effect on `/` and is ignored.
