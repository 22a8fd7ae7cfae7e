# Reddit username link redirect — a Dafny model

A browser extension's content script (`content.js`) listens for clicks. When the
closest anchor of a click is a link to a Reddit user profile, it cancels the
navigation, reads the user's search settings, and opens a search page at
`https://ihsoyct.github.io/` in a new tab. The query of that page carries five
parameters: `backend`, `mode`, `author` (the username), `limit` and `sort`.

This project models the decision logic of that script as pure Dafny functions and
proves properties about them. The logic has four parts:

- **Link classification** (`isUsernameLink`), in module `Links`. Each of the six
  anchored regular expressions becomes a `Pattern`. A pattern is a fixed prefix, a
  name of one or more non-`/` characters, a fixed suffix and an optional trailing
  `/`. Matching is case-sensitive. The only absolute form accepted is
  `https://www.reddit.com/...`.
- **Username extraction** (`extractUsername`), in module `Links`. The unanchored
  search `/\/(?:u|user)\/([^\/]+)/` is tried at each position from the left.
  There is no URL parsing, so `?` and `#` count as name characters:
  `/user/bob?x=1` is a username link, and its username is `bob?x=1`.
- **Settings merge** (`getSettings`), in module `Settings`. Each field is the
  stored value if it is truthy, otherwise its default: 100, `desc`,
  `submissions`, `artic_shift`.
- **Redirect URL** (`createRedirectUrl`), in modules `Redirect`,
  `FormUrlEncoded` and `Utf8`. `URLSearchParams` serialises the five pairs as
  application/x-www-form-urlencoded, following section 5.2 of the WHATWG URL
  Standard. Names and values are UTF-8 encoded. Bytes outside the
  application/x-www-form-urlencoded percent-encode set stay as they are, a space
  becomes `+`, and every other byte becomes `%XX`. The parser of section 5.1
  is modelled too, so the round trip can be stated.

Module `Click` models the click handler (`handleUsernameClick`) as a function
that returns one of three actions. `LeaveAlone` lets the browser follow the
link. `Suppress` cancels the click and opens nothing. `SuppressAndOpen(url)`
cancels the click and opens the URL.

Main results:

- An href is classified exactly when it is one of the six shapes
  (`Links.IsUsernameHrefIff`).
- Every classified href yields a username, and that username is the `<name>`
  the pattern matched (`Links.ExtractsMatchedName`). So, when the settings read
  succeeds, the handler never cancels a click without opening a tab
  (`Click.InterceptedClickOpens`).
- `extractUsername` returns null exactly when no `/u/` or `/user/` is followed
  by a non-`/` character. Otherwise it returns the name at the leftmost such
  occurrence (`Links.ExtractUsernameSpec`, `Links.ExtractUsernameNone`).
- Read back as application/x-www-form-urlencoded, the redirect URL's query gives
  exactly the five pairs, in order (`Redirect.RedirectUrlQuery`). Each value is
  recovered exactly, and `author` is the username
  (`Redirect.RedirectUrlValues`). This rests on a general round trip: parsing
  serialized pairs gives back the same pairs (`FormUrlEncoded.ParseSerialize`).

Two facts about `content.js` that the model keeps:

- Matching is case-sensitive, and the only absolute form accepted is
  `https://www.reddit.com/...`; `old.reddit.com` and hosts without `www` are
  rejected.
- Extraction is one regular-expression search over the raw href, not URL
  parsing.
## Model

| member | source | states |
|---|---|---|
| `Links.HrefOrEmpty` | content.js:42 | `getAttribute('href') \|\| ''`: the href is empty exactly when the attribute is missing or empty, and otherwise it is the attribute's value. |
| `Links.IsUsernameLink` | content.js:38-53 | A link is classified only if its tag name is `A` and it has a non-empty `href` attribute. A missing attribute reads as `''`, and `''` matches no pattern. |
| `Links.Matches` | content.js:44-49 | `pattern.test(href)` for one anchored pattern: no pattern matches the empty href. `Links.MatchesIff` states its exact language. |
| `Links.IsUsernameHref` | content.js:43-52 | `usernamePatterns.some(...)`: a classified href is never empty. `Links.IsUsernameHrefIff` states exactly which hrefs are classified. |
| `Links.MatchesShape` | content.js:44-49 | Each pattern accepts every href of its shape (prefix, name, suffix, optional `/`). The name read back is the name put in. |
| `Links.ShapeOfMatch` | content.js:44-49 | An href a pattern accepts is one of that pattern's shapes, and its name has no `/`. |
| `Links.MatchesIff` | content.js:44-49 | A pattern accepts an href if and only if the href is one of its shapes. |
| `Links.IsUsernameHrefIff` | content.js:43-52 | `usernamePatterns.some(...)` holds exactly for the six shapes: `/user/<name>`, `/u/<name>`, `/user/<name>/posts`, `/user/<name>/comments`, and `https://www.reddit.com/user/<name>` and `/u/<name>`. Each has an optional trailing `/`. |
| `Links.ExtraSegmentExample` | content.js:44-47 | `/user/alice/posts/42` is rejected: one segment past `posts` matches nothing. |
| `Links.RejectedExamples` | content.js:43-52 | `/User/x`, `http://www.reddit.com/user/x`, `https://old.reddit.com/user/x` and `''` are rejected. |
| `Links.TrailingSlashExamples` | content.js:45 | `/u/bob` and `/u/bob/` are both classified, and both yield `bob`. |
| `Links.QueryInNameExample` | content.js:44 | `/user/bob?x=1` is classified, and its username is `bob?x=1`. |
| `Links.AbsoluteExample` | content.js:48 | `https://www.reddit.com/user/alice/` is classified and yields `alice`. |
| `Links.ExtractUsername` | content.js:56-59 | `extractUsername(href)`: any username it returns is non-empty and has no `/`. `Links.ExtractUsernameSpec` and `Links.ExtractUsernameNone` state which name it returns, and when it returns null. |
| `Links.NameRun` | content.js:57 | The greedy `[^\/]+` takes the longest `/`-free prefix: it stops at a `/` or at the end. |
| `Links.MatchAt` | content.js:57 | The pattern tried at one position succeeds exactly when `/u/` or `/user/` there is followed by a non-`/` character. The capture is the name after the marker, up to a `/` or the end. |
| `Links.ExtractFrom` | content.js:57-58 | Any username the search from position `i` returns is captured at some position at or after `i`. |
| `Links.ExtractFromSpec` | content.js:57-58 | The search from `i` returns `name` if and only if the leftmost occurrence at or after `i` captures `name`. |
| `Links.ExtractUsernameSpec` | content.js:56-59 | `extractUsername` returns `name` if and only if the leftmost occurrence captures `name`. Such a name is non-empty and has no `/`. |
| `Links.ExtractUsernameNone` | content.js:56-59 | `extractUsername` returns null if and only if no `/u/` or `/user/` is followed by a non-`/` character. |
| `Links.ExtractsMatchedName` | content.js:44-58 | For every href a pattern accepts, `extractUsername` returns the `<name>` that pattern matched. For absolute hrefs this holds because nothing in `https://www.reddit.com` starts an earlier match. |
| `Links.ClassifiedLinkExtracts` | content.js:38-58 | Every classified link has an href, `extractUsername` returns non-null on it, and the result is the name of a pattern that accepted it. |
| `Links.PermissiveExtractionExample` | content.js:57-58 | On its own, the extractor reads `alice` out of `/user/alice/posts/42`, an href the classifier rejects. |
| `Links.LeftmostExtractionExample` | content.js:57-58 | In `/u//user/bob`, the `/u/` followed by `/` is skipped and `bob` is returned. |
| `Links.NoExtractionExample` | content.js:57-58 | `/r/rust` yields null. |
| `Settings.GetSettings` | content.js:14-22 | No merged field is ever falsy. Each field is either its default or exactly the value stored under its key. |
| `Settings.TruthyOrDefault` | content.js:16-21 | A truthy stored value is used as it is. A missing or falsy value (0, NaN, `''`) gives way to the default. |
| `Settings.FieldsIndependent` | content.js:16-21 | Each merged field depends only on its own stored key. |
| `Settings.StoreRoundTrip` | content.js:16-21 | Stored settings with no falsy field are read back unchanged. Merging a second time changes nothing. |
| `Settings.DefaultExamples` | content.js:5-21 | An empty store gives `{100, desc, submissions, artic_shift}`. A store with only `sort: asc` keeps it and takes defaults for the rest. A stored limit of 0 or NaN becomes 100. |
| `Utf8.EncodeChar` | content.js:26-32 | A scalar value takes one to four bytes. ASCII takes exactly one byte, its own code point. Every byte after the first is a continuation byte. |
| `Utf8.DecodeEncode` | content.js:26-32 | UTF-8 decoding gives back every string that `URLSearchParams` encoded. |
| `Utf8.EncodeAscii` | content.js:34 | An ASCII string, such as a serialized query, is encoded as its own code points. |
| `FormUrlEncoded.Serialize` | content.js:34 | `params.toString()`: the query is empty exactly when there are no pairs. `FormUrlEncoded.ParseSerialize` and `FormUrlEncoded.SerializeChars` state what it holds. |
| `FormUrlEncoded.FormSetComplement` | content.js:26-34 | Built up set by set as in the URL Standard, the percent-encode set leaves exactly ASCII letters, digits and `*-._` unencoded. |
| `FormUrlEncoded.PercentEncodeChars` | content.js:26-34 | An encoded name or value is ASCII and holds no `&`, `=`, `?` or `#`. |
| `FormUrlEncoded.DecodePercentEncoded` | content.js:26-34 | Turning `+` back into a space, percent-decoding and UTF-8 decoding an encoded name or value gives back the original string. |
| `FormUrlEncoded.ParseSerializedPair` | content.js:26-34 | One serialized `name=value` is non-empty, has no `&`, and parses back to that pair. |
| `FormUrlEncoded.ParseSerialize` | content.js:26-34 | Parsing serialized pairs gives back exactly those pairs, in order. |
| `FormUrlEncoded.SerializeChars` | content.js:34 | The serialized query has only encoded characters, `=` and `&`. So it adds no `?` or `#` to the URL. |
| `Redirect.QueryPairs` | content.js:26-32 | The object literal given to `URLSearchParams`: five pairs with pairwise distinct names. `Redirect.RedirectUrlQuery` and `Redirect.GetQueryPairs` state their order and values. |
| `Redirect.IntString` | content.js:30 | How the number `settings.limit` becomes a string: never empty, with a leading `-` exactly when the limit is negative, and only digits otherwise. `Redirect.IntStringValue` shows it reads back as the same integer. |
| `Redirect.CreateRedirectUrl` | content.js:25-35 | `createRedirectUrl(username, settings)`: the URL starts with the base URL and `?`, and after that has no second `?` and no `#`. `Redirect.RedirectUrlQuery` and `Redirect.RedirectUrlValues` state what its query holds. |
| `Redirect.NatString` | content.js:30 | The limit is written as decimal digits with no leading zero. |
| `Redirect.IntStringValue` | content.js:30 | Reading the written limit as a decimal gives back the same integer. |
| `Redirect.SplitAtQuery` | content.js:34 | Where `base` has no `?` and `query` has no `#`, `QueryOf` splits `base + "?" + query` into `base` and `query`. |
| `Redirect.RedirectUrlQuery` | content.js:25-35 | The redirect URL is the base URL followed by a query. Parsed back, the query holds exactly `backend`, `mode`, `author`, `limit` and `sort`, in that order, with nothing added or left out. |
| `Redirect.GetQueryPairs` | content.js:26-32 | Looking up each of the five names finds its own value. |
| `Redirect.RedirectUrlValues` | content.js:25-35 | From the redirect URL's query, `author` decodes to the username. `backend`, `mode` and `sort` decode to their settings. `limit` decodes to a decimal whose value is the limit. |
| `Click.HandleUsernameClick` | content.js:62-79 | `handleUsernameClick`: the click is left alone if and only if there is no closest anchor or it is not a username link. A tab is opened only when the anchor has an href from which a username is extracted. `Click.InterceptedClickOpens` shows that a classified link always opens one. |
| `Click.InterceptedClickOpens` | content.js:62-79 | A click is intercepted if and only if its closest anchor is a username link. An intercepted click always opens a URL, so the branch where `username` is falsy is unreachable. |
| `Click.OpensSearchForMatchedName` | content.js:62-79 | A click on an `A` whose href matches a pattern opens the search URL for that pattern's name, using the merged settings. In that URL, `author` decodes to the name. |

## Left out

- options.js: the settings form, its `parseInt`, the save action and the status banner. This is UI plumbing. The model takes the stored record as input; its limit is an integer or NaN, the values `parseInt` can produce.
- `browser.storage.local.get`: an asynchronous foreign call. Its result is the parameter `stored` of `Settings.GetSettings` and `Click.HandleUsernameClick`. A rejected read is not modelled.
- A failed settings read: `content.js` has no `try`/`catch`, and a classified link is suppressed before the settings read, so a read that fails leaves the click suppressed with nothing opened. The model has no failed-read path, because `stored` is always a successful read.
- Event plumbing: host side effects. `event.target.closest('a')` is the parameter `target`. `preventDefault`, `stopPropagation` and `window.open(url, '_blank')` become the returned `Click.Action`. The capturing `addEventListener` is not modelled.
- The `MutationObserver`: its callback does nothing. `console.log` is also left out.
- Overlapping clicks while a settings read is pending: the concurrency of the event loop is not modelled.
- JavaScript numbers: the limit is an unbounded integer. Non-integral numbers, values beyond 2^53, and the exponent form `ToString` uses from 1e21 up are not modelled.
- Stored values of types the options page never writes (a string limit, a boolean) are not modelled.
- JavaScript strings are UTF-16. The model's strings are sequences of Unicode scalar values, so lone surrogates (which `URLSearchParams` turns into U+FFFD) do not arise.
- `FormUrlEncoded.Parse`: invalid UTF-8 makes the parse fail (None), where section 5.1 of the WHATWG URL Standard substitutes U+FFFD. Serialized output is always valid UTF-8, so the round trip is unaffected.
- `Redirect.QueryOf`: only the split of the redirect URL at the first `?` and `#` is modelled, not full URL parsing.
