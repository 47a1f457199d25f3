# persistore in Dafny

persistore is a small client-side key/value store for the browser. Each
`set`, `get` and `remove` goes to exactly one backend, chosen in a fixed order:

1. web storage (`localStorage`, or `sessionStorage` for the session
   variant), when a write/delete probe of the key `__test__` succeeds;
2. otherwise cookies, when a set/read/remove/read probe of a `__test__`
   cookie succeeds;
3. otherwise an in-memory map.

Each probe's answer is kept in a tri-state flag (`lsa`, `ssa`, `ca`: unset,
true or false) and never asked again. Every key is the configured prefix
followed by the name.

Two cookie codecs write, delete and parse `document.cookie`:

- `src/cookies.js` has fixed attributes and `get`. It is the one the store
  imports.
- `src/cookies.ts` has a SameSite mode, the insecure flag, `getAll` and `get`.

The project is made of these modules:

- `Access` (`access.dfy`) holds the library's state record and the host.
  - `Vars` is the record.
  - `Perform` gives the pure meaning of one host call: a storage call, a
    read of `document.cookie`, or an assignment to it.
  - The `Window` class performs those calls in place.
  - Whether a call throws is an oracle, `Host.fails(position in the call
    log, call)`. How an assignment changes what the next read returns is
    `Host.merge`. Every call is logged.
- `JsString` (`js_string.dfy`) holds the JavaScript string built-ins the
  code relies on: `split` with one separator character, `trim` with
  ECMAScript white space, `indexOf`, and `length` in UTF-16 code units.
- `Uri` (`uri.dfy`) is `encodeURIComponent` and `decodeURIComponent` over
  UTF-8. A malformed escape is `None`, the `URIError`.
- `CookieHeader` (`cookie_header.dfy`) is a Cookie header whose values are
  percent-encoded as `set` writes them: `name=value` items joined by "; ".
  Both parsers are proved against it. This is a strict subset of the headers
  section 5.4 of RFC 6265 allows: a value such as `5%` is legal there, but
  both parsers throw a `URIError` on it.
- `Cookies` (`cookies_js.dfy`) models `src/cookies.js`, and `CookieUtil`
  (`cookies_ts.dfy`) models `src/cookies.ts`.
  - Each operation is a pure step function from the host state to the new
    state and the outcome.
  - A method performs the same steps on a `Window` and is proved equal to
    that function.
- `Persistore` (`persistore.dfy`) models the probes, backend selection,
  `set`, `get`, `remove` and `config`.
  - They are step functions over `World`, which is the record together
    with the host state.
  - The `Store` class holds the record's fields and updates them in place,
    call by call and in the order of the source.
  - Each of its methods is proved equal to its step function.

## Model

| member | source | states |
|---|---|---|
| Access.Perform | src/access.js:21-25 | a host call is logged; it throws exactly when the oracle says so and then changes nothing else; `setItem`/`removeItem` update only their own area; `getItem` returns the stored item or null; reading the cookie returns the current cookie string; assigning it goes through the host's merge and leaves web storage alone |
| Access.Window.SetItem | src/access.js:23 | `storage.setItem` changes the window exactly as `Perform` says |
| Access.Window.GetItem | src/access.js:23 | `storage.getItem` changes the window (its log) exactly as `Perform` says |
| Access.Window.RemoveItem | src/access.js:23 | `storage.removeItem` changes the window exactly as `Perform` says |
| Access.Window.ReadCookie | src/access.js:24 | reading `document.cookie` throws or returns the current cookie string, as `Perform` says |
| Access.Window.WriteCookie | src/access.js:24 | assigning `document.cookie` changes the window exactly as `Perform` says |
| JsString.Split | src/cookies.js:33-35 | `split` always yields at least one piece, so `"".split(";")` is `[""]` |
| JsString.SplitSpec | src/cookies.js:33-35 | `split` yields pieces free of the separator that join back, with it, into the input |
| JsString.SplitJoin | src/cookies.js:33-35 | splitting pieces that are free of the separator, once joined with it, gives the same pieces back |
| JsString.Trim | src/cookies.js:39 | `trim` never lengthens its input |
| JsString.TrimSpec | src/cookies.js:39 | `trim` leaves no white space at either end, and keeps an already trimmed string unchanged |
| JsString.TrimStartSpec | src/cookies.ts:36 | `trimStart` keeps a suffix, removes only white space, and removes all of the leading white space |
| JsString.TrimEndSpec | src/cookies.ts:36 | `trimEnd` keeps a prefix, removes only white space, and removes all of the trailing white space |
| JsString.IndexOf | src/persistore.js:36-38 | `indexOf` is -1 when there is no occurrence; otherwise it is the first position where the text occurs |
| JsString.Utf16Length | src/cookies.js:19 | `length` counts one or two code units per character |
| JsString.Utf16LengthConcat | src/cookies.js:18-19 | `length` adds up over concatenation |
| Uri.Encode | src/cookies.js:17 | `encodeURIComponent` output holds only unreserved characters (letters, digits, `-_.!~*'()`), `%` and hexadecimal digits, and is between one and twelve times as long as the input |
| Uri.EncodedIsPlain | src/cookies.ts:18-19 | an encoded value holds no `;`, no `=`, no blank, and only ASCII |
| Uri.Decode | src/cookies.js:41 | `decodeURIComponent` leaves text without `%` as it is and never lengthens its input |
| Uri.Utf8RoundTrip | src/cookies.js:17 | UTF-8 decoding inverts UTF-8 encoding for every character |
| Uri.RoundTrip | src/cookies.ts:18-36 | decoding an encoded value always succeeds and gives the value back |
| CookieHeader.FirstWithName | src/cookies.ts:42-45 | the index of the first pair with the name; no earlier pair has it; none means no pair has it |
| CookieHeader.AssignmentLength | src/cookies.js:18-19 | the length of `name=value;attributes` with plain ASCII value and attributes is the name's length, plus the value's, plus 2, plus the attributes' |
| Cookies.CookieString | src/cookies.js:18 | the string `set` assigns begins with the name and `=`, so for a name without `;` or `=` it sets the cookie of that name |
| Cookies.RemovalString | src/cookies.js:27 | the string `remove` assigns begins with the name, `=` and `;`, so it sets that cookie's value to empty |
| Cookies.CookieStringLength | src/cookies.js:18-19 | the checked length is the name's UTF-16 length, plus the encoded value's length, plus 31 |
| Cookies.CookieStringItems | src/cookies.js:13-18 | the cookie string is the item `name=encoded value` followed by `Secure`, `Path=/` and `SameSite=strict`, whatever the insecure flag says |
| Cookies.SameLocation | src/cookies.js:11-28 | the strings `set` and `remove` write end in the same attributes |
| Cookies.SetStep | src/cookies.js:16-24 | throws a length error carrying the length and 4093, and assigns nothing, exactly when the string is longer than 4093; otherwise assigns exactly that string and throws only if the host does |
| Cookies.RemoveStep | src/cookies.js:26-28 | assigns exactly the expired string with the same attributes; throws only if the host does |
| Cookies.Qualifies | src/cookies.js:39 | an item qualifies only if it holds an `=` and the name is free of surrounding white space |
| Cookies.FirstQualifying | src/cookies.js:37-40 | the first item that splits on `=` into exactly two parts and whose first part trims to the name; no earlier item qualifies; none means no item qualifies |
| Cookies.Lookup | src/cookies.js:41 | the only error `get` raises itself is a `URIError` |
| Cookies.LookupAbsent | src/cookies.js:37-42 | `get` returns undefined exactly when no item qualifies |
| Cookies.LookupFirst | src/cookies.js:37-41 | when an item qualifies, the first one decides: its decoded value, or a `URIError` |
| Cookies.GetStep | src/cookies.js:32-33 | reads the cookie string once; a throwing read is an error, otherwise the result is the parse of that string |
| Cookies.LookupEmpty | src/cookies.js:33-42 | on the empty cookie string `get` returns undefined |
| Cookies.LookupHeader | src/cookies.js:32-42 | on a Cookie header whose values are percent-encoded as `set` writes them, `get` returns the first value stored under the name, or undefined |
| Cookies.LeadingItemRead | src/cookies.js:37-41 | when the first item is `name=enc` with a plain name, `get(name)` returns the decoding of `enc`, or a `URIError`, whatever follows |
| Cookies.GetAfterSet | src/cookies.js:16-41 | `get(name)` on the string `set(name, v)` wrote returns `v`, for a name without `;`, `=` or surrounding white space |
| Cookies.NoEqualsSkipped | src/cookies.js:39 | an item without `=` never qualifies |
| Cookies.SeveralEqualsSkipped | src/cookies.js:39 | an item with two or more `=` never qualifies |
| Cookies.SkipsMalformedItems | src/cookies.js:37-41 | an example: in `a;a=b=c;a=1`, `get("a")` passes over `a` and `a=b=c` and returns `1` |
| Cookies.StrayPercentThrows | src/cookies.js:41 | an example: a value with a bare `%`, legal in a Cookie header, makes `get` throw a `URIError`, as on `a=5%` |
| Cookies.Set | src/cookies.js:16-24 | `set` changes the window and returns exactly as `SetStep` says |
| Cookies.Remove | src/cookies.js:26-28 | `remove` changes the window and returns exactly as `RemoveStep` says |
| Cookies.Get | src/cookies.js:32-42 | `get` changes the window and returns exactly as `GetStep` says |
| CookieUtil.CookieLocation | src/cookies.ts:13-14 | the attributes are ASCII, 16 code units plus the mode, plus 7 for `Secure;` unless the insecure flag is true |
| CookieUtil.LocationItems | src/cookies.ts:13-14 | the attributes are the items `Secure` (left out only when the insecure flag is true), `Path=/` and `SameSite=` with the mode |
| CookieUtil.CookieString | src/cookies.ts:19 | the string `set` assigns begins with the name and `=`, so for a name without `;` or `=` it sets the cookie of that name |
| CookieUtil.RemovalString | src/cookies.ts:26 | the string `remove` assigns begins with the name, `=` and `;`, so it sets that cookie's value to empty |
| CookieUtil.CookieStringItems | src/cookies.ts:13-19 | the cookie string is `name=encoded value` followed by those items, using the given mode or `strict` |
| CookieUtil.CookieStringLength | src/cookies.ts:19-20 | the checked length is the name's UTF-16 length, plus the encoded value's length, plus 2, plus the attributes' length |
| CookieUtil.SameLocation | src/cookies.ts:11-27 | `remove` writes the same attributes as `set` with the default mode |
| CookieUtil.SetStep | src/cookies.ts:17-23 | throws a length error, and assigns nothing, exactly when the string is longer than 4093; otherwise assigns exactly that string and throws only if the host does |
| CookieUtil.RemoveStep | src/cookies.ts:25-27 | assigns exactly the expired string with the default-mode attributes; throws only if the host does |
| CookieUtil.ParseSegment | src/cookies.ts:35-36 | parsing an item fails only with a `URIError`, and a parsed name has no surrounding white space |
| CookieUtil.ParseSegmentSpec | src/cookies.ts:35-36 | the name is the trimmed text before the first `=`; an item without `=` always parses, to the value "undefined"; an item with `=` parses exactly when the text up to the second `=` decodes, and then to that decoded text |
| CookieUtil.ParseSegments | src/cookies.ts:34-37 | the map succeeds exactly when every item parses, and then gives one pair per item, in order |
| CookieUtil.ParseAll | src/cookies.ts:31-39 | the empty cookie string gives no pairs; any other string gives the map over its `;`-items; the only error is a `URIError` |
| CookieUtil.Lookup | src/cookies.ts:41-47 | `get` fails exactly when `getAll` fails, and otherwise returns the value of the first pair named exactly `name` |
| CookieUtil.GetAllStep | src/cookies.ts:31-32 | reads the cookie string once; a throwing read is an error, otherwise the result is `getAll` of that string |
| CookieUtil.GetStep | src/cookies.ts:41-47 | `get` is `getAll` followed by the first match |
| CookieUtil.ParseHeader | src/cookies.ts:31-39 | on a Cookie header whose values are percent-encoded as `set` writes them, `getAll` returns exactly its pairs |
| CookieUtil.LookupHeader | src/cookies.ts:41-47 | on a Cookie header whose values are percent-encoded as `set` writes them, `get` returns the first value stored under the name |
| CookieUtil.ParseEncoded | src/cookies.ts:18-36 | the item `set` writes parses back to its name and value |
| CookieUtil.ParseBare | src/cookies.ts:35-36 | a trimmed item without `=` parses to itself and "undefined" |
| CookieUtil.ParseAttributes | src/cookies.ts:13-36 | every attribute item `set` writes parses without error |
| CookieUtil.GetAfterSet | src/cookies.ts:17-47 | `get(name)` on the string `set(name, v, mode)` wrote returns `v`, for a name without `;`, `=` or surrounding white space |
| CookieUtil.TrailingSemicolon | src/cookies.ts:33-37 | `a=1;` parses to `a=1` and then a pair with an empty name and the value "undefined" |
| CookieUtil.ValueStopsAtSecondEquals | src/cookies.ts:35-36 | in `a=b=c` the value is `b` |
| CookieUtil.MalformedItemThrows | src/cookies.ts:34-37 | a non-empty cookie string with any item that does not parse makes `getAll` throw a `URIError`, and so `get` throws for every name |
| CookieUtil.MalformedItemExample | src/cookies.ts:34-47 | an example: on `a=1;b=%`, `get("a")` throws a `URIError` although `a=1` comes first |
| CookieUtil.StrayPercentThrows | src/cookies.ts:33-36 | an example: a value with a bare `%`, legal in a Cookie header, makes `getAll` and `get` throw a `URIError`, as on `a=5%` |
| CookieUtil.Set | src/cookies.ts:17-23 | `set` changes the window and returns exactly as `SetStep` says |
| CookieUtil.Remove | src/cookies.ts:25-27 | `remove` changes the window and returns exactly as `RemoveStep` says |
| CookieUtil.GetAll | src/cookies.ts:31-39 | `getAll` changes the window and returns exactly as `GetAllStep` says |
| CookieUtil.Get | src/cookies.ts:41-47 | `get` changes the window and returns exactly as `GetStep` says |
| Persistore.Key | src/persistore.js:46 | the key is the prefix followed by the name |
| Persistore.KeyInjective | src/persistore.js:46 | two names give the same key exactly when they are equal |
| Persistore.UseStorageStep | src/persistore.js:12-27 | afterwards the flag is set and equals the answer. A flag already set is returned, and no call is made. Otherwise the answer is true exactly when neither `setItem` nor `removeItem` of the sentinel throws. After a throwing `setItem`, `removeItem` is never called. Cookies and the other area are untouched, and on success the area has no sentinel |
| Persistore.UseStorageMemoised | src/persistore.js:15-26 | a second `useStorage` returns the first answer and calls nothing |
| Persistore.IndexOfFinds | src/persistore.js:36-38 | `indexOf(x) !== -1` exactly when `x` occurs in the string |
| Persistore.SentinelFits | src/persistore.js:35 | the probe's cookie is within the length limit, so its `set` never throws for length |
| Persistore.ReadAfterRemove | src/persistore.js:38 | the last read passes exactly when it returns and the sentinel is gone |
| Persistore.ProbeAfterSet | src/persistore.js:36-38 | the probe after `set` passes exactly when the read returns and shows the sentinel, `remove` returns, and the second read returns without the sentinel; web storage is untouched |
| Persistore.CookieProbe | src/persistore.js:33-38 | the cookie probe passes exactly when no call throws, the sentinel is present after `set` and absent after `remove`; web storage is untouched |
| Persistore.UseCookiesStep | src/persistore.js:29-44 | afterwards `ca` is set and equals the answer. A set `ca` is returned, and no call is made. Otherwise the answer is true exactly when the cookie probe passes. Web storage is never touched |
| Persistore.UseCookiesMemoised | src/persistore.js:31-43 | a second `useCookies` returns the first answer and calls nothing |
| Persistore.Select | src/persistore.js:50-51 | web storage is chosen exactly when its flag is true; cookies exactly when it is false and `ca` is true; the map exactly when both are false. With the flag unset, web storage is chosen exactly when its probe passes. When it is not chosen and `ca` is unset, cookies are chosen exactly when the cookie probe passes on the window the storage probe left. Choosing web storage leaves the cookie untouched. The other area's flag, the map, the prefix and `ci` are unchanged, and a memoised choice changes nothing |
| Persistore.SelectMemoised | src/persistore.js:50-51 | once probed, the same backend is chosen again without a host call |
| Persistore.SetOn | src/persistore.js:50-52 | writes the key in exactly the given backend and leaves the other two alone |
| Persistore.SetStep | src/persistore.js:48-53 | stores the value under the prefixed key in exactly the chosen backend; only the written area changes, or only the cookie, or only the map; a host exception reaches the caller |
| Persistore.Truthy | src/persistore.js:58 | null and the empty string become undefined; every other item is returned unchanged |
| Persistore.GetStep | src/persistore.js:55-61 | reads the prefixed key from exactly the chosen backend and changes nothing beyond the probes and the read log |
| Persistore.RemoveStep | src/persistore.js:63-68 | deletes the prefixed key from exactly the chosen backend; the other two are left as the probes left them |
| Persistore.ConfigStep | src/persistore.js:70-79 | each given option overwrites its variable, including `''` and `false`; an absent option leaves its variable; the flags and the map are unchanged |
| Persistore.MemoryRoundTrip | src/persistore.js:48-61 | without web storage and cookies, `get` after `set` returns the value |
| Persistore.MemoryRemove | src/persistore.js:63-68 | without web storage and cookies, `remove` deletes the prefixed key and keeps every other name's entry |
| Persistore.StorageRoundTrip | src/persistore.js:48-61 | with web storage selected and calls that return, `get` after `set` returns the value, except that `''` comes back as undefined |
| Persistore.Store.constructor | src/access.js:9-19 | the record starts with every flag unset, no insecure flag, an empty map and an empty prefix |
| Persistore.Store.UseStorage | src/persistore.js:12-27 | `useStorage` updates the record and the window exactly as `UseStorageStep` says |
| Persistore.Store.UseCookies | src/persistore.js:29-44 | `useCookies` updates the record and the window exactly as `UseCookiesStep` says |
| Persistore.Store.ProbeCookies | src/persistore.js:33-38 | the probe sets `ca` and changes the window exactly as `CookieProbe` says |
| Persistore.Store.CheckSentinelSet | src/persistore.js:36-38 | `ca` is assigned after the first read and narrowed after the removal and the second read, ending as `ProbeAfterSet` says |
| Persistore.Store.CheckSentinelRemoved | src/persistore.js:38 | the second read narrows `ca` as `ReadAfterRemove` says |
| Persistore.Store.Choose | src/persistore.js:50-51 | the probes run in the order `Select` describes |
| Persistore.Store.Set | src/persistore.js:48-53 | `set` updates the record and the window exactly as `SetStep` says |
| Persistore.Store.Get | src/persistore.js:55-61 | `get` updates the record and the window exactly as `GetStep` says |
| Persistore.Store.Remove | src/persistore.js:63-68 | `remove` updates the record and the window exactly as `RemoveStep` says |
| Persistore.Store.Config | src/persistore.js:70-79 | `config` updates the record exactly as `ConfigStep` says |

## Left out

- `Access.storage(local)` and `Access.document()` (src/access.js:21-25) are folded into the host calls. A failure to obtain the storage object counts as that call throwing.
- The cookie jar of the browser is left abstract. `Host.merge` says what reading `document.cookie` returns after an assignment. The probe and the store's cookie backend both depend on it. Because the merge is unconstrained, no round trip through the store's cookie backend is proved. The round trip on the written string itself is proved by `Cookies.GetAfterSet` and `CookieUtil.GetAfterSet`.
- The `store` object is a map. Keys that collide with `Object.prototype` members, such as `__proto__`, are not modelled.
- Strings are sequences of Unicode scalar values, so lone UTF-16 surrogates cannot be expressed. The `URIError` that `encodeURIComponent` throws on them is therefore not modelled. `length` is still counted in UTF-16 code units.
- Exception messages are left out. The length error carries only the two numbers; host exceptions are one `HostThrew` value.
- Session keys are prefixed too. The code calls `_prefixed` on both paths (src/persistore.js:46), so the model does the same.
- `src/cookies.js` never reads the insecure flag, so the store always writes `Secure`. `config({insecure})` therefore only changes `ci`, which `Cookies` does not consult. test/cookies.js:62-68 expects the flag to drop `Secure`; the model follows the source.
- In `src/cookies.ts`, `Access.variables().ci` is passed to `CookieUtil` as the parameter `ci`.
- Concurrency and re-entrancy: the library is single-threaded, and every call is modelled as atomic.
