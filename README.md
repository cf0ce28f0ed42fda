# MultiPass extension core in Dafny

This project models the background script of the MultiPass browser extension
(`js/extension.js`). The extension answers HTTP Basic authentication
challenges with stored credentials. It keeps a per-tab table, `statuses`, that
records the current exchange of each tab, and it shows a toolbar badge whose
colour tells how the exchange is going. It also keeps a set of
header-injection rules in the browser's request-modification engine in step
with the credential store.

Modules, one per concern of the script:

- `Wrappers` (`wrappers.dfy`): an `Option` datatype and the `Byte` type.
- `Base64` (`base64.dfy`): base64 with the standard alphabet and padding
  (section 4 of RFC 4648), which is what `btoa` computes. It has an encoder,
  a decoder and the proof that decoding undoes encoding.
- `Credentials` (`credentials.dfy`): the credential record, and the
  `for...in`/`hasOwnProperty` loop that flattens the store's credential
  object into a list.
- `Rules` (`rules.dfy`): the pure part of `updateDynamicRules`. It builds one
  rule per credential, with ids 1..n and priority `Number(priority) || 1`.
  Each rule sets the `Authorization` header to the Basic credentials of
  section 2 of RFC 7617 and is restricted to `main_frame` loads matching the
  credential's pattern. The update asks to remove every previously
  installed rule id. Three loops of the source (flatten, map to ids, push
  rules with `idCounter++`) become the method `UpdateDynamicRules`, which is
  proved against the function `Synchronize`.
- `Extension` (`extension.dfy`): the class `Tracker` holds `statuses` as a
  `map<int, TabStatus>` field. Its methods `RetrieveCredentials` (the
  `onAuthRequired` handler) and `ShowBadge` update that map in place. They
  are proved against the pure functions `Challenged`, `Offer`, `BadgeFor`,
  `ColorFor` and `Badged`. The lemmas about those functions cover
  replace-or-increment, the retry ceiling `max_try = 5`, the colour
  precedence and eviction.

External inputs are parameters. The credential store's lookup result is the
`found` argument of `RetrieveCredentials`. The engine's current rules are the
`previousRules` argument of `UpdateDynamicRules`. `new RegExp(p).test(url)`
is the `matches` argument of `ShowBadge`. The effects on the browser are
returned values: the `AuthResponse`, the `Badge`, the `RuleUpdate`.

Behaviour of the code worth knowing:

- Credentials are offered on the first six challenges of one exchange
  (counts 0 to 5) and refused from the seventh on (count 6 > 5).
  `RetryCeiling` and `BadgeThroughRun` state this.
- `onCompleted` runs `suggester`, which does nothing, so only tab updates and
  tab activation refresh the badge.
- `setBadgeText` and `setBadgeBackgroundColor` get no tab id, so the badge is
  global. `ShowBadge` returns the badge to set and does not say which tab
  shows it.
- A repeated challenge keeps the stored credentials but answers from the
  fresh lookup. `Challenged`, `RunContinues`, `RunFresh` and
  `RepeatNothingFound` state this.

## Model

| member | source | states |
|---|---|---|
| `Base64.Encode` | js/extension.js:31 | the base64 text of n octets has 4·⌈n/3⌉ characters, each from the alphabet of section 4 of RFC 4648 or `=` |
| `Base64.RoundTrip` | js/extension.js:31 | decoding the base64 text of any octet string gives that string back, so `btoa` loses nothing |
| `Credentials.OwnValues` | js/extension.js:15-20 | the flattened list holds exactly the values of the object's own properties, and is no longer than the property list |
| `Credentials.OwnValuesAllOwn` | js/extension.js:16-19 | when every enumerated property is an own one, the list is their values, in enumeration order |
| `Credentials.CredentialList` | js/extension.js:15-20 | the `for...in` loop with the `hasOwnProperty` filter computes the own values, in order |
| `Rules.RulePriority` | js/extension.js:35 | the priority is never 0: an absent, non-numeric or zero priority becomes 1, and any other number is kept |
| `Rules.Ids` | js/extension.js:24 | the id list has one entry per rule, the i-th being the i-th rule's id |
| `Rules.AuthorizationValue` | js/extension.js:31-39 | the header value is `Basic ` followed by the base64 token of `username:password`, so it is 6 + 4·⌈(n+1)/3⌉ characters long for n octets of user name and password |
| `Rules.RuleFor` | js/extension.js:33-48 | the rule carries the given id, a priority that is never 0 (the credential's own when it is a non-zero number, 1 when absent or zero), one `set` of the `Authorization` header to the credential's Basic value, and the condition "`main_frame` loads matching the credential's pattern" |
| `Rules.RulesFrom` | js/extension.js:28-49 | the rule list has exactly one rule per credential |
| `Rules.RulesFromAt` | js/extension.js:26-34 | the rule at position i carries id `first + i` and is built from the i-th credential |
| `Rules.BuildRulesIds` | js/extension.js:26-34 | the built rules carry the ids 1, 2, ..., n, in order |
| `Rules.AuthorizationRoundTrip` | js/extension.js:31-39 | a server that parses the rule's `Authorization` value (strip `Basic `, decode, split at the first colon) gets the user name and password back, when the user name has no colon |
| `Rules.Synchronize` | js/extension.js:13-54 | the update lists the id of every previously installed rule for removal, in order, and adds, for the i-th own credential, the rule with id i+1 built from it |
| `Rules.UpdateDynamicRules` | js/extension.js:13-54 | the update removes the ids of all previously installed rules, in order, and adds, for each own credential in order, the rule with id i+1 built from the i-th credential |
| `Rules.SynchronizeReplacesAll` | js/extension.js:23-54 | applying the update leaves exactly the newly built rules installed, whatever was installed before, and the next update removes exactly the ids 1..n |
| `Rules.TwoCredentialsExample` | js/extension.js:28-48 | two own credentials give rules 1 and 2 with priorities 2 and 1 (absent priority) and the values `Basic dTE6cDE=` and `Basic dTI6cDI=` |
| `Extension.RepeatAfterChallenge` | js/extension.js:98-106 | the repeat test of the handler (same tab, same request id) reads the table: after a challenge, another challenge on the same tab continues the exchange exactly when it has the same request id, whatever the lookup found |
| `Extension.Challenged` | js/extension.js:98-106 | the same tab and request id adds 1 to the count and keeps the stored credentials and request id; otherwise the entry becomes the fresh lookup with count 0; other entries are unchanged |
| `Extension.Offer` | js/extension.js:108-113 | the answer is empty exactly when the fresh lookup is empty or the count exceeds 5; otherwise it is the first credential's user name and password |
| `Extension.ColorFor` | js/extension.js:82-85 | red exactly when the count exceeds 5; yellow exactly when within the ceiling with more than one credential; green otherwise |
| `Extension.BadgeFor` | js/extension.js:77-92 | the badge is cleared exactly when the tab has no entry, the entry has no credential, or the first credential's pattern does not match the URL; otherwise it shows the entry's colour |
| `Extension.Color.Hex` | js/extension.js:82-84 | the background is `#RRGGBB` with full red for red and yellow, full green for yellow and green, and no blue |
| `Extension.Badge.Text` | js/extension.js:87-90 | the badge text is empty exactly when the badge is cleared, and is the single space `' '` whenever it is shown |
| `Extension.Badged` | js/extension.js:89-91 | a cleared badge removes the tab's entry and no other; a shown badge leaves the table as it is |
| `Extension.Run` | js/extension.js:95-114 | a run of challenges answers each one, touches only the challenged tab's entry, and adds that entry if it was missing |
| `Extension.RunContinues` | js/extension.js:98-99 | within one exchange each challenge adds exactly 1 to the count and never resets it, the stored entry is otherwise unchanged, and each answer comes from that challenge's own lookup |
| `Extension.RunFresh` | js/extension.js:100-113 | a new exchange stores the first lookup's credentials for good, its count after n challenges is n−1, and the k-th answer is decided by the k-th lookup and count k |
| `Extension.RetryCeiling` | js/extension.js:11-113 | with non-empty lookups, the first six challenges of an exchange get the first credential found and every later one gets nothing |
| `Extension.BadgeThroughRun` | js/extension.js:82-85 | with one matching credential the badge is green for the first six challenges and red from the seventh on |
| `Extension.NothingFound` | js/extension.js:89-113 | a challenge that starts a new exchange and finds nothing is declined, and the next badge update clears the badge and drops exactly that tab's entry |
| `Extension.RepeatNothingFound` | js/extension.js:77-113 | a challenge that repeats the exchange and finds nothing is declined, yet the badge still shows and the entry stays, because the entry keeps the credentials the exchange started with |
| `Extension.Tracker.constructor` | js/extension.js:10 | the table starts empty |
| `Extension.Tracker.RetrieveCredentials` | js/extension.js:95-114 | the handler updates the table as `Challenged` says and returns `Offer` for the fresh lookup and the updated count |
| `Extension.Tracker.ShowBadge` | js/extension.js:77-93 | the method returns `BadgeFor` of the table before the call and leaves the table as `Badged` says |

## Left out

- The browser's APIs are not modelled as calls: `getDynamicRules`, `updateDynamicRules`, `tabs.get`, `setBadgeText`, `setBadgeBackgroundColor` and the listener registration in `init`. Their inputs are parameters and their effects are returned values, because they are foreign asynchronous I/O.
- `showBadgeForTab`, `showBadgeForTabId` and `showBadgeForStatus` are left out. They only resolve a tab id to its URL through `chrome.tabs.get` and call `showBadge`.
- The credential store (`getCredentials`, `register`) is foreign code. Its lookup result is an argument.
- Regular-expression matching (`new RegExp(...)`, `test`) is the browser's engine. It is a function parameter.
- `Extension.Tracker.ShowBadge`: `new RegExp(pattern)` throws on an invalid pattern, and `showBadge` then stops before setting the badge or deleting the entry. The matcher parameter is total, so the model always either shows the badge or clears it and drops the entry; this error path is not modelled.
- `Rules.SynchronizeReplacesAll`: `getDynamicRules` and `updateDynamicRules` are asynchronous. Two credential changes close together can both read the same installed rules, and the later update can then add ids it does not remove; the engine rejects that update, the source only logs it, and stale rules stay. The lemma holds for updates applied one after another; overlapping updates are not modelled.
- `suggester` is left out: every branch of it is empty, so it has no effect to state.
- Logging with `console.error` and `console.log` is left out. So is the engine's rejection of an update, which the source only logs.
- The engine's replace-by-id semantics is an assumption about foreign code, written as the function `Rules.ApplyUpdate`. The source does not implement it.
- `Rules.RulePriority`: priority is an optional integer. General `Number()` coercion of arbitrary values, including fractions and `NaN` spellings, is not modelled. `None` stands for every value that coerces to `NaN`.
- User names and passwords are byte strings, so `btoa` throwing on characters above U+00FF is not modelled.
- JavaScript's loose `==` on request ids is modelled as string equality, and tab ids as integers. Object keys are coerced to strings in the source.
- Removing entries when a tab closes is not modelled, because the source does not do it.
