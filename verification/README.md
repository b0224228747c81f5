# Session bootstrap, OAuth redirect handling and Enscript escaping, in Dafny

This project models two small pieces of logic in the synscript repository and proves
properties of them.

1. **The mobile client's session logic** in `testdata/App.js`:
   - the reducer handed to `useReducer`, with its initial state `{isLoading: true, isSignout: false, user: null}`
     and its write to the shared auth-context handle (module `Session`);
   - the start-up routine `bootstrap`, with its try/catch/finally (module `Bootstrap`);
   - the redirect URI computed from `Linking.makeUrl()`, and the `urlOpener` hook that repairs the
     callback URL on iOS (module `AuthUrls`).
2. **The highlighter's Enscript escaping** in `src/main.rs`: `strip_trailing_newline` and
   `as_enscript_escaped`, which turns a line's highlighted regions into Enscript escape directives
   around the text (module `Enscript`).

Shared helpers live in `Wrappers` (Option, Result) and `Strings` (prefix, suffix, occurrence and
counting lemmas).

How the model is built:
- The reducer is split in two. `Session.Reduce` is a pure function giving the next state, or the
  TypeError JavaScript throws when an identity-changing action has no `authContext`.
  `Session.Dispatch` is the method that also writes the handle, an `AuthContext` object.
- An action is the record `{kind, user, authContext}`. The reducer switches on the `kind` string,
  like the source does, so an unknown type falls to the default case.
- `Bootstrap.Bootstrap` runs the try/catch/finally and returns the log of what it did: the actions
  dispatched and the permission requests made. Its inputs are the restore outcome (the user, or
  `None` when `Auth.currentAuthenticatedUser()` rejects) and whether the bar-code permission
  request rejects.
- `Enscript.AsEnscriptEscaped` appends to a string in a loop, as the Rust does. It is proved
  against the function `Escaped`, which is the in-order concatenation of one `Chunk` per region.
- The float formatting of foreground channels is the parameter `channelText`. The decimal
  formatting of background bytes is modelled exactly (`DecimalText`), with a round-trip proof.

Points where the code does something other than its names suggest; the model follows the code:
- A successful restore dispatches `SIGN_IN`, not `RESTORE_TOKEN` (testdata/App.js:152). So
  `isLoading` stays true until `APP_READY`, and the handle is written.
- A failed restore dispatches `MISSING_TOKEN` without `authContext` (testdata/App.js:156), so the
  reducer throws. See Findings.
- The local-network test is the literal prefix `exp://1`, not a port check. `exp://localhost:…`
  and `exp://2…` fall through to the wide-area branch (`RedirectUrlExamples`).
- The custom-scheme test is the prefix `squirtle`, with no `://`.
- On a non-iOS platform, or a result that is not `success`, `urlOpener` returns nothing and opens
  nothing. It does not return the URL unchanged.
- The repair replaces only the first `:///?`. It is idempotent when that separator occurs at most
  once (`FixIdempotentOnSingleOccurrence`), but not in general: `a:///?b:///?` changes again on
  a second repair (`FixNotIdempotent`).
- The two permission requests are not independent. When the bar-code request rejects, control
  jumps to the outer `catch`, so the location request is never made.

## Model

| member | source | states |
|---|---|---|
| `Session.Reduce` | testdata/App.js:86-123 | The reducer fails exactly when an action that changes identity (MISSING_TOKEN, SIGN_IN, SIGN_OUT) has no `authContext`. Whenever it writes the handle, the value written is the user of the state it returns. |
| `Session.Dispatch` | testdata/App.js:86-123 | The result is the reducer's. For an identity-changing action the handle ends up holding the new state's user. Otherwise the handle is unchanged. |
| `Session.HandleWrite` | testdata/App.js:95-120 | The value stored into `action.authContext.user`: there is one exactly for MISSING_TOKEN, SIGN_IN and SIGN_OUT, and only SIGN_IN stores a user rather than null. |
| `Session.Replay` | testdata/App.js:85-129 | The reducer applied to dispatched actions in order, stopping at the first throw. The run throws if and only if some action changes identity without carrying a handle. |
| `Session.HandleAfter` | testdata/App.js:95-120 | The handle's user after a run, which stops at the first action that throws, as `Replay` does. It is unchanged when no action writes this handle. In a run where no action throws, and whose last action writes the handle, it is that action's value. |
| `Session.AppReadyEffect` | testdata/App.js:90-94 | APP_READY sets `isLoading` to false, keeps `user` and `isSignout`, and does not write the handle. |
| `Session.UnrecognisedIsNoOp` | testdata/App.js:121-122 | An action of any other type returns a state equal to the previous one and does not write the handle. |
| `Session.ClearUserEffect` | testdata/App.js:95-120 | MISSING_TOKEN and SIGN_OUT set `user` to null in the state and in the handle, and keep `isLoading`. SIGN_OUT sets `isSignout`; MISSING_TOKEN keeps it. |
| `Session.ClearUserIdempotent` | testdata/App.js:95-120 | Applying MISSING_TOKEN or SIGN_OUT twice gives the same state as applying it once. |
| `Session.RestoreTokenEffect` | testdata/App.js:101-106 | RESTORE_TOKEN(u) sets `user` to u and `isLoading` to false, keeps `isSignout`, and does not write the handle. |
| `Session.SignInEffect` | testdata/App.js:107-113 | SIGN_IN(u) puts u in the state and in the handle, sets `isSignout` to false and keeps `isLoading`. |
| `Session.LoadingNeverRaised` | testdata/App.js:89-123 | No action sets `isLoading` to true. |
| `Session.LoadingStaysOff` | testdata/App.js:85-129 | Once `isLoading` is false, it stays false over any sequence of actions. |
| `Session.ReadyEndsLoading` | testdata/App.js:90-106 | After any sequence containing an APP_READY or a RESTORE_TOKEN, `isLoading` is false. |
| `Session.LockstepPreserved` | testdata/App.js:95-120 | Over a run without RESTORE_TOKEN, where every action carries the same handle or none, the handle's user stays equal to the state's user. |
| `Bootstrap.Bootstrap` | testdata/App.js:147-173 | The first step dispatches SIGN_IN(user) when the restore succeeds and MISSING_TOKEN (without handle) when it throws. No later step is a session outcome. Permission requests follow; the location one is made iff the bar-code one did not reject. APP_READY is dispatched last and only there, so the log has 3 steps when the bar-code request rejects and 4 otherwise. Replaying the log from the initial state gives `{false, false, user}` after a restore, and the reducer's TypeError after a failed one. |
| `Bootstrap.BootstrapFixed` | testdata/App.js:150-157 | Same log shape and length, but MISSING_TOKEN carries the handle. Replaying from the initial state always ends `{isLoading: false, isSignout: false, user: restored}`, with the handle holding the same user. |
| `Bootstrap.ActionsKeepDispatched` | testdata/App.js:147-173 | The actions read off a bootstrap log are exactly those of its dispatched steps: each one is dispatched in the log, and every dispatched step's action is among them. |
| `Bootstrap.FreshLaunchSignInSignOut` | testdata/App.js:85-129 | From the initial state, a MISSING_TOKEN that carries the handle (as in `BootstrapFixed`) followed by APP_READY gives `{false, false, null}`. SIGN_IN(u) then gives `{false, false, u}`, and SIGN_OUT gives `{false, true, null}`. The same launch with the handle-less MISSING_TOKEN that `bootstrap` dispatches as written throws the TypeError. |
| `AuthUrls.RedirectUrl` | testdata/App.js:51-65 | The URL reported by `makeUrl` is a prefix of the redirect URI, which is longer by 0, 1 or 4 characters. |
| `AuthUrls.RedirectUrlFirstMatch` | testdata/App.js:56-65 | Each branch happens exactly when its test is the first to match: `exp://1` appends `/--/`; otherwise `squirtle` leaves the URL unchanged; otherwise `/` is appended. |
| `AuthUrls.RedirectUrlExamples` | testdata/App.js:56-64 | Shows a LAN, a native and a wide-area URL, and two development URLs that fall through to the wide-area branch: one on `localhost` and one on a LAN address starting with `2`. |
| `AuthUrls.IndexFrom` | testdata/App.js:42 | The search behind `String.prototype.replace` returns an index at which the pattern occurs, with no occurrence between the start and it. It returns none only when the pattern occurs nowhere from the start on. |
| `AuthUrls.ReplaceFirst` | testdata/App.js:42 | `String.prototype.replace` with a string pattern and a replacement that holds no `$`. A string without the pattern is returned unchanged; otherwise the result is shorter by the pattern's length and longer by the replacement's. |
| `AuthUrls.FixCallbackUrl` | testdata/App.js:42 | The repair of the callback URL either leaves it unchanged or shortens it by exactly one character (`:///?` becomes `://?`). |
| `AuthUrls.UrlOpener` | testdata/App.js:34-49 | A URL is opened exactly when the session result is `success` and the platform is iOS, and it is the repaired callback URL. |
| `AuthUrls.FixLeavesWellFormedUrl` | testdata/App.js:42 | The repair changes a URL if and only if the URL contains `:///?`. |
| `AuthUrls.FixReplacesFirstOnly` | testdata/App.js:42 | With `:///?` first at index i, the result is the URL with those five characters replaced by `://?`. Everything before and after is kept. |
| `AuthUrls.FixCallbackWithScheme` | testdata/App.js:40-42 | A callback `scheme:///?query` whose scheme has no colon becomes `scheme://?query`. |
| `AuthUrls.FixIdempotentOnSingleOccurrence` | testdata/App.js:42 | When `:///?` occurs at most once, repairing twice equals repairing once, because the repair creates no new occurrence. |
| `AuthUrls.FixNotIdempotent` | testdata/App.js:42 | A URL with `:///?` twice is changed by the first repair in its first occurrence only, and again by a second repair. |
| `AuthUrls.UrlOpenerExamples` | testdata/App.js:40-48 | On iOS a successful `squirtle:///?code=abc` opens `squirtle://?code=abc`. On Android, or after a dismissed session, nothing is opened. |
| `Enscript.StripTrailingNewline` | src/main.rs:17-22 | The result is a prefix of the input, shorter by at most two characters. |
| `Enscript.StripTrailingNewlineRemoves` | src/main.rs:17-22 | What is removed is a trailing `\r\n` if there is one, else a trailing `\n`; otherwise the input is returned unchanged. |
| `Enscript.CrlfTakesPrecedence` | src/main.rs:19-20 | `p + "\r\n"` becomes `p`: the `\r\n` is removed whole. |
| `Enscript.LoneNewlineRemoved` | src/main.rs:20 | `p + "\n"` becomes `p` when p does not end with `\r`. |
| `Enscript.LoneCarriageReturnKept` | src/main.rs:17-22 | A lone trailing `\r` is never removed. |
| `Enscript.DecimalText` | src/main.rs:34-35 | A byte prints as one or more decimal digits with no leading zero, and as a single digit exactly when it is below 10. |
| `Enscript.DecimalRoundTrip` | src/main.rs:34-35 | Reading the printed digits back gives the number. |
| `Enscript.ByteDecimalLength` | src/main.rs:34-35 | A byte takes at most three digits. |
| `Enscript.BackgroundDirective` | src/main.rs:31-38 | The background directive begins with `\bg{` and is 11 to 17 characters long: three decimal bytes of one to three digits, their separators and the closing `;}`. |
| `Enscript.FontDirective` | src/main.rs:44-50 | A font directive is emitted exactly when the style is italic or bold, and it opens with a NUL. |
| `Enscript.ColorDirective` | src/main.rs:54-59 | The colour directive opens with `\0color{` and closes with `}`. |
| `Enscript.Directives` | src/main.rs:31-59 | The directives in front of a region's text end with `}`. Without `bg`, they open with a NUL. |
| `Enscript.TextPart` | src/main.rs:28-66 | The text part of a chunk starts with the stripped text, and it ends with `\n` if and only if the region's text does. |
| `Enscript.Chunk` | src/main.rs:27-66 | One iteration's output. It ends with `\n` if and only if its region's text ends with `\n`. |
| `Enscript.Escaped` | src/main.rs:24-70 | The output for a list of regions is empty exactly when there are none. It ends with `\n` exactly when the last region's text does. |
| `Enscript.AsEnscriptEscaped` | src/main.rs:24-70 | The loop's result is the in-order concatenation of one chunk per region, and `""` for no regions. |
| `Enscript.EscapedAppend` | src/main.rs:27-67 | The output for a concatenation of region lists is the concatenation of their outputs. |
| `Enscript.EscapedAt` | src/main.rs:27-67 | Region i contributes exactly its own chunk, between the output of the regions before it and after it. |
| `Enscript.ChunkOfCrlfText` | src/main.rs:28-66 | For a text `p + "\r\n"`, the chunk ends with p, the font and colour resets, and a single `\n`. |
| `Enscript.ChunkOfLfText` | src/main.rs:28-66 | For a text `p + "\n"` where p does not end in `\r`, the chunk ends with p, the resets, and `\n`. |
| `Enscript.ChunkOfUnterminatedText` | src/main.rs:54-62 | A text without a trailing newline appears whole, immediately followed by `\0font{default}\0color{default}`, at the end of its chunk. |
| `Enscript.ChunkBackground` | src/main.rs:31-38 | With `bg`, a chunk begins with `\bg{r;g;b;}` built from the background bytes in decimal. Without `bg`, it begins with a NUL-introduced directive. |
| `Enscript.ChunkFont` | src/main.rs:44-50 | After the optional background directive: italic gives `\0font{Courier-Oblique@6}`; bold without italic gives `\0font{Courier-Bold@6}`; neither goes straight to `\0color{`. |
| `Enscript.DirectivesWithoutBackslash` | src/main.rs:44-59 | Without `bg`, and with channel texts free of backslashes, the directives before a text hold no backslash. |
| `Enscript.TextPartBackslashes` | src/main.rs:54-66 | The part of a chunk from the text on holds exactly the backslashes of the stripped text. |
| `Enscript.NoBackslashDirectives` | src/main.rs:31-62 | Without `bg`, and with channel texts free of backslashes, the output holds exactly the backslashes of the regions' stripped texts, so no `\bg` directive is emitted. |

## Findings

| source | as written | input that shows it | evidently intended | confidence | as-written member | corrected member |
|---|---|---|---|---|---|---|
| testdata/App.js:156 | When the session restore throws, `bootstrap` dispatches `MISSING_TOKEN` with no `authContext`. The reducer's MISSING_TOKEN case writes `action.authContext.user` (App.js:96), which throws a TypeError. | A cold start with no stored session, where `Auth.currentAuthenticatedUser()` rejects. | MISSING_TOKEN carries `authContext`, as SIGN_IN does on line 152, so the start ends signed out with the handle cleared. | high; not executed | `Bootstrap.Bootstrap` | `Bootstrap.BootstrapFixed` |

## Left out

- React rendering and navigation: the screen tree, `onNavigationReady`, and `return null` while loading (testdata/App.js:179-221). These are UI.
- `Amplify.configure`, the `Hub` logging listener and `createAuthContext`. These are calls into libraries that are not part of this model. `src/auth` is not part of this model, so `AuthContext` has only the `user` field the reducer writes.
- The awaited I/O calls become inputs: `Linking.makeUrl`, `Auth.currentAuthenticatedUser`, `WebBrowser.openAuthSessionAsync`, and the permission requests. The effects `WebBrowser.dismissBrowser` and `Linking.openURL` are represented only by the URL `UrlOpener` returns.
- `await SplashScreen.preventAutoHideAsync` (testdata/App.js:149) awaits the function without calling it, so it has no effect and is not modelled.
- Bootstrap.Bootstrap: takes no input for the location request's outcome. A rejection there lands in the outer `catch` with nothing left to skip, so it cannot change the log.
- Session.Reduce: does not separate JavaScript's `undefined` from `null` for an action's missing `user`. Both are `None`.
- AuthUrls.ReplaceFirst: models `String.prototype.replace` only for a replacement without `$`. The `$&`, `$$`, `` $` `` and `$'` substitution patterns are not modelled; the one call, with `://?` (testdata/App.js:42), holds none.
- AuthUrls.UrlOpener: assumes the session result is an object with a string `url`. A missing `url` on a `success` result is not modelled.
- Concurrency: dispatches are taken to be serialised, as React does. The asynchronous interleaving of `bootstrap` with other UI dispatches is not modelled.
- `console.log`/`console.warn` calls, which only log.
- `main()` in src/main.rs (lines 72-156): option parsing, loading syntaxes and themes, reading files, and printing. This is I/O plumbing over a library.
- Enscript.AsEnscriptEscaped: the float division and formatting of the foreground channels (src/main.rs:57-59) is the parameter `channelText`, not computed. `write!(…).unwrap()` on a `String` cannot fail and is modelled as plain appending.
