# OpenID student-records lookup, modelled in Dafny

This project models the logic of a Google Apps Script web application. Students and staff sign in
through the New Taipei City OpenID provider (OpenID Authentication 2.0 with the Simple Registration
1.1 extension). The application then shows the rows that mention them in every data sheet of a
spreadsheet. Settings come from a configuration sheet named `環境設定`.

The modules follow the two script files:

- `Config` (`config.dfy`) covers `getSystemConfig`. It folds the configuration rows into the
  defaults, then injects the provider endpoint and the school-name restriction. The method
  reassigns a settings value row by row, as the script does. It is proved equal to the
  specification function `Configure`, and the properties are lemmas about that function.
- `Records` (`records.dfy`) covers `fetchUserData`. It has the sheet loop, the row loop (first
  match, then stop) and the header loop, as three methods. Each is proved equal to a
  specification function (`Lookup`, `FirstMatch`, `BuildRecord`).
- `OpenId` (`openid.dfy`) covers `getLoginUrl` and the pure parts of `verifyAuthentication`:
  - the `checkid_setup` link, with a parse-back lemma;
  - the `check_authentication` parameter override;
  - the `is_valid:true` acceptance test.
- `Drive` (`drive.dfy`) covers `extractDriveId`: three regular-expression attempts, written as a
  leftmost search with a greedy run of ID characters.
- `App` (`app.dfy`) covers the decisions of `doGet` and `handleCallback`:
  - the routing order;
  - the lookup key derived from the e-mail;
  - the access check;
  - verification before access before session creation.

  Sessions are a partial map from token to user record. The provider's answer to the
  verification POST and the fresh token are inputs.
- `Text`, `Uri`, `Grid` and `Wrappers` hold the ECMAScript built-ins the scripts rely on:
  - `trim` with the exact WhiteSpace and LineTerminator set;
  - `toLowerCase` on ASCII;
  - `indexOf`, and `split`/`join` on one character;
  - `encodeURIComponent`/`decodeURIComponent` with UTF-8 (RFC 3629) and the RFC 3986 unreserved
    set plus `! * ' ( )`;
  - the sheet grid and an `Option` type.

Two behaviours of the code are easy to miss:

- The access check at Code.js:101 is a substring test (`indexOf(KEYWORD) === -1`). With keyword
  `北市` it therefore accepts `新北市立Y國小` as well as `台北市立X國小` (`App.SubstringNotPrefix`).
- Any exception during the sheet scan makes the whole lookup `null`, not just the sheet that
  failed (Code.js:173-176). The model assumes reads do not fail (see "Left out").

## Model

| member | source | states |
|---|---|---|
| Text.TrimStart | Config.js:27 | the result is no longer than the input and does not start with white space |
| Text.TrimEnd | Config.js:27 | the result is no longer than the input and does not end with white space |
| Text.TrimStartRemovesSpace | Config.js:27 | leading trim keeps a suffix of the input, and every removed character is white space |
| Text.TrimEndRemovesSpace | Config.js:27 | trailing trim keeps a prefix of the input, and every removed character is white space |
| Text.TrimIsSlice | Code.js:156 | `trim` returns one contiguous slice of its input, and everything outside that slice is white space |
| Text.TrimEnds | Code.js:156 | a trimmed string neither starts nor ends with white space |
| Text.TrimIdempotent | Code.js:89-90 | trimming an already trimmed e-mail changes nothing |
| Text.LowerChar | Code.js:136 | the result is never an ASCII capital, and only an ASCII capital is changed |
| Text.LowerCharTable | Code.js:136 | each capital `A`–`Z` maps to the lower-case letter at the same place in the alphabet |
| Text.ToLowerIdempotent | Code.js:156 | lower-casing twice equals lower-casing once, and the result holds no ASCII capital |
| Text.NormalizeIdempotent | Code.js:136 | trim-then-lower-case is idempotent, so the normalised key compares like the normalised cells |
| Text.IndexOfFrom | Code.js:101 | the result is -1 or an index where the needle occurs, and no earlier index at or after the start holds it |
| Text.IndexOfSpec | Code.js:101 | `indexOf !== -1` holds iff the needle occurs somewhere, and the index given is the first occurrence |
| Text.IndexOfEmpty | Code.js:101 | the empty string occurs at index 0 of every string |
| Text.FirstCharMissing | Code.js:101 | a needle whose first character is absent from the text is not found |
| Text.ContainsInfix | Code.js:197 | a needle occurs in any text built around it |
| Text.Split | Config.js:36 | `split` gives at least one part, and no part contains the separator |
| Text.SplitJoin | Code.js:72 | joining separator-free parts and splitting again gives the same parts back |
| Text.JoinSplit | Config.js:36 | joining the parts of a split with the same separator rebuilds the text |
| Text.BeforeFirst | Code.js:90 | the result holds no separator and is either the whole text or the prefix before its first separator |
| Text.SplitHead | Code.js:90 | `split(sep)[0]` is the text before the first separator |
| Text.BeforeFirstSplit | Code.js:74 | the text before the first `?` of `endpoint + "?" + query` is the endpoint, when the endpoint holds no `?` |
| Uri.Utf8RoundTrip | Code.js:71 | the UTF-8 bytes of a code point announce their own length in the lead byte and decode back to that code point |
| Uri.HexRoundTrip | Code.js:71 | every upper-case hexadecimal digit written reads back as its value and is itself an unreserved character |
| Uri.PercentBytesCharset | Code.js:71 | an escaped byte run is three characters per byte, starts with `%`, and uses only `%` and unreserved characters |
| Uri.DecodeEncode | Code.js:71 | `decodeURIComponent(encodeURIComponent(s)) == s` for every string |
| Uri.Encode | Code.js:71 | `encodeURIComponent`; specified by `Uri.DecodeEncode` (decoding undoes it) and `Uri.EncodeCharset` (only unreserved characters and `%`) |
| Uri.EncodeCharset | Code.js:71 | `encodeURIComponent` output holds only unreserved characters and `%`, so never `&` or `=` |
| Uri.PairRoundTrip | Code.js:71 | an encoded `key=value` component holds no `&` and splits on `=` and decodes back to the same pair |
| Uri.QueryRoundTrip | Code.js:70-72 | splitting the built query on `&` and `=` and decoding gives exactly the pairs, in order |
| OpenId.LoginUrl | Code.js:49-75 | the link is `#` iff the script URL is empty; otherwise it starts with the endpoint and `?`, and `OpenId.LoginUrlRoundTrip` fixes the query behind it |
| OpenId.LoginUrlRoundTrip | Code.js:54-74 | the link is `#` iff the script URL is empty; otherwise it parses back into the endpoint and exactly the eight declared pairs in order |
| OpenId.LoginUrlFields | Code.js:59-68 | read back from the link, `return_to` and `realm` are the script URL, the mode is `checkid_setup`, `claimed_id` is identifier-select and the sreg list is the declared one |
| OpenId.LoginParamsFields | Code.js:59-68 | the first occurrence of each of those keys among the declared pairs carries that value |
| OpenId.EndpointHasNoQuery | Config.js:46 | the injected provider endpoint contains no `?` |
| OpenId.ReturnToExample | Code.js:71 | `:` inside the return URL is written as `%3A` |
| OpenId.VerifyParams | Code.js:185-186 | the `check_authentication` replay; specified by `OpenId.VerifyParamsFidelity` |
| OpenId.VerifyParamsFidelity | Code.js:185-186 | the replayed fields are the callback's fields plus `openid.mode`, which is `check_authentication`; every other field is copied unchanged |
| OpenId.IsValidResponse | Code.js:197 | the acceptance test; specified by `OpenId.IsValidResponseSpec` and `OpenId.NegativeResponses` |
| OpenId.IsValidResponseSpec | Code.js:197 | the assertion is accepted iff `is_valid:true` occurs somewhere in the response body |
| OpenId.NegativeResponses | Code.js:197 | an empty body and `is_valid:false` are both rejected |
| Config.DedupeSpec | Config.js:37 | `[...new Set(...)]` leaves no name twice and loses none |
| Config.DedupeKeepsPrefix | Config.js:37 | a duplicate-free prefix keeps its place at the head of the de-duplicated list |
| Config.DedupeFixed | Config.js:37 | a list without duplicates is unchanged by de-duplication |
| Config.ApplyRowsStep | Config.js:26-40 | folding one more row is applying that row to the fold of the earlier rows |
| Config.Configure | Config.js:18-54 | the configuration a sheet gives; `Config.GetSystemConfig` computes it, and the lemmas below state what it holds |
| Config.GetSystemConfig | Config.js:18-54 | the loop computes the configuration of the rows in order; the restriction is enabled with the final school name as keyword; the endpoint is the fixed one; the excluded list has no duplicates and starts with the four defaults |
| Config.ExcludedInvariant | Config.js:6-13 | for any configuration sheet, the excluded list is duplicate-free, starts with the defaults and contains `環境設定` |
| Config.ExcludedRows | Config.js:34-38 | applying rows never removes or reorders excluded names already present, and never introduces a duplicate |
| Config.UnrecognisedRowsKeepDefaults | Config.js:7-13 | with no configuration sheet, or only unrecognised keys, the result is the defaults plus the fixed endpoint and restriction |
| Config.ApplyRowField | Config.js:27-33 | a row sets a field to its column-1 value exactly when its trimmed key names that field, and leaves every other field and the excluded list alone |
| Config.ApplyKindField | Config.js:30-33 | the same, stated for the classified key |
| Config.UnsetFieldKept | Config.js:26-33 | a field that no row names keeps its starting value |
| Config.LastRowWins | Config.js:26-33 | a field ends with the column-1 value of the last row that names it |
| Config.KeywordIsFinalSchoolName | Config.js:47-51 | the restriction keyword is the value of the last `學校名稱` row, and the restriction is enabled with the fixed message |
| Config.ExcludedRowMerge | Config.js:34-38 | an empty `排除工作表` value changes nothing; otherwise the old list stays as a prefix, the new list holds exactly the old names and the trimmed parts, and it has no duplicates |
| Config.ExcludedAccumulate | Config.js:34-38 | names from every `排除工作表` row, and every starting name, are still excluded after all rows |
| Config.KeyTable | Config.js:30-34 | both left-logo keys set the left logo, both right-logo keys set the right logo, and the keys match exactly (`學校` is not `學校名稱`) |
| Records.FirstMatchFrom | Code.js:155-166 | the result is the first data row at or after the start whose normalised column 0 equals the key, or none exists |
| Records.Lookup | Code.js:136-171 | the result of `fetchUserData`; specified by `Records.NullWhenNothingMatched`, `Records.CollectKeys` and `Records.CollectValue`, and computed by `Records.FetchUserData` |
| Records.FindRow | Code.js:155-167 | the row loop with its `break` finds the first matching data row and never the header row |
| Records.BuildRowData | Code.js:158-163 | the header loop builds the header-to-cell record of the specification |
| Records.FetchUserData | Code.js:134-177 | the sheet loop computes the lookup, never returns an empty object, and never returns an excluded sheet |
| Records.ExcludedNeverReturned | Code.js:147 | no excluded sheet name is a key of the results |
| Records.CollectStep | Code.js:144-168 | visiting one more sheet adds its record under its name, or leaves the results unchanged |
| Records.CollectKeys | Code.js:144-168 | a name is in the results iff some sheet of that name is not excluded, has two rows or more, and has a matching data row |
| Records.CollectValue | Code.js:164 | the record stored under a name is the one from the last sheet of that name that produced a record |
| Records.NullWhenNothingMatched | Code.js:171 | the result is never an empty object, and it is `null` iff no sheet produced a record |
| Records.FirstMatchWins | Code.js:155-165 | a sheet's record is built from its first matching data row; later matches are ignored |
| Records.NoMatchNoRecord | Code.js:155-167 | a sheet with no matching data row contributes nothing |
| Records.RecordKeys | Code.js:159-163 | a record's keys are exactly the non-empty header cells |
| Records.RecordValue | Code.js:159-163 | each header maps to the cell in the column of its last occurrence among the headers |
| Drive.RunLength | Code.js:259 | the greedy run of ID characters stays inside the text |
| Drive.RunSpec | Code.js:259 | every character of the run is an ID character, and the run stops at the end or at a non-ID character |
| Drive.SearchFrom | Code.js:259 | the result is the leftmost position where the anchor and at least 25 ID characters match, or no position matches |
| Drive.CaptureIffMatch | Code.js:259-264 | a pattern captures an ID iff it matches somewhere |
| Drive.CaptureSpec | Code.js:259-264 | the capture follows the anchor at the leftmost match, is a substring of the input of at least 25 ID characters, and is maximal |
| Drive.ExtractDriveId | Code.js:255-271 | the three ordered attempts; specified by `Drive.ExtractDriveIdSpec`, `Drive.BareIdReturnedAsIs` and `Drive.ShortRunsGiveNull` |
| Drive.ExtractDriveIdSpec | Code.js:255-270 | any result is a run of at least 25 ID characters; the share-link pattern wins, then `?id=`/`&id=`, then the whole input; `null` iff all three fail |
| Drive.BareIdReturnedAsIs | Code.js:268 | a bare ID of at least 25 ID characters is returned unchanged |
| Drive.ShortRunsGiveNull | Code.js:255-270 | input without a run of 25 ID characters gives `null` |
| Drive.RunCoversIdChars | Code.js:268 | the run from a position reaches the end iff every character from there on is an ID character |
| App.RouteOf | Code.js:6-28 | the routing decision; specified by `App.RouteSpec` |
| App.RouteSpec | Code.js:6-44 | a truthy token that resolves takes the profile path; otherwise exactly `openid.mode == "id_res"` takes the callback path; everything else lands |
| App.CallbackKey | Code.js:89-90 | the callback's lookup key; specified by `App.CallbackKeySpec` |
| App.CallbackKeySpec | Code.js:89-90 | the lookup key is the trimmed text before the first `@` of the trimmed e-mail, holds no `@`, and is empty for an empty e-mail |
| App.SessionKey | Code.js:9 | the refresh lookup key; `App.SessionKeyAgrees` shows it equals the callback's key for the stored e-mail |
| App.SessionKeyAgrees | Code.js:9 | the key derived on refresh from the stored e-mail equals the key the callback used |
| App.Restricted | Code.js:101 | the access check; specified by `App.RestrictedSpec` |
| App.RestrictedSpec | Code.js:101 | rejected iff the restriction is on, the school is non-empty, and the keyword occurs nowhere in it; an empty keyword or an empty or missing school always passes |
| App.SubstringNotPrefix | Code.js:101 | with keyword `北市`, both `台北市立X國小` and `新北市立Y國小` pass |
| App.KeywordMissingRejects | Code.js:101 | with keyword `北市`, a school named without it is rejected |
| App.HandleCallback | Code.js:80-128 | the callback; specified by `App.CallbackOrder` |
| App.CallbackOrder | Code.js:80-128 | a failed verification ends the callback before the access check; a session is created iff verification and the access check both pass; a rejection echoes the school; a success shows the callback key's records under the new token |
| App.DoGet | Code.js:1-44 | the whole request; specified by `App.SessionsOnlyFromCallback` and `App.RefreshAfterLogin` |
| App.SessionsOnlyFromCallback | Code.js:1-44 | only the callback path creates a session; a resolved token never depends on the verification answer; the landing page carries the login link |
| App.RefreshAfterLogin | Code.js:6-22 | after a successful login, a request carrying only the new token shows the same user and the same records under the same token |

## Left out

- HTML templating, page titles, meta tags and the inline error pages are left out as presentation. Each page is reduced to what decides its content: user, records and token; the failure; the restriction message and school; or the login link.
- `getLogoBase64` is left out: it fetches from Drive, encodes base64, reads the MIME type and uses the cache. Only the `extractDriveId` step it uses is modelled. The logo images on the landing page are not modelled.
- Session storage is modelled as a map from token to user record. The script cache's 3600-second lifetime, the UUID generator, the `SESSION_` key prefix and the JSON round trip are not modelled. A field missing from the callback is `None`, which JSON storage also drops and restores as missing.
- The verification POST through `UrlFetchApp` is not modelled. The response body is an input to `App.HandleCallback`. A transport failure that throws, rather than returning an error page, leaves `doGet` with an exception and is not modelled.
- Spreadsheet access is not modelled. Sheets and the configuration sheet are values, and reads are assumed not to fail. The `try`/`catch` in `fetchUserData` that turns any exception into `null` for the whole lookup is therefore not represented.
- Records.FetchUserData: the result maps are unordered. JavaScript object key order, and with it the order in which sheets are listed on the page, is not captured.
- Cells are strings. The `String(...)` coercion of numbers and dates is not modelled. A cell past the end of a row reads as `""`, where JavaScript reads `undefined`.
- Config.GetSystemConfig: a configuration row with a single column sets a field to `""` instead of `undefined`.
- Text.LowerChar: `toLowerCase` is modelled on ASCII letters only. Other letters are kept unchanged, where JavaScript would also lower-case them.
- Uri.Encode: Dafny characters are Unicode scalar values. The `URIError` that `encodeURIComponent` raises for a lone surrogate cannot arise, and UTF-16 code units are not modelled.
- OpenId.LoginUrl: a script URL the platform cannot tell (`null`) is modelled as the empty string. Both give `#`.
- `getSystemConfig` is called again on every request and may read different rows each time. The model passes the configuration as a parameter.
- `include`, `Logger` and `console.warn` are output only and are left out.
