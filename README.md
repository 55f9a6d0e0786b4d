# Link encoder and user store, modelled in Dafny

This project models the core of a small browser toolbox in Dafny 4 and proves properties of the model.

**The smart URL encoder.** It cuts a URL at the separators `://` `.` `/` `?` `&` `=` `#` and keeps the separators. It drops empty pieces, emits a separator verbatim when the stateful test accepts it (see Findings) and passes everything else through one of six strategies:
- `hex` and `dec`: HTML numeric character references;
- `named`: the five HTML entities;
- `percent`: `encodeURIComponent`;
- `mixed`: a four-way cycle of the above per character;
- `custom`: a user-supplied character map.

**The batch run of the link encoder tool.** It checks the custom map, keeps the non-blank input lines, and encodes each line once or twice.

**The user store.** It holds the registered users and the active session, with login, logout, signup, user creation and deletion, renaming and password change.

**The output panel's text.** It lists the results as bare URLs, HTML anchors or Markdown links, and builds the CSV export.

Strings are JavaScript strings, i.e. sequences of UTF-16 code units (`Utf16.String`). `split`, `length`, `substring`, `charCodeAt`, `replace` and `encodeURIComponent` work on code units. The spread `[...s]` that the strategies iterate works on code points. `Utf16.Chars` models it by pairing a high surrogate with the low surrogate that follows it.

The separator test in the encoder is `separators.test(part)` on a regular expression with the global flag. Each call starts where the previous call left `lastIndex`: at the end of its match, or at 0 after a failed test. The model threads that index through the parts: `Tokenizer.Test` implements the RegExpBuiltinExec steps of ECMA-262, and `SmartEncoder.EncodeUrlSmart` keeps the index in a local variable.

The user store is a class (`AuthContext.AuthStore`) whose fields `users` and `user` every operation replaces. The class invariant `Valid` says the active session belongs to a listed user. Start-up establishes it and every operation keeps it.

The tool is a class (`LinkEncoder.LinkEncoderTool`) whose `HandleEncode` clears and then refills its `results`.

| file | module | models |
|---|---|---|
| `wrappers.dfy` | `Wrappers` | `Option` and `Result`, for thrown errors |
| `utf16.dfy` | `Utf16` | code units, `[...s]`, `toString(16/10)`, `split` on one unit, `trim` |
| `percent_encoding.dfy` | `PercentEncoding` | `encodeURIComponent` and its inverse |
| `strategies.dfy` | `Strategies` | the six strategies and the `encoders` table |
| `tokenizer.dfy` | `Tokenizer` | the separator expression, `split` by it, `filter`, `test` |
| `smart_encoder.dfy` | `SmartEncoder` | `encodeUrlSmart`, as written and as its comment intends |
| `link_encoder.dfy` | `LinkEncoder` | `handleEncode` |
| `auth_context.dfy` | `AuthContext` | `AuthProvider` |
| `output_panel.dfy` | `OutputPanel` | `formatResults` and the CSV text of `exportToCsv` |

The error values of `AuthContext.AuthError` stand for these thrown messages:

- `InvalidCredentials`: 'Invalid username or password.'
- `UsernameTaken`: 'Username already exists.'
- `CannotDeleteSelf`: 'You cannot delete your own account.'
- `NotLoggedIn`: 'Not logged in'
- `IncorrectPassword`: 'Incorrect current password.'

The link encoder tool runs the encoder as written (`SmartEncoder.SmartEncoded`), because the tool's results are what the code produces. `SmartEncoder.AsWrittenIsIntendedWithoutAdjacentSeparators` says when that output agrees with the intended encoder.

## Model

| member | source | states |
|---|---|---|
| Utf16.CharsJoin | workflow/services/encodingService.ts:5 | the characters `[...s]` yields join back to s exactly |
| Utf16.CharsOfNoPairs | workflow/services/encodingService.ts:5 | without surrogate pairs, `[...s]` yields the code units one by one |
| Utf16.Digits | workflow/services/encodingService.ts:5-6 | `n.toString(base)` is non-empty, made of digits of the base, with no leading zero |
| Utf16.DigitsRoundTrip | workflow/services/encodingService.ts:5-6 | reading the digits of `n.toString(base)` gives n back |
| Utf16.SplitOn | workflow/tools/LinkEncoderTool.tsx:52 | `split('\n')` gives at least one piece; no piece holds a line feed; joining the pieces with line feeds gives the input back |
| Utf16.SplitJoin | workflow/tools/LinkEncoderTool.tsx:52 | splitting what was joined gives the pieces back when none holds the separator |
| Utf16.Trim | workflow/tools/LinkEncoderTool.tsx:52 | `trim()` drops leading and trailing white space and line terminators; `TrimEmptyIffBlank` says when nothing is left |
| Utf16.TrimEmptyIffBlank | workflow/tools/LinkEncoderTool.tsx:52 | `line.trim() === ''` exactly when every code unit is white space or a line terminator |
| PercentEncoding.PairCodePoint | workflow/services/encodingService.ts:13 | a surrogate pair stands for a code point in 0x10000..0x10FFFF |
| PercentEncoding.Utf8 | workflow/services/encodingService.ts:13 | a code point has one to four UTF-8 octets, each below 0x100 |
| PercentEncoding.HexUpper | workflow/services/encodingService.ts:13 | an escape digit is one of 0-9 A-F and stands for its value |
| PercentEncoding.EscapeBytes | workflow/services/encodingService.ts:13 | every octet becomes exactly three code units `%XX` |
| PercentEncoding.EscapeBytesUpper | workflow/services/encodingService.ts:13 | each octet is written `%` followed by two upper-case hexadecimal digits |
| PercentEncoding.EncodeURIComponent | workflow/services/encodingService.ts:13 | `encodeURIComponent`: unreserved units kept, other code points escaped as UTF-8 octets, a throw on a lone surrogate; its properties are the lemmas below |
| PercentEncoding.EncodeURIComponentAppend | workflow/services/encodingService.ts:13 | on a + b the call escapes a then b, and throws exactly when one half would, unless a ends in a high surrogate |
| PercentEncoding.PercentOfChar | workflow/services/encodingService.ts:13 | one character alone: an unreserved unit is kept, any other code point is escaped as its UTF-8 octets, a lone surrogate throws |
| PercentEncoding.EncodePercent | workflow/services/encodingService.ts:11-17 | the `percent` strategy: the call's output, or the segment itself when it throws |
| PercentEncoding.ThrowsIffLoneSurrogate | workflow/services/encodingService.ts:11-17 | `encodeURIComponent` throws exactly when the segment holds a lone surrogate |
| PercentEncoding.PercentKeepsLoneSurrogateSegment | workflow/services/encodingService.ts:14-16 | the fallback returns a segment with a lone surrogate unchanged |
| PercentEncoding.PercentKeepsUnreserved | workflow/services/encodingService.ts:13 | A-Z a-z 0-9 `- _ . ! ~ * ' ( )` pass unchanged |
| PercentEncoding.PercentRoundTrip | workflow/services/encodingService.ts:11-17 | without lone surrogates, `decodeURIComponent` undoes the encoding |
| Strategies.FirstUnits | workflow/services/encodingService.ts:5-6 | a reference names the first code unit of its character, one reference per character |
| Strategies.EncodeHex | workflow/services/encodingService.ts:5 | `hex`: one `&#x..;` reference per character of `[...s]`; its properties are HexRoundTrip, RefsAppend, RefOfCodeUnit and HexOfAstral |
| Strategies.EncodeDec | workflow/services/encodingService.ts:6 | `dec`: one `&#..;` reference per character of `[...s]`; its properties are DecRoundTrip, RefsAppend and RefOfCodeUnit |
| Strategies.NumericRefsRoundTrip | workflow/services/encodingService.ts:5-6 | reading a run of references back gives the first unit of every character |
| Strategies.HexRoundTrip | workflow/services/encodingService.ts:5 | `hex` output reads back as the first units of the characters, so as the string itself when it has no surrogate pairs |
| Strategies.DecRoundTrip | workflow/services/encodingService.ts:6 | the same for `dec` |
| Strategies.RefOfCodeUnit | workflow/services/encodingService.ts:5-6 | a BMP character c becomes `&#x` + lower-case unpadded hex of c + `;`, or `&#` + decimal + `;` |
| Strategies.RefsAppend | workflow/services/encodingService.ts:5-6 | `hex` and `dec` work character by character: the output is the references of the characters, in order |
| Strategies.HexOfAstral | workflow/services/encodingService.ts:5-6 | a character above 0xFFFF is written as the reference to its high surrogate |
| Strategies.EncodeNamed | workflow/services/encodingService.ts:8-9 | `named`: the five HTML characters replaced by their entities, code unit by code unit; its properties are the three lemmas below |
| Strategies.NamedIdentityOnSafe | workflow/services/encodingService.ts:8-9 | `named` is the identity on strings without `& < > " '` |
| Strategies.NamedOutputSafe | workflow/services/encodingService.ts:8-9 | after `named` no `< > " '` is left, and every `&` begins one of the five entities |
| Strategies.NamedRoundTrip | workflow/services/encodingService.ts:8-9 | unescaping the five entities undoes `named`, so exactly those five characters were replaced |
| Strategies.EncodeCustom | workflow/services/encodingService.ts:24 | `custom`: `map[c] \|\| c` for each character of `[...s]`; its properties are the lemmas below |
| Strategies.CustomOfChar | workflow/services/encodingService.ts:24 | one character is written as its non-empty value in the map, or as itself |
| Strategies.CustomAppend | workflow/services/encodingService.ts:24 | `custom` works character by character: the output for a + b is the output for a followed by that for b |
| Strategies.CustomEachCharacter | workflow/services/encodingService.ts:24 | for any mix of mapped and unmapped characters, the output is `map[c] \|\| c` for each character, in order, and nothing else |
| Strategies.CustomKeepsUnmapped | workflow/services/encodingService.ts:24 | a character without a value, or with an empty one (`map[c] \|\| c`), is kept |
| Strategies.CustomWithoutMap | workflow/services/encodingService.ts:32 | with no map supplied, `custom` is the identity |
| Strategies.CustomIgnoresLongKeys | workflow/services/encodingService.ts:24 | keys that are not one character are never looked up |
| Strategies.CustomReplacesMapped | workflow/services/encodingService.ts:24 | a character with a non-empty value is replaced by exactly that value |
| Strategies.BasicIsCycle | workflow/services/encodingService.ts:19-22 | the i-th character goes through `[hex, dec, named, percent][i % 4]` |
| Strategies.EncodeMixed | workflow/services/encodingService.ts:19-22 | `mixed`: the characters through the four basic strategies in turn, by index; MixedCycles states it |
| Strategies.MixedCycles | workflow/services/encodingService.ts:19-22 | `mixed` is the concatenation of the single-character encodings chosen by index modulo 4, counted from 0 in every segment |
| Strategies.Encode | workflow/services/encodingService.ts:26-33 | every method encodes the empty string to itself |
| Tokenizer.MatchLength | workflow/services/encodingService.ts:41 | a match of the separator expression is 0, 1 or 3 code units long and fits in the string |
| Tokenizer.NonEmpty | workflow/services/encodingService.ts:44 | `filter(part => part)` loses no text, keeps no empty piece, and keeps exactly the non-empty pieces |
| Tokenizer.NonEmptyAppend | workflow/services/encodingService.ts:44 | the filter keeps the pieces in order and never merges them: it works on each half separately |
| Tokenizer.NonEmptyOne | workflow/services/encodingService.ts:44 | a single piece is kept exactly when it is not empty |
| Tokenizer.SplitFrom | workflow/services/encodingService.ts:44 | `split` by the expression with its capturing group: pieces and matches in order; SplitFromConcat and SplitFromFollowsMatches state its properties |
| Tokenizer.SplitFromConcat | workflow/services/encodingService.ts:44 | `split` with a capturing group loses nothing: the pieces and the kept separators join back to the string |
| Tokenizer.SplitFromWellSplit | workflow/services/encodingService.ts:44 | once empty pieces are dropped, every piece is a single separator or text with no match, and no two text pieces are adjacent |
| Tokenizer.Parts | workflow/services/encodingService.ts:41-44 | the parts of a URL concatenate back to the URL |
| Tokenizer.PartsWellSplit | workflow/services/encodingService.ts:41-44 | every part is a separator or non-empty content, and no two content parts are adjacent |
| Tokenizer.PartsFollowMatches | workflow/services/encodingService.ts:41-44 | no part boundary falls inside a match: each separator part is the match found at its offset, so `://` stays whole, and no match starts inside a content part |
| Tokenizer.SplitFromFollowsMatches | workflow/services/encodingService.ts:44 | the non-empty pieces of the split from any position follow the matches of the string |
| Tokenizer.FollowsMatchesUnique | workflow/services/encodingService.ts:41-44 | two lists of parts with the tokenizer's shape that follow the matches of the string are equal |
| Tokenizer.PartsUnique | workflow/services/encodingService.ts:41-44 | any list of parts with the tokenizer's shape that follows the matches of the URL is its `Parts`: the split is determined by the expression |
| Tokenizer.SchemeSeparatorIsOnePart | workflow/services/encodingService.ts:41-44 | `://` on its own is one part, because the expression tries `://` first |
| Tokenizer.ContentIsOnePart | workflow/services/encodingService.ts:44 | a string without any separator is one part |
| Tokenizer.EmptyHasNoParts | workflow/services/encodingService.ts:44 | the empty URL has no parts |
| Tokenizer.Test | workflow/services/encodingService.ts:48 | after `test`, a success leaves `lastIndex` inside the part and a failure leaves it at 0 |
| Tokenizer.TestOnParts | workflow/services/encodingService.ts:48 | content never matches; a separator matches from 0; a one-unit separator fails from 1 on; `://` matches from 1 and 2 |
| SmartEncoder.EncodeParts | workflow/services/encodingService.ts:46-53 | the `map` gives one output per part |
| SmartEncoder.SmartEncoded | workflow/services/encodingService.ts:35-54 | `encodeUrlSmart` as a value: the joined map over the parts from `lastIndex` 0; EncodeUrlSmart computes it and the lemmas below describe it |
| SmartEncoder.MapAndJoin | workflow/services/encodingService.ts:46-53 | the loop with its `lastIndex` variable computes the map with the stateful test, joined |
| SmartEncoder.EncodeUrlSmart | workflow/services/encodingService.ts:35-54 | `encodeUrlSmart` is the joined map over the parts, starting from `lastIndex` 0 |
| SmartEncoder.LastIndexStep | workflow/services/encodingService.ts:48 | each part is tested from the `lastIndex` the previous test left |
| SmartEncoder.EncodePartsAt | workflow/services/encodingService.ts:46-53 | part i of the output is part i when its test succeeds and its encoding otherwise |
| SmartEncoder.TestByShape | workflow/services/encodingService.ts:48 | on a tokenizer part, the test and the new `lastIndex` depend on the part's shape and the old index alone |
| SmartEncoder.ContentAlwaysEncoded | workflow/services/encodingService.ts:51-52 | every content part passes through the chosen encoder |
| SmartEncoder.SeparatorAfterContentKept | workflow/services/encodingService.ts:47-49 | a separator that is the first part, or follows content, is emitted verbatim |
| SmartEncoder.SingleSeparatorsAlternate | workflow/services/encodingService.ts:48 | of two adjacent one-unit separators, the second is verbatim exactly when the first is not |
| SmartEncoder.EmptyUrl | workflow/services/encodingService.ts:44-53 | the empty URL encodes to the empty string under every method |
| SmartEncoder.NoSeparatorEncodedWhole | workflow/services/encodingService.ts:44-53 | a URL without separators encodes to `encoders[method](url)` |
| SmartEncoder.EncodePartsIntended | workflow/services/encodingService.ts:46-53 | the map with a stateless test gives one output per part |
| SmartEncoder.SmartEncodedIntended | workflow/services/encodingService.ts:46-53 | the encoder as its comments describe it: every separator verbatim; IntendedKeepsEverySeparator states it |
| SmartEncoder.IntendedKeepsEverySeparator | workflow/services/encodingService.ts:47-52 | with a stateless test every separator is verbatim and every content part encoded |
| SmartEncoder.AsWrittenIsIntendedWithoutAdjacentSeparators | workflow/services/encodingService.ts:46-53 | when no two separators are adjacent, the encoder as written does what its comment says |
| SmartEncoder.SlashQuestionMarkUnderHex | workflow/services/encodingService.ts:41-53 | `/?` under `hex` becomes `/&#x3f;`, where every separator verbatim would give `/?` |
| LinkEncoder.MapGating | workflow/tools/LinkEncoderTool.tsx:38-49 | the map is read only when a method that runs is `custom`, and then the run aborts exactly when it is not an object |
| LinkEncoder.CustomMapFor | workflow/tools/LinkEncoderTool.tsx:38-49 | the map the run uses, `{}` when no method is `custom`, or an abort; MapGating states it |
| LinkEncoder.AsCustomMap | workflow/tools/LinkEncoderTool.tsx:41-42 | an object's fields, or an array's elements by one-digit index; ArrayMapByIndex states it |
| LinkEncoder.ArrayMapByIndex | workflow/tools/LinkEncoderTool.tsx:41-42 | an array passes as a map whose digit keys name its elements |
| LinkEncoder.NonBlank | workflow/tools/LinkEncoderTool.tsx:52 | the kept lines are exactly the non-blank input lines, untrimmed |
| LinkEncoder.UrlsToProcess | workflow/tools/LinkEncoderTool.tsx:52 | the non-blank lines of the input split at `\n`; LinesRoundTrip and BlankInputHasNoUrls state it |
| LinkEncoder.NonBlankAppend | workflow/tools/LinkEncoderTool.tsx:52 | the filter keeps the lines in input order |
| LinkEncoder.NonBlankKeepsAll | workflow/tools/LinkEncoderTool.tsx:52 | non-blank lines are all kept |
| LinkEncoder.LinesRoundTrip | workflow/tools/LinkEncoderTool.tsx:52 | lines joined by `\n` are read back as the same lines |
| LinkEncoder.BlankInputHasNoUrls | workflow/tools/LinkEncoderTool.tsx:52-58 | an input of blank lines leaves nothing to process |
| LinkEncoder.EncodeLine | workflow/tools/LinkEncoderTool.tsx:68-71 | the encoding of one line: method 1, then method 2 on its output when double encoding |
| LinkEncoder.EncodeOne | workflow/tools/LinkEncoderTool.tsx:68-71 | a line is encoded with method 1, then with method 2 when double encoding |
| LinkEncoder.EncodeAll | workflow/tools/LinkEncoderTool.tsx:60-77 | one result per line, in order, holding the line and its encoding |
| LinkEncoder.LinkEncoderTool.constructor | workflow/tools/LinkEncoderTool.tsx:12-18 | the tool starts with its inputs and no results |
| LinkEncoder.LinkEncoderTool.HandleEncode | workflow/tools/LinkEncoderTool.tsx:31-82 | results cleared; a rejected map or no lines leave them empty; otherwise `results[i]` is line i and its encoding |
| AuthContext.AvatarOf | workflow/contexts/AuthContext.tsx:83 | the avatar is empty for an empty name; otherwise it is the first code unit, with a-z upper-cased to A-Z and any other unit kept |
| AuthContext.FindCredentials | workflow/contexts/AuthContext.tsx:54 | a user is found exactly when some listed user has that name and password, and it is the first such user in the list |
| AuthContext.FindById | workflow/contexts/AuthContext.tsx:113 | a user is found exactly when the id is listed, and it is the first user with that id |
| AuthContext.WithoutId | workflow/contexts/AuthContext.tsx:95 | the filter keeps exactly the users with another id |
| AuthContext.WithoutIdAppend | workflow/contexts/AuthContext.tsx:95 | the filter keeps the remaining users in order |
| AuthContext.WithoutUnknownId | workflow/contexts/AuthContext.tsx:91-97 | deleting an unknown id changes nothing |
| AuthContext.Renamed | workflow/contexts/AuthContext.tsx:102 | only the users with the id change, and only their name and avatar |
| AuthContext.WithPassword | workflow/contexts/AuthContext.tsx:117 | only the users with the id change, and only their password |
| AuthContext.InitialUsers | workflow/contexts/AuthContext.tsx:24-33 | the list after start-up: the stored list, or the admin alone when none or an empty one is stored; InitSeedsAdmin states it |
| AuthContext.InitialSession | workflow/contexts/AuthContext.tsx:35-45 | the session after start-up: the stored one when its id is listed; InitDropsStaleSession states it |
| AuthContext.InitSeedsAdmin | workflow/contexts/AuthContext.tsx:24-33 | no or an empty stored list gives exactly the admin; a stored list is kept; an unreadable one leaves the store empty |
| AuthContext.InitDropsStaleSession | workflow/contexts/AuthContext.tsx:35-45 | a stored session survives exactly when its id is listed |
| AuthContext.InitSessionListed | workflow/contexts/AuthContext.tsx:35-45 | after start-up the session belongs to a listed user |
| AuthContext.StaleLoginFails | workflow/contexts/AuthContext.tsx:70-73 | the login inside `signup` searches the list from before the new user and finds nothing |
| AuthContext.FreshLoginSucceeds | workflow/contexts/AuthContext.tsx:70-89 | on the updated list the same login finds the new user |
| AuthContext.AuthStore.constructor | workflow/contexts/AuthContext.tsx:19-51 | mount plus start-up effect; the session belongs to a listed user |
| AuthContext.AuthStore.Login | workflow/contexts/AuthContext.tsx:53-63 | succeeds exactly when name and password match; the session becomes that user, online, without password; on failure nothing changes |
| AuthContext.AuthStore.Logout | workflow/contexts/AuthContext.tsx:65-68 | the session ends and the list is untouched |
| AuthContext.AuthStore.CreateUser | workflow/contexts/AuthContext.tsx:75-89 | fails exactly on a taken name; otherwise appends one offline user with the password and avatar |
| AuthContext.AuthStore.Signup | workflow/contexts/AuthContext.tsx:70-73 | on a fresh name the user is appended and the call still fails with invalid credentials |
| AuthContext.AuthStore.SignupIntended | workflow/contexts/AuthContext.tsx:70-73 | on a fresh name the user is appended and logged in |
| AuthContext.AuthStore.DeleteUser | workflow/contexts/AuthContext.tsx:91-98 | fails exactly on the session's own id; otherwise removes every user with the id |
| AuthContext.AuthStore.UpdateUser | workflow/contexts/AuthContext.tsx:100-109 | fails when logged out; otherwise renames the session's user in the list and in the session |
| AuthContext.AuthStore.UpdatePassword | workflow/contexts/AuthContext.tsx:111-120 | fails when logged out or when the current password is not the stored one; otherwise changes only that password |
| OutputPanel.Label | workflow/components/OutputPanel.tsx:17 | the label is the original when at most 30 units long, else its first 27 units and `...`; never longer than 30 |
| OutputPanel.FormatLine | workflow/components/OutputPanel.tsx:16-26 | one result as a bare URL, an HTML anchor or a Markdown link; AnchorRoundTrip and LinkRoundTrip state what it carries |
| OutputPanel.FormattedLines | workflow/components/OutputPanel.tsx:16-26 | one formatted line per result, in order |
| OutputPanel.FormatResults | workflow/components/OutputPanel.tsx:14-15 | no results give the empty text |
| OutputPanel.UrlFormatLines | workflow/components/OutputPanel.tsx:23-27 | the `url` text split at line feeds is the encoded URLs, in order |
| OutputPanel.AnchorRoundTrip | workflow/components/OutputPanel.tsx:19-20 | the `html` anchor carries the encoded URL unescaped as href and the label as text |
| OutputPanel.LinkRoundTrip | workflow/components/OutputPanel.tsx:21-22 | the `markdown` link carries the label unescaped as text and the encoded URL as target |
| OutputPanel.DoubleQuotes | workflow/components/OutputPanel.tsx:33 | doubling quotes never shortens a value |
| OutputPanel.DoubleQuotesWithoutQuotes | workflow/components/OutputPanel.tsx:33 | a value without quotes goes into its field unchanged |
| OutputPanel.QuotedRoundTrip | workflow/components/OutputPanel.tsx:33 | halving the doubled quotes recovers the value, up to the closing quote |
| OutputPanel.FieldRoundTrip | workflow/components/OutputPanel.tsx:33 | a quoted field reads back as its value |
| OutputPanel.RowRoundTrip | workflow/components/OutputPanel.tsx:33 | a row reads back as its result |
| OutputPanel.CsvRows | workflow/components/OutputPanel.tsx:33 | one row per result, in order |
| OutputPanel.JoinedRowsRoundTrip | workflow/components/OutputPanel.tsx:33 | rows joined by `\n` read back as the results |
| OutputPanel.CsvText | workflow/components/OutputPanel.tsx:30-34 | the exported text: the header and the rows joined by `\n`, or nothing for no results; CsvRoundTrip and NoResultsNoCsv state it |
| OutputPanel.CsvRoundTrip | workflow/components/OutputPanel.tsx:30-34 | header plus rows reads back as the results, whatever quotes, commas or line feeds they hold |
| OutputPanel.NoResultsNoCsv | workflow/components/OutputPanel.tsx:31 | no results, no file |

## Left out

- `localStorage` reads and writes. What storage held at start-up is the input `Stored<T>`; writes are dropped.
- `JSON.parse`. Its outcome is an input value: `LinkEncoder.ParsedCustomMap` for the custom map and `AuthContext.Stored` for storage.
- `Date.now()`. The id of a new user is a parameter.
- The `await setTimeout` delay, the progress percentage (floating point), the log messages, the sound and the loading flag of the tool.
- React rendering. State updates take effect at once. The one place where a stale closure matters, `signup`, is modelled with the stale list.
- The Blob, download link and clipboard calls of the output panel, and its tab state.
- `LinkEncoder.AsCustomMap`: non-string values in the parsed map are not modelled. JavaScript would turn them into text in the output.
- `LinkEncoder.AsCustomMap`: array elements are looked up only by the one-digit indices, the only keys a one-character lookup can hit.
- `AuthContext.AvatarOf`: upper-cases ASCII letters only. `toUpperCase` also maps other letters, some of them to two units (`ß` to `SS`).
- `AuthContext.InitialUsers`: a stored value that parses but is not a list of users is not modelled.
- `AuthContext.InitialSession`: the stored session is taken as it is, without checking its fields.
- `Tokenizer.Test`: the regular expression engine is modelled for this one expression only.
- `Strategies.DecodeNumericRefs` reads the number of a reference literally. It is a partner for the round-trip lemmas only. The character-reference rules of section 13.2.5.80 of the WHATWG HTML Living Standard would remap 0, 0x80–0x9F and surrogates.
- The other tools, pages and components of the application (S3 link generator, chat, settings, forms and layout).

## Findings

| source | as written | input that shows it | evidently intended | confidence | as-written member | corrected member |
|---|---|---|---|---|---|---|
| workflow/services/encodingService.ts:41-49 | `separators` has the global flag, so `test` resumes at the `lastIndex` of the previous part; a one-unit separator right after a verbatim separator is tested from index 1, fails, and is encoded | `encodeUrlSmart('/?', 'hex')` gives `/&#x3f;` | every separator part returned as is, as the comment at line 47 says: `/?` | high; not executed | SmartEncoder.SlashQuestionMarkUnderHex | SmartEncoder.IntendedKeepsEverySeparator |
| workflow/contexts/AuthContext.tsx:70-73 | `signup` calls `login`, which searches the `users` captured before `createUser` appended the new user | `signup('bob', 'pw')` on the seeded store appends `bob` and throws 'Invalid username or password.' | the new user is logged in | high; not executed | AuthContext.StaleLoginFails | AuthContext.FreshLoginSucceeds |
