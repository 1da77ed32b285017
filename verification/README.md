# Question card colours and like state, in Dafny

This project models the two pieces of logic in the flashcard app's question card:

- **The colour converters** (`features/converters/button-converters.ts`).
  `getLevelColor` turns a difficulty level's `"r,g,b"` text into a CSS colour `rgb(r, g, b)`.
  `getTextColor` picks dark (`#333`) or light (`#FFF`) text for a `#rrggbb` background by its weighted brightness.
- **The like state of a question card** (`components/QuestionCard.tsx`).
  The card keeps a local `like` flag. An effect keeps that flag in step with the store's set of liked question ids.
  The like button's handler `handleLike` asks the server to like or dislike the question, then inserts or removes the id.

Everything is pure functions over immutable values:

- `wrappers.dfy`: `Option`. It stands for JavaScript's `undefined`, `null` and `NaN`.
- `js_strings.dfy`: the string built-ins the converters use: `split(",")`, `substring` and a one-character `replace`. `Split` is paired with `Join`, its inverse on comma-free fields.
- `js_parse_int.dfy`: `parseInt(s, 16)` as section 19.2.5 of ECMA-262 defines it. It skips white space, reads an optional sign and an optional `0x` prefix, then the longest run of hex digits. `None` is `NaN`.
- `hex_channels.dfy`: a colour channel written as two hex digits, and what `parseInt` reads back from short texts.
- `button_converters.dfy`: `GetLevelColor` and `GetTextColor`, with their lemmas.
- `question_card.dfy`: the store value, the card state, the effect (`Sync`), the handler (`HandleLike`), and presses over time (`Press`, `PressAll`).

The brightness test `(299 r + 587 g + 114 b) / 1000 > 128` is computed in whole numbers as `299 r + 587 g + 114 b > 128000`.
`GetTextColor`'s contract restates it with exact division, so both forms agree.
For the channel values involved (at most 255, at least -15), the source's floating-point division is exact enough that the two tests also agree.

The remote mutations are modelled as the request they send, plus an `Outcome` parameter: the awaited promise either resolves (`Resolves`) or rejects (`Rejects`).
The store actions `addQuestionId` and `removeQuestionId` come from a slice that is not part of this model.
They are assumed to insert into and delete from the set, which stays a genuine `Set`.

In a few places the code does not do what a reader might expect. The model follows the code:

- One might expect the like set to be updated optimistically, before the server answers. The code updates the store only after the awaited request returns, and not at all if the request's promise rejects (`HandleLike`, `RejectedPressChangesNothing`).
- One might expect a toggle to be blocked until the user id has loaded. The code never looks at `userId`, so a request can go out with `userId` still `null` (`HandleLikeIgnoresUserId`, `RequestWithoutUserId`).
- A colour with fewer than six hex digits is not always `NaN`. With five digits the blue channel reads the single fifth digit (`FiveDigitColor`). Only four characters or fewer after the `#` force light text (`ShortColorIsLight`).
- `replace("#", "")` removes the first `#` wherever it stands, not only a leading one (`TextColorRemovesFirstHashAnywhere`).

## Model

| member | source | states |
|---|---|---|
| JsStrings.Split | features/converters/button-converters.ts:15 | `split(",")` always yields at least one field, so `fields[0]` always exists |
| JsStrings.JoinSplit | features/converters/button-converters.ts:15 | joining the fields with commas gives back the original text |
| JsStrings.SplitJoin | features/converters/button-converters.ts:15 | splitting a comma-join of comma-free fields gives back exactly those fields |
| JsStrings.SplitFieldsCommaFree | features/converters/button-converters.ts:15 | no field produced by `split(",")` contains a comma |
| JsStrings.SplitFirstField | features/converters/button-converters.ts:15 | a comma-free text before the first comma becomes the first field, whole |
| JsStrings.JoinAppend | features/converters/button-converters.ts:15 | joining two runs of fields puts exactly one comma between their joins |
| JsStrings.SplitFieldCount | features/converters/button-converters.ts:15 | a text has exactly one field more than it has commas |
| JsStrings.SplitCommaFree | features/converters/button-converters.ts:15 | a text without commas is a single field, itself |
| JsStrings.SplitAppend | features/converters/button-converters.ts:15 | the fields of `a + "," + b` are the fields of `a` followed by the fields of `b` |
| JsStrings.Substring | features/converters/button-converters.ts:25-27 | `substring` returns at most `end - start` characters: the exact slice when in range, and the empty string past the end |
| JsStrings.RemoveFirstLength | features/converters/button-converters.ts:24 | `replace` of one character removes one character when the character occurs, and none otherwise |
| JsStrings.RemoveFirstAbsent | features/converters/button-converters.ts:24 | a text without the character is returned unchanged |
| JsStrings.RemoveFirstCutsFirst | features/converters/button-converters.ts:24 | exactly the first occurrence is cut out, wherever it stands |
| JsParseInt.ParseIntHex | features/converters/button-converters.ts:25-27 | `parseInt(_, 16)` of the empty text, as `substring` gives past the end, is `NaN` |
| JsParseInt.ParseTwoDigits | features/converters/button-converters.ts:25-27 | two hex digits parse as 16 times the first digit plus the second |
| HexChannels.ParseDigitPair | features/converters/button-converters.ts:25-27 | the hex digit pair at any position parses as that byte |
| HexChannels.Hex2RoundTrip | features/converters/button-converters.ts:25-27 | every channel value 0..255, written as two hex digits, parses back to itself |
| HexChannels.ParseShortBounds | features/converters/button-converters.ts:25-27 | a channel text of at most two characters parses to `NaN` or to a value in [-15, 255] |
| HexChannels.ParseTwoDigitText | features/converters/button-converters.ts:25-27 | when both characters of a channel are digits, the channel is a byte in [0, 255] |
| HexChannels.ParseOneDigitText | features/converters/button-converters.ts:25-27 | when only one digit is read, after a sign or a space, the channel lies in [-15, 15] |
| ButtonConverters.GetLevelColor | features/converters/button-converters.ts:8-20 | a non-string level gives `rgb(0, 0, 0)`; a string always gives some `rgb(r, g, b)` |
| ButtonConverters.LevelColorOfFields | features/converters/button-converters.ts:15-19 | with at least three comma-free fields, the colour is `rgb(f0, f1, f2)`, with the fields copied verbatim, neither trimmed nor validated |
| ButtonConverters.LevelColorIgnoresExtraFields | features/converters/button-converters.ts:15-18 | appending `",x"` to a level with at least two commas does not change the colour |
| ButtonConverters.LevelColorOneField | features/converters/button-converters.ts:15-18 | a level without commas gives `rgb(f, undefined, undefined)` |
| ButtonConverters.LevelColorTwoFields | features/converters/button-converters.ts:15-18 | a level with one comma gives `rgb(f0, f1, undefined)` |
| ButtonConverters.LevelColorOfOneNumber | features/converters/button-converters.ts:15-18 | `"5"` gives `rgb(5, undefined, undefined)` |
| ButtonConverters.LevelColorThreeFields | features/converters/button-converters.ts:15-19 | `f0 + "," + f1 + "," + f2` with comma-free fields gives `rgb(f0, f1, f2)` |
| ButtonConverters.GetTextColor | features/converters/button-converters.ts:23-30 | the result is `#333` or `#FFF`; it is `#333` exactly when all three channels parse and their weighted sum divided by 1000 exceeds 128 |
| ButtonConverters.ChannelOfDigits | features/converters/button-converters.ts:24-27 | after a leading `#`, channel k is the byte spelled by the hex digit pair at position 2k |
| ButtonConverters.ChannelTextOfDigits | features/converters/button-converters.ts:24-27 | after a leading `#`, channel k is read from exactly the two characters at position 2k |
| ButtonConverters.TextColorOfDigits | features/converters/button-converters.ts:24-29 | for `#` followed by six hex digits, dark text exactly when 299 r + 587 g + 114 b > 128000, with r, g and b read as digit pairs |
| ButtonConverters.TextColorOfColorHex | features/converters/button-converters.ts:25-29 | encoding channels r, g, b as `#rrggbb` and deciding gives dark text exactly when 299 r + 587 g + 114 b > 128000 |
| ButtonConverters.TextColorMonotone | features/converters/button-converters.ts:28-29 | raising any channel of a valid colour never turns dark text into light text |
| ButtonConverters.TextColorOfBlack | features/converters/button-converters.ts:28-29 | `#000000` gets `#FFF` |
| ButtonConverters.TextColorOfWhite | features/converters/button-converters.ts:28-29 | `#FFFFFF` gets `#333` |
| ButtonConverters.ShortColorIsLight | features/converters/button-converters.ts:25-29 | with four or fewer characters left after the `#`, the blue channel is `NaN`, the comparison is false, and the text is `#FFF` |
| ButtonConverters.FiveDigitColor | features/converters/button-converters.ts:25-29 | `#fffff` reads its blue channel from the one fifth digit and gets `#333` |
| ButtonConverters.TextColorIgnoresTail | features/converters/button-converters.ts:24-27 | characters after the sixth one after `#` never affect the result |
| ButtonConverters.TextColorRemovesFirstHashAnywhere | features/converters/button-converters.ts:24 | with no `#` in `a`, `a + "#" + b` gets the same text colour as `"#" + a + b` |
| QuestionCard.Sync | components/QuestionCard.tsx:37-46 | when not fetching, with a truthy id and a store exposing `has`, `like` becomes the id's membership; otherwise `like` keeps its value; the store is never touched |
| QuestionCard.AddQuestionId | components/QuestionCard.tsx:73 | the store stays a `Set`; afterwards `has(id)` is true and `has` answers as before for every other id |
| QuestionCard.RemoveQuestionId | components/QuestionCard.tsx:70 | the store stays a `Set`; afterwards `has(id)` is false and `has` answers as before for every other id |
| QuestionCard.HandleLike | components/QuestionCard.tsx:65-83 | a request is sent iff the store is a `Set` and the id is truthy; its payload is `{questionId, userId}`; it is a dislike iff the id is in the set; if the request's promise rejects or none is sent, nothing changes and an error is logged; on success only the id's membership flips; the `like` flag is not touched |
| QuestionCard.ToggleTwiceRestores | components/QuestionCard.tsx:68-73 | two successful presses on the same question restore the card exactly |
| QuestionCard.HandleLikeIgnoresUserId | components/QuestionCard.tsx:67-73 | the resulting store, the log and the kind of request are the same for every `userId` |
| QuestionCard.RequestWithoutUserId | components/QuestionCard.tsx:67-73 | with `userId` still `null`, a like or dislike request is sent all the same, carrying `null` |
| QuestionCard.EmptyIdIsMissing | components/QuestionCard.tsx:38-67 | an empty-string question id behaves exactly like an undefined one, in both the effect and the handler |
| QuestionCard.SetLikeStoreIsReadOnly | components/QuestionCard.tsx:38-67 | a store with `has` that is not a `Set` is read by the effect but refused by the handler: no request and no change |
| QuestionCard.PressFlipsLike | components/QuestionCard.tsx:37-73 | after a successful press, the re-run effect shows the opposite of the previous flag, which equals the id's new membership |
| QuestionCard.RejectedPressChangesNothing | components/QuestionCard.tsx:65-82 | a press whose request promise rejects leaves the store and the synced flag unchanged |
| QuestionCard.SyncIdempotent | components/QuestionCard.tsx:37-46 | running the effect again changes nothing |
| QuestionCard.UnsyncedCardIsNotLiked | components/QuestionCard.tsx:35-46 | until the effect sees a loaded question, a truthy id and a usable store, `like` keeps its initial `false` |
| QuestionCard.PressAllFlips | components/QuestionCard.tsx:65-83 | over any run of presses: one request per press, each for this question and user; the id's membership flips once per resolved request; every other id keeps its membership; the store stays a `Set` |

## Left out

- Rendering: the JSX, `CardTopContent`, `CardLikeButton` and the style sheets of `components/QuestionCard.tsx`. They are presentation only.
- The user-id effect (`components/QuestionCard.tsx:51-63`) and `features/hooks/useUserId.ts`. They are asynchronous storage reads; `userId` is an input (`Props.userId`) that may be `null`.
- The like and dislike mutations. They belong to an API client that is not part of this model. They appear only as the `Request` sent and an `Outcome`.
- What a refused request does. `Rejects` is a rejected promise, the only case that reaches the handler's `catch`. Whether a request the server refuses rejects, or resolves with an error value, depends on the API client. If it resolves, the handler still updates the store, and the model counts it as `Resolves`.
- `addQuestionId` and `removeQuestionId`: their slice is not part of this model. They are assumed to be set insert and delete.
- Effect scheduling. `Press` always re-runs the effect after the handler. React re-runs it only when a dependency changed, and `SyncIdempotent` shows the two agree.
- Concurrent presses whose requests interleave. Presses are modelled one after another.
- The `console.error` output of `handleLike`. Only which complaint is logged is modelled (`Complaint`), not its text.
- The `console.error` that `getLevelColor` writes for a non-string level (`features/converters/button-converters.ts:11`). Only the returned colour is modelled.
- JavaScript strings are UTF-16 code units. Here a `char` is a Unicode scalar value, which differs only outside the Basic Multilingual Plane.
- Floating point in `parseInt` results and in the brightness division. `parseInt` is modelled exactly on whole numbers, which is exact for channel texts of at most two characters.
- Loading the like set in bulk and replacing it on a new session. That code is not part of this model; the store value is an input (`LikeStore`).
- `components/deck/DeckInfo.tsx`, `store/reducer/splash-animation-slice.ts` and `constants/i18n/i18n.config.ts`. They hold layout, configuration or a single assignment.
- `app/(tabs)/index.tsx`. It lies outside the modelled core. It holds `filterDecks`, a case-insensitive search of decks by name and promo (lines 46-51), and the bulk load of the like set (lines 130-135).
