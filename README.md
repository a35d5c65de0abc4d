# ClipVault clip-history store, in Dafny

ClipVault (Quantum-Clipboard) is an Electron tray application that watches the
system clipboard and keeps a searchable history of copied text and images. Its
main process keeps that history in a SQLite table `clips`. It polls the
clipboard every 450 ms and answers the renderer's IPC calls. This project models
that store:

- `insertClip` trims and de-duplicates text. It guards and de-duplicates PNG
  data URLs against the 40 most recent images.
- `getHistory` ranks pinned clips first, then newest first. It keeps at most 300
  and filters them by a case-insensitive substring query.
- `rowToClip` carries the columns over and parses `tagsJson` with the `safeJson`
  fallback.
- `fingerprintClipboard` and one tick of `pollClipboard` drive the watcher's
  `lastFingerprint` state machine.
- The `delete-clip`, `clear-all`, `toggle-pin` and `set-tags` handlers update
  rows by id.
- The `settings` table holds the popup shortcut and the theme. The
  `set-popup-shortcut` handler works through the global-shortcut registration.
- The popup window is placed inside the display's work area.

Files:

- `strings.dfy` has the JavaScript string operations the code relies on: `trim`
  (the exact ECMAScript white-space and line-terminator set), `toLowerCase`,
  `includes`, `join(",")` and number-to-decimal conversion.
- `encoding.dfy` has Node's hex and base64 renderings of a byte buffer.
- `clips.dfy` has the table as a sequence of rows, the two `ORDER BY` orders and
  the store invariant. It also has every row-level operation as a function over
  the rows, with its properties proved.
- `history.dfy` has `getHistory` and its properties.
- `watch.dfy` has the fingerprint and one polling tick.
- `vault.dfy` has class `ClipVault`, whose `rows` and `lastFingerprint` fields
  are updated in place. Each method is proved to leave exactly the state the
  matching function in `clips.dfy` or `watch.dfy` describes, and to keep the
  store invariant.
- `settings.dfy` has class `Preferences`, the theme merge and the popup
  placement.

The store invariant (`Clips.ValidRows`) says three things. Every row has the
shape `insertClip` writes: a text row holds trimmed, non-empty text, and an
image row holds an accepted PNG data URL. Ids are unique. No two text rows hold
the same text. Every mutation is proved to preserve it, given a fresh id for
inserts.

The SQL `ORDER BY` leaves the order among equal keys open. The model picks one
stable order to make queries concrete, but every stated property holds for any
order that respects the keys. So the contracts speak only of sortedness, of the
top-k property and of multisets.

Where the documented intent and the code differ, the model follows the code:

- A failed `set-popup-shortcut` leaves the stored setting as it was. It does
  not keep the previous key binding, because `registerShortcut` first calls
  `globalShortcut.unregisterAll()`. After a failure no shortcut is bound until
  the next successful call or restart (`Settings.Preferences.SetPopupShortcut`).
- The query `image` is not a kind filter. It lists every image, and also every
  text clip whose text or tags contain "image" (`History.ImageQueryListsText`).

## Model

| member | source | states |
|---|---|---|
| JsStrings.Trim | src/main/index.ts:142 | `trim()` returns a slice of the input. Only white space is cut off either end, and the result neither starts nor ends with white space. |
| JsStrings.TrimIdempotent | src/main/index.ts:337-338 | Trimming twice is trimming once, so the text the tick re-inserts from a `t:` fingerprint is already in its stored form. |
| JsStrings.TrimEmpty | src/main/index.ts:142 | The trimmed text is empty exactly when the input is all white space, which is the case where `insertClip` returns early. |
| JsStrings.ToLower | src/main/index.ts:182 | Lower-casing keeps the length and maps each character on its own. |
| JsStrings.Includes | src/main/index.ts:195 | `includes(q)` as a scan; `IncludesAt` and `IncludesPart` state what it means. |
| JsStrings.IncludesPart | src/main/index.ts:195 | A string includes every piece of a concatenation it is made of. |
| JsStrings.StartsWith | src/main/index.ts:159 | `startsWith(prefix)`: the string begins with the prefix. `Watch.DataUrl` and `Watch.FingerprintSpec` use it for the data-URL and fingerprint prefixes. |
| JsStrings.IncludesAt | src/main/index.ts:195 | `includes(q)` holds exactly when `q` occurs at some position. |
| JsStrings.JoinComma | src/main/index.ts:193 | `join(",")` starts with the first part; `JoinHasPart` states that every part appears in it. |
| JsStrings.JoinHasPart | src/main/index.ts:193 | Each tag appears as a contiguous piece of the comma-joined tag string. |
| JsStrings.Decimal | src/main/index.ts:163 | A length is rendered as a non-empty run of decimal digits with no leading zero. |
| JsStrings.DecimalInjective | src/main/index.ts:163 | Different lengths render differently, so the length part of a signature or fingerprint pins down the length. |
| JsStrings.DecimalWidth | src/main/index.ts:163 | Lengths below 1000 take at most 3 digits, and lengths from 1000 take at least 4. |
| Encoding.Hex | src/main/index.ts:320 | The hex rendering has two characters per byte. |
| Encoding.UnhexHex | src/main/index.ts:320 | Decoding inverts the hex rendering. |
| Encoding.HexInjective | src/main/index.ts:320 | Equal hex heads come from equal byte heads. |
| Encoding.Base64 | src/main/index.ts:349 | The base64 text has 4 characters per started group of 3 bytes. |
| Clips.RowToClip | src/main/index.ts:125-135 | Every column is carried over. Tags that do not parse become `[]` (the `safeJson` fallback); tags that parse are kept in order. |
| Clips.Sort | src/main/index.ts:184 | Ordering a result set rearranges it without adding or losing rows. |
| Clips.SortSorted | src/main/index.ts:184 | The ordered result set respects the `ORDER BY` keys. |
| Clips.TopSpec | src/main/index.ts:164-166 | `ORDER BY … LIMIT k` returns min(n, k) rows, sorted, taken from the table. No row it leaves out ranks strictly ahead of a row it returns. |
| Clips.Top | src/main/index.ts:164-166 | `ORDER BY … LIMIT k`, used by the recent-image scan and by the 300-row history query (lines 184-186); `TopSpec` states its meaning. |
| Clips.WithoutId | src/main/index.ts:149 | `DELETE … WHERE id=?` keeps exactly the rows with another id. |
| Clips.WithoutIdValid | src/main/index.ts:392 | Deleting by id keeps the store invariant. |
| Clips.WithoutAbsentId | src/main/index.ts:392 | Deleting an id that no row has changes nothing. |
| Clips.WithoutPresentId | src/main/index.ts:392 | In a valid store, deleting a present row's id removes exactly that one row. |
| Clips.WithoutTextValid | src/main/index.ts:146-149 | Dropping the text rows of one value keeps the store invariant. |
| Clips.WithoutText | src/main/index.ts:146-149 | What the text lookup followed by the delete by id does: every text row holding the trimmed text leaves, as `FindTextThenDelete` states, and `WithoutTextValid` shows the invariant is kept. |
| Clips.FindText | src/main/index.ts:146-148 | The text lookup finds a text row with that text, or reports that there is none. |
| Clips.FindTextThenDelete | src/main/index.ts:146-149 | Deleting the looked-up row by id removes every text row with that text. |
| Clips.FindRow | src/main/index.ts:404 | The id lookup finds the row with that id, or reports that the id is fresh. |
| Clips.InsertedText | src/main/index.ts:140-153 | The rows after a text `insertClip`, whose meaning `InsertedTextValid`, `InsertedTextBumps` and `InsertedTextCount` state. |
| Clips.InsertedTextValid | src/main/index.ts:140-153 | Blank text leaves the store unchanged, and any text insert keeps the store valid. |
| Clips.InsertedTextBumps | src/main/index.ts:141-153 | Non-blank text becomes one new unpinned, untagged row at `now`, holding the trimmed text, at the end. It is the only text row with that value, so any earlier row with it is gone, pin and tags included. Every other row is kept. |
| Clips.InsertedTextCount | src/main/index.ts:146-153 | In a valid store a text insert removes at most one row, the one the text lookup finds, and adds the new one. |
| Clips.Signature | src/main/index.ts:163 | The signature of the new data URL: its first 120 characters, ":" and its length. `SignatureMatch` states what it compares. |
| Clips.AcceptsImage | src/main/index.ts:159-160 | The two image guards: the `data:image/png;base64,` prefix and at least 3000 characters; `InsertedImageValid` makes a refused URL a no-op and `Watch.DataUrlAccepted` gives the PNG size that passes. |
| Clips.RowSignature | src/main/index.ts:169 | The signature of a stored row, where a NULL data URL signs as the empty one. `FirstMatchHead` states what the scan compares. |
| Clips.Images | src/main/index.ts:164-166 | `WHERE kind='image'` keeps exactly the image rows, each as often as the table holds it. |
| Clips.RecentImages | src/main/index.ts:164-166 | The 40 most recent images; `RecentImagesSpec` states what they are. |
| Clips.SignatureMatch | src/main/index.ts:163-169 | For an accepted URL, two signatures agree exactly when the URLs have the same length and the same first 120 characters. |
| Clips.FirstMatch | src/main/index.ts:168-174 | The scan stops at the first recent row with the given signature, or finds none. |
| Clips.FirstMatchHead | src/main/index.ts:168-174 | In terms of the data URLs, the scan stops at the first recent image with the same length and head. |
| Clips.RecentImagesSpec | src/main/index.ts:164-166 | The scan inspects min(40, number of image rows) image rows of the store, newest first. With fewer than 40 it inspects every image row; otherwise no image left out is newer than one inspected. |
| Clips.InsertedImage | src/main/index.ts:156-178 | The rows after an image `insertClip`, whose meaning `InsertedImageValid`, `InsertedImageAppends` and `InsertedImageReplaces` state. |
| Clips.InsertedImageValid | src/main/index.ts:156-178 | A URL without the PNG data-URL prefix, or shorter than 3000, leaves the store unchanged. Any image insert keeps the store valid. |
| Clips.InsertedImageAppends | src/main/index.ts:162-178 | With no recent image of the same length and head, the new row is appended and nothing is removed. |
| Clips.InsertedImageReplaces | src/main/index.ts:162-178 | Otherwise exactly one row is removed: the first such recent image. The new row is added and every other row is kept. |
| Clips.SetPinned | src/main/index.ts:406 | `UPDATE … SET pinned` changes the pin of the rows with that id and nothing else. |
| Clips.TagsSet | src/main/index.ts:413 | `UPDATE … SET tagsJson` gives the rows with that id exactly the new tags and changes nothing else. |
| Clips.PinToggled | src/main/index.ts:403-406 | The rows after `toggle-pin`, whose meaning `PinToggledSpec` and `PinToggledTwice` state. |
| Clips.PinToggledSpec | src/main/index.ts:403-409 | Toggling flips 0 and 1 on the row with that id and changes no other row, so an unknown id changes nothing. The store stays valid. |
| Clips.PinToggledTwice | src/main/index.ts:403-409 | Toggling the same id twice restores the store. |
| Clips.TagsSetValid | src/main/index.ts:411-416 | Setting tags keeps the store valid. |
| History.Filter | src/main/index.ts:192-196 | The filter keeps exactly the clips that match. `FilterSingle`, `FilterConcat` and `FilterSubsequence` state that it keeps them in their order. |
| History.FilterSingle | src/main/index.ts:192-196 | On one clip the filter keeps it exactly when it matches. |
| History.FilterConcat | src/main/index.ts:192-196 | Filtering a concatenation gives the concatenation of the filtered parts. So the filter decides clip by clip and keeps the input order; with `FilterSingle` this fixes the result completely. |
| History.FilterSubsequence | src/main/index.ts:192-196 | The filtered list is a subsequence of its input: nothing is reordered or repeated. |
| History.FilterOrdered | src/main/index.ts:192-196 | Filtering keeps the ranked order. |
| History.Matches | src/main/index.ts:192-195 | The filter condition; `TagQueryMatches`, `ImageQueryListsImages` and `ImageQueryListsText` state its consequences. |
| History.Ranked | src/main/index.ts:184-188 | The 300 highest-ranked rows as clips; `RankedOrdered`, `RankedFromRows`, `RankedKeepsFirst` and `RankedListsAll` state what they are. |
| History.GetHistory | src/main/index.ts:181-197 | `getHistory(query)`; `GetHistorySpec` states its result. |
| History.ToClips | src/main/index.ts:188 | `rows.map(rowToClip)` converts row by row. |
| History.RankedOrdered | src/main/index.ts:184-188 | The unfiltered history has min(n, 300) clips, pinned first and then newest first. |
| History.RankedFromRows | src/main/index.ts:184-188 | Every listed clip comes from a row of the store. |
| History.RankedKeepsFirst | src/main/index.ts:184-188 | No row beyond the 300 ranks strictly ahead of a listed clip. |
| History.RankedListsAll | src/main/index.ts:184-188 | With at most 300 rows, every row is listed. |
| History.GetHistorySpec | src/main/index.ts:181-197 | At most 300 clips, in rank order, as a subsequence of the ranked list. A blank query returns the ranked list unfiltered. Any other query returns exactly the ranked clips whose lower-cased text or comma-joined tags contain the trimmed, lower-cased query, plus images when it is `image`. |
| History.TagQueryMatches | src/main/index.ts:192-195 | Searching for one of a clip's tags, in any letter case, finds the clip. |
| History.ImageQueryListsImages | src/main/index.ts:195 | The query `image`, with any case and surrounding blanks, lists every ranked image. |
| History.ImageQueryListsText | src/main/index.ts:193-195 | The query `image` also lists a text clip reading "an image", so it is not a kind filter. |
| History.TagsSetThenHistory | src/main/index.ts:411-416 | After `set-tags`, the history shows that clip with exactly those tags in that order, and lists it when the store holds at most 300 rows. |
| Watch.Fingerprint | src/main/index.ts:309-325 | `fingerprintClipboard()`; `FingerprintSpec`, `ImageFingerprintMatch` and `TextFingerprintMatch` state what it distinguishes. |
| Watch.ImageFingerprint | src/main/index.ts:320-321 | `i:` + hex of the first 64 bytes + `:` + byte length; `ImageFingerprintMatch` states that two large PNGs collide exactly when they share the length and the head. |
| Watch.TickFingerprint | src/main/index.ts:329-333 | `lastFingerprint` after one tick; `TickNoOp` and `TickIdempotent` state its behaviour. |
| Watch.StepRows | src/main/index.ts:330-352 | The rows after the part of a tick that follows the fingerprint; `StepValid` states that it keeps the store valid. |
| Watch.TickRows | src/main/index.ts:327-353 | The rows after one tick; `TickNoOp`, `TickStoresText`, `TickImageThresholds` and `TickValid` state its behaviour. |
| Watch.DataUrl | src/main/index.ts:349 | The data URL starts with the PNG prefix and has 22 + 4·⌈n/3⌉ characters. |
| Watch.FingerprintSpec | src/main/index.ts:309-325 | Non-blank text always wins and gives `t:` plus the trimmed text. Otherwise an absent image, or a PNG under 2048 bytes, gives "". A larger PNG gives an `i:` fingerprint. |
| Watch.ImageFingerprintMatch | src/main/index.ts:318-321 | Two large PNGs get the same fingerprint exactly when they have the same length and the same first 64 bytes. |
| Watch.TextFingerprintMatch | src/main/index.ts:310-313 | Two texts get the same fingerprint exactly when they trim alike, and no text fingerprint equals an image one. |
| Watch.TickNoOp | src/main/index.ts:329-333 | An empty fingerprint, or one equal to the last, changes neither the rows nor `lastFingerprint`. Any other fingerprint becomes the last one, whether or not a row is stored. |
| Watch.TickIdempotent | src/main/index.ts:329-333 | A second tick on an unchanged clipboard changes nothing. |
| Watch.TickStoresText | src/main/index.ts:336-340 | New non-blank text stores exactly its trimmed form, whatever image is also on the clipboard. |
| Watch.DataUrlAccepted | src/main/index.ts:349 | The data URL of an n-byte PNG passes the 3000-character guard exactly when n ≥ 2233. |
| Watch.TickImageThresholds | src/main/index.ts:309-353 | With no text, a PNG of 2048 bytes or more always becomes the last fingerprint. It is stored only from 2233 bytes, so a PNG of 2048–2232 bytes moves `lastFingerprint` and stores nothing. |
| Watch.StepValid | src/main/index.ts:330-352 | Whatever fingerprint a tick computed, the rest of the tick keeps the store valid. |
| Watch.TickValid | src/main/index.ts:327-353 | A tick keeps the store valid. |
| Vault.ClipVault.constructor | src/main/index.ts:307 | The store starts from the table an earlier run left, or an empty one, with an empty `lastFingerprint`. |
| Vault.ClipVault.InsertClip | src/main/index.ts:137-179 | `insertClip` leaves exactly the rows of `InsertedText` or `InsertedImage` and keeps the store valid. |
| Vault.ClipVault.InsertText | src/main/index.ts:140-153 | The text branch looks up, deletes and inserts in place, leaving the rows of `InsertedText`. |
| Vault.ClipVault.InsertImage | src/main/index.ts:156-178 | The image branch applies both guards, deletes the scan's first match and inserts, leaving the rows of `InsertedImage`. |
| Vault.ClipVault.ScanSignatures | src/main/index.ts:168-174 | The `for … break` loop stops at the position `FirstMatch` gives, or runs off the end when it gives none. |
| Vault.ClipVault.Tick | src/main/index.ts:327-353 | One tick sets `lastFingerprint` and the rows to what `TickFingerprint` and `TickRows` give, and keeps the store valid. |
| Vault.ClipVault.Step | src/main/index.ts:330-352 | Once the fingerprint is computed, the tick sets `lastFingerprint` and the rows to what the fingerprint, the last one and the second image read determine. |
| Vault.ClipVault.DeleteClip | src/main/index.ts:391-395 | `delete-clip` removes the rows with that id, keeps the store valid and answers true. |
| Vault.ClipVault.ClearAll | src/main/index.ts:397-401 | `clear-all` empties the table and answers true. |
| Vault.ClipVault.TogglePin | src/main/index.ts:403-409 | `toggle-pin` leaves the rows of `PinToggled`, keeps the store valid and answers true. |
| Vault.ClipVault.SetTags | src/main/index.ts:411-416 | `set-tags` stores the given tags, or `[]` when the payload's tags are not an array, on that id only. It answers true. |
| Settings.ThemeOf | src/main/index.ts:209-213 | The theme always has every default field. A stored object's fields override the defaults, the default fields it does not override keep their default values, and there are no other fields. A missing, empty, unparseable or non-object value gives the defaults. |
| Settings.SetThenGetTheme | src/main/index.ts:209-217 | Reading back what `setTheme(t)` stored gives the defaults overridden by `t`. |
| Settings.Clamp | src/main/index.ts:265-266 | On a work area at least as large as the window, the window lies inside it. A position that already fits is kept, and one that does not snaps to the near edge. On a smaller area the far edges line up. |
| Settings.PopupOrigin | src/main/index.ts:255-266 | The 560×620 popup lies inside any large enough work area. It sits 280 px left of and 206 px above the cursor whenever that fits. |
| Settings.Preferences.constructor | src/main/index.ts:96-99 | The settings table starts with the given rows and nothing registered. |
| Settings.Preferences.InitDefaults | src/main/index.ts:102-110 | `dbInit` writes the default shortcut and theme only where the key is missing. |
| Settings.Preferences.Shortcut | src/main/index.ts:199-202 | `getSettings` returns the stored shortcut, or the default when there is none. |
| Settings.Preferences.Theme | src/main/index.ts:209-213 | `getTheme` always returns every default field. |
| Settings.Preferences.SetTheme | src/main/index.ts:215-217 | `set-theme` stores the defaults overridden by the given fields, which `getTheme` then returns. |
| Settings.Preferences.RegisterShortcut | src/main/index.ts:357-360 | All bindings are dropped, then the accelerator is bound exactly when registration succeeds. |
| Settings.Preferences.RegisterSaved | src/main/index.ts:451-452 | At start-up the stored or default shortcut is bound when registration succeeds. |
| Settings.Preferences.SetPopupShortcut | src/main/index.ts:425-434 | A blank shortcut is refused with "Empty shortcut" and nothing changes. A failed registration is refused with "Invalid or already in use": the stored setting is kept, but no shortcut stays bound. Otherwise the trimmed shortcut is bound and stored. |

## Left out

- The Electron window, tray, dock menu, single-instance lock and `second-instance` handler are UI and process plumbing.
- The `will-quit` handler's final `unregisterAll()` is process shutdown.
- `hide-popup` and the window calls of `showPopupNearCursor` (`setBounds`, `show`, `focus`, the `popup-opened` message) are window side effects. Only the placement arithmetic is modelled.
- The IPC transport and the `history-updated` push after each mutation are left out. Each handler is a direct method call, and the pushed list is `History.GetHistory` of the new rows.
- The `set-clipboard` handler writes the system clipboard and decodes images natively, so it is foreign I/O.
- better-sqlite3 and the SQL text are replaced by a sequence of rows. The order among rows with equal `ORDER BY` keys is fixed by one stable sort, and no stated property depends on that choice.
- `Date.now()` and `Math.random()` in `nowId` are not modelled. The id and the time are parameters, and inserts require an id no row has. `nowId` never yields an empty id, so the `existing?.id` truthiness test is modelled as "a row was found".
- The `setInterval` timer is not modelled; a single tick is. The two `clipboard.readImage()` calls of a tick are separate parameters: the one the fingerprint is taken from, and the one the stored image is made from.
- The clipboard text read and the PNG encoding of the clipboard image are parameters. A PNG is an arbitrary byte sequence.
- `globalShortcut.register` is a boolean parameter saying whether registration succeeds. The callback it binds, which opens the popup, is not modelled.
- `JSON.stringify` and `JSON.parse` are not modelled as text. Stored tags are either a parsed list of strings or unparseable text. A stored theme is blank, not JSON, JSON with no fields, or an object with string-valued fields. Non-string theme values are not modelled. A JSON array or string, which a spread turns into index-keyed fields, is covered as the object of those fields.
- JsStrings.ToLower: only ASCII letters are lower-cased. JavaScript's full Unicode case mapping, including mappings that change the length, is not modelled.
- JavaScript strings are sequences of UTF-16 code units, and lengths and slices count code units. The model's strings are sequences of characters, which agree for the ASCII data URLs and fingerprints involved.
- The other files of the repository are not part of this model: `src/renderer/ui/App.tsx` (the React UI), `src/renderer/ui/global.d.ts` (type declarations) and `scripts/notarize.js` (packaging).
