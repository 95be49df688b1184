# go-moji skin-tone core, in Dafny

go-moji serves an emoji picker page. It loads a catalog of emoji, where each entry has a
name, keywords, a glyph, a category and a flag saying whether the glyph can carry a skin
tone. A visitor chooses one of five Fitzpatrick skin-tone modifiers (U+1F3FB .. U+1F3FF).
The server then re-derives the catalog from the base one, so that every tone-capable glyph
carries the chosen modifier, and it remembers the choice in a `tone` cookie.

This project models that logic and proves properties of it:

- `go.dfy` (module `Go`): what the Go runtime contributes. Errors and panics become a
  `Result`. The `interface{}` arguments of the template helpers become the `Value`
  datatype, which takes the place of `reflect`.
- `emoji.dfy` (module `Emoji`, from `emoji/emoji.go`) covers:
  - the catalog entry;
  - the modifier table and the tone-picker table;
  - `addModifier`, which puts the modifier before every zero-width joiner (U+200D) or
    appends it when there is none;
  - the partition, retone and `mergeMaps` loops of the skin-tone handler;
  - the cookie value and the hand chosen by the index handler;
  - the `dict` template function.
- `app.dfy` (module `App`, from `main.go`) covers the package's own copy of `addModifier`,
  the tone picker `combineEmojiWithTones`, a `mergeMaps` that writes into a nil map, and the
  hand chosen by `indexHandler`.
- `utils.dfy` (module `Utils`, from `utils/utils.go`) covers the `Wrap` and `Concat`
  template helpers.

Strings are sequences of Unicode scalar values. On valid UTF-8, Go's byte-level
`strings.Replace` with a one-character pattern does the same thing. Go's map iteration
order is unspecified, so every loop over a map takes its next key by free choice (`:|`).
The contracts of those loops therefore hold for every order.

Behaviour of the handlers worth knowing, as the code has it:

- The index handler reads the `tone` cookie with `strconv.Atoi` and discards the error.
  A cookie that is not a number reads as 0 and shows the bare hand. A number outside 0..5
  indexes past `skinToneSelections` and panics (`Emoji.PickHand`).
- The cookie holds the last byte of the `skintone` key (`Emoji.CookieValue`). For the five
  known keys this is the digit of the level.
- An unknown `skintone` key gets the zero value `""` from the modifier table, and the base
  catalog is rendered (`Emoji.UnknownSkinToneKeepsCatalog`). An empty key panics when the
  cookie is built.
- The main package's `indexHandler` rebuilds its picker on every request by ranging over
  the modifier table (main.go:103, main.go:191). Map-range order varies between runs, so
  the same numeric cookie can show a different toned hand from one request to the next
  (`App.IndexHand`).

## Model

| member | source | states |
|---|---|---|
| `Emoji.AddModifier` | emoji/emoji.go:129-147 | An empty modifier or a glyph that cannot be toned comes back unchanged. A tone-capable glyph without a joiner gets the modifier appended. One with joiners grows by the modifier length for each joiner. |
| `Emoji.InsertBeforeJoiners` | emoji/emoji.go:139-143 | Replacing every joiner by modifier+joiner lengthens the glyph by the modifier length for each joiner. A glyph without joiners is unchanged. |
| `Emoji.RemoveUndoesInsert` | emoji/emoji.go:142-143 | Deleting the modifier in front of every joiner gives back the original glyph. |
| `Emoji.JoinersFollowModifier` | emoji/emoji.go:143 | In the rewritten glyph, every joiner is immediately preceded by the modifier. |
| `Emoji.InsertKeepsJoinerCount` | emoji/emoji.go:143 | The rewrite keeps the number of joiners. |
| `Emoji.AddModifierBeforeEveryJoiner` | emoji/emoji.go:139-144 | For a tone-capable glyph with k joiners, the result has length \|Char\| + k·\|modifier\| and still has k joiners. Each joiner is preceded by the modifier, and removing those modifiers restores `Char`. |
| `Emoji.AddModifierExamples` | emoji/emoji.go:129-147 | Waving hand + U+1F3FD gets the modifier appended. An entry that cannot be toned is unchanged. |
| `Emoji.AddModifierFamilyExample` | emoji/emoji.go:139-144 | The man-woman-boy family with U+1F3FE gets the modifier before each of its two joiners, and none after the last person. |
| `Emoji.JoinedTripleExample` | emoji/emoji.go:143 | For any three people joined by two joiners, the rewrite puts the modifier after the first and the second person and leaves the third bare. |
| `Emoji.AddModifierWithJoiner` | emoji/emoji.go:134-143 | For a tone-capable glyph with a joiner and a non-empty modifier, `addModifier` is exactly the joiner rewrite. |
| `Emoji.ModifierFor` | emoji/emoji.go:206 | A skintone key yields a non-empty modifier exactly when it is in the table, and a known key yields its table entry. No modifier is longer than one character or contains a joiner. |
| `Emoji.SkinToneSelectionsFollowScale` | emoji/emoji.go:60-82 | The picker list has six entries: the bare hand, then for k = 1..5 the hand carrying the modifier of `skin_tone_k`. |
| `Emoji.RetonedCatalog` | emoji/emoji.go:208-224 | The toned catalog has the base catalog's names. Entries that cannot be toned are identical to the base. Tone-capable entries keep keywords, category and flag, and their glyph is `addModifier`'s. An empty modifier leaves the catalog unchanged. |
| `Emoji.UnknownSkinToneKeepsCatalog` | emoji/emoji.go:205-206 | A key missing from the table selects `""`, so the rendered catalog equals the base catalog. |
| `Emoji.SkinTonable` | emoji/emoji.go:208-214 | The first loop keeps exactly the entries flagged `FitzpatrickScale`, each unchanged. |
| `Emoji.SkinTone` | emoji/emoji.go:216-221 | The second loop keeps every name and rewrites only the glyph of each entry, via `addModifier`. |
| `Emoji.MergeMaps` | emoji/emoji.go:149-165 | The result has exactly the names of `o`, so names only in `st` are never added. A name in both takes `st`'s entry; a name only in `o` keeps `o`'s. |
| `Emoji.Retone` | emoji/emoji.go:208-224 | Partition, retone and merge together produce exactly `RetonedCatalog` of the base catalog. |
| `Emoji.LastByteRune` | emoji/emoji.go:230 | Converting the last UTF-8 byte of a character with Go's `string(b)` gives the character itself when it is ASCII. Otherwise it gives a continuation-byte code point (0x80..0xBF). |
| `Emoji.CookieValue` | emoji/emoji.go:228-232 | The cookie value is a single character: the key's last character when that is ASCII. An empty key panics with an index out of range. |
| `Emoji.Atoi` | emoji/emoji.go:179 | A numeral with an optional '+' or '-' sign gives its signed decimal value. Anything else is a syntax error and gives 0. |
| `Emoji.AtoiExamples` | emoji/emoji.go:179 | "10" gives 10, "+3" gives 3 and "-1" gives -1. "abc", "", "-" and " 1" give 0. |
| `Emoji.PickHand` | emoji/emoji.go:172-181 | With no cookie, or a cookie that is not a number, the hand is selection 0. A successful result is one of the selections. The call panics exactly when the cookie's number is outside the list. |
| `Emoji.NonNumericCookieShowsBareHand` | emoji/emoji.go:178-180 | A `tone` cookie that is not a signed numeral shows the bare hand. |
| `Emoji.ToneCookieSelectsHand` | emoji/emoji.go:226-233 | For every level k = 0..5 the cookie set for `skin_tone_k` is the digit k. On the next index request it selects the hand with `skin_tone_k`'s modifier. Level 0's key is unknown, so its modifier is `""` and the hand is bare. |
| `Emoji.Dict` | emoji/emoji.go:29-57 | No arguments is the error "invalid dict call". Otherwise the index loop, which skips a key's value inside its body, computes `DictFrom` over all arguments. |
| `Emoji.DictFromAppend` | emoji/emoji.go:36-55 | Once a prefix of the arguments has been read without error, reading on continues from the map that prefix built. |
| `Emoji.DictLaterKeyWins` | emoji/emoji.go:47-53 | A key followed by a value sets that key, overwriting any earlier value. |
| `Emoji.DictMergesMap` | emoji/emoji.go:38-43 | A map[string]interface{} argument merges all its entries over the map built so far. |
| `Emoji.DictRejectsMalformed` | emoji/emoji.go:44-51 | A trailing key with no value is the error "specify the key for non array values". A non-string, non-map argument is the error "dict values must be maps". |
| `App.AddModifier` | main.go:80-98 | The main package's copy returns the glyph unchanged for an empty modifier or an entry that cannot be toned. On every input it agrees with `Emoji.AddModifier`. |
| `App.ModifiersDistinct` | main.go:38-44 | The modifier table has five keys, and no two keys share a modifier. |
| `App.RangeOrder` | main.go:103-105 | A `range` over a map visits every key exactly once, in some order. |
| `App.CombineWith` | main.go:100-117 | For a table with distinct modifiers, the list starts with the base glyph. Then comes the base glyph plus each modifier, every modifier exactly once. |
| `App.CombineEmojiWithTones` | main.go:100-117 | Six glyphs: the first is the base glyph. The other five are the base glyph with each of the five modifiers appended exactly once, in unspecified order. |
| `App.MergeMaps` | main.go:119-134 | Writing into the never-made `merger` panics, so the call returns only for an empty `o`, and then with no names. Any other `o` panics with an assignment to a nil map. |
| `App.NilMapMergePanics` | main.go:120-123 | A catalog holding any name makes the main package's merge panic. |
| `App.IndexHand` | main.go:186-202 | With no `tone` cookie, or one that is not a number, the hand is the bare U+270B. A successful hand is that glyph or that glyph with one modifier. It panics exactly when the cookie's number is outside 0..5. |
| `Utils.Wrap` | utils/utils.go:9-21 | The loop, stepping two arguments at a time, computes `WrapFrom` over all arguments. |
| `Utils.WrapFromSucceeds` | utils/utils.go:12-18 | Wrap succeeds exactly when the number of arguments is even and every argument at an even index is a string. |
| `Utils.WrapFromFailure` | utils/utils.go:12-17 | A non-string key among the arguments is always reported as the error "dict keys must be strings". With only string keys, an odd count panics with an index out of range. |
| `Utils.WrapFromKeys` | utils/utils.go:12-18 | A successful Wrap holds exactly the earlier keys and the argument keys. Earlier keys that no argument names keep their values. |
| `Utils.WrapFromLastWins` | utils/utils.go:12-18 | In a successful Wrap, every argument key maps to the value after its last occurrence. |
| `Utils.WrapFromContents` | utils/utils.go:12-18 | A successful Wrap holds exactly the earlier keys and the argument keys. Each argument key maps to the value after its last occurrence, and the other keys are unchanged. |
| `Utils.WrapPairs` | utils/utils.go:9-21 | Wrap's result has exactly the even-index strings as keys, each mapped to the value after its last occurrence. A non-string key is the error "dict keys must be strings". An odd count panics with an index out of range. |
| `Utils.ReplaceChar` | utils/utils.go:32-33 | Replacing one character by another keeps the length. Positions that held the replaced character now hold the replacement, and every other character is kept. When the two differ, the replaced character no longer occurs. |
| `Utils.TrimLeft` | utils/utils.go:35 | The result is the suffix of the input after its leading cut characters, and it does not start with one. |
| `Utils.TrimRight` | utils/utils.go:35 | The result is the prefix of the input before its trailing cut characters, and it does not end with one. |
| `Utils.Lead` | utils/utils.go:35 | The count of leading cut characters: every character before it is the cut character, and the next one is not. |
| `Utils.Trail` | utils/utils.go:35 | The count of trailing cut characters: every character after the remaining prefix is the cut character, and the last remaining one is not. |
| `Utils.Trim` | utils/utils.go:35 | The result is the infix of the input that starts after its leading cut characters. Every character before it and every character after it is the cut character. It neither starts nor ends with one. |
| `Utils.Concat` | utils/utils.go:24-36 | The result contains no '[' or ']', neither starts nor ends with a space, and is no longer than `str` followed by the joined strings. |
| `Utils.Unbracketed` | utils/utils.go:32-33 | The two replacements together keep the length and turn every '[' and ']' into a space, keeping every other character. |
| `Utils.TrimmedShape` | utils/utils.go:35 | Trimming spaces from bracket-free text leaves bracket-free text that neither starts nor ends with a space. |
| `Utils.ConcatContent` | utils/utils.go:24-36 | The result is a contiguous piece `[i, j)` of `str` followed by the joined strings, with each bracket turned into a space. Everything outside that piece is a space or a bracket. |
| `Utils.TrimUnbracketed` | utils/utils.go:32-35 | Trimming the bracket-free copy of a string cuts out one contiguous piece of it, with each bracket read as a space. Only spaces and brackets lie outside that piece. |
| `Utils.ConcatPlainText` | utils/utils.go:29-35 | On text without brackets or outer spaces, Concat is exactly `str` followed by the space-joined strings, with no separator after `str`. |
| `Utils.ConcatExample` | utils/utils.go:29 | The name "wave" with the two keyword strings "[hand" and "hello]" (how a printed slice arrives) becomes "wave hand hello". The opening bracket supplies the missing space. |

## Left out

- `loadEmojis`, `fetchEmojis`, `loadUniversalEmojis`, `fetchUniversalEmojis`: reading and
  writing the cache file, the HTTP fetch and the JSON decoding are I/O and a library
  decoder. The catalog is a parameter of the model.
- `renderTemplate`, the parsed templates, and the request and response plumbing of the
  handlers are left out. That plumbing covers the content type, reading and setting the
  cookie, and the one-year expiry taken from the clock. The query lookup is also out:
  `r.URL.Query()["skintone"][0]` panics when the parameter is missing.
- `main.go` `fetchSkinTonesHandler` is not registered by `main`. Its partition loops write
  into nil maps, the same defect as `App.MergeMaps`.
- `main` routing and `ListenAndServe`; `runtime.Caller` and `basepath`.
- The `categories` table: display labels that no modelled operation reads.
- `static/js/application.js`: DOM updates, observers, fetches and timers in the browser.
- The main package's own `emoji` struct and modifier table are identical to the emoji
  package's, so the model uses `Emoji.Entry` and `Emoji.FitzpatrickScaleModifiers` for both.
- App.MergeMaps is modelled on values rather than as its two loops, because the first
  write of the first loop panics and no later iteration can happen.
- Emoji.CookieValue: a query value that is not valid UTF-8 cannot be written as a Dafny
  string, so only valid UTF-8 keys are modelled.
- Emoji.Atoi: the clamping of numbers beyond 64 bits is not modelled. Any such number is
  outside the six selections and panics in the index either way.
- Emoji.AddModifierBeforeEveryJoiner: stated for modifiers that contain no joiner, which is
  true of every modifier in the table (`Emoji.ModifierFor`). A modifier containing U+200D
  would add joiners of its own.
- Concurrent requests: every modelled operation works on values and shares no state.

## Findings

| source | as written | input that shows it | evidently intended | confidence | as-written member | corrected member |
|---|---|---|---|---|---|---|
| main.go:119-134 | `var merger map[string]emoji` is never made, so the first `merger[name] = emoji` panics | any `o` with one name, e.g. {"wave": 👋} (`App.NilMapMergePanics`) | make the map, as emoji/emoji.go:151 does, and return `o` with `st`'s entries over its names | high; not executed | `App.MergeMaps` | `Emoji.MergeMaps` |
