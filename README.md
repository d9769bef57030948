# Text utilities of the explainer-video app, in Dafny

This project models the two self-contained text utilities of the application
and proves properties of them.

**`getEmojiForWord` and `emojifySentence`** (`src/utils/emojiMapper.ts`)
- A fixed table maps words to emoji.
- A word is looked up lower-cased and trimmed. When that misses, a word
  ending in `s` is looked up without its last letter.
- A sentence is split on runs of whitespace. Each word is looked up with a
  fixed set of punctuation characters removed. A word that has an emoji is
  preceded by it, unless the word already contains the emoji or the
  previous input word is that emoji. The words are joined with single spaces.

**`splitSentences`** (`src/utils/sentenceSplitter.ts`)
- Before a sentence segmenter runs, masking hides three things behind
  numbered tokens:
  - the 24 abbreviations, in list order, each at a word boundary;
  - every "punctuation, optional whitespace, `[digits]`" run (a *swapped
    citation*), which becomes `__CIT_n__.`;
  - every remaining `[digits]`.
- Abbreviations and remaining citations become `__PH_n__` placeholders.
  Each token's key is recorded in a map, with a counter that only grows.
- After segmentation, unmasking works on each segment in turn:
  1. trim it, and drop it if it is blank;
  2. restore swapped citations first, then placeholders, keeping a token
     whose key is unknown;
  3. trim again and drop empty results.

Files and modules:
- `text.dfy` (`Text`): the string functions the code relies on: `trim`,
  ASCII `toLowerCase`, `includes`, decimal numerals.
- `masking.dfy` (`Masking`): stores, keys, the three patterns, one replace
  pass (`MaskScan` and the loop `MaskPass`), and the masking phase (`MaskText`
  and the method `Mask`, which is a loop over the abbreviations).
- `unmasking.dfy` (`Unmasking`): the restoring scans, the per-segment
  callback, the map and the filter.
- `pieces.dfy` (`Pieces`), `mask_pieces.dfy` (`ScanPieces`),
  `restore_pieces.dfy` (`RestorePieces`): the proof device. A masked text is
  read as a sequence of characters and tokens. Masking and restoring are
  each shown to act on that sequence as "bind" and "decode".
- `round_trip.dfy` (`RoundTrip`), `sentences.dfy` (`Sentences`),
  `mask_properties.dfy` (`MaskProperties`): the round trip, the
  trimming/filtering guarantees, key freshness, and that no citation survives.
- `sentence_splitter.dfy` (`SentenceSplitter`): `splitSentences` itself, with
  the segmenter as a parameter.
- `emoji_mapper.dfy` (`EmojiMapper`): the table, the lookup and
  `emojifySentence`.
- `wrappers.dfy` (`Wrappers`): `Option`.

## Model

| member | source | states |
|---|---|---|
| EmojiMapper.ToMap | src/utils/emojiMapper.ts:1-93 | The object built from the property list has exactly the listed names as keys, and each key's value is one the list gives for that name. |
| EmojiMapper.ToMapAppend | src/utils/emojiMapper.ts:1-93 | Building the object from two lists of properties is the union of the two objects, the later list winning. |
| EmojiMapper.ToMapFound | src/utils/emojiMapper.ts:1-93 | A property whose name is not repeated later in the literal keeps its value in the object. |
| EmojiMapper.EmojiMapGroups | src/utils/emojiMapper.ts:1-93 | The table is the union of its six commented groups, in source order. |
| EmojiMapper.EmojiMapPlain | src/utils/emojiMapper.ts:1-93 | Every key starts with a lower-case ASCII letter. Every value is non-empty and free of whitespace, and starts outside ASCII except for the value `Vk`. |
| EmojiMapper.EmojiMapFound | src/utils/emojiMapper.ts:3-29 | `user`, `users`, `database` and `save` map to 👤, 👥, 🗄️ and 💾 in the built table. |
| EmojiMapper.EmojiMapEntries | src/utils/emojiMapper.ts:1-93 | `user`, `users`, `database` and `save` map to 👤, 👥, 🗄️ and 💾. `vk`, `to`, `saves`, `databases` and `unknownword123` are not keys. |
| EmojiMapper.EmojiMapTruthy | src/utils/emojiMapper.ts:1-93 | Every value of the table is a non-empty (truthy) string. |
| EmojiMapper.GarbledValueNotFound | src/utils/emojiMapper.ts:43 | The non-emoji value `Vk` of `send`, once its punctuation is stripped, is not itself recognised as a word by a table without the key `vk`. |
| EmojiMapper.EmojiMapOk | src/utils/emojiMapper.ts:1-93 | The table has no empty key. Each value is a non-empty, whitespace-free string that the lookup does not recognise as a word. |
| EmojiMapper.Normalize | src/utils/emojiMapper.ts:96 | The lower-cased, trimmed word has no whitespace at either end, and is empty only when the word is all whitespace. |
| EmojiMapper.NormalizeIdempotent | src/utils/emojiMapper.ts:96 | Normalising twice gives the same as normalising once. |
| EmojiMapper.Lookup | src/utils/emojiMapper.ts:95-108 | A returned emoji is a value of the table and is not empty. |
| EmojiMapper.LookupDependsOnNormalized | src/utils/emojiMapper.ts:96 | The lookup of a word equals the lookup of its lower-cased, trimmed form, so it depends on nothing else. |
| EmojiMapper.LookupExact | src/utils/emojiMapper.ts:98-100 | When the normalised word is a key, its value is returned, whatever the plural fallback would give. |
| EmojiMapper.LookupPlural | src/utils/emojiMapper.ts:103-105 | With no exact hit, the lookup finds a value exactly when the word ends in `s` and the word minus its last letter is a key; that key's value is then returned. |
| EmojiMapper.LookupNull | src/utils/emojiMapper.ts:107 | The lookup returns null exactly when neither the word nor its singular is a key. |
| EmojiMapper.FindsCapitalised | src/utils/emojiMapper.test.ts:8 | In any table holding `database`, `Database` is found with that value. |
| EmojiMapper.FindsExactPlural | src/utils/emojiMapper.test.ts:16 | In any table holding `users`, `users` gets its own value and not that of `user`. |
| EmojiMapper.FindsPlural | src/utils/emojiMapper.test.ts:19 | In a table holding `database` but not `databases`, `databases` gets the value of `database`. |
| EmojiMapper.FindsSingular | src/utils/emojiMapper.ts:103-105 | For any lower-case trimmed word `w` that is a key while `w + "s"` is not, `w + "s"` gets the value of `w`. |
| EmojiMapper.FindsNothing | src/utils/emojiMapper.test.ts:12 | In a table without `unknownword123`, that word is not found. |
| EmojiMapper.ExampleCapitalised | src/utils/emojiMapper.test.ts:7-8 | `getEmojiForWord("Database")` is 🗄️. |
| EmojiMapper.ExamplePlurals | src/utils/emojiMapper.test.ts:15-20 | `getEmojiForWord` gives 🗄️ for `databases` and 👥 for `users`. |
| EmojiMapper.ExampleUnknown | src/utils/emojiMapper.test.ts:11-13 | `getEmojiForWord("unknownword123")` is null. |
| EmojiMapper.StripPunctuation | src/utils/emojiMapper.ts:115 | The result contains none of the listed punctuation and is no longer than the word. A word without such characters is unchanged, and a leading non-punctuation character stays first. |
| EmojiMapper.StripOne | src/utils/emojiMapper.ts:115 | A single character is removed exactly when it is one of the listed punctuation characters, and is kept otherwise. |
| EmojiMapper.StripAppend | src/utils/emojiMapper.ts:115 | Stripping a concatenation is the concatenation of the stripped parts. With `StripOne`, this says the result is exactly the word's non-punctuation characters, in their order. |
| EmojiMapper.SplitOnSpaces | src/utils/emojiMapper.ts:111 | The pieces contain no whitespace. Only the first and last piece can be empty. When the sentence does not start with whitespace, the first piece is empty only for the empty sentence. |
| EmojiMapper.Runs | src/utils/emojiMapper.ts:111 | Every separator the split removes is a non-empty run of whitespace. |
| EmojiMapper.SplitRuns | src/utils/emojiMapper.ts:111 | There is one more piece than whitespace runs. Putting the runs back between the pieces, in order, gives the sentence, so the split drops exactly the maximal whitespace runs. |
| EmojiMapper.SplitJoinRuns | src/utils/emojiMapper.ts:111 | Conversely, pieces of a split's shape joined by any non-empty whitespace runs split back into exactly those pieces. A leading or trailing run gives an empty first or last piece: `"  a\tb "` gives `["", "a", "b", ""]`. |
| EmojiMapper.SplitJoin | src/utils/emojiMapper.ts:111-129 | Joining whitespace-free words with single spaces and splitting the result on whitespace gives the words back. |
| EmojiMapper.EmojiToAddSpec | src/utils/emojiMapper.ts:116-128 | An emoji is put in front of a word exactly when the lookup of the stripped word finds it, the word does not contain it, and the previous input word is not it. Otherwise the word is returned unchanged. |
| EmojiMapper.AddedEmoji | src/utils/emojiMapper.ts:119-125 | An added emoji is a non-empty, whitespace-free table value, put in front of a non-empty word. |
| EmojiMapper.EmojiNotDecorated | src/utils/emojiMapper.ts:120 | A word that is itself one of the table's emoji never gets an emoji put in front of it. |
| EmojiMapper.Decorated | src/utils/emojiMapper.ts:119-127 | What one word becomes ends with the word itself, unchanged. |
| EmojiMapper.TokensCons | src/utils/emojiMapper.ts:112-128 | The words of the result are, in input order, each input word's emoji (when added) and the word, with each word seeing the input word before it. |
| EmojiMapper.EmojiChoiceOk | src/utils/emojiMapper.ts:116-125 | The choice of emoji adds a non-empty word without whitespace. It never decorates an emoji or a word that its own emoji already precedes. |
| EmojiMapper.JoinTokens | src/utils/emojiMapper.ts:112-129 | The output string is the result words joined with single spaces. |
| EmojiMapper.TokensShaped | src/utils/emojiMapper.ts:111-129 | The result words keep the shape of a whitespace split, and the last word is the last input word. |
| EmojiMapper.TokensIdempotent | src/utils/emojiMapper.ts:116-125 | Decorating already decorated words changes nothing. |
| EmojiMapper.EmojifyReadBack | src/utils/emojiMapper.ts:110-130 | Splitting the output on whitespace gives exactly the input words, in order, each preceded by its emoji when one was added. |
| EmojiMapper.EmojifyIdempotent | src/utils/emojiMapper.ts:110-130 | For any well-formed table, emojifying an emojified sentence changes nothing: there is no double prefixing. |
| EmojiMapper.EmojifySentenceIdempotent | src/utils/emojiMapper.ts:110-130 | `emojifySentence` with the real table is idempotent: applying it to its own output changes nothing. |
| EmojiMapper.EmojifyIsFrom | src/utils/emojiMapper.ts:110-130 | The emojified sentence is the emojified word sequence read with no word before the first one. |
| EmojiMapper.ConsWord | src/utils/emojiMapper.ts:111-129 | Emojifying a word, a space and the rest gives that word's result, a space, and the rest's result with the word as the rest's previous word. |
| EmojiMapper.LastWord | src/utils/emojiMapper.ts:111-129 | A single whitespace-free word becomes exactly its own result. |
| EmojiMapper.DecoratedExample | src/utils/emojiMapper.ts:116-125 | For any table in which `e` is not recognised as a word and `w` looks up to `e`, the sentence `e w` is left as it is: `w` sees `e` as its previous word. |
| EmojiMapper.KeepsUser | src/utils/emojiMapper.test.ts:28-31 | In any table where `user` maps to 👤 and 👤 is not recognised as a word, `👤 User` is left as `👤 User`. |
| EmojiMapper.EmojifySentenceKeepsUser | src/utils/emojiMapper.test.ts:28-31 | `emojifySentence("👤 User")` is `👤 User`: no double prefixing. |
| EmojiMapper.TwoWordSentence | src/utils/emojiMapper.ts:110-130 | Two words that each get an emoji become each emoji followed by its word, joined by single spaces. |
| EmojiMapper.FourWordSentence | src/utils/emojiMapper.ts:110-130 | Four words of which the third gets no emoji become each emoji and word in turn, with the third word alone, joined by single spaces. |
| EmojiMapper.SentenceIn | src/utils/emojiMapper.test.ts:22-26 | In any table holding `user`, `save` and `database` with non-ASCII values, and neither `saves` nor `to`, `User saves to Database` gets the `user` emoji before `User`, the `save` emoji before `saves` and the `database` emoji before `Database`. |
| EmojiMapper.EmojifySentenceExample | src/utils/emojiMapper.test.ts:22-26 | `emojifySentence("User saves to Database")` is `👤 User 💾 saves to 🗄️ Database`. |
| EmojiMapper.PunctuationIn | src/utils/emojiMapper.test.ts:33-36 | In the same kind of table, `User, save!` gets the `user` emoji before `User,` and the `save` emoji before `save!`, with the punctuation kept. |
| EmojiMapper.EmojifySentencePunctuation | src/utils/emojiMapper.test.ts:33-36 | `emojifySentence("User, save!")` is `👤 User, 💾 save!`. |
| Text.ToLower | src/utils/emojiMapper.ts:96 | Lower-casing keeps the length and maps each character on its own, A-Z to a-z. |
| Text.ToLowerIdempotent | src/utils/emojiMapper.ts:96 | Lower-casing twice is lower-casing once. |
| Text.Trim | src/utils/sentenceSplitter.ts:131 | The result has no whitespace at either end, and is empty exactly when the input is blank. |
| Text.TrimPadded | src/utils/sentenceSplitter.ts:149 | Trimming a trimmed string surrounded by whitespace gives back exactly that string. |
| Text.TrimTrimmed | src/utils/sentenceSplitter.ts:149 | Trimming an already trimmed string changes nothing. |
| Text.TrimIsInfix | src/utils/sentenceSplitter.ts:131 | The trimmed string is a contiguous part of the input. |
| Text.Contains | src/utils/emojiMapper.ts:120 | `includes` holds exactly when the substring occurs at some position. |
| Text.ParseNatToString | src/utils/sentenceSplitter.ts:18 | The decimal numeral of a counter value reads back as that value. |
| Text.NatToStringInjective | src/utils/sentenceSplitter.ts:18 | Different counter values have different numerals. |
| Masking.Bind | src/utils/sentenceSplitter.ts:17-21 | Creating a placeholder binds the key built from the current counter to the matched text, and the counter moves on by one. |
| Masking.KeyInjective | src/utils/sentenceSplitter.ts:18 | Two keys of the same kind are equal only for equal counter values. |
| Masking.KindsDiffer | src/utils/sentenceSplitter.ts:111 | A `__PH_n__` key never equals a `__CIT_m__` key. |
| Masking.BindKeeps | src/utils/sentenceSplitter.ts:17-21 | On a store with no key at or above its counter, binding never overwrites a key. Every earlier binding stays, and the store stays that way. |
| Masking.MaskPass | src/utils/sentenceSplitter.ts:105-118 | The replace loop over the text returns exactly the masked text and store of the scan that defines the pass. |
| Masking.Mask | src/utils/sentenceSplitter.ts:14-122 | The masking phase, as a loop over the abbreviation list followed by the swap and the citation mask, yields the masked text and both maps that define it. |
| Unmasking.UnmaskSegment | src/utils/sentenceSplitter.ts:130-149 | A segment gives null exactly when it is blank, and otherwise a trimmed sentence. |
| Unmasking.Unmask | src/utils/sentenceSplitter.ts:130-150 | There are no more results than segments, and every result is non-empty and trimmed. |
| Unmasking.MapSegmentsAt | src/utils/sentenceSplitter.ts:130 | The i-th mapped value is the callback applied to the i-th segment. |
| Unmasking.Keep | src/utils/sentenceSplitter.ts:150 | The filter keeps no more than it is given. When every value is trimmed, it keeps only non-empty trimmed strings. |
| Unmasking.TokenRestored | src/utils/sentenceSplitter.ts:140-147 | A restoring scan replaces a token at the front by its stored text, or by itself when the key is unknown, and goes on after it. |
| Unmasking.UnknownTokenKept | src/utils/sentenceSplitter.ts:143 | A token whose key is not in the map is left as it is. |
| Unmasking.KnownTokenRestored | src/utils/sentenceSplitter.ts:147 | A token whose key maps to a non-empty text is replaced by exactly that text. |
| Unmasking.UnmaskAppend | src/utils/sentenceSplitter.ts:130-150 | Unmasking two runs of segments gives the results of the first run followed by those of the second, so segment order is kept. |
| Unmasking.UnmaskFrom | src/utils/sentenceSplitter.ts:130-150 | Every result is the callback's value for some segment. |
| Unmasking.UnmaskOne | src/utils/sentenceSplitter.ts:130-150 | A single segment gives nothing when the callback returns null or an empty string, and otherwise exactly its sentence. |
| Pieces.DecodeCommute | src/utils/sentenceSplitter.ts:140-147 | Restoring placeholders and swapped citations in either order gives the same pieces. |
| ScanPieces.MaskPieces | src/utils/sentenceSplitter.ts:34-122 | Any masking pass over text read as characters and tokens yields pieces. Decoding the pass's own kind of token with the new map gives back what decoding gave before. The other kind of token is untouched, and every new key is below the counter. |
| RestorePieces.SkipPlaceholder | src/utils/sentenceSplitter.ts:140 | The swapped-citation pattern finds nothing inside a placeholder, so its scan steps over the placeholder unchanged. |
| RestorePieces.RestorePH | src/utils/sentenceSplitter.ts:147 | The placeholder scan decodes exactly the placeholders. |
| RestorePieces.RestoreCIT | src/utils/sentenceSplitter.ts:140-144 | The swapped-citation scan decodes exactly the swapped citations and keeps the placeholders. |
| RestorePieces.RestoreDecodes | src/utils/sentenceSplitter.ts:140-147 | Both restoring scans together decode both kinds of token. |
| RoundTrip.AbbrevPieces | src/utils/sentenceSplitter.ts:34-42 | For a text without `_`: after the abbreviation loop, the text reads as characters and placeholders. Decoding the placeholders gives back the original text. |
| RoundTrip.MaskedPieces | src/utils/sentenceSplitter.ts:23-122 | For a text without `_`: the masked text reads as characters and tokens whose swapped citations are all recorded. Decoding both kinds gives back the original text. |
| RoundTrip.MaskRestore | src/utils/sentenceSplitter.ts:23-147 | Restoring the whole masked text with both maps gives back the original text. |
| RoundTrip.RestoreGroups | src/utils/sentenceSplitter.ts:130-147 | For segments cut between tokens, the restored segments join up to the decoded text. |
| RoundTrip.SegmentsRestore | src/utils/sentenceSplitter.ts:127-147 | For any cut of the masked text into segments between tokens, the restored segments join up to the original text. |
| Sentences.MaskTrimmed | src/utils/sentenceSplitter.ts:14-122 | Both maps hold only texts without whitespace at either end. |
| Sentences.Sentence | src/utils/sentenceSplitter.ts:131-133 | A text gives no sentence exactly when it is blank. |
| Sentences.SegmentSentence | src/utils/sentenceSplitter.ts:130-149 | The callback applied to a masked segment is the trimmed restored segment, or null when that is blank. |
| Sentences.UnmaskGroups | src/utils/sentenceSplitter.ts:130-150 | For segments cut between tokens, the output equals the restored segments with the blank ones dropped and the others trimmed. |
| Sentences.BlankParts | src/utils/sentenceSplitter.ts:7-9 | Parts of a blank text give no sentence. |
| Sentences.SentencesRestore | src/utils/sentenceSplitter.ts:23-150 | For any cut of the masked text between tokens, the restored segments join up to the text. Unmasking the segments gives each non-blank restored segment, trimmed, in order. |
| MaskProperties.ScanFresh | src/utils/sentenceSplitter.ts:15-21 | A pass over a store with no key at or above its counter keeps that property and all earlier bindings, so no key is bound twice. |
| MaskProperties.AbbrevFresh | src/utils/sentenceSplitter.ts:34-42 | The abbreviation loop never binds a placeholder key twice. |
| MaskProperties.MaskFresh | src/utils/sentenceSplitter.ts:14-122 | Neither map ever binds a key twice. The citation mask keeps every abbreviation's placeholder as it was. |
| MaskProperties.MatchRestored | src/utils/sentenceSplitter.ts:105-147 | A match becomes the token of the current counter. Restoring that token with the pass's final map gives exactly the matched text, for either kind of token. |
| MaskProperties.CitationMasked | src/utils/sentenceSplitter.ts:122 | The output of the citation mask holds no `[digits]` anywhere. |
| MaskProperties.MaskedCitationFree | src/utils/sentenceSplitter.ts:122 | The text handed to the segmenter holds no `[digits]`. |
| SentenceSplitter.Split | src/utils/sentenceSplitter.ts:6-152 | A blank text gives no sentences. Every sentence is non-empty and has no whitespace at either end. |
| SentenceSplitter.SplitSentences | src/utils/sentenceSplitter.ts:6-152 | The method (blank check, masking loop, segmenter, unmasking) returns what the function defines. |
| SentenceSplitter.SplitRoundTrip | src/utils/sentenceSplitter.ts:6-152 | For a text without `_`, take any segmenter whose segments cut between tokens. The restored segments join up to the text, and the sentences are those segments with blanks dropped and the rest trimmed. |
| SentenceSplitter.SplitWhole | src/utils/sentenceSplitter.test.ts:60-64 | A non-blank text without `_` that the segmenter leaves whole comes back as the one trimmed sentence. |

## Left out

- `Intl.Segmenter` (src/utils/sentenceSplitter.ts:126-127) is a foreign library. It is a function parameter. The round-trip lemmas quantify over every cut of the masked text that falls between tokens, so the tests that depend on where it splits are not stated.
- The regular-expression engine is not modelled. Each pattern is a hand-written scanner: `\b` plus an abbreviation, the swap pattern, `\[\d+\]`, the two token patterns, `\s+` and the punctuation class. Each pattern is deterministic, so the greedy scan gives the engine's match.
- `toLowerCase` is modelled for ASCII letters only. Other upper-case letters are left as they are.
- Strings are sequences of Unicode scalar values, not UTF-16 code units. This matters nowhere in the code shown, since no index arithmetic splits a character.
- The object lookup `emojiMap[lower]` also finds inherited properties such as `constructor`. The table is modelled as a finite map of the literal keys only.
- The table facts cover the words the tests look up. The other entries are checked for shape only: each key starts with a lower-case ASCII letter, and each value is non-empty and free of whitespace.
- The expected strings in src/utils/emojiMapper.test.ts (lines 6-8, 16, 19, 24, 29-30 and 35) are stored as the UTF-8 bytes of the emoji read as Windows-1254 text, for example `ğŸ‘¤` for 👤. Read literally, these assertions do not hold of the code. Also, the input on line 29 would then become `ğŸ‘¤ 👤 User`, because `ğŸ‘¤` is not an emoji of the table. The lemmas read each such string as the table's emoji it evidently encodes: 👤, 👥, 🗄️ and 💾.
- RoundTrip.AbbrevPieces: proved only for texts without `_`. For the reason, see SentenceSplitter.SplitRoundTrip below.
- RoundTrip.MaskedPieces: proved only for texts without `_`, for the same reason.
- SentenceSplitter.SplitRoundTrip: proved only for texts without `_`. "No `__PH_n__`/`__CIT_n__` inside the text" is not enough. A text can contain token syntax once masking has run, as in `__PH_1[2]`, and such a text can come back changed.
- SentenceSplitter.SplitWhole: same restriction to texts without `_`.
- Sentences.SentencesRestore: same restriction to texts without `_`.
- RoundTrip.MaskRestore: same restriction to texts without `_`.
- RoundTrip.SegmentsRestore: same restriction, and segment boundaries must fall between tokens. A segmenter that cuts inside `__CIT_n__.` leaves that token unrestored, and that case is not modelled.
- The React components, the services (`gemini.ts`, `text2excalidraw.ts`, `AppSettingsService.ts`) and the build configuration are not part of this model. They are UI state, timers, DOM, network and storage.
