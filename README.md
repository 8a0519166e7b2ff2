# MrRSS core, modelled in Dafny

MrRSS is a desktop RSS reader. This project models the parts of it that hold
logic:

- **Machine-bound encryption** (`Encryption`, `Base64`). A secret is stored as
  base64(salt ‖ nonce ‖ AES-256-GCM ciphertext and tag). The key is derived
  from the machine identity with PBKDF2. `IsEncrypted` is a length heuristic.
- **The feed timeline** (`FeedContent`, `Sorting`). Items of every feed that
  parsed are gathered with their feed's title and badge image. They are
  sorted newest first and each gets:
  - its display image: the item image, else the first `src` of an `img` in
    the content;
  - a relative-time phrase ("3 hours ago");
  - the read flag from the history table.
- **The reading history** (`History`). It is a table keyed by link:
  - `INSERT OR REPLACE` upserts, and the last write wins;
  - updating the read flag leaves every other row alone;
  - clearing empties the table;
  - listing returns every row exactly once, sorted by time string.
- **Malformed-markup repair** (`Html`). Three regular-expression rewrites
  repair tags closed with `-->` (`<p-->`, `<img src="x" -->`, `<br-->`). A
  final `strings.TrimSpace` follows.
- **The rule-action editor** (`RuleActions`). A filter rule's action list can:
  - append the first option not yet chosen;
  - remove an entry with `splice`;
  - overwrite an entry in place;
  - list, for each entry, the options it may switch to.

State the source changes in place is modelled as classes:
- `HistoryStore` holds the table;
- `RandomSource` holds the entropy still available;
- `ActionsRef` holds the reactive action array.

`sort.Slice` becomes an in-place insertion sort on an `array`. Its only
requirement is a strict weak order, so nothing is proved about the order of
ties.

The regular expressions are modelled by their RE2 leftmost-first semantics:
- greedy repetitions try the longest width first;
- lazy ones try the shortest first;
- alternatives are tried in the order written.

`ReplaceAll` scans left to right and resumes after each match.

The comment at internal/utils/html.go:20-22 says malformed self-closing tags
such as `<img src="..." -->` become `<img ...>`. For `<img src="x" -->` the
code gives `<img src="x" >`: the lazy attribute group `[^>]+?` stops at the
first `--+>`, so the space before the dashes stays inside the attributes.
`Html.CleanImgWithSpacedArrow` proves that result.

## Model

| member | source | states |
|---|---|---|
| Base64.Encode | internal/crypto/encryption.go:106 | StdEncoding output is 4·⌈n/3⌉ characters and holds no line breaks |
| Base64.StripNewlines | internal/crypto/encryption.go:117 | the result holds no CR or LF, is no longer than the input, and is the input itself when it has none |
| Base64.StripNewlinesConcat | internal/crypto/encryption.go:117 | removing line breaks distributes over concatenation, so every other byte is kept, in order |
| Base64.DecodeIgnoresNewline | internal/crypto/encryption.go:117 | the decoder ignores CR and LF: inserting one anywhere leaves the result of `DecodeString` unchanged |
| Base64.DecodeQuanta | internal/crypto/encryption.go:117 | decoding padded quanta yields at most 3/4 as many bytes as input characters |
| Base64.Decode | internal/crypto/encryption.go:117 | `DecodeString` yields at most 3/4 as many bytes as input characters, or fails |
| Base64.SextetOfAlphabet | internal/crypto/encryption.go:106-117 | decoding a character of the alphabet gives back its 6-bit value |
| Base64.DecodeQuantum | internal/crypto/encryption.go:106-117 | a full 3-byte quantum decodes back to its three bytes before the rest |
| Base64.DecodeOneByte | internal/crypto/encryption.go:106-117 | the `xx==` tail decodes to its one byte |
| Base64.DecodeTwoBytes | internal/crypto/encryption.go:106-117 | the `xxx=` tail decodes to its two bytes |
| Base64.DecodeQuantaEncode | internal/crypto/encryption.go:106-117 | decoding the quanta of an encoding gives back the bytes |
| Base64.DecodeEncode | internal/crypto/encryption.go:106-117 | `DecodeString(EncodeToString(b)) == b` for every byte string |
| Base64.EncodeInjective | internal/crypto/encryption.go:106 | distinct byte strings have distinct encodings; only the empty string encodes to empty |
| Encryption.Frame | internal/crypto/encryption.go:100-103 | the frame is salt, then nonce, then sealed text, at offsets 0, 16 and 28 |
| Encryption.RandomSource.ReadFull | internal/crypto/encryption.go:69-94 | `io.ReadFull` fills the whole buffer from the source and consumes it, or fails when the source is short |
| Encryption.DerivedKeyLength | internal/crypto/encryption.go:51-53 | PBKDF2 with key size 32 yields a 32-byte key, so the AES-256 setup never fails |
| Encryption.Encrypt | internal/crypto/encryption.go:58-107 | empty plaintext gives "" with no error and consumes no entropy; no machine id gives the identity error; under lawful primitives a source with fewer than 16 + 12 bytes gives the entropy error (salt or nonce read) and no text; success is exactly base64(salt ‖ nonce ‖ Seal) with salt and nonce drawn in that order; under lawful primitives it succeeds iff 28 random bytes are available |
| Encryption.Decrypt | internal/crypto/encryption.go:111-167 | "" gives "" with no error; bad base64 gives the decode error iff the input does not decode; fewer than 44 bytes gives ErrInvalidCiphertext; the second length check is unreachable; past those checks a missing machine id gives the identity error; a lawful key never fails cipher setup, every failure of Open gives ErrDecryptionFailed, and an authenticated Open gives its plaintext with no error; success means Open authenticated the returned text under the key derived from the stored salt |
| Encryption.IsEncrypted | internal/crypto/encryption.go:171-185 | true iff the input is non-empty, decodes, and decodes to at least 16+12+16 bytes |
| Encryption.DecryptEnvelope | internal/crypto/encryption.go:58-167 | decrypting what Encrypt produced, on the same machine, gives back the plaintext |
| Encryption.EnvelopeIsEncrypted | internal/crypto/encryption.go:171-185 | every envelope Encrypt produces passes the IsEncrypted heuristic |
| Encryption.DistinctSaltsDistinctEnvelopes | internal/crypto/encryption.go:69-106 | the same plaintext encrypted with different salts gives different stored strings |
| Encryption.IsEncryptedPassesFormatChecks | internal/crypto/encryption.go:111-185 | IsEncrypted holds exactly when Decrypt gets past its empty, base64 and minimum-length checks |
| Sorting.Swap | backend/getFeedContent.go:59-61 | exchanges two elements and keeps the multiset |
| Sorting.SortSlice | backend/getFeedContent.go:59-61 | `sort.Slice` with a strict weak order: the result is sorted by it and is a permutation of the input |
| History.LexLessAsymmetric | backend/getHistory.go:53-55 | Go's string `>` is asymmetric |
| History.LexLessTotal | backend/getHistory.go:53-55 | any two distinct strings are ordered one way or the other |
| History.LexLessTransitive | backend/getHistory.go:53-55 | Go's string ordering is transitive |
| History.TimeAfterIsStrictWeakOrder | backend/getHistory.go:53-55 | "later `Time` string first" is a strict weak order, as `sort.Slice` requires |
| History.Links | backend/setHistory.go:32-37 | the links of a batch are exactly the links its items carry |
| History.LinksOfInitAndLast | backend/setHistory.go:32-37 | the links of a batch are those of its earlier records plus the last one's |
| History.WritesKeys | backend/setHistory.go:32-37 | the rows a batch writes are keyed by exactly the batch's links |
| History.WritesLastWins | backend/setHistory.go:32-37 | each written row is the last item of the batch with that link |
| History.UpsertedFrame | backend/setHistory.go:32-37 | after an upsert the table holds the old links plus the batch's, and rows whose link is not in the batch are unchanged |
| History.UpsertedLastWins | backend/setHistory.go:32-37 | an item not followed by another with the same link is what the table holds for that link |
| History.UpsertedKeyedByLink | backend/setHistory.go:32-37 | upserting keeps every row stored under its own link |
| History.UpsertedIdempotent | backend/setHistory.go:32-37 | replaying the same batch changes nothing |
| History.HistoryStore.CheckInHistory | backend/getHistory.go:60-79 | the membership query; its contract is stated by History.HistoryStore.LookupsMatchQueries |
| History.HistoryStore.GetHistoryReaded | backend/getHistory.go:81-108 | the read-flag query; its contract is stated by History.HistoryStore.LookupsMatchQueries |
| History.HistoryStore.LookupsMatchQueries | backend/getHistory.go:60-108 | the membership check is true iff some row has the item's link; the read lookup is true iff such a row is marked read, and false when there is none |
| History.HistoryStore.GetHistory | backend/getHistory.go:11-58 | returns every row exactly once and nothing else, with `Time` strings non-increasing |
| History.HistoryStore.SetHistory | backend/setHistory.go:10-39 | the table becomes the upsert of the batch into the old table, keyed by link |
| History.HistoryStore.SetHistoryReaded | backend/setHistory.go:41-68 | only the row with the item's link changes, and only its read flag; no row is added; a missing link changes nothing |
| History.HistoryStore.ClearHistory | backend/setHistory.go:70-97 | the table becomes empty |
| FeedContent.Bucket | backend/getFeedContent.go:114-151 | the unit and count getTimeSince picks; its contract is stated by FeedContent.BucketIsLargestUnit |
| FeedContent.BucketIsLargestUnit | backend/getFeedContent.go:114-151 | non-positive elapsed time is "now"; otherwise the largest unit whose threshold is reached, with the count truncated |
| FeedContent.DigitChar | backend/getFeedContent.go:122 | a decimal digit is rendered as a character '0'–'9' |
| FeedContent.DecimalDigits | backend/getFeedContent.go:122 | `%d` of a count is a non-empty run of decimal digits |
| FeedContent.DecimalValue | backend/getFeedContent.go:122 | `%d` spells the count itself: its digits denote the count, and there is no leading zero |
| FeedContent.PhrasePlural | backend/getFeedContent.go:121-146 | the phrase ends in "s ago" iff the count is not 1 |
| FeedContent.TimeSince | backend/getFeedContent.go:114-151 | getTimeSince; its contract is stated by FeedContent.TimeSinceShape and the boundary lemmas below |
| FeedContent.TimeSinceShape | backend/getFeedContent.go:114-151 | "now" iff no time has passed; otherwise a phrase ending in " ago", plural iff the count is not 1 |
| FeedContent.MinuteBoundary | backend/getFeedContent.go:116-125 | 0 s gives "now", 59 s gives "0 minutes ago", 60 s gives "1 minute ago" |
| FeedContent.HourBoundary | backend/getFeedContent.go:126-132 | 23 h 59 m gives "23 hours ago" |
| FeedContent.DayBoundary | backend/getFeedContent.go:133-139 | 25 h gives "1 day ago" |
| FeedContent.YearBoundary | backend/getFeedContent.go:140-146 | 400 days gives "1 year ago" |
| FeedContent.QuoteFreeEnd | backend/getFeedContent.go:103 | `[^"]*` runs to the first quote or the end |
| FeedContent.LastSrc | backend/getFeedContent.go:103 | a position it picks holds `src="`, with no `>` between the tag name and it |
| FeedContent.LastSrcIsLast | backend/getFeedContent.go:103 | greedy `[^>]*`: no `src="` lies after the picked one before the next `>`, and none at all when nothing is picked |
| FeedContent.FindMatch | backend/getFeedContent.go:103-106 | the leftmost start of a match, then its preferred end; none iff no match starts at or after the index |
| FeedContent.FilterImage | backend/getFeedContent.go:102-112 | filterImage; its contract is stated by FeedContent.FilterImageIsPreferredMatch |
| FeedContent.FilterImageIsPreferredMatch | backend/getFeedContent.go:102-112 | nil iff `img[^>]*src="([^"]*)` matches nowhere; otherwise the capture of the leftmost-first match |
| FeedContent.DisplayImage | backend/getFeedContent.go:66-73 | the image URL of the loop body; its contract is stated by FeedContent.DisplayImageChoice |
| FeedContent.DisplayImageChoice | backend/getFeedContent.go:66-73 | the item image when present; else the content image whenever filterImage finds one, which is the capture of the preferred match; "" only when the content has no match |
| FeedContent.Badge | backend/getFeedContent.go:43-49 | the feed image, else the favicon service URL for the feed's host; FeedContent.CollectOrigins proves the loop computes it for every item |
| FeedContent.OriginsOf | backend/getFeedContent.go:37-56 | one entry per item, with the feed's title, its image or favicon URL, and the item |
| FeedContent.FlattenOnlyParsedItems | backend/getFeedContent.go:30-57 | every gathered entry is an item of a feed that parsed, tagged with that feed's title and badge |
| FeedContent.FlattenHasParsedItems | backend/getFeedContent.go:30-57 | every item of every feed that parsed is gathered, tagged with its feed's title and badge |
| FeedContent.FlattenIsAllParsedItems | backend/getFeedContent.go:30-57 | an entry is gathered iff it comes from an item of a feed that parsed |
| FeedContent.Joined | backend/getFeedContent.go:65-96 | link, titles, content and both times are copied; the image is the display image; the read flag is true iff the history has the link marked read |
| FeedContent.NormaliseItem | backend/getFeedContent.go:66-93 | the loop body builds exactly the joined record for the item |
| FeedContent.NormaliseOne | backend/getFeedContent.go:65-93 | one pass yields the joined record with the item's relative-time phrase and formatted time |
| FeedContent.NormaliseAll | backend/getFeedContent.go:65-97 | one record per sorted item, in the same order |
| FeedContent.AfterIsStrictWeakOrder | backend/getFeedContent.go:59-61 | "published later" is a strict weak order |
| FeedContent.CollectOrigins | backend/getFeedContent.go:30-57 | the loop gathers exactly the entries of every parsed feed, in feed order |
| FeedContent.SortNewestFirst | backend/getFeedContent.go:59-61 | the result is a permutation with publication times non-increasing |
| FeedContent.GetFeedContent | backend/getFeedContent.go:20-100 | one output per gathered item, newest first, each the normalised form of its item |
| Html.Span | internal/utils/html.go:17-27 | a maximal run of one character class: it stops at the end or at the first character outside the class |
| Html.SpanChars | internal/utils/html.go:17-27 | every character in the run is in the class |
| Html.SpanExact | internal/utils/html.go:17-27 | a run of class characters followed by one outside the class is exactly the maximal run |
| Html.CloseEnd | internal/utils/html.go:17-27 | a `--+>` match ends just after a `-->` |
| Html.TagAt | internal/utils/html.go:23-27 | a name found by the alternation of img, br, hr, input, meta and link is present at that index |
| Html.TagAtPresent | internal/utils/html.go:23-27 | each void tag name is found where it occurs, none being a prefix of an earlier alternative |
| Html.LazyAttrs | internal/utils/html.go:23 | where the lazy `[^>]+?` stops, `--+>` follows |
| Html.TryWidths | internal/utils/html.go:23 | a match of `\s+([^>]+?)--+>` ends in `-->` within the text |
| Html.MatchMalformedTag | internal/utils/html.go:17 | a match of the first expression tried at index i ends, inside the text and past i + 1, just after a `-->` |
| Html.MatchVoidWithAttrs | internal/utils/html.go:23 | a match of the second expression tried at index i ends, inside the text and past i + 1, just after a `-->` |
| Html.MatchVoidNoAttrs | internal/utils/html.go:27 | a match of the third expression tried at index i ends, inside the text and past i + 1, just after a `-->` |
| Html.ReplaceAll | internal/utils/html.go:18-28 | `ReplaceAllString`: a left-to-right scan that replaces each match and resumes after it; its properties are stated by Html.ScanWithoutMatches, Html.ReplaceAllWithoutArrow and Html.ReplaceAllOneMatch |
| Html.MatchAt | internal/utils/html.go:17-27 | every match starts at a `<` and ends just after a `-->` |
| Html.ScanWithoutMatches | internal/utils/html.go:18-28 | where no match starts, the scan copies the text |
| Html.ReplaceAllWithoutArrow | internal/utils/html.go:18-28 | text without `-->` passes each rewrite unchanged |
| Html.ReplaceAllOneMatch | internal/utils/html.go:18-28 | text that is one whole match is replaced by its replacement |
| Html.SpaceBefore | internal/utils/html.go:31 | the run of white space before an index is maximal |
| Html.SpaceBeforeChars | internal/utils/html.go:31 | every character in that run is Unicode white space |
| Html.TrimSpace | internal/utils/html.go:31 | the result neither starts nor ends with Unicode white space |
| Html.TrimSpaceRemovesOnlySpace | internal/utils/html.go:31 | the result is a slice of the input and only white space is cut on either side |
| Html.TrimSpaceOfTrimmed | internal/utils/html.go:31 | trimming text that is already trimmed changes nothing |
| Html.CleanHTML | internal/utils/html.go:10-34 | "" stays ""; the result never starts or ends with white space |
| Html.CleanWithoutArrow | internal/utils/html.go:10-34 | markup without `-->` only loses its surrounding white space |
| Html.CleanWithoutMatches | internal/utils/html.go:10-34 | markup where none of the three expressions matches at any index, such as well-formed markup with comments, only loses its surrounding white space |
| Html.CleanComment | internal/utils/html.go:10-34 | a comment is not rewritten: `<!-- c -->` comes out unchanged |
| Html.DashesCloseAt | internal/utils/html.go:17-27 | two or more dashes and a `>` satisfy `--+>` and the match ends after the `>` |
| Html.MalformedTagRepaired | internal/utils/html.go:17-18 | wherever `<name ws dashes>` occurs, the first rewrite matches it whole and produces `<name>` |
| Html.VoidNoAttrsRepaired | internal/utils/html.go:27-28 | wherever `<tag ws dashes>` occurs for a void tag, the third rewrite produces `<tag>` |
| Html.LazyAttrsStops | internal/utils/html.go:23 | the lazy group stops exactly at the dashes that close the tag |
| Html.AttrsFound | internal/utils/html.go:23 | from the first attribute character the lazy group ends at the closing dashes, and the match after the closing `>` |
| Html.MatchVoidWithAttrsAt | internal/utils/html.go:23-24 | the second expression matches `<tag ws attrs-->` with the replacement `<tag attrs>` |
| Html.VoidWithAttrsParts | internal/utils/html.go:23 | the tag, white-space and attribute groups find the name, the whole white-space run and the text up to the closing dashes |
| Html.VoidWithAttrsRepaired | internal/utils/html.go:23-24 | wherever `<tag ws attrs dashes>` occurs for a void tag, the second rewrite produces `<tag attrs>` |
| Html.NameIsLetters | internal/utils/html.go:23-27 | void tag names are letters only |
| Html.RepairedHasNoArrow | internal/utils/html.go:10-34 | a repaired tag holds no `-->` |
| Html.RepairedIsFinal | internal/utils/html.go:24-31 | a repaired tag passes the later rewrites and the trim unchanged |
| Html.CleanBrokenTag | internal/utils/html.go:10-34 | the document `<p-->` (any name, any white space, two or more dashes) comes out as `<p>` |
| Html.CleanBrokenVoid | internal/utils/html.go:10-34 | the document `<br-->` comes out as `<br>`; the first rewrite already repairs it |
| Html.VoidNoAttrsAt | internal/utils/html.go:27 | the third expression matches `<tag ws dashes>` whole with the replacement `<tag>` |
| Html.MalformedTagMissesAttrs | internal/utils/html.go:17 | the first expression does not match a tag with attributes |
| Html.FirstRewriteKeepsVoidWithAttrs | internal/utils/html.go:17-18 | `<tag ws attrs-->` without `<` in the attributes passes the first rewrite unchanged |
| Html.VoidRepairIsFinal | internal/utils/html.go:27-31 | `<tag attrs>` passes the third rewrite and the trim unchanged |
| Html.SecondRewriteOfVoidWithAttrs | internal/utils/html.go:23-24 | the second rewrite takes the document `<tag ws attrs-->` to `<tag attrs>` |
| Html.LastStagesOfVoidWithAttrs | internal/utils/html.go:27-31 | the repaired `<tag attrs>` is final |
| Html.CleanBrokenVoidWithAttrs | internal/utils/html.go:10-34 | the document `<tag ws attrs dashes>` comes out as `<tag attrs>` |
| Html.CleanImgWithSpacedArrow | internal/utils/html.go:10-34 | `<img src="x" -->` comes out as `<img src="x" >` |
| RuleActions.ActionsRef.constructor | frontend/src/composables/rules/useRuleActions.ts:5 | the reference holds the given array |
| RuleActions.Selected | frontend/src/composables/rules/useRuleActions.ts:22 | `new Set(actions.value)` holds exactly the chosen values |
| RuleActions.FirstUnusedFrom | frontend/src/composables/rules/useRuleActions.ts:7 | `find` from an index: the first option whose value is unchosen, or none when all from there are chosen |
| RuleActions.FirstUnused | frontend/src/composables/rules/useRuleActions.ts:7 | the first option whose value is unchosen, every earlier one being chosen; none iff every option is chosen |
| RuleActions.AddAction | frontend/src/composables/rules/useRuleActions.ts:5-11 | appends exactly the first unchosen option value; unchanged when all are chosen; keeps the list free of duplicates |
| RuleActions.AddedValueIsNew | frontend/src/composables/rules/useRuleActions.ts:6-9 | the appended value is not in the list yet, so no duplicate appears |
| RuleActions.SpliceNegativeIndex | frontend/src/composables/rules/useRuleActions.ts:14 | `splice(-1, 1)` removes the last entry; a negative index from -length on removes the entry that many from the end; one before that removes the first entry; an index at or past the end removes nothing |
| RuleActions.Spliced | frontend/src/composables/rules/useRuleActions.ts:14 | one element, the one at the start, is removed when the start is inside the array; otherwise nothing changes |
| RuleActions.SplicedPositions | frontend/src/composables/rules/useRuleActions.ts:14 | removing entry i keeps the earlier entries in place and shifts the later ones down by one |
| RuleActions.SplicedKeepsNoDup | frontend/src/composables/rules/useRuleActions.ts:14 | removing an entry introduces no duplicate |
| RuleActions.RemoveAction | frontend/src/composables/rules/useRuleActions.ts:13-15 | the list becomes the spliced list; a list without duplicates stays without them |
| RuleActions.Updated | frontend/src/composables/rules/useRuleActions.ts:18 | an in-range index is overwritten and nothing else changes; the index equal to the length appends; a negative index changes no element |
| RuleActions.UpdateAction | frontend/src/composables/rules/useRuleActions.ts:17-19 | the list becomes the updated list |
| RuleActions.GetAvailableActions | frontend/src/composables/rules/useRuleActions.ts:21-26 | an option is offered iff it is an option whose value is unchosen or is the entry's current value |
| RuleActions.AvailableOfConcat | frontend/src/composables/rules/useRuleActions.ts:23-25 | the filter keeps the options' order: the options of two lists in a row are those of the first, then those of the second |
| RuleActions.UpdateWithAvailableKeepsNoDup | frontend/src/composables/rules/useRuleActions.ts:17-26 | switching an entry to an option offered for it keeps the list free of duplicates |

## Left out

- `GetMachineID` (internal/crypto/encryption.go:36-47) reads the host name and the runtime. The machine identity is a parameter: `None` stands for the host-name error.
- PBKDF2, AES and GCM are kept abstract. `Primitives` carries them and `Lawful` states the two facts the envelope relies on: 32-byte keys, and Open undoing Seal with a 16-byte tag. `crypto/rand` is a finite byte pool.
- The cipher-setup error is raised, as `aes.NewCipher` does, for a key that is not 16, 24 or 32 bytes long. Under `Lawful` the key is always 32 bytes (`Encryption.DerivedKeyLength`), so that error is unreachable there. `cipher.NewGCM` cannot fail on an AES block, so its error is not a separate path.
- The network fetch of each feed, `gofeed` parsing, the 60-second context deadline and the `url.Parse` panic are left out. The model takes the parse results as input, with `None` for a feed that failed, and takes a function from feed link to host.
- Items are assumed to carry a publication time. The source dereferences `PublishedParsed` without a nil check.
- `time.Since` is an integer elapsed duration in nanoseconds, computed from one `now` shared by every item. Go calls `time.Since` once per item, so items can see slightly different clocks.
- FeedContent.Bucket: Go's `Minutes()` and `Hours()` return float64 values, and the model uses integer division instead. They agree for minutes and for hours below one day. For larger durations the float64 sum can round up to the next whole hour. A duration 1 ns short of m days, for m from 171 to 365, is then shown by Go as "m days ago" and by the model as "m-1 days ago". The same happens 1 ns short of m years for m of 2 or more. The model never produces "365 days ago": FeedContent.BucketIsLargestUnit keeps the day count below 365.
- FeedContent.Bucket: the subtraction is unbounded. Go's `Time.Sub` saturates at about ±292 years.
- The `Time` string formatting ("2006-01-02 15:04") is a function parameter.
- SQL connections, transactions, statement errors, `log.Fatal` and the `dbFilePath` global are left out. The table is a map field of `HistoryStore`.
- History.HistoryStore.GetHistory: the order is stated only up to ties, because `sort.Slice` is not stable. The map's iteration order, which the SQL row order stands for, is not modelled.
- `sort.Slice` is modelled by insertion sort. Any result sorted by the order and a permutation of the input is what `sort.Slice` promises.
- RuleActions.UpdateAction: an index past the length is excluded by its requires. In JavaScript it would leave holes in the array, which a sequence cannot hold. Non-integer indices are not modelled.
- RuleActions.GetAvailableActions takes the array held by the reference, not the reference itself. It reads the array and changes nothing.
- `ActionOption` lives in `useRuleOptions`, which is not part of this model. Only its `value` field is read (useRuleActions.ts:7, 9, 24); `labelKey` is carried along but never read.
- Html.CleanHTML: Unicode white space for `TrimSpace` follows the White_Space property. Invalid UTF-8 is not modelled, since strings are sequences of characters.
