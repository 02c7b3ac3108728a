# migration-station, modelled in Dafny

migration-station copies a phpBB board by scraping it. It walks the old
board's forum listings and topic pages. It turns every post into a row,
registering each author once under a lower-cased key. It writes the rows as
SQL value lists. Along the way it converts post bodies to BBCode, tags the
BBCode with a per-post uid, and packs the codes used into a phpBB "feature
bitfield" (code `n` is bit `7 - n % 8` of byte `n / 8`, written in base64).
Separate clients read the error box, the logged-in user and the hidden form
inputs of a board page, and send private messages in batches of recipients.

This project models that core and proves its properties:

- `bits.dfy` and `base64.dfy` cover the bit layout and base64 (section 4 of
  RFC 4648).
- `bitfield.dfy` is the live ten-byte bitfield class (`src/package/Bitfield.ts`).
- `parsers_bitfield.dfy` is the growing thirty-byte one
  (`src/package/parsers/Bitfield.ts`).
- `parser.dfy` is the tag table (`src/package/parsers/Parser.ts`).
- `bbcode_parser.dfy` is `endsWithTag`, `addTagUIDs` and `parse`.
- `post_parser.dfy` and `phpbb_post_parser.dfy` are the newer and the older
  post parsers.
- `utils.dfy` is `cleanUsername`.
- `rows.dfy` and the four `*_model.dfy` files are the row serialisers.
- `migrator.dfy` is the crawl itself. It uses the row types and invariants
  of `tables.dfy` and the pop-and-refill walk of `pages.dfy`.
- `phpbb_client.dfy` and `pm_client.dfy` are the board-client string helpers
  and the private-message batching.
- `text.dfy`, `js.dfy` and `dom.dfy` give JavaScript's `split`, `join`,
  `indexOf`, `trim`, `slice`, `Number()` and `String()`, and the element
  data the DOM queries return.

Pages of the old board, the HTML-to-BBCode conversion, random uids and
passwords, and `Date.parse` are parameters: a `Site` value for the migration,
a `Services` value for the newer parser, and a `feed` function for the older.
The crawl's fetches are those functions applied to the forum id and `start`
offset. The crawl terminates because every listing is required to reach a
page that is not full, and subforums are required to run out beyond a ghost
`bound`.

The model follows the code where a description of the program says
otherwise. The code has:

- no per-entity limits;
- no duplicate-page detection: the loops refetch only while a page is
  exactly full, 30 posts or 35 topics;
- no topic or forum aggregates: the migrator's rows have five and six
  columns;
- no quote escaping in the SQL text.

Behaviour of the code as written is stated by lemmas rather than repaired:

- `Bitfield.QuoteBoldItalicCodeText`: the live bitfield UTF-8-encodes bytes
  of 0x80 and above, so codes {0, 1, 2, 8} give `w6DCgA==` where the
  test expects `4IA=`.
- `BBCodeParser.PrefixTagMatches`: `[img` matches `[i`.
- `PhpbbPostParser.DefaultCodesAreNotTags` and `PhpbbPostParser.DigitFreeUnchanged`:
  the older parser's codes are `Object.keys` of an array, `"0"` to `"12"`.
  An ordinary body therefore gets no tag rewriting.
- `PhpbbPostParser.NameEndingInBy`: the author `bobby` is read as `''`.
- `Migrator.QuoteNotEscaped`: a quote in a value is not escaped.
- `Migrator.Migrator.CrawlForum`: the crawl reads the listing of the new
  forum id, not the old one.
- `Tables.Descendants`: every descendant forum gets the left and right ids
  `lid` and `lid + 1` of the forum it was crawled from.
- `Migrator.FirstForumTakenForCategory`: the `dt a` query that looks for a
  category link also finds the forum title links, which phpBB places inside
  `dt` elements. A block of forums is therefore queued as one category, the
  first forum, and its other forums are not queued.

Three things are repaired rather than followed, and "## Left out" says what
the code does instead:

- `Migrator.Migrator.constructor`: the three row lists, never initialised
  in the source, start empty here.
- `PhpbbPostParser.GenBitfield`: the older parser builds a `Bitfield` that
  `src/package/PHPBBPostParser.ts` never imports. Here it is the ten-byte
  class of `src/package/Bitfield.ts`, so `PhpbbPostParser.DigitFreeNoBits`
  can state that an ordinary body gets the empty bitfield.
- The body conversions of the newer post parser: `src/package/parsers/PostParser.ts`
  calls `parseHTML` and `parseBBCode` on its `BBCodeParser`, which has
  neither method. Here they are the `parseHTML` and `parseBBCode` functions
  of a `Services` value.

## Model

| member | source | states |
|---|---|---|
| Bits.MaskOr | src/package/Bitfield.ts:13 | OR-ing the mask of bit `d` into a byte turns bit `d` on and leaves every other bit as it was |
| Bits.SetBit | src/package/Bitfield.ts:9-14 | `data[i] |= 1 << (7 - d)` keeps the length; `SetBitHas` states that exactly code `n` is added |
| Bits.SetBitHas | src/package/Bitfield.ts:9-14 | after `set(n)` exactly the codes that were on, plus `n`, are on |
| Bits.SetBitIdempotent | src/package/Bitfield.ts:13 | setting a code twice gives the same bytes as setting it once |
| Bits.SetBitCommutes | src/package/Bitfield.ts:13 | two codes set in either order give the same bytes |
| Bits.SetBitEncodes | src/package/Bitfield.ts:9-14 | bytes that hold a set of codes hold that set plus `n` after `set(n)` |
| Bits.LayoutEncodes | src/package/Bitfield.ts:10-13 | the phpBB layout of a code set (bit `7 - n % 8` of byte `n / 8`) holds exactly that set |
| Bits.EncodesUnique | src/package/Bitfield.ts:13 | two byte strings of one length that hold the same codes are equal, so the bytes depend only on the set of codes, not on order or repeats |
| Bits.ZerosEncodeNothing | src/package/Bitfield.ts:6 | zero-filled bytes hold no code |
| Bits.TrimTrailingZeros | src/package/Bitfield.ts:21 | the result is a prefix of the bytes, does not end in a zero byte, and only zero bytes were cut |
| Bits.TrimKeepsCodes | src/package/Bitfield.ts:21 | cutting trailing zero bytes switches no code on or off |
| Bits.TrimStopsAtNonZero | src/package/Bitfield.ts:21 | the cut stops right after the last non-zero byte, so interior zero bytes are kept |
| Base64.CharOfSextet | src/package/Bitfield.ts:22 | every six-bit value has an alphabet character that decodes back to it |
| Base64.Encode | src/package/Bitfield.ts:22 | the text has four characters per started group of three bytes |
| Base64.DecodeEncode | src/package/Bitfield.ts:22 | decoding the base64 text gives back the bytes |
| Base64.EncodeInjective | src/package/parsers/Bitfield.ts:21 | two byte strings have the same base64 text exactly when they are equal |
| Bitfield.Bitfield.constructor | src/package/Bitfield.ts:5-7 | a new bitfield is ten zero bytes |
| Bitfield.Bitfield.Set | src/package/Bitfield.ts:9-14 | the bytes become the old bytes with code `n` switched on in place, and no other bit changes |
| Bitfield.Bitfield.ToBase64 | src/package/Bitfield.ts:16-23 | the text is valid base64 whose bytes, read as UTF-8, are the current bytes with the trailing zeros cut |
| Bitfield.EmptyText | src/package/Bitfield.ts:16-23 | a fresh bitfield's text is the empty string |
| Bitfield.FromUtf8OfUtf8 | src/package/Bitfield.ts:17 | the UTF-8 form `Buffer.from` makes of the character codes decodes back to them |
| Bitfield.Utf8OfAscii | src/package/Bitfield.ts:17 | character codes below 0x80 are their own UTF-8 form |
| Bitfield.Utf8Longer | src/package/Bitfield.ts:17 | a character code of 0x80 or above makes the UTF-8 form longer than the bytes |
| Bitfield.EncodedCarriesBytes | src/package/Bitfield.ts:16-23 | the text is valid base64 whose bytes, read as UTF-8, are the bitfield bytes with trailing zeros cut, so no code is lost |
| Bitfield.EncodedIsPhpbbWhenAscii | src/package/Bitfield.ts:17-22 | when every byte is below 0x80 the text is the base64 of the trimmed bytes, the form phpBB stores |
| Bitfield.EncodedIsNotPhpbbWhenHighByte | src/package/Bitfield.ts:17-22 | when a kept byte is 0x80 or above the text differs from the base64 of the trimmed bytes |
| Bitfield.BoldUnderlineText | src/__tests__/PHPBBPostParser.spec.ts:28 | codes {1, 7} (`b`, `u`) make the byte 0x41 and the text `QQ==` |
| Bitfield.QuoteBoldItalicCodeLayout | src/package/Bitfield.ts:9-14 | codes {0, 1, 2, 8} make the bytes E0 80 followed by zeros |
| Bitfield.QuoteBoldItalicCodeText | src/__tests__/PHPBBPostParser.spec.ts:41 | for codes {0, 1, 2, 8} phpBB's text is `4IA=`, but this class writes `w6DCgA==` |
| ParsersBitfield.Grown | src/package/parsers/Bitfield.ts:14-15 | the bytes are kept and padded with zero bytes up to the length needed |
| ParsersBitfield.GrownKeepsCodes | src/package/parsers/Bitfield.ts:14-15 | growing switches no code on or off |
| ParsersBitfield.SetGrowing | src/package/parsers/Bitfield.ts:11-18 | after `set(n)` the bytes are long enough to hold code `n` and no shorter than before |
| ParsersBitfield.SetGrowingHas | src/package/parsers/Bitfield.ts:11-18 | after `set(n)` exactly the codes that were on, plus `n`, are on |
| ParsersBitfield.SetGrowingIdempotent | src/package/parsers/Bitfield.ts:17 | setting a code twice gives the same bytes as setting it once |
| ParsersBitfield.SetGrowingCommutes | src/package/parsers/Bitfield.ts:11-18 | two codes set in either order give the same bytes, growth included |
| ParsersBitfield.NonZero | src/package/parsers/Bitfield.ts:24 | the filtered bytes contain no zero byte and are no longer than the input |
| ParsersBitfield.NonZeroAppend | src/package/parsers/Bitfield.ts:24 | filtering two byte strings laid end to end filters each in turn |
| ParsersBitfield.NonZeroKeepsNonZero | src/package/parsers/Bitfield.ts:24 | bytes without a zero byte pass the filter unchanged |
| ParsersBitfield.NonZeroDropsZero | src/package/parsers/Bitfield.ts:24 | a zero byte anywhere, interior ones included, is dropped |
| ParsersBitfield.NonZeroOfZeros | src/package/parsers/Bitfield.ts:24 | only zero bytes leave nothing |
| ParsersBitfield.EncodedCarriesNonZeroBytes | src/package/parsers/Bitfield.ts:20-27 | the text is the base64 of exactly the non-zero bytes, in order, and encodes no zero byte |
| ParsersBitfield.Bitfield.ToBase64 | src/package/parsers/Bitfield.ts:20-27 | the text decodes to exactly the non-zero bytes, in order |
| ParsersBitfield.EncodedIsPhpbbIffNoInteriorZero | src/package/parsers/Bitfield.ts:24 | the text equals phpBB's (trailing zeros cut) exactly when no zero byte sits before the last non-zero one |
| ParsersBitfield.SmallLayouts | src/package/parsers/Bitfield.ts:11-18 | in thirty bytes, codes {0, 1, 2, 8} make E0 80 and code 8 alone makes 00 80, each followed by zeros |
| ParsersBitfield.EncodedOfPair | src/package/parsers/Bitfield.ts:20-27 | two leading bytes followed by zeros are written as the base64 of their non-zero ones |
| ParsersBitfield.QuoteBoldItalicCodeText | src/__tests__/PHPBBPostParser.spec.ts:41 | codes {0, 1, 2, 8} are written `4IA=`, the test's expected text |
| ParsersBitfield.CodeOnlyText | src/package/parsers/Bitfield.ts:24 | code 8 alone is written `gA==` where phpBB stores `AIA=`, because the interior zero byte is dropped |
| ParsersBitfield.Bitfield.constructor | src/package/parsers/Bitfield.ts:7-9 | a new bitfield is thirty zero bytes |
| ParsersBitfield.Bitfield.Set | src/package/parsers/Bitfield.ts:11-18 | the bytes become the old bytes grown with zeros to hold code `n`, with `n` switched on |
| Parser.Keys | src/package/parsers/Parser.ts:31 | the tag names of a table, one per entry, in key order |
| Parser.Lookup | src/package/parsers/Parser.ts:31 | no id exactly when the tag is not a key; a found id is stored under that tag |
| Parser.LookupAt | src/package/parsers/Parser.ts:31 | with unique keys, looking up an entry's tag gives that entry's id |
| Parser.Put | src/package/parsers/Parser.ts:31 | assigning a key keeps an existing key in its place or appends a new one, changes the id of that key only, and leaves every other lookup as it was |
| Parser.UniqueTail | src/package/parsers/Parser.ts:31 | the first key of a table with unique keys is not among the others, and the rest still has unique keys |
| Parser.MergeLookup | src/package/parsers/Parser.ts:31 | after `{...defaults, ...bbcodes}` a tag given by the caller has the caller's id, and any other tag keeps its default |
| Parser.MergeKeepsKeyOrder | src/package/parsers/Parser.ts:31 | the default keys keep their order at the front of the merged table |
| Parser.CodesOf | src/package/parsers/Parser.ts:4-18 | the ids of a table, one per entry, in key order |
| Parser.DefaultTagsUnique | src/package/parsers/Parser.ts:4-18 | the thirteen default tag names are distinct |
| Parser.DefaultCodesDistinct | src/package/parsers/Parser.ts:4-18 | the default ids are distinct and are exactly the numbers 0 to 12 |
| Parser.Dedup | src/package/parsers/Parser.ts:37 | `[...new Set(idxs)]` lists each id once and holds exactly the ids of the input |
| Parser.GenBitfield | src/package/parsers/Parser.ts:35-39 | the text is the bitfield text of exactly the set of given ids, whatever their order or repeats |
| Parser.NoCodesText | src/package/parsers/Parser.ts:35-39 | no ids give the empty text |
| Utils.LowerChar | src/package/Utils.ts:5 | an upper-case ASCII letter becomes its lower-case letter; any other character is unchanged |
| Utils.CleanUsername | src/package/Utils.ts:4-6 | the key has the name's length, no upper-case letter, and differs from the name exactly at its upper-case letters |
| Utils.CleanIdempotent | src/package/Utils.ts:4-6 | cleaning a key again changes nothing |
| Utils.CleanIffSameIgnoringCase | src/package/Utils.ts:5 | two names get the same key exactly when they differ only in the case of their letters |
| BBCodeParser.SliceLast | src/package/parsers/BBCodeParser.ts:14 | `slice(-n)` is the last `n` characters, or the whole text when `n` is 0 or at least its length |
| BBCodeParser.EndsWithTagOfSuffix | src/package/parsers/BBCodeParser.ts:14 | a fragment that ends with the tag matches it |
| BBCodeParser.EndsWithTagAfterLastBracket | src/package/parsers/BBCodeParser.ts:15-18 | a tag name right after the last `[` matches whatever follows it, so `[url` and `[url=x` both match `[url` |
| BBCodeParser.LastAfterLastBracket | src/package/parsers/BBCodeParser.ts:15-17 | the piece after the last `[` is the text that follows it |
| BBCodeParser.EndsWithTagIff | src/package/parsers/BBCodeParser.ts:12-20 | a fragment matches `[name` exactly when it ends with `[name` or the text after its last `[` begins with `name` |
| BBCodeParser.BareNameMatches | src/package/parsers/BBCodeParser.ts:15-18 | a fragment without `[` that begins with the name matches: `url` matches `[url` |
| BBCodeParser.PrefixTagMatches | src/package/parsers/BBCodeParser.ts:15-18 | only the first letters are compared, so `[img` matches `[i` |
| BBCodeParser.NoSepOneSplit | src/package/parsers/BBCodeParser.ts:16 | a text without `[` splits into itself alone |
| BBCodeParser.FindTag | src/package/parsers/BBCodeParser.ts:49 | nothing is found exactly when no key matches the fragment; a found key is a key that matches it |
| BBCodeParser.OpenCode | src/package/parsers/BBCodeParser.ts:49-51 | a fragment adds an id exactly when an opening tag of the table matches it, and the id is one of the table's |
| BBCodeParser.TagFragments | src/package/parsers/BBCodeParser.ts:47-57 | one tagged fragment per fragment, each `lb:uid` when it matches an opening or closing tag and `lb` otherwise |
| BBCodeParser.OpenCodes | src/package/parsers/BBCodeParser.ts:49-51 | every collected id is an id of the table |
| BBCodeParser.TagFragmentsSnoc | src/package/parsers/BBCodeParser.ts:47-57 | tagging one more fragment appends its tagged form |
| BBCodeParser.OpenCodesSnoc | src/package/parsers/BBCodeParser.ts:49-51 | one more fragment appends its opening id, if it has one |
| BBCodeParser.DedupSnoc | src/package/parsers/BBCodeParser.ts:51 | adding an id to the `Set` keeps it only when it is new, at the end |
| BBCodeParser.AddTagUIDs | src/package/parsers/BBCodeParser.ts:42-61 | the body is the fragments between `]`s, each tagged, joined on `]`; the ids are the opening-tag ids, each once, in order of first appearance |
| BBCodeParser.UntaggedUnchanged | src/package/parsers/BBCodeParser.ts:54 | a body in which no fragment matches a tag comes back unchanged |
| BBCodeParser.TaggedFragmentsRecovered | src/package/parsers/BBCodeParser.ts:45-58 | with a uid free of `]`, the tagged body splits back into the tagged fragments and has as many `]` as the input |
| BBCodeParser.ClosingAddsNoCode | src/package/parsers/BBCodeParser.ts:49-55 | a fragment that matches no opening tag adds no id, even when it matches a closing tag |
| BBCodeParser.Parse | src/package/parsers/BBCodeParser.ts:22-35 | the result carries the uid used, the converted body, its tagged form, and the bitfield text of the opening-tag ids found in it |
| PostParser.ParsePostInfo | src/package/parsers/PostParser.ts:41-48 | fails exactly when the element has no id or the author text has no separator; the id is the id attribute less its first character |
| PostParser.AuthorWord | src/package/parsers/PostParser.ts:44 | the last word of `by <name> ` is a one-word name |
| PostParser.IdOf | src/package/parsers/PostParser.ts:43 | the id attribute `p<n>` is read back as `n`, and `n` prints as it was written |
| PostParser.AuthorLine | src/package/parsers/PostParser.ts:41-48 | the author line `by <name> » <date>` and id `p<n>` give back the name and `n` |
| PostParser.ParsePostEdits | src/package/parsers/PostParser.ts:67-93 | no notice gives user `'0'`, count 0, time 0 and reason `''`; a notice fails exactly when it lacks ` on ` or `, edited `; the user is always `'0'` |
| PostParser.EditReason | src/package/parsers/PostParser.ts:76-86 | the reason is the notice after its first `.`, less its first space-separated word, trimmed |
| PostParser.EditCount | src/package/parsers/PostParser.ts:73-75 | a notice `<a>, edited <n> <b>` counts `n` edits |
| PostParser.CountPiece | src/package/parsers/PostParser.ts:74 | the word after the first `, edited `, up to the next space, is the one put there |
| PostParser.NoMarkBefore | src/package/parsers/PostParser.ts:74 | no `, edited ` starts inside a word without a comma |
| PostParser.EditTime | src/package/parsers/PostParser.ts:70-72 | a notice `<a> on <d>, edited<b>` is timed by the date `d` |
| PostParser.TimePiece | src/package/parsers/PostParser.ts:71 | the text between the first ` on ` and the next `, edited` is the one put there |
| PostParser.NoOnBefore | src/package/parsers/PostParser.ts:71 | no ` on ` starts inside `<d>, edited` when `d` holds none |
| PostParser.TextAreaParts | src/package/parsers/PostParser.ts:60 | the body is the text between the first `]` and the last nine characters; a text too short gives `''`, and one without `]` loses only its last nine characters |
| PostParser.BodyAfterParts | src/package/parsers/PostParser.ts:60 | the two slices, for any index from -1 on |
| PostParser.ParseFromTextArea | src/package/parsers/PostParser.ts:58-65 | the body is the text-area slice, parsed as BBCode |
| PostParser.QuoteBody | src/package/parsers/PostParser.ts:95-108 | no body exactly when the quote page holds `<h2>Information</h2>`; otherwise the page's text-area body |
| PostParser.ParsePostBody | src/package/parsers/PostParser.ts:50-56 | the body keeps the content's HTML and its conversion |
| PostParser.ParseStringQuote | src/package/parsers/PostParser.ts:111-130 | throws `Given elem does not contain a phpbb post` exactly when there is no post element; otherwise the first post's info and edits |
| PostParser.QuoteFallback | src/package/parsers/PostParser.ts:126-128 | the quote page's body is used whenever the page is not the information page, and the rendered body exactly when it is |
| PostParser.Parse | src/package/parsers/PostParser.ts:142-148 | succeeds exactly when the edits and the info parse, and then holds those and the rendered body |
| PostParser.ParseString | src/package/parsers/PostParser.ts:133-139 | throws exactly when there is no post element; otherwise parses the first one |
| PhpbbPostParser.Codes | src/package/PHPBBPostParser.ts:54 | `Object.keys` of the tag array: its indices `"0"`, `"1"`, ... as digit strings |
| PhpbbPostParser.DefaultCodesAreNotTags | src/package/PHPBBPostParser.ts:33-54 | the default codes are `"0"` to `"12"`, and no default tag name is among them |
| PhpbbPostParser.ReplaceTag | src/package/PHPBBPostParser.ts:58-64 | a text with neither `[tag` nor `[/tag` is unchanged |
| PhpbbPostParser.ReplaceTagPieces | src/package/PHPBBPostParser.ts:58-64 | in `a[tag b[/tag z` the first `[tag` becomes `[new` and the first `[/tag` becomes `[/new`, or both are deleted when the new contents are empty |
| PhpbbPostParser.ReplaceOpen | src/package/PHPBBPostParser.ts:62 | only the first occurrence of the pattern is replaced |
| PhpbbPostParser.ReplaceClose | src/package/PHPBBPostParser.ts:63 | the first `[/tag` after the rewritten opening tag is the one replaced |
| PhpbbPostParser.ReplaceTags | src/package/PHPBBPostParser.ts:85-90 | the reduce over the codes leaves a text holding no tag of any code unchanged |
| PhpbbPostParser.NoDigitPattern | src/package/PHPBBPostParser.ts:54 | a text without digits holds no pattern that has a digit |
| PhpbbPostParser.DigitFreeUnchanged | src/package/PHPBBPostParser.ts:85-90 | with the default codes, a text without digits comes through both reduces unchanged |
| PhpbbPostParser.Marked | src/package/PHPBBPostParser.ts:68 | code `i` is marked exactly when the literal `[c]` of its code occurs, so `[c=...]` does not count |
| PhpbbPostParser.GenBitfield | src/package/PHPBBPostParser.ts:66-70 | the text is the bitfield text of exactly the marked codes |
| PhpbbPostParser.DigitFreeNoBits | src/package/PHPBBPostParser.ts:66-70 | with the default codes, a text without digits marks no code and gets the empty bitfield |
| PhpbbPostParser.ParsePostBody | src/package/PHPBBPostParser.ts:81-98 | the BBCode is the conversion of the content with each code's first tags deleted; the uid body rewrites them to `c:uid`; the bitfield comes from the BBCode, not the uid body |
| PhpbbPostParser.DigitFreeBody | src/package/PHPBBPostParser.ts:81-98 | with the default codes and digit-free text, the BBCode is the plain conversion, the uid body equals it, and the bitfield is empty |
| PhpbbPostParser.ParsePostInfo | src/package/PHPBBPostParser.ts:72-79 | fails exactly when the element has no id or the author text has no `»`; the id is the id attribute less its first character |
| PhpbbPostParser.AuthorLine | src/package/PHPBBPostParser.ts:72-79 | `by <name> » <date>` and id `p<n>` give back a one-word name without `by`, and `n` |
| PhpbbPostParser.NameAfterBy | src/package/PHPBBPostParser.ts:75 | the text after the last `by` of `by <name> `, trimmed, is a name without `by` |
| PhpbbPostParser.TrimmedByLine | src/package/PHPBBPostParser.ts:75 | trimming `by <name> ` drops only the trailing space |
| PhpbbPostParser.NoByAfterSpace | src/package/PHPBBPostParser.ts:75 | a space put before a text without `by` does not make one |
| PhpbbPostParser.ByThenRest | src/package/PHPBBPostParser.ts:75 | `by` and a text without `by` split into `''` and that text |
| PhpbbPostParser.NameEndingInBy | src/package/PHPBBPostParser.ts:75 | the author `bobby` is read as the empty name |
| PhpbbPostParser.BobbyUser | src/package/PHPBBPostParser.ts:75 | the text after the last `by` of `by bobby `, trimmed, is empty |
| PhpbbPostParser.BobbySplit | src/package/PHPBBPostParser.ts:75 | `"by bobby".split("by")` is `["", " bob", ""]` |
| PhpbbPostParser.ParsePostEdits | src/package/PHPBBPostParser.ts:100-126 | no notice gives user `''`, count 0, time 0 and reason `''`; a notice fails exactly when it lacks ` on ` or `, edited `; the user is the notice's link text |
| PhpbbPostParser.EditsAsNewer | src/package/PHPBBPostParser.ts:103-119 | both parsers fail on the same notices and find the same count and reason; the time is the same date text, in milliseconds here |
| PhpbbPostParser.Parse | src/package/PHPBBPostParser.ts:138-144 | succeeds exactly when the edits and the info parse, and then holds those and the body of the content |
| PhpbbPostParser.ParseString | src/package/PHPBBPostParser.ts:129-135 | throws exactly when there is no post element; otherwise parses the first one |
| TopicModel.TopicToRow | src/package/model/Topic.ts:49-86 | a topic row has sixteen cells of the kinds its type lists |
| TopicModel.RowToTopic | src/package/model/Topic.ts:44-47 | a topic is read back exactly from rows of the topic row's shape |
| TopicModel.TopicRoundTrip | src/package/model/Topic.ts:49-86 | every topic is read back from its row, so no field is lost or moved |
| TopicModel.RowRoundTrip | src/package/model/Topic.ts:49-86 | every row of the right shape is the row of the topic read from it |
| ForumModel.ForumToRow | src/package/model/Forum.ts:50-89 | a forum row has seventeen cells of the kinds its type lists |
| ForumModel.RowToForum | src/package/model/Forum.ts:14-28 | a forum is read back exactly from rows of the forum row's shape |
| ForumModel.ForumRoundTrip | src/package/model/Forum.ts:50-89 | every forum is read back from its row |
| ForumModel.RowRoundTrip | src/package/model/Forum.ts:50-89 | every row of the right shape is the row of the forum read from it |
| PostModel.PostToRow | src/package/model/Post.ts:51-86 | a post row has fifteen cells: three ids, then the post body data |
| PostModel.RowToPost | src/package/model/Post.ts:28 | a post is read back exactly from rows of the post row's shape |
| PostModel.PostRoundTrip | src/package/model/Post.ts:51-86 | every post is read back from its row |
| PostModel.RowRoundTrip | src/package/model/Post.ts:51-86 | every row of the right shape is the row of the post read from it |
| UserModel.UserToRow | src/package/model/User.ts:30-53 | a user row has nine cells of the kinds its type lists |
| UserModel.RowToUser | src/package/model/User.ts:6-16 | a user is read back exactly from rows of the user row's shape |
| UserModel.UserRoundTrip | src/package/model/User.ts:30-53 | every user is read back from its row, signature uid and bitfield included |
| UserModel.RowRoundTrip | src/package/model/User.ts:30-53 | every row of the right shape is the row of the user read from it |
| Tables.Flag | src/package/Migrator.ts:206 | `Number(b)` is 1 for true and 0 for false |
| Tables.RegistryDistinct | src/package/Migrator.ts:129-137 | no cleaned name is registered twice |
| Tables.RegistrySize | src/package/Migrator.ts:132 | the map holds one user per registered name, so `users.size` counts them |
| Tables.DistinctCount | src/package/Migrator.ts:132 | a list without repeats has as many elements as its set |
| Tables.RegistryAdd | src/package/Migrator.ts:131-137 | registering a new name with id `start + size` keeps the registry |
| Tables.RegisteredUsers | src/package/Migrator.ts:336 | the users in registration order, one per key |
| Tables.InTopicAppend | src/package/Migrator.ts:214 | a post of the topic appended to posts of the topic keeps them all in the topic |
| Tables.DescendantsAppend | src/package/Migrator.ts:260-270 | two runs of descendants of a forum laid end to end are descendants |
| Tables.ChildSubtree | src/package/Migrator.ts:262-269 | a child row with left id `lid`, right id `lid + 1`, followed by its own descendants, are descendants of the parent |
| Tables.ListingRowsAppend | src/package/Migrator.ts:275-281 | the row of one more listing entry extends the listing rows |
| Tables.AppendPost | src/package/Migrator.ts:177-193 | a post numbered next, by a registered poster, keeps the posts numbered |
| Tables.RootChainAppend | src/package/Migrator.ts:296-302 | a root row whose left id is the previous root's id extends the chain of roots |
| Tables.PlacedAtAppend | src/package/Migrator.ts:296-302 | a root row appended with its subtree is found at the index where it was appended, and earlier roots stay put |
| Pages.Reversed | src/package/Migrator.ts:214 | popping a page takes its items last first |
| Pages.WalkedIsConcat | src/package/Migrator.ts:213-221 | the items handled, the current page taken last first and the pages to come make up the whole listing |
| Pages.Start | src/package/Migrator.ts:211-212 | before any pop, the whole listing is the first page last first and the rest |
| Pages.TakeLast | src/package/Migrator.ts:214 | popping the last item of the page moves it to the items handled |
| Pages.Refill | src/package/Migrator.ts:216-220 | loading the next page when the current one is drained keeps the walk |
| Pages.Finished | src/package/Migrator.ts:213 | when the page is empty and nothing is left, the items handled are the whole listing |
| Migrator.GetId | src/package/Migrator.ts:230-232 | `getId`: `Number` of the text after the last `=`; `GetIdOf` and `GetIdLastWins` pin it: a link ending in `=<n>` gives `n`, and text up to the last `=` is ignored |
| Migrator.GetIdOf | src/package/Migrator.ts:230-232 | a link ending in `=<n>` gives `n` |
| Migrator.GetIdLastWins | src/package/Migrator.ts:231 | only the text after the last `=` counts |
| Migrator.Pending | src/package/Migrator.ts:247-259 | no blocks give no subforums to crawl, and the only failure is the `TypeError` of `getId` on a missing `href` |
| Migrator.PendingOfCategory | src/package/Migrator.ts:250-253 | a block whose first link inside a `dt` (the `dt a` query, read by `.attr`) has a non-empty `href` adds exactly one entry, `(getId(href), true)`, in front of the rest |
| Migrator.FirstForumTakenForCategory | src/package/Migrator.ts:250-258 | on phpBB's layout, where the first `dt a` link is the block's first `a.forumtitle`, the block adds only that forum, as a category, in front of the rest |
| Migrator.PendingOfForums | src/package/Migrator.ts:250-258 | a block whose first `dt a` link is missing, has no `href` or an empty one adds `(getId(href), false)` for each `a.forumtitle`, in order, in front of the rest, and fails when one of them has no `href` |
| Migrator.PendingFails | src/package/Migrator.ts:250-258 | the list fails exactly when some block without a non-empty first `dt a` href has a forum link without `href` |
| Migrator.PendingOfForumBlocks | src/package/Migrator.ts:250-258 | blocks without any link inside a `dt` give forums, never categories |
| Migrator.NumberIsQuoted | src/package/Migrator.ts:313 | numbers are written between quotes like strings, because a primitive is not `instanceof Number` |
| Migrator.QuoteNotEscaped | src/package/Migrator.ts:313 | a quote inside a string value is not escaped, so `O'Brien` yields three quotes |
| Migrator.JoinCount | src/package/Migrator.ts:313 | a separator without the character adds none of it |
| Migrator.QuotesOfJoin | src/package/Migrator.ts:313 | the quotes of the joined cells are the quotes of the cells |
| Migrator.QuotesOfCells | src/package/Migrator.ts:313 | cells whose text has no quote carry two quotes each |
| Migrator.ToSqlString | src/package/Migrator.ts:312-314 | a value list starts with `(` and ends with `)`, and an empty row is `()`; `QuotesOfRow`, `NumberIsQuoted` and `NoBreakInRow` state the quoting of every cell |
| Migrator.ToSqlValues | src/package/Migrator.ts:316-321 | no rows give the empty text and one row gives its value list alone; `ValuesLines` states one list per line for more |
| Migrator.QuotesOfRow | src/package/Migrator.ts:312-314 | a row of cells without quotes is written with exactly two quotes per cell |
| Migrator.NoBreakInNumber | src/package/Migrator.ts:313 | the text of a number has no line break |
| Migrator.NoBreakInJoin | src/package/Migrator.ts:313 | joining texts without line breaks with a separator without one makes none |
| Migrator.NoBreakInRow | src/package/Migrator.ts:312-314 | a row whose strings have no line break is written on one line |
| Migrator.ValuesAreLines | src/package/Migrator.ts:316-321 | the value lists are each row's text, with a comma after all but the last, joined by line breaks |
| Migrator.ValuesLines | src/package/Migrator.ts:316-321 | rows whose strings have no line break come out one per line, in order |
| Migrator.PasswordList | src/package/Migrator.ts:335-339 | no users give the empty text and one user gives `name,password`; `PasswordLines` states one such line per user, in order |
| Migrator.PasswordLines | src/package/Migrator.ts:335-339 | the password list has one line per user, in registration order, and each line splits back into that user's name and password |
| Migrator.Migrator.NextForumIdIsCount | src/package/Migrator.ts:298-300 | the next forum id, one past the last forum's or the start, is the start plus the number of forums |
| Migrator.Migrator.constructor | src/package/Migrator.ts:112-117 | the configuration and the old board are kept, the user map is empty, and the row lists start empty |
| Migrator.Migrator.Valid | src/package/Migrator.ts:124-196 | user ids run from `startUserId` in registration order with one row per cleaned name; forum, topic and post ids run from their start ids; every poster id is a user id handed out; the k-th post row is the parse of the k-th post's HTML with the k-th uid drawn |
| Migrator.Migrator.UserPasswords | src/package/Migrator.ts:335-339 | the password list of the registered users in registration order; `PasswordLines` and `Users` state its lines |
| Migrator.Migrator.Users | src/package/Migrator.ts:336 | the registered users in registration order, numbered from `startUserId` |
| Migrator.Migrator.CreateUserRow | src/package/Migrator.ts:124-139 | a registered cleaned name returns its row and changes nothing; a new one is registered with id `startUserId + users.size` and the next random password, and no row list changes |
| Migrator.Migrator.CreatePostRow | src/package/Migrator.ts:161-195 | fails exactly when the contents do not parse, changing nothing; otherwise appends one post numbered `startPostId + postRows.length`, with the parsed fields and the registered author's id |
| Migrator.Migrator.AddPost | src/package/Migrator.ts:176-194 | the author is registered and the post row appended with the next id and the author's user id |
| Migrator.ParseContents | src/package/Migrator.ts:175 | the parse succeeds exactly when the first post element's edits and info parse, and then holds the parser's fields |
| Migrator.RowOfParsed | src/package/Migrator.ts:177-192 | the row built from a parsed post carries the author line, edit notice, uid, tagged body and bitfield read from the contents |
| Migrator.Migrator.PostContentsUnfold | src/package/Migrator.ts:213-221 | the posts from page `k` on are page `k` last first, then those from page `k + 1` on if page `k` is full |
| Migrator.Migrator.NextPostPage | src/package/Migrator.ts:216-220 | after the posts of the pages up to `k`, those from page `k + 1` on come next |
| Migrator.Migrator.PostCount | src/package/Migrator.ts:209-221 | with `m` full pages from page `k`, the posts from `k` on number `30 m` plus the first page that is not full |
| Migrator.Migrator.CreateTopic | src/package/Migrator.ts:197-224 | appends the topic row with id `startTopicId + topicRows.length`, `Number(sticky)`, the new forum id and `Number(locked)`; then every post of the topic, page by page and last first within a page, becomes a row in that topic, each row the parse of the post at the same place with the uid drawn for its index |
| Migrator.Migrator.CreatePosts | src/package/Migrator.ts:209-221 | the loop turns exactly the topic's posts, in crawl order, into rows of the topic, and every row stays tied to the post it was parsed from |
| Migrator.Migrator.PostTurn | src/package/Migrator.ts:213-221 | one turn pops a post into a row tied to it, and refetches only a drained page that was full, keeping the walk |
| Migrator.Migrator.PopPost | src/package/Migrator.ts:214 | on success the page's last post leaves the page and exactly one row, of the topic and parsed from that post, is appended; on failure no row is |
| Migrator.Migrator.NextPosts | src/package/Migrator.ts:216-220 | the refetch reads the next page, and continues only when it is full |
| Migrator.Migrator.NextListingPage | src/package/Migrator.ts:283-288 | after the entries of the pages before `k`, listing page `k` comes next, and a full one is followed by the rest |
| Migrator.Migrator.TopicPostsAppend | src/package/Migrator.ts:281 | the posts of one more listed topic come after those of the topics before it |
| Migrator.Migrator.CrawlForum | src/package/Migrator.ts:234-292 | pushes the forum's row with the heading of the listing it reads; a forum link without `href` then ends it with a `TypeError` and nothing more added; otherwise its subforums, whose direct children are the pending entries' rows in order (one per entry when nothing fails) and the rest their descendants; then one topic row per listed entry with that topic's posts, every post row tied to its post |
| Migrator.Migrator.CrawlSubforums | src/package/Migrator.ts:260-270 | the rows added are descendants of the forum; its direct children among them are the rows of the pending entries, one per entry and in order, with the entry's category flag, left `lid` and right `lid + 1` |
| Migrator.Migrator.CrawlChild | src/package/Migrator.ts:262-269 | the first row added is the subforum's, with the next forum id, parent `fid`, left `lid`, right `lid + 1`, the heading of its listing and the category flag; every later row descends from it |
| Migrator.Migrator.CrawlTopics | src/package/Migrator.ts:272-289 | on success every listed entry had a title `href` and an icon `style`, and the loop made exactly the listing's topic rows, and their posts in crawl order, every post row tied to its post |
| Migrator.Migrator.TopicTurn | src/package/Migrator.ts:274-288 | one turn turns the last listed entry into a topic with its posts, and refetches only a drained page while the last one was full |
| Migrator.Migrator.TopicStep | src/package/Migrator.ts:275-281 | turning the last entry of the page into a topic moves it to the entries handled, with its row and posts |
| Migrator.Migrator.NextTopics | src/package/Migrator.ts:283-288 | the page is refetched only when it is drained and the loop continues, and the walk is kept |
| Migrator.Migrator.RefillTopics | src/package/Migrator.ts:284-287 | the refill reads the next listing page at `start + 35` and continues only when it holds 35 entries |
| Migrator.Migrator.PopTopic | src/package/Migrator.ts:275-281 | an entry without a title `href` or an icon `style` fails with a `TypeError` and adds nothing; otherwise the page's last entry becomes a topic row with the entry's title, sticky and locked flags, plus exactly that topic's posts, and leaves the page |
| Migrator.Migrator.Init | src/package/Migrator.ts:294-304 | the ids crawled as roots are exactly the configured ids, in order, that no forum row had when their turn came, one root each, chained by left ids from `startForumId` under `rootForumId`; when every configured id is already present nothing is added |
| Migrator.Migrator.CrawlRoot | src/package/Migrator.ts:296-302 | one root is crawled with the next forum id, left id the previous root's id and right id its own id |
| Migrator.Migrator.InitTurn | src/package/Migrator.ts:296-303 | one turn crawls the configured id as the next root when no row has it, and adds only its count otherwise |
| Migrator.Migrator.InitRoot | src/package/Migrator.ts:297-302 | an id without a row is crawled as the next root and recorded as crawled at its turn |
| Migrator.Migrator.TurnedSkip | src/package/Migrator.ts:297 | an id that already has a row adds no row and no root |
| Migrator.SeenTurn | src/package/Migrator.ts:296-302 | the turn of an id crawls it exactly when no row before the turn has it, whatever the crawl appends |
| Migrator.AbsentStep | src/package/Migrator.ts:297 | one more turn that sees all rows crawls its id exactly when no row has it |
| Migrator.AbsentGrow | src/package/Migrator.ts:298-301 | rows appended later do not change which ids the earlier turns crawled |
| Migrator.Migrator.AppendRow | src/package/Migrator.ts:193 | the post row and its HTML are appended together, numbered next, and nothing else changes |
| Migrator.Migrator.AppendedMade | src/package/Migrator.ts:193 | the post rows appended past a base are each the parse of the HTML at the same place past the matching base |
| Migrator.Migrator.MadeOfParsed | src/package/Migrator.ts:175-192 | a row built from the parse of some HTML, with the uid drawn for its index, is tied to that HTML |
| Migrator.Migrator.SubforumStep | src/package/Migrator.ts:260-269 | crawling the next pending entry adds exactly one direct child of the forum, that entry's row |
| Migrator.Migrator.AllMadeAppend | src/package/Migrator.ts:193 | appending a post row made from some HTML, with that HTML, keeps every post row tied to the HTML at its index |
| Migrator.Migrator.AllMadeSuffix | src/package/Migrator.ts:193 | the post rows after a base are tied to the HTML after the matching base |
| Tables.ChildrenAppend | src/package/Migrator.ts:260-270 | the direct children among joined rows are those of each part, in order |
| Tables.ChildrenNone | src/package/Migrator.ts:262-269 | rows crawled under a subforum hold no direct child of a forum with a smaller id |
| PhpbbClient.ParseError | src/package/clients/PHPBBClient.ts:30-34 | no error box gives `''`; with one, the parse succeeds exactly when `class="error">` occurs, and the message holds no `<` |
| PhpbbClient.ParseErrorOf | src/package/clients/PHPBBClient.ts:32 | a message without `<` after the first error box is read back whole |
| PhpbbClient.ParseAddress | src/package/clients/PHPBBClient.ts:79-81 | a field without brackets is read whole as a number; `ParseAddressOf` states the number between the last `[` and the `]` after it |
| PhpbbClient.ParseAddressOf | src/package/clients/PHPBBClient.ts:79-81 | the number text put between the last `[` and a closing `]` is the one returned |
| PhpbbClient.AfterLastOpen | src/package/clients/PHPBBClient.ts:80 | the piece after the last `[` is the text that follows it |
| PhpbbClient.BeforeClose | src/package/clients/PHPBBClient.ts:80 | the piece before the first `]` is the text put there |
| PhpbbClient.GetLoggedInUser | src/package/clients/PHPBBClient.ts:103-114 | a page without the logout link gives `''` |
| PhpbbClient.LoggedInUserOf | src/package/clients/PHPBBClient.ts:106-112 | the name in the title of the first logout link, up to `]`, is read back trimmed |
| PhpbbClient.ReadAfterTwoMarkers | src/package/clients/PHPBBClient.ts:106-111 | the text after the first marker, then after the first title, up to the stop, is the one put there |
| PhpbbClient.ReadFromPiece | src/package/clients/PHPBBClient.ts:109-111 | a piece that starts with the title, the name and the stop reads back the name |
| PhpbbClient.PopStartsWith | src/package/clients/PHPBBClient.ts:107-108 | the piece after the first separator starts with the text put there and the stop |
| PhpbbClient.PopUpToStop | src/package/clients/PHPBBClient.ts:107-111 | the piece after the first separator, up to the stop, is the text put there |
| PhpbbClient.Put | src/package/clients/PHPBBClient.ts:91 | `acc[key] = value` adds the key if new and stores the value under it |
| PhpbbClient.ValueOf | src/package/clients/PHPBBClient.ts:89-90 | a value is kept as its number exactly when `Number(value)` is not NaN, and as the text otherwise |
| PhpbbClient.ValueIsDest | src/package/clients/PHPBBClient.ts:89-95 | only the text `to` (or `bcc`) is kept as that string |
| PhpbbClient.DestIsWord | src/package/clients/PHPBBClient.ts:90 | `Number('to')` and `Number('bcc')` are NaN |
| PhpbbClient.NameToValue | src/package/clients/PHPBBClient.ts:85-93 | the dictionary's keys are exactly the inputs' names, each listed once |
| PhpbbClient.Names | src/package/clients/PHPBBClient.ts:88 | every input's name is a name, and every name is some input's |
| PhpbbClient.LaterWins | src/package/clients/PHPBBClient.ts:91 | each name holds the value of the last input with that name |
| PhpbbClient.KeysWith | src/package/clients/PHPBBClient.ts:94-98 | the kept keys are exactly the keys whose value is the string `dest` |
| PhpbbClient.Addresses | src/package/clients/PHPBBClient.ts:96 | each key mapped through `parseAddress`, in order |
| PhpbbClient.GetHidden | src/package/clients/PHPBBClient.ts:83-101 | the fields are exactly the named values other than `to` and `bcc`, each as stored |
| PhpbbClient.Fields | src/package/clients/PHPBBClient.ts:100 | the named values less `to` and `bcc`, which the address lists replace |
| PhpbbClient.HiddenField | src/package/clients/PHPBBClient.ts:85-100 | an input other than `to` and `bcc` keeps the value of the last input with its name |
| PhpbbClient.HiddenDest | src/package/clients/PHPBBClient.ts:94-99 | an input's name is kept for `to` (or `bcc`) exactly when its last value is that string |
| PhpbbClient.NameToValueInOrder | src/package/clients/PHPBBClient.ts:85-93 | with distinct names, the keys are the names in document order |
| PhpbbClient.FrontDistinct | src/package/clients/PHPBBClient.ts:85-93 | all but the last input still have distinct names |
| PhpbbClient.LastNameIsNew | src/package/clients/PHPBBClient.ts:91 | with distinct names, the last input's name is not yet a key |
| PhpbbClient.KeysWithAll | src/package/clients/PHPBBClient.ts:95 | when every key holds `dest`, the filter keeps them all, in order |
| PhpbbClient.KeysWithNone | src/package/clients/PHPBBClient.ts:95 | when no key holds `dest`, the filter keeps none |
| PmClient.AddressKeyRoundTrip | src/package/PMClient.ts:64 | `parseAddress` reads back the user id of `address_list[u][c]` |
| PmClient.AddressKeyInjective | src/package/PMClient.ts:64 | different users get different address fields |
| PmClient.MapToAddressList | src/package/PMClient.ts:59-67 | the keys are exactly the address fields of the ids, each set to the destination |
| PmClient.AddressListed | src/package/PMClient.ts:63-66 | a user's address field is there exactly when the user is listed |
| PmClient.BccWins | src/package/PMClient.ts:83-84 | a user in `bcc` is sent a blind copy even when also in `to`; a user only in `to` is addressed `to`; nobody else is addressed |
| PmClient.AddressInputs | src/package/PMClient.ts:64 | the hidden inputs echoing an address list, one per id, in order |
| PmClient.AddressDict | src/package/PMClient.ts:63-66 | echoed distinct ids give the address fields in order, each holding the destination |
| PmClient.ReadBackAddresses | src/package/PMClient.ts:59-67 | `getHidden` reads an echoed address list back as the ids it was made from, in order, under the right destination |
| PmClient.ReadBackKeys | src/package/PMClient.ts:64 | the address fields of some ids parse back to those ids |
| PmClient.SendOutcome | src/package/PMClient.ts:99-102 | the send fails, with `Failed to send message successfully.`, exactly when the reply contains `textarea` |
| PmClient.FlattenBatches | src/package/PMClient.ts:113-116 | the batches laid end to end give back the recipients in order |
| PmClient.BatchSizes | src/package/PMClient.ts:114-116 | no recipients give no batches; each batch holds between one and `maxRecipients`, and all but the last hold exactly `maxRecipients` |
| PmClient.BatchCount | src/package/PMClient.ts:114-116 | the number of batches is the recipient count divided by `maxRecipients`, rounded up |
| PmClient.SendPm | src/package/PMClient.ts:111-119 | the loop splices exactly those batches off a copy, leaving the caller's array unchanged |

## Left out

- HTTP, cookies, retries and login: the whole of `src/package/PHPBBClient.ts`,
  `login`, `get`, `post`, `getSession` and the interceptors of
  `src/package/clients/PHPBBClient.ts`, and the fetches of `loadPosts`,
  `loadForum`, `getAndParseQuoteBody`, `initToken`, `loadUsers` and `send`.
  Fetched pages are functions given to the model.
- Cheerio queries (`div.post`, `.find`, `.attr`, `.html()`, `getTopics`, the
  subforum discovery): their results are given as data (`PostElement`,
  `Notice`, `ForumPage`, `ForumBlock`, `TopicItem`, hidden `Input`s).
- The html2bbcode `feed` conversion: a function given to the model. The
  `parseHTML` and `parseBBCode` calls of the newer post parser name methods
  that do not exist; see the `PostParser` lines below.
- `Date.parse`: a date is kept as its text, scaled by 1000 or not.
- Randomness and hashing: `shortid`, `genUID`, `Utils.uid`, `Math.random`
  passwords and seeds, `md5`, `hashPassword` and `getUserSQL`. Uids and
  passwords are given by the caller.
- `getForumSQL`, `getTopicSQL`, `getPostSQL` and `getStructureSQL` return
  empty strings; the SQL text of rows is modelled by `ToSqlString` and
  `ToSqlValues`.
- `Promise.all` in `sendPM`: the batches are formed in order, and the sends
  themselves are left out.
- The other request fields of `send` (constants and `Date.now`): only the
  address fields and the reply check are modelled.
- Logger, `console.log` and `src/main.ts`: output only.
- `src/package/SQLRows.ts`, `src/package/Errors.ts` and the `.d.ts` files:
  declarations only.
- Object key order: JavaScript lists integer-like keys first. The dictionary
  of `getHidden` keeps insertion order, which is the same order for the
  non-numeric names the board uses.
- `Number()`: modelled on optionally signed decimal integers surrounded by
  whitespace. Any other text (hex, exponents, fractions, `Infinity`) is
  NaN here.
- `cleanUsername`: `toLowerCase` is modelled on ASCII letters only.
- Bitfield.Bitfield.Set: requires `n < 80`, a bit of the ten bytes the
  constructor allocates. In the source the `number[]` grows instead: a code
  from 80 to 87 adds an eleventh byte, and a higher code leaves holes before
  its byte, which `join` writes as nothing.
- Parser.GenBitfield: requires every id below 80, because it sets each id
  with `Bitfield.Bitfield.Set`; the source's array would grow as above.
- BBCodeParser.Parse: requires every code of the table below 80, for the
  same reason.
- PhpbbPostParser.GenBitfield: `src/package/PHPBBPostParser.ts` never
  imports `Bitfield`, so `new Bitfield()` at line 67 throws a
  `ReferenceError` and, as written, every call fails. The model builds the
  live ten-byte bitfield instead.
- PhpbbPostParser.DigitFreeNoBits: states the empty bitfield of the
  repaired `GenBitfield`; as written the call throws.
- PhpbbPostParser.ParsePostBody: computes the bitfield with the repaired
  `GenBitfield`; as written every body fails there.
- PhpbbPostParser.DigitFreeBody: states the body of the repaired parse; as
  written it throws.
- PhpbbPostParser.Parse: succeeds with the repaired bitfield; as written
  the body parse throws, so every post fails.
- PhpbbPostParser.ParseString: is given the post elements as data. In the
  migration it is handed the inner HTML of a `div.post`, in which cheerio
  would look for a `div.post` again and usually find none.
- PostParser.ParsePostBody: converts the body with `svc.parseHTML`. As
  written `parseHTML` is not a method of `BBCodeParser`
  (`src/package/parsers/BBCodeParser.ts` and its base `Parser` define only
  `endsWithTag`, `parse`, `genUID`, `addTagUIDs` and `genBitfield`), so the
  call throws a `TypeError` for every post.
- PostParser.ParseFromTextArea: converts the text area with
  `svc.parseBBCode`. As written `parseBBCode` does not exist either, and
  the call always throws a `TypeError`.
- PostParser.QuoteBody: returns the converted text area off the
  Information page; as written it throws there (`ParseFromTextArea` above).
- PostParser.ParseStringQuote: returns a post. As written both body paths
  throw: the quote page off the Information page and `parsePostBody` on it.
  So every call with a `div.post` fails.
- PostParser.QuoteFallback: states which body the post gets; as written
  neither body is ever produced.
- PostParser.Parse: succeeds when the info and edits parse. As written the
  body is evaluated first and throws, so every post fails.
- PostParser.ParseString: as written every input with a `div.post` reaches
  the throwing `parse`.
- PhpbbClient.GetHidden: every hidden input is taken to carry both `name`
  and `value`. In the source a missing `name` stores the value under the
  key `"undefined"`, and a missing `value` stores `undefined`, which
  `Number` turns into NaN and so is kept as it is; neither is expressible
  in the model.
- Migrator.Pending: the blocks are given as data, and the source's own
  markup decides which branch is taken. Since phpBB places each
  `a.forumtitle` inside a `dt`, the forum branch is reached only for a block
  without any link inside a `dt` (`FirstForumTakenForCategory`).
- Migrator.ParseContents: `site.elements` stands for that second search,
  and the parse uses the repaired bitfield; as written both make
  `parseString` throw for an ordinary post.
- Migrator.Migrator.CreatePostRow: a post whose content parses becomes a
  row here; as written the parse throws for every post (see the two lines
  above), and the crawl stops at the first one.
- Migrator.Migrator.constructor: also requires that every listing reaches a
  page that is not full and that subforums run out beyond a ghost bound.
  Without those the source's loops never end. As written `forumRows`,
  `topicRows` and `postRows` stay `undefined`, so for any non-empty
  `formIds` the first `this.forumRows.find(...)` of `init` (Migrator.ts:297)
  throws a `TypeError` and `GetMigrator` rejects; the model starts them empty.
- Migrator.Migrator.Init: states which configured ids are crawled and the
  chain of root rows, not each root's heading or the rows crawled beneath
  it. `CrawlRoot` and `CrawlForum` state those for one root.
- Migrator.Migrator.Valid: a post's poster id is only known to be an id
  already handed out. `PostedBy` ties it to the author's row when the post
  is made.
- GetMigrator: it is the constructor followed by `Init`.
- PmClient.SendPm: the splice of the copy is modelled on a sequence value
  rather than on an array changed in place.
- PmClient.SendPm: requires `maxRecipients > 0`. With 0 or a negative value
  `tmp.splice(0, this.maxRecipients)` removes nothing, so `while (tmp.length)`
  never ends and keeps pushing requests for empty batches; the default is 8.
