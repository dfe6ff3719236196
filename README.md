# tg2md in Dafny

tg2md converts a Telegram channel export (`result.json`) into Markdown posts
for an Astro blog. Each kept message becomes one `.md` file:

- a YAML front-matter block holds the title, description, publication date
  and optional hero image;
- a Markdown body is rendered from the message's text entities;
- the file is named `YYYY-MM-DD-<slug>.md`.

This project models the pure core of that pipeline and proves properties of
it. It has these modules:

- `JsString` (`jsstring.dfy`): the JavaScript string operations the core
  relies on. These are `trim`, `split`/`join`, `indexOf`, `lastIndexOf`,
  the newline replacement and decimal printing.
- `Types` (`types.dfy`): the export's records. These are the text entities,
  the message text (a string, an array of parts, or anything else), messages
  and the export itself.
- `Formatting` (`formatting.dfy`): entity rendering, date formatting, YAML
  quoting, image paths, truncation on a word boundary and first-sentence
  extraction.
  - Entity rendering (`convertEntities`) is a method with a loop, proved
    against the specification function `RenderAll(Rendered(...))`.
- `Extractors` (`extractors.dfy`): the title and description extractors.
- `Converter` (`converter.dfy`): the file name, the front matter and the
  whole document.
- `Parser` (`parser.dfy`): the message filter of `parseExport` and
  `isEmptyText`.
- `Cli` (`cli.dfy`): three parts of the command line.
  - The argument parser is a method with the source's validation loop. It
    returns a `Result` in place of printing and exiting.
  - `uniqueFilename` is modelled together with Node's POSIX `path.extname`.
  - The used-names bookkeeping of the conversion loop is a method proved
    against the function `DedupFrom`.

Rendering the body removes the first bold entity, which is the title
unless that entity is blank. The proofs show that this removes exactly that
entity and no other (`SkipFirstBoldRendering`). When a blank bold entity
comes before the title's, the title appears twice: once in the front matter
and once in the body (`BlankBoldTitleRepeated`, under "## Findings").

The front matter reads back when the title and description hold no newline
and the photo path holds no quote and no newline: split on newlines, it has
the expected five or six lines. Each quoted field unescapes to the extracted value, and the
`heroImage` line is present exactly when the message has a photo
(`FrontmatterReadsBack`, `MessageFrontmatterReadsBack`).

The conversion loop's renaming does not guarantee distinct file names. An
earlier message may already own `<stem>-<id>.md` when a later message with
id `<id>` collides on `<stem>.md`; the later one is then given the same name
again (`DedupCollision`). Names that are distinct from the start are kept
unchanged (`DedupDistinct`).

## Model

| member | source | states |
|---|---|---|
| JsString.Trim | src/extractors.ts:11 | `trim()` gives a string that is empty exactly when the input is all whitespace. A nonempty result starts and ends with non-whitespace. |
| JsString.TrimIsMiddle | src/extractors.ts:11 | Only whitespace is removed at either end: the result is what remains of the input once a whitespace prefix and a whitespace suffix are cut. |
| JsString.TrimStart | src/extractors.ts:11 | The leading part removed is all whitespace. What remains is a suffix of the input that does not start with whitespace. |
| JsString.TrimEnd | src/extractors.ts:11 | The trailing part removed is all whitespace. What remains is a prefix of the input that does not end with whitespace. |
| JsString.AllWhitespaceConcat | src/converter.ts:56 | Two all-whitespace strings concatenate to an all-whitespace string. |
| JsString.SplitOn | src/formatting.ts:36 | `split` always yields at least one piece. |
| JsString.JoinSplit | src/formatting.ts:36-37 | Joining the pieces of a split with the same separator gives the original string back. |
| JsString.SplitJoin | src/formatting.ts:36-37 | Splitting a join of pieces that do not contain the one-character separator gives the pieces back. |
| JsString.SplitPiecesLackSeparator | src/extractors.ts:25 | No piece of a split on a character contains that character. |
| JsString.LastPieceIsSuffix | src/formatting.ts:109 | The last piece of a split on a character is the suffix after the last occurrence of that character (or the whole string). |
| JsString.FirstPieceStart | src/extractors.ts:25 | When the string does not start with the separator, the first piece of the split starts with the string's first character. |
| JsString.ConcatMapAppend | src/extractors.ts:42-44 | Mapping entities to text and joining distributes over concatenation of the entity list. |
| JsString.IndexOfFrom | src/extractors.ts:48 | `indexOf` returns the first position at or after the start where the needle occurs, or -1 when there is none. |
| JsString.LastIndexOf | src/formatting.ts:120 | `lastIndexOf` returns a position holding the character with none after it, or -1 when there is none. |
| JsString.ReplaceChar | src/extractors.ts:58 | Every occurrence of the character is replaced and all other characters are kept, so the character no longer occurs. |
| JsString.NatToString | src/formatting.ts:93-94 | `String(n)` is a nonempty string of digits with no leading zero for positive n. |
| JsString.ParseDigitsPositive | src/formatting.ts:94 | A digit string without a leading zero denotes a positive number. |
| JsString.NatToStringParseDigits | src/formatting.ts:93-94 | Printing the value of a digit string without a leading zero gives the same digits back. |
| Formatting.PrefixLines | src/formatting.ts:37 | Each line gains the `> ` prefix and the number of lines is kept. |
| Formatting.RenderEntity | src/formatting.ts:13-79 | A bold, italic, spoiler, bot-command, underline, strikethrough, code or pre entity renders as its text between that kind's markers from the delimiter table. A `text_link` renders as `[text](href)`, and a blockquote as its text with every line prefixed (`QuoteLines`). A plain, custom-emoji, hashtag, mention or unknown entity renders as its text unchanged. |
| Formatting.HrefText | src/formatting.ts:41-42 | A present link target prints as itself; a missing one prints as `undefined`, as a template string prints it. |
| Formatting.BlockquoteLines | src/formatting.ts:35-39 | A blockquote's rendering splits into as many lines as its text does, each the original line prefixed with `> `. |
| Formatting.RemoveFirstBoldSnoc | src/formatting.ts:18-23 | One loop step: the entity is dropped exactly when it is the first bold so far. |
| Formatting.RemoveFirstWhereSplit | src/formatting.ts:18-25 | Removing the first entity that satisfies a test drops exactly that entity and keeps the others in order. |
| Formatting.RemoveFirstBoldSplit | src/formatting.ts:18-25 | Removing the first bold from `pre + [b] + post`, where `pre` has no bold, gives `pre + post`: later bold entities stay. |
| Formatting.RemoveFirstBoldNone | src/formatting.ts:18-19 | Without a bold entity nothing is skipped. |
| Formatting.SkipFirstBoldRendering | src/formatting.ts:18-25 | With skipping, the rendering is that of the entities before the first bold followed by those after it. |
| Formatting.RenderedSnoc | src/formatting.ts:12-25 | The skipped-bold flag is set once a bold has been seen, and each step appends the next entity's rendering or nothing. |
| Formatting.ConvertEntities | src/formatting.ts:8-83 | The loop's result is the in-order concatenation of the entity renderings, with the first bold entity omitted exactly when `skipFirstBold` is set. |
| Formatting.FormatAstroDate | src/formatting.ts:89-96 | The formatted date contains only spaces, ASCII letters and digits, for valid and invalid dates alike. |
| Formatting.PadTwo | src/formatting.ts:93 | The padded day consists of digits only. |
| Formatting.FormatAstroDateFields | src/formatting.ts:89-96 | For a well-formed date with a four-digit year, the result is the month's abbreviation, the day and the year exactly as written in the input. |
| Formatting.EscapeYaml | src/formatting.ts:101-103 | Doubling single quotes lengthens the value by its number of quotes and leaves a quote-free value unchanged. |
| Formatting.UnescapeEscapeYaml | src/formatting.ts:101-103 | Reading each `''` back as `'` recovers the original value: quoting is lossless. |
| Formatting.EscapeYamlKeepsOut | src/formatting.ts:101-103 | Escaping introduces no character other than the quote. |
| Formatting.UnescapeYamlPlain | src/formatting.ts:101-103 | A quote-free value reads back as itself. |
| Formatting.BaseName | src/formatting.ts:109 | The last path segment is a slash-free suffix of the path that is preceded by a slash or is the whole path. |
| Formatting.GetPhotoImagePath | src/formatting.ts:108-111 | The image path is `/images/` followed by the photo's last path segment. |
| Formatting.StripTrailingPunctuation | src/formatting.ts:126 | The result is a prefix that no longer ends in `,;:!?.-–—`, and everything removed is such punctuation. |
| Formatting.CutPoint | src/formatting.ts:120-122 | The cut point never exceeds the length limit. |
| Formatting.TruncateOnWordBoundary | src/formatting.ts:116-128 | A text within the limit is returned unchanged; a longer one becomes a punctuation-stripped prefix of at most the limit followed by `...`; the result is never longer than the limit plus three. |
| Formatting.TruncateAddsNothing | src/formatting.ts:116-128 | Truncation introduces no character except `.`. |
| Formatting.TruncateAtSpace | src/formatting.ts:119-127 | When the last space before the limit lies past half the limit, the text is cut at that space. |
| Formatting.TruncateAtLimit | src/formatting.ts:119-127 | When no space before the limit lies past half the limit, the text is cut at the limit. |
| Formatting.FirstSentenceEnd | src/formatting.ts:135 | Finds the first `.`, `!` or `?` (not at position 0) followed by whitespace or the end, or -1 when there is none. |
| Formatting.ExtractFirstSentence | src/formatting.ts:134-141 | The extracted sentence is empty exactly when the text is all whitespace. |
| Formatting.FirstSentenceIsShortest | src/formatting.ts:135-137 | With a sentence end at i and none before, the sentence is the trimmed text up to and including i (the lazy match). |
| Formatting.NoSentenceEnd | src/formatting.ts:139-140 | Without a sentence end the whole trimmed text is returned. |
| Extractors.FirstBoldTitle | src/extractors.ts:10-14 | Finds no title exactly when no bold entity has non-blank text; a found title is nonempty. |
| Extractors.FirstBoldTitleAt | src/extractors.ts:10-14 | The title found is the trimmed text of the first bold entity with non-blank text. |
| Extractors.PlainEntities | src/extractors.ts:17-18 | Keeps exactly the plain entities of the message. |
| Extractors.PlainEntitiesAppend | src/extractors.ts:17-20 | The filter keeps order and multiplicity: the plain entities of a concatenation are those of the first part followed by those of the second. |
| Extractors.FirstNonBlank | src/extractors.ts:25 | The found line is either empty or a non-blank line of the input. |
| Extractors.FirstNonBlankAt | src/extractors.ts:25 | The line found is the first non-blank one. |
| Extractors.FirstNonBlankNone | src/extractors.ts:25 | When every line is blank, nothing is found and the result is empty. |
| Extractors.PostTitle | src/extractors.ts:32 | The last-resort title starts with `post-` and has at least one character after it. |
| Extractors.FallbackTitle | src/extractors.ts:16-32 | The title taken from the plain text, or `post-<id>`, is never empty. |
| Extractors.ExtractTitle | src/extractors.ts:8-33 | A title is never empty. |
| Extractors.TitleFromFirstBold | src/extractors.ts:10-14 | A message with a non-blank bold entity is titled by the first such entity, trimmed. |
| Extractors.FirstLineOfTrimmed | src/extractors.ts:23-26 | The first line of a trimmed nonempty text is itself non-blank. |
| Extractors.TitleFromPlainText | src/extractors.ts:17-29 | Without a bold title but with plain text, the title is the truncated first sentence of the first line, at most 103 characters long. |
| Extractors.TitlePostId | src/extractors.ts:23-32 | Without a bold title and without plain text, the title is `post-<id>`. |
| Extractors.NonBlank | src/extractors.ts:54 | Every paragraph kept is non-blank. |
| Extractors.NonBlankFirst | src/extractors.ts:54-55 | The first paragraph kept is the first non-blank one. |
| Extractors.NonBlankEmpty | src/extractors.ts:54-55 | When every paragraph is blank, none is kept. |
| Extractors.JoinLines | src/extractors.ts:58 | After replacing every newline with a space, no newline is left. |
| Extractors.FirstParagraph | src/extractors.ts:54-58 | The cleaned first paragraph holds no newline. |
| Extractors.ExtractDescription | src/extractors.ts:40-62 | A description is never empty, and it is either the title or a single line of at most 163 characters. |
| Extractors.AfterFirstOccurrence | src/extractors.ts:47-51 | When the title occurs in the full text, the rest starts right after its first occurrence. |
| Extractors.TitleNotFound | src/extractors.ts:47-51 | When the title does not occur, the rest is the whole text. |
| Extractors.DescriptionFromFirstParagraph | src/extractors.ts:53-59 | The description is the first non-blank paragraph, trimmed, with newlines turned into spaces and truncated to 160 characters, whenever that is nonempty. |
| Extractors.DescriptionFallsBackToTitle | src/extractors.ts:53-61 | When every paragraph of the rest is blank, the description is the title. |
| Converter.DatePrefix | src/converter.ts:15 | `substring(0, 10)` is a prefix of the date of length at most 10. |
| Converter.GenerateFilename | src/converter.ts:14-19 | The file name starts with the date prefix and a dash, ends in `.md`, and has exactly the slug of the title in between. |
| Converter.HeroImage | src/converter.ts:36-39 | A hero image is given exactly when the photo field is truthy. |
| Converter.FrontmatterDelimited | src/converter.ts:29-42 | Whatever the field values, the joined block starts with a `---` line and ends with one. |
| Converter.BuildFrontmatter | src/converter.ts:24-43 | A message's front matter starts with a `---` line and ends with one. |
| Converter.ReadQuotedLine | src/converter.ts:31-32 | A `key: '<escaped value>'` line reads back to the original value. |
| Converter.ReadPlainLine | src/converter.ts:33 | A quote-free value written unescaped also reads back. |
| Converter.FrontmatterFields | src/converter.ts:29-41 | The lines are `---`, title, description, pubDate, an optional heroImage, and `---`; each field reads back. |
| Converter.FrontmatterLinesSingle | src/converter.ts:29-41 | No front-matter line contains a newline when no value does. |
| Converter.FrontmatterReadsBack | src/converter.ts:24-43 | The joined front matter splits back into 6 lines with a hero image and 5 without. The first and last are `---` and each field reads back to its value. |
| Converter.MessageFrontmatterReadsBack | src/converter.ts:24-43 | For a message whose title and description are single lines, and whose photo path, if any, holds no quote and no newline, the front matter reads back to the extracted title and description and the formatted date. `heroImage` is present exactly when the photo is truthy, and then holds the image path. |
| Converter.FormatAstroDateUnquoted | src/converter.ts:33 | The formatted date needs no escaping: it has no quote and no newline. |
| Converter.PhotoImagePathUnquoted | src/converter.ts:37-38 | The image path of a photo path without quote or newline has neither. |
| Converter.LeadingRun | src/converter.ts:56 | Measures the maximal leading whitespace run. |
| Converter.WhitespacePrefixWithinRun | src/converter.ts:56 | Every all-whitespace prefix lies within the leading run. |
| Converter.StripLeadingBlank | src/converter.ts:56 | The cleaned body is a suffix of the body, and is either the body itself or preceded by an all-whitespace prefix ending in a newline. |
| Converter.StripLeadingBlankMaximal | src/converter.ts:56 | After stripping, the body no longer starts with whitespace followed by a newline: the greedy match took the longest such prefix. |
| Converter.BlankLeadReachesNewline | src/converter.ts:56 | A newline beyond the leading whitespace run cannot end an all-whitespace prefix. |
| Converter.StripLeadingBlankNoMatch | src/converter.ts:56 | A body that does not start with blank lines is left unchanged. |
| Converter.Document | src/converter.ts:53-61 | The document is exactly the front matter, a blank line, the rendering with its longest `\s*\n` lead removed (`StripLeadingBlank`, whose value its lemmas determine), and a final newline. Nothing else, in particular no image reference, is added. |
| Converter.ConvertMessage | src/converter.ts:48-62 | A message's document is exactly its front matter, a blank line, its entities rendered with the first bold entity skipped and the leading blank lines stripped, and a final newline. |
| Converter.BlankBoldTitleRepeated | src/converter.ts:49-53 | When a blank bold entity precedes a non-blank one, the title is the second entity's trimmed text, and the body starts with that same text in bold. |
| Converter.ConvertMessageSkippingTitle | src/converter.ts:48-62 | The corrected document is exactly the front matter, a blank line, the stripped rendering of every entity except the one the title came from, and a final newline. |
| Converter.TitleEntityNotRendered | src/converter.ts:52-53 | When the title comes from entity `k`, the corrected body renders every entity except `k`, in order. |
| Converter.SkippingTitleAgrees | src/converter.ts:52-53 | When no blank bold entity precedes the title's, the corrected skip removes the same entity as the source's. |
| Parser.AllBlankParts | src/parser.ts:41-46 | `every` holds exactly when each part is a bare string that trims to nothing. |
| Parser.IsEmptyText | src/parser.ts:39-48 | A string text is empty exactly when it is all whitespace. An array is empty exactly when all its parts are blank strings, so a typed part makes it non-empty. Any other value is empty. |
| Parser.Keep | src/parser.ts:22-30 | A message is kept exactly when it is a regular message, not forwarded, and not a video file without text. |
| Parser.FilterMessages | src/parser.ts:22-30 | Every kept message is in the input and passes the filter; every input message that passes is kept. |
| Parser.FilterMessagesAppend | src/parser.ts:22 | Filtering keeps order: filtering a concatenation gives the concatenation of the filtered parts. |
| Parser.FilterMessagesAllKept | src/parser.ts:22-30 | An export whose messages all pass is returned unchanged. |
| Parser.FilterMessagesCount | src/parser.ts:22-30 | The number of kept messages is the number that pass. |
| Parser.ParseExport | src/parser.ts:21-34 | The result keeps the channel name. Its messages all pass the filter and come from the export, and every message of the export that passes is among them. |
| Cli.OutputIndex | src/cli.ts:86 | `findIndex` returns the first `--output`/`-o` position, or -1 when there is none. |
| Cli.FirstPositional | src/cli.ts:115-116 | Returns the first argument not starting with a dash other than the output value, or -1 when there is none. |
| Cli.ParseArgs | src/cli.ts:84-119 | Fails with the first unknown option exactly when the validation loop meets one. Otherwise it fails with a missing value exactly when the output flag has no value or a dash-prefixed one. Otherwise the output directory is the flag's value or `./output`, `clean`/`rewrite` are set exactly when their flags appear, and the input path is the first positional argument. |
| Cli.StripTrailingSlashes | src/cli.ts:125 | Only trailing slashes are removed, and the result does not end in one. |
| Cli.LastSegment | src/cli.ts:125 | The last segment has no slash and is a suffix of the path without trailing slashes. |
| Cli.LastSegmentAfterSlash | src/cli.ts:125 | The last segment is the whole slash-free path or starts right after a slash, so it is the longest slash-free suffix. |
| Cli.SegmentExtension | src/cli.ts:125 | The extension is empty, or a suffix of the segment that starts with its only dot. A non-empty extension never starts at the segment's first character, and `..` has none. |
| Cli.SegmentExtensionFound | src/cli.ts:125 | A segment other than `..` with a dot after its first character has a non-empty extension. |
| Cli.ExtName | src/cli.ts:125 | `path.extname` is empty or starts with a dot. |
| Cli.ExtNameFound | src/cli.ts:125 | When the last segment, other than `..`, has a dot after its first character, the extension is a non-empty suffix of that segment. |
| Cli.ExtNameWithoutDot | src/cli.ts:125 | A path without a dot has no extension. |
| Cli.SegmentExtensionMarkdown | src/cli.ts:125 | A segment ending in `.md` has the extension `.md`. |
| Cli.ExtNameMarkdown | src/cli.ts:125 | A generated `<stem>.md` name has the extension `.md`. |
| Cli.UniqueFilename | src/cli.ts:122-128 | An unused name is returned unchanged. A used one with extension `ext` becomes the name without `ext`, then `-<id>`, then `ext`. |
| Cli.Renamed | src/cli.ts:125-127 | The renamed form is the name with its extension cut off, `-<id>`, and the extension again; with no extension it is just `-<id>`. |
| Cli.UniqueFilenameMarkdown | src/cli.ts:122-128 | A used `<stem>.md` becomes `<stem>-<id>.md`. |
| Cli.UniqueFilenameWithoutExtension | src/cli.ts:125-127 | A used name without an extension, such as `README`, `.bashrc` or `dir/.md`, becomes just `-<id>`: `slice(0, -0)` keeps nothing. |
| Cli.UniqueFilenameWithoutDot | src/cli.ts:125-127 | A used name with no dot at all becomes just `-<id>`. |
| Cli.DedupFrom | src/cli.ts:178-182 | One name is assigned per message. |
| Cli.DedupDistinct | src/cli.ts:178-182 | Pairwise distinct names not used before are all kept unchanged. |
| Cli.DedupCollision | src/cli.ts:178-182 | Renaming can reproduce a name already assigned, so two messages can get the same file. |
| Cli.DedupRenamedTwice | src/cli.ts:178-182 | For any names `a` and `b` where a used `a` is renamed to `b`, the candidates `a`, `b`, `a` get the names `a`, `b`, `b`. |
| Cli.Candidates | src/cli.ts:180-181 | One candidate name per message, in order. |
| Cli.AssignFilenames | src/cli.ts:178-182 | The loop assigns exactly the names of `DedupFrom` from an empty used set: each message's generated name is made unique against the set, and exactly that name joins it. |

## Findings

| source | as written | input that shows it | evidently intended | confidence | as-written member | corrected member |
|---|---|---|---|---|---|---|
| src/converter.ts:52-53 | `convertEntities(..., true)` skips the first bold entity even when it is blank, while `extractTitle` takes the title from the first bold entity that is not blank | entities `bold " "` then `bold "Title"`: the title is `Title` and the body starts with `**Title**` | the body leaves out the entity the title came from, as the comment at src/converter.ts:52 describes | medium, not executed | Converter.BlankBoldTitleRepeated | Converter.TitleEntityNotRendered |

The model's `Converter.ConvertMessage` keeps the behaviour as written.
`Converter.ConvertMessageSkippingTitle` is the corrected conversion, and
`Converter.SkippingTitleAgrees` shows the two agree whenever no blank bold
entity comes before the title's.

## Left out

- File and console I/O are not modelled: reading the export, writing files, copying photos, wiping the output directory with `--clean`, `fs.existsSync` skipping, colours, counters and timing. `main`'s other work appears only as the used-names bookkeeping (`Cli.AssignFilenames`).
- `process.exit(1)` in `parseArgs` becomes the `Err` result; the printed message is not modelled.
- `--help` handling and `printHelp` are not modelled (I/O only).
- `src/slugify.ts` is not part of this model: `GenerateFilename` takes `slugify` as a parameter.
- `src/index.ts` is not part of this model.
- `parseExport`'s file reading, `JSON.parse` and `path.resolve` for `sourceDir` are not modelled. `Parser.ParseExport` only pairs the channel name with the filtered messages.
- Message fields the core never reads (`from`, `edited`, `file`, and the like) are not modelled. Entity kinds are plain strings.
- FormatAstroDate: only well-formed local `YYYY-MM-DDTHH:MM:SS` dates are modelled as JavaScript's `Date` would read them. Every other string is treated as an Invalid Date (`undefined NaN NaN`). `Date`'s lenient parsing of other formats, time zones and day overflow (for example 30 February) is not modelled.
- Strings are sequences of Unicode characters, not UTF-16 code units. Lengths and the 100/160 limits count characters, so text with astral-plane characters may be cut at a different place.
- Converter.ReadQuoted: only single-quoted `key: 'value'` lines with `''` escapes are read; it is not a general YAML parser.
- Converter.MessageFrontmatterReadsBack: it assumes the title and description hold no newline. A bold entity's title can hold one, and the front matter is then not line-structured. It also assumes the photo path holds no quote and no newline: `heroImage` is written unescaped, so a quote in the path does not read back (`''` reads as `'`) and a newline breaks the line structure.
- The body does not include the photo even when the message has one; only `heroImage` refers to it (src/converter.ts:58-59).
- The cleanup `body.replace(/^\s*\n/, '')` removes the whole leading whitespace up to its last newline, not only one blank line. `Converter.StripLeadingBlank` models the regex as written.
- Extractors.PostTitle: `IntToString` prints every id in plain decimal. JavaScript's `String(id)` switches to exponent form from 1e21 up and prints fractions; this affects `post-<id>` (src/extractors.ts:32) and the `-<id>` suffix (src/cli.ts:127). Message ids are modelled as integers.
