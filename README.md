# M3U playlist parser, modelled in Dafny

The parser reads an M3U playlist one line at a time:

- An `#EXTINF:` line is split at its first comma. The text before the comma is
  the duration, read with `strconv.Atoi`. The text after it is the title. The
  `key=value` attributes come from the space-separated tokens after the line's
  first space.
- The channel built from that line waits until the next URL line. A URL line
  is a non-empty line that does not start with `#`. The channel then gets the
  URL line, verbatim, as its URL and is stored under its title. A later
  channel with the same title replaces it.
- Every other line is skipped: empty lines, and `#` lines other than `#EXTINF:`.
- The parse fails on the first of three errors:
  - an `#EXTINF:` line without a comma;
  - a duration that is not a 64-bit integer;
  - a URL line with no pending channel.

Files:

- `m3u.dfy` (module `M3U`) holds the core:
  - the `Channel` and `Source` entities and the three errors;
  - `AttributesOf`, the specification of `parseAttributes`, and the method
    `ParseAttributes`, which fills the map in a loop and is proved equal to it;
  - `Step`, `Run` and `Parse`, the specification of the line loop of
    `parseM3UFile`, and the method `ParseM3UFile`. That method runs the loop
    with the same two variables as the source, a pending channel and the map
    of channels, and is proved equal to `Parse`.
- `m3u_properties.dfy` (module `M3UProperties`) proves what the parser
  promises, in three groups:
  - how one `#EXTINF:` line is read;
  - how attributes and groups come out;
  - how the loop treats skipped lines, errors, pending channels and duplicate
    titles.

  It also proves that every stored channel comes from the input, and what a
  well-formed playlist of `#EXTINF:`/URL pairs parses to.
- `text.dfy` (module `Text`) models the `strings` functions the parser calls.
  `Split` has `Join` as its inverse.
- `strconv.dfy` (module `Strconv`) models `Atoi`: the value of a signed
  decimal, within the 64-bit range. `Atoi` reads back every 64-bit integer
  that `Itoa` writes.
- `map_fold.dfy` (module `MapFold`) is a generic left fold of key/value
  bindings into a map, where later bindings win. It is used both for the
  attribute map and for the channel map of a well-formed playlist.
- `wrappers.dfy` (module `Wrappers`) holds `Option`.

Choices that follow the code:

- `Source.Url` is never assigned by `parseM3UFile`, so the parsed source's
  `url` is always empty.
- Attributes written before the comma, the usual placement in playlists, as in
  `#EXTINF:-1 group-title="News",My Channel`, land in the duration text. That
  line is therefore rejected as an invalid duration
  (`GroupBeforeCommaRejected`). Attributes after the comma are accepted and
  are read from the title (`GroupAfterCommaAccepted`, `GroupOfLastWord`).
- `strings.Trim(s, "\"")` removes every leading and every trailing double
  quote, not only one pair.

## Model

| member | source | states |
|---|---|---|
| M3U.Channel.Group | m3u.go:20-22 | the `group-title` attribute when the key is present, the empty string when it is absent |
| M3U.Classify | m3u.go:48-77 | a line is an `#EXTINF:` line iff it has that prefix, a URL line iff it is non-empty and does not start with `#`, and skipped otherwise |
| M3U.Binding | m3u.go:97-101 | a token binds iff it contains `=`; the name and the value it binds neither start nor end with a quote |
| M3U.BindingOf | m3u.go:98-100 | `key=value`, where `key` has no `=`, binds the trimmed `key` to the trimmed `value`, and later `=`s stay in the value |
| M3U.AttributesOf | m3u.go:90-93 | a line without a space has no attributes |
| M3U.AttributesUnquoted | m3u.go:100 | no attribute name or value of any line starts or ends with a quote |
| M3U.ParseAttributes | m3u.go:88-106 | the loop's map is the fold of the token bindings, first to last, over the pieces after the first space |
| M3U.ParseExtinf | m3u.go:48-67 | a rejected `#EXTINF:` line is reported with the line itself, as a missing comma or a bad duration; an accepted one has no URL yet and a 64-bit duration |
| M3U.AttributeTokens | m3u.go:90-95 | a line has tokens iff it has a space, and no token holds a space |
| M3U.Step | m3u.go:48-77 | one turn of the loop: an error carries the line; a skipped line leaves the state as it is; a URL line fails iff no channel is pending, and otherwise clears the pending channel and stores it under its title with the line as URL; no stored title is ever lost |
| M3U.Run | m3u.go:45-78 | the loop over the lines: an error carries a line of the input, and a successful run keeps every title already stored |
| M3U.Parse | m3u.go:43-84 | an error carries a line of the input; a parsed source has an empty URL |
| M3U.RunAppend | m3u.go:45-78 | running the loop over two stretches of lines is running it over the first and continuing from its state over the second, an error included |
| M3U.ParseM3UFile | m3u.go:43-84 | the method's loop, with its pending channel and its map, returns exactly `Parse(lines)`: the first error, or the stored channels with an empty source URL |
| M3U.FailureIsFinal | m3u.go:52-57 | once a prefix of the lines fails, the whole parse fails with that error |
| M3UProperties.DecimalHasNoSpace | m3u.go:55 | text accepted as a duration holds no space |
| M3UProperties.AttributesAfterSpaceFree | m3u.go:90-95 | a space-free head adds no attributes |
| M3UProperties.AttributeTextAfterSpaceFree | m3u.go:90-95 | the text after the first space of `head + rest`, where `head` has no space, is the text after the first space of `rest` |
| M3UProperties.AttributesFromTitle | m3u.go:50-61 | when the duration text has no space, the line's attributes are those of its title |
| M3UProperties.ExtinfOfParts | m3u.go:48-67 | `#EXTINF:<field>,<title>` with no comma in `field` is classified as metadata; it fails as an invalid duration iff `field` is not an integer; otherwise it yields exactly that duration, that title (later commas included) and the title's attributes |
| M3UProperties.ExtinfWithoutComma | m3u.go:50-53 | an `#EXTINF:` line with no comma after the prefix fails as an invalid line, whatever the state |
| M3UProperties.AttributesBeforeCommaRejected | m3u.go:50-57 | a duration text holding a space fails as an invalid duration |
| M3UProperties.GroupBeforeCommaRejected | m3u.go:50-57 | `#EXTINF:-1 group-title="News",My Channel` fails as an invalid duration |
| M3UProperties.GroupAfterCommaAccepted | m3u.go:50-67 | `#EXTINF:-1,My Channel group-title="News"` is accepted |
| M3UProperties.AttributeKeys | m3u.go:95-103 | a key is in the attribute map iff some token binds it |
| M3UProperties.AttributeLastWins | m3u.go:96-100 | a key is bound to the value of the last token that binds it |
| M3UProperties.LastWordIsLastToken | m3u.go:90-95 | a space-free word at the end of a line is the line's last token |
| M3UProperties.LastWordAttribute | m3u.go:95-100 | a `key=value` word at the end of a line is always in the map with its value |
| M3UProperties.GroupWord | m3u.go:97-100 | the word `group-title=<v>` binds `group-title` to `<v>` with its quotes trimmed |
| M3UProperties.GroupOfLastWord | m3u.go:20-22 | a channel whose title ends in `group-title=<v>` has the group `<v>` with its quotes trimmed |
| M3UProperties.SkippedLineIgnored | m3u.go:68 | an empty line, or a `#` line other than `#EXTINF:`, can be removed from anywhere without changing the result |
| M3UProperties.ErrorAborts | m3u.go:52-71 | the first failing line decides the result, whatever follows it |
| M3UProperties.ExtinfWithoutCommaFails | m3u.go:50-53 | a comma-less `#EXTINF:` line reached without error fails the parse |
| M3UProperties.InvalidDurationFails | m3u.go:55-58 | an `#EXTINF:` line whose duration is not an integer fails the parse |
| M3UProperties.UrlWithoutPendingFails | m3u.go:70-72 | a URL line with no channel pending fails the parse |
| M3UProperties.RunSkipped | m3u.go:68 | skipped lines leave the loop state unchanged |
| M3UProperties.LeadingUrlFails | m3u.go:43-72 | a URL line before any `#EXTINF:` line fails the parse |
| M3UProperties.UrlCompletesPending | m3u.go:74-76 | a URL line stores the pending channel under its title with the line as URL, replaces any channel of that title, and clears the pending channel |
| M3UProperties.SecondExtinfReplaces | m3u.go:63-67 | a second `#EXTINF:` line before any URL discards the first channel |
| M3UProperties.ReplacePending | m3u.go:63-67 | from any state, two `#EXTINF:` lines in a row act as the second alone |
| M3UProperties.PendingAtEndDropped | m3u.go:84 | a channel still pending when the lines run out is not returned |
| M3UProperties.FromExtinfPrefix | m3u.go:45-46 | a channel read from a line of a prefix of the input was read from a line of the input |
| M3UProperties.InvariantPrefix | m3u.go:45-46 | the loop invariant over a prefix of the input holds over the whole input |
| M3UProperties.StoreKeepsInvariant | m3u.go:74-76 | storing the pending channel with a URL line of the input keeps the loop invariant |
| M3UProperties.PendKeepsInvariant | m3u.go:60-67 | a parsed `#EXTINF:` line of the input keeps the loop invariant |
| M3UProperties.ScanInvariantGrows | m3u.go:45-77 | one more turn of the loop keeps the invariant |
| M3UProperties.RunInvariant | m3u.go:43-78 | after any successful run, every stored channel is keyed by its title, came from an `#EXTINF:` line of the input, and has a URL line of the input as its URL; the pending channel has no URL |
| M3UProperties.ParsedChannels | m3u.go:43-84 | a successful parse has an empty source URL, and every channel in it satisfies the invariant above |
| M3UProperties.StoredChannelFields | m3u.go:55-67 | a stored channel has a 64-bit duration and the attributes of an `#EXTINF:` line of the input |
| M3UProperties.RunTwo | m3u.go:45-78 | the loop over two lines is the loop over the first continued over the second |
| M3UProperties.EntryStep | m3u.go:48-76 | the two lines of a well-formed entry store exactly its channel |
| M3UProperties.RunEntries | m3u.go:43-78 | a playlist of well-formed `#EXTINF:`/URL pairs leaves nothing pending and has the channels of its entries, later titles replacing earlier ones |
| M3UProperties.ParseEntries | m3u.go:43-84 | such a playlist parses to those channels with an empty source URL |
| M3UProperties.DistinctTitlesCount | m3u.go:75 | a well-formed playlist with distinct titles yields one channel per entry |
| M3UProperties.EntryTitles | m3u.go:75 | the channel keys of a well-formed playlist are exactly its titles |
| M3UProperties.LastEntryWins | m3u.go:74-75 | of several entries with one title, the last one is kept, with its URL, its duration and the attributes of its title |
| Text.IndexOf | m3u.go:90 | the position of the first occurrence, or -1 exactly when there is none |
| Text.IndexOfFirst | m3u.go:90 | the first occurrence in `a + [c] + b`, where `a` has no `c`, is at the end of `a` |
| Text.IndexOfAfter | m3u.go:90 | searching past a stretch without the character shifts the position by the stretch's length |
| Text.SplitFirst | m3u.go:50 | none iff the separator is absent; otherwise the string is the part before, the separator and the part after, and the part before has no separator |
| Text.SplitFirstUnique | m3u.go:50 | the split at the first separator is the one whose left part is free of it |
| Text.LastIndexOf | m3u.go:95 | the position of the last occurrence, or -1 exactly when there is none |
| Text.LastIndexOfLast | m3u.go:95 | the last separator of `x + [c] + w`, where `w` has no `c`, is the one after `x` |
| Text.Split | m3u.go:95 | at least one piece, and no piece holds the separator |
| Text.SplitLastWord | m3u.go:95 | a separator-free word after the last separator is the last piece, after the pieces of what precedes it |
| Text.SplitLastPiece | m3u.go:95 | the last piece is what follows the last separator |
| Text.JoinSplit | m3u.go:95 | joining the pieces with the separator gives the string back |
| Text.SplitJoin | m3u.go:95 | splitting a join of separator-free pieces gives the pieces back |
| Text.TrimLeftQuotes | m3u.go:100 | a suffix of the string, with only quotes removed before it, that does not start with a quote |
| Text.TrimRightQuotes | m3u.go:100 | a prefix of the string, with only quotes removed after it, that does not end with a quote |
| Text.CutBetweenQuotes | m3u.go:100 | cutting an all-quote prefix and then an all-quote suffix leaves a string that lies between quotes in the original |
| Text.PrefixUnquoted | m3u.go:100 | a prefix of a string that does not start with a quote, itself not ending with one, neither starts nor ends with a quote |
| Text.TrimQuotes | m3u.go:100 | the string with an all-quote prefix and suffix removed, and neither starting nor ending with a quote |
| Text.TrimQuotesUnquoted | m3u.go:100 | a string that neither starts nor ends with a quote is left unchanged |
| Strconv.Pow10Monotone | m3u.go:55 | powers of ten grow with the exponent |
| Strconv.DigitsValueBound | m3u.go:55 | `n` digits denote less than `10^n` |
| Strconv.Int64FastPath | m3u.go:55 | at most 18 digits always fit in a 64-bit integer |
| Strconv.Atoi | m3u.go:55 | a value exactly for an optional sign and at least one digit denoting a 64-bit integer, and that value is the digits' value, negated after a `-`; every decimal of fewer than 19 characters has one |
| Strconv.ZerosValue | m3u.go:55 | a run of zeros denotes 0 |
| Strconv.LeadingZerosValue | m3u.go:55 | leading zeros do not change the value of a digit string |
| Strconv.SignedDecimal | m3u.go:55 | a sign followed by digits is a decimal with the signed value of the digits |
| Strconv.AtoiPadded | m3u.go:55 | a sign (none, `+` or `-`), any number of leading zeros and the digits of `n` read as `n` or `-n` when that is a 64-bit integer, however long the text, and are rejected otherwise |
| Strconv.AtoiRejects | m3u.go:55-57 | the empty string, a bare sign, and text with spaces or underscores are rejected |
| Strconv.FormatNat | m3u.go:55 | non-empty decimal digits denoting `n` |
| Strconv.AtoiItoa | m3u.go:55 | `Atoi` reads back every 64-bit integer that `Itoa` writes |
| MapFold.FoldPrefix | m3u.go:96-100 | folding one more element adds its binding, or leaves the map alone when it has none |
| MapFold.FoldAll | m3u.go:96-100 | folding the whole sequence as a prefix is folding the sequence |
| MapFold.FoldKeys | m3u.go:96-100 | a key is in the map iff some element binds it |
| MapFold.FoldLastWins | m3u.go:96-100 | a key is bound to the value of the last element that binds it |
| MapFold.FoldBindingFrom | m3u.go:96-100 | every binding in the map was contributed by some element |
| MapFold.FoldLastElement | m3u.go:96-100 | the binding of the last element is always in the map |
| MapFold.FoldSize | m3u.go:75 | when every element binds a key and no two keys repeat, the map has one entry per element |
| MapFold.InPrefix | m3u.go:45-46 | an element of a prefix is an element of the sequence |

## Left out

- Opening the file, the `bufio.Scanner` and its read errors (m3u.go:31-41, 80-82) are left out: `ParseM3UFile` takes the lines the scanner would yield. Splitting at line breaks and dropping a trailing carriage return happen before the model. The scanner's limit on line length is not modelled.
- `ParseM3UFile` and `Parse`: the error values carry the offending line but not Go's formatted message text.
- `main` (m3u.go:108-123) only prints a parsed source and is not modelled. Go randomises the iteration order of maps and nothing here depends on it.
- `Source.Channels` holds pointers to channels in Go. The model stores channel values. No stored channel is changed after it is stored, so nothing observable is lost.
- `Strconv.Atoi` assumes Go's `int` is 64 bits wide. On a 32-bit platform the range would be narrower.
- The parser calls `strings.Contains` and `strings.SplitN(part, "=", 2)` together. `M3U.Binding` models both as one split at the first `=`, because the two always agree.
- Lines are taken as sequences of characters. Go's scanner yields byte strings that need not be valid UTF-8. Every split and trim here is at an ASCII character (`,`, ` `, `=`, `"`, `#`), so nothing the parser does depends on the difference.
