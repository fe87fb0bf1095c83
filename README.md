# VBTV video downloader: link resolution, modelled in Dafny

`main.py` turns a volleyballworld.com share link into the URL of one HLS
stream variant. It works in five stages:

1. It cuts the percent-encoded manifest URL out of the link (`split_url`).
2. It decodes that URL (`decode_url`, i.e. `urllib.parse.unquote`).
3. It fetches the JSON manifest and reads `entry[0].content.src` (`extract_video_url`).
4. It fetches the master playlist and pairs each `#EXT-X-STREAM-INF` line it reaches with the line after it, which it consumes as the URL (`fetch_m3u8_playlist`).
5. It takes the second `(resolution, url)` pair (`playlist[1][1]`).

This project models those stages and proves what each one returns. Every
`exit(...)` and every uncaught exception of the script is a `Failure` of a
`Result`:

| script outcome | `Failure` |
|---|---|
| `exit("Invalid URL")` | `InvalidUrl` |
| `ValueError` from `split` on an empty marker | `EmptySeparator` |
| `fetch_json` exits on a failed request or body | `FetchFailed` |
| `exit("No entry found in JSON data")` | `NoEntryFound` |
| a caught `KeyError` or `TypeError` in `extract_video_url` | `ExtractionError` |
| an uncaught `AttributeError` in `extract_video_url` | `AttributeError` |
| the `UnboundLocalError` of `resolution` | `UnboundResolution` |
| `TypeError` from `None[1]` | `NoPlaylist` |
| `IndexError` from a short playlist | `IndexOutOfRange` |

Modules:

- `Results` (results.dfy) holds `Option`, `Result` and the failures.
- `Text` (text.dfy) holds the `str` operations the script relies on: `in`, `startswith`, `split`, `strip`, and `isspace` by code point.
- `Percent` (percent.dfy) is the byte-level decoder of section 2.1 of RFC 3986, with an encoder, which the decoder inverts.
- `Link` (link.dfy) models `split_url` on the link's UTF-8 bytes.
- `Manifest` (manifest.dfy) holds a JSON value type with Python truthiness, and `extract_video_url`.
- `Playlist` (playlist.dfy) holds the parse loop. `ParsePlaylist` is an imperative method with the script's own `while` and `for` loops. It is proved equal to the recursive specification `Parse`, and the lemmas give `Parse`'s results in terms of the document.
- `Pipeline` (pipeline.dfy) holds the index-1 selection and the chain of `main`. The two HTTP fetches are function parameters.
- `Scenarios` (scenarios.dfy) works whole playlists of a given shape through the parse.

Three behaviours of the script that are easy to misread, kept as the code has them:

- `unquote` copies a malformed escape such as `%zz` or a trailing `%` unchanged. It never raises a decoding error.
- `extract_video_url` lets the `AttributeError` from `.get` on a non-object escape. This covers a non-object document, a non-object first entry or content, and a string entry. Only `KeyError` and `TypeError` become the reported extraction error.
- The resolution label is not reset between blocks. A block without `RESOLUTION=` reuses the previous block's label (`Scenarios.StaleLabel`). If there is no previous label and the block has a following line, it fails with `UnboundLocalError`.

## Model

| member | source | states |
|---|---|---|
| Text.Occurs | main.py:23 | `marker in full_url` holds exactly when the search from the start finds an occurrence |
| Text.FindFrom | main.py:23-24 | the result, when present, is the first index at or after `from` where the pattern occurs; when absent, no occurrence exists from there on |
| Text.SplitOn | main.py:127 | `split(sep)` always yields at least one part, so `split('=')[1]` needs only a second part |
| Text.JoinSplit | main.py:127 | joining the parts of `split(sep)` with `sep` gives the input back |
| Text.SplitOnParts | main.py:127 | no part of `split(sep)` contains the separator |
| Text.SplitOnPlain | main.py:127 | a string without the separator splits into itself alone |
| Text.SplitOnConcat | main.py:127 | the first part runs up to the first separator, and the remaining parts are the split of what follows it |
| Text.SplitOnHead | main.py:130 | the first part of a split is the longest prefix without the separator |
| Text.PrefixBefore | main.py:130 | the result is a prefix without the separator, followed in the input by the separator or the end |
| Text.TrimStartShape | main.py:125 | `lstrip` (`Text.TrimStart`) removes exactly a prefix of white space and stops at a non-space character |
| Text.TrimEndShape | main.py:125 | `rstrip` (`Text.TrimEnd`) removes exactly a suffix of white space and stops at a non-space character |
| Text.StripShape | main.py:125 | `strip` (`Text.Strip`, `TrimEnd` of `TrimStart`, removing the characters of `Text.IsSpace`) keeps a contiguous slice that neither starts nor ends with white space, and removes only white space on either side of it |
| Text.StripUnchanged | main.py:125 | a string with no white space at either end is its own strip |
| Link.SplitUrl | main.py:23-27 | the result is Ok exactly when the marker is non-empty and occurs; the payload is what follows the first occurrence, and the text before contains no other occurrence; a missing marker gives InvalidUrl and an empty marker gives EmptySeparator |
| Link.UnwrapShareLink | main.py:9-27 | with the default marker (`Link.DefaultMarker`, the 48 bytes of the default `split_marker`), the result is Ok exactly when the link contains the marker; otherwise it is InvalidUrl |
| Link.UnwrapBuilt | main.py:23-25 | marker + payload unwraps to the payload, even when the payload contains further markers |
| Percent.HexDigit | main.py:40 | the upper-case digit for n is a hex digit whose value is n |
| Percent.Decode | main.py:40 | decoding never lengthens the input |
| Percent.DecodeWithoutPercent | main.py:40 | input without `%` is returned unchanged, so `+` is not turned into a space |
| Percent.DecodeCopies | main.py:40 | a byte that does not start a complete escape, including a stray `%`, is copied, and decoding resumes right after it |
| Percent.DecodeEscape | main.py:40 | `%` followed by two hex digits (`Percent.EscapeAt`, digits recognised by `Percent.IsHexDigit`) becomes the single byte they spell, sixteen times the first digit's `Percent.HexValue` plus the second's |
| Percent.DecodeEncode | main.py:40 | decoding undoes percent-encoding for every set of kept bytes that excludes `%` |
| Percent.DecodeHexCase | main.py:40 | two escapes whose digits have the same values decode to the same byte, so the case of the hex letters does not matter |
| Percent.LetterCase | main.py:40 | each lower-case hex letter `a`-`f` has the value of its upper-case form |
| Percent.EscapeByte | main.py:40 | the escape of a byte is three bytes forming a complete escape |
| Manifest.Truthy | main.py:77 | the falsy JSON values are exactly `null`, `false`, `0`, `""`, `[]` and `{}` |
| Manifest.Get | main.py:76-79 | `d.get(key, default)` is the stored value when the key is present and the default otherwise |
| Manifest.ExtractVideoUrl | main.py:76-85 | NoEntryFound exactly when the document is an object with a falsy or missing entry (`Manifest.EntryOf`, `json_data.get("entry", [])`); ExtractionError exactly when that entry is a truthy object, number or bool; Ok exactly when the entry is a non-empty array whose first element is an object and whose content, when present, is an object; the value is `content.src`, or `""` when a key is missing; every other shape fails, and every failure is NoEntryFound, ExtractionError or AttributeError |
| Manifest.ExtractBuilt | main.py:76-80 | a manifest of one entry whose content names `src` yields that `src`, whatever further entries follow |
| Manifest.ExtractDefaults | main.py:78-79 | a missing `content` or `src` yields the empty string, not an error |
| Manifest.ExtractEmptyEntry | main.py:76-82 | an empty entry list is NoEntryFound, whatever else the document holds |
| Playlist.StreamInfIsTag | main.py:125-126 | a stream-info line (`Playlist.IsStreamInf`, `Text.StartsWith` of the tag on the stripped line) is a tag line: stripped, it starts with `#` |
| Playlist.AttributesShape | main.py:127 | the tokens (`Playlist.Attributes`, `split(',')` of the stripped line) are at least one, the first runs up to the first `,`, and rejoined with `,` they give the stripped line back |
| Playlist.ResolutionValue | main.py:130 | `attr.split('=')[1]`, under the guard `attr.startswith('RESOLUTION=')` (`Playlist.IsResolutionAttr`), is a prefix of the text after `RESOLUTION=` and contains no `=` |
| Playlist.LastResolution | main.py:128-130 | a label left by the inner loop never contains `=` |
| Playlist.Carry | main.py:127-130 | once set, `resolution` is never unset; it is unset after a block exactly when it was unset before and the block has no label |
| Playlist.ParseFrom | main.py:123-135 | the pass from a cursor, as a recursive function, can fail only with the unbound `resolution` |
| Playlist.Parse | main.py:119-137 | the whole pass from the first line with `resolution` unset can fail only with the unbound `resolution` |
| Playlist.ResolutionValueBetween | main.py:129-130 | `attr.split('=')[1]` of a `RESOLUTION=` token is the text after the key up to the next `=` or the end |
| Playlist.LastResolutionSpec | main.py:127-130 | the inner loop leaves no label exactly when no token matches; otherwise the label is the value of a matching token after which no token matches |
| Playlist.ParseFromOther | main.py:124-126 | a line that is not a stream-info line is skipped, and `resolution` is unchanged |
| Playlist.ParseFromBlock | main.py:126-135 | a stream-info line with a successor produces its variant from the carried label and the stripped next line, then continues two lines on; without a label it fails with UnboundResolution |
| Playlist.ParsePlaylist | main.py:119-137 | the imperative loop, with the same cursor, inner `for` loop and `return`, computes exactly `Parse(lines)`, including the UnboundLocalError |
| Playlist.VariantStarts | main.py:123-135 | every start is a stream-info line at or after the cursor that has a following line |
| Playlist.VariantStartsOrdered | main.py:131-135 | starts are increasing, with at least one line between any two, because the line after a start is consumed as its URL |
| Playlist.VariantStartsComplete | main.py:123-135 | every stream-info line with a successor is a start, or is the URL line right after a start |
| Playlist.ParseFromFails | main.py:126-133 | the pass fails exactly when the first start has no label to use, and then with UnboundResolution |
| Playlist.ParseFromCount | main.py:131-133 | a successful pass yields exactly one variant per start |
| Playlist.ParseFromUrlAt | main.py:132-133 | the k-th variant's URL is the stripped line after the k-th start |
| Playlist.ParseFromLabelAt | main.py:127-133 | the k-th variant's label is the last `RESOLUTION=` value in its block or, when there is none, the label of the variant before it |
| Playlist.ParseFromUrls | main.py:131-134 | in a successful pass, every variant's URL is the stripped line after its start |
| Playlist.ParseFromLabels | main.py:127-133 | in a successful pass, every variant's label is carried as the script carries `resolution` |
| Playlist.VariantStartsBound | main.py:123-135 | there are never more starts than stream-info lines |
| Playlist.NoStreamInfCount | main.py:126 | a stretch of lines without stream-info lines counts none |
| Playlist.ParseBound | main.py:119-137 | a successful parse has at most one variant per stream-info line |
| Playlist.ParseNoStreamInf | main.py:119-137 | a document without stream-info lines parses to the empty playlist |
| Playlist.ParseVariants | main.py:119-137 | a successful parse, read off the document: the starts are ordered, there is one variant per start, each URL is the stripped line after its start, and each label is carried |
| Playlist.ParseFails | main.py:126-133 | the parse fails exactly when the first start carries no `RESOLUTION=` token, and then with UnboundResolution |
| Playlist.TagTokenNeverMatches | main.py:126-129 | the first token of a stream-info line still carries the tag, so it is never taken for a `RESOLUTION=` token |
| Pipeline.SelectVariant | main.py:159-160 | Ok exactly when there is a playlist with at least two variants, and then the value is the second variant's URL; None gives NoPlaylist and a short list gives IndexOutOfRange |
| Pipeline.FetchPlaylist | main.py:115-141 | a failed request gives no playlist; otherwise the result is that of parsing the response lines, and a parse failure escapes |
| Pipeline.Resolve | main.py:146-160 | a link without the marker fails with InvalidUrl before any fetch; success means every stage succeeded on the previous stage's output and the URL is the second variant's; conversely, when every stage succeeds, so does the run |
| Pipeline.ResolveFailures | main.py:146-160 | once the link unwraps, each stage's failure is the run's: a failed manifest fetch gives FetchFailed, a failed extraction its own failure, a failed playlist request NoPlaylist, a failed parse UnboundResolution and a short playlist IndexOutOfRange |
| Pipeline.SelectedIsSecondBlock | main.py:159-160 | the selected URL is the stripped line after the second start of the document |
| Pipeline.SelectFromEmptyDocument | main.py:119-137 | a playlist without stream-info lines parses, and selection then fails with IndexOutOfRange |
| Scenarios.UrlLine | main.py:125-126 | a line that does not start with `#` and has no surrounding white space is its own strip and is not a stream-info line |
| Scenarios.LabelledLine | main.py:125-130 | `#EXT-X-STREAM-INF:<attrs>,RESOLUTION=<v>` is a stream-info line labelled v |
| Scenarios.UnlabelledLine | main.py:125-130 | a stream-info line with a single token carries no label |
| Scenarios.TwoBlocks | main.py:119-137 | two labelled blocks parse to both variants in order, and selection takes the second URL |
| Scenarios.StaleLabel | main.py:127-133 | a block without a resolution takes the label of the block before it |
| Scenarios.UnboundFirst | main.py:127-133 | a first block without a resolution fails with UnboundResolution, whatever follows |
| Scenarios.TrailingTag | main.py:131-135 | a stream-info line on the last line adds nothing and does not fail |
| Scenarios.TagTakenAsUrl | main.py:131-133 | the line after a stream-info line is its URL even when it is itself a stream-info line |

## Left out

- HTTP: `requests.get`, `raise_for_status`, and the JSON text parse of `response.json()`. The two fetches are function parameters. A failed manifest fetch is the single failure FetchFailed. A failed playlist fetch is `None`, whose selection then fails.
- `response.text.splitlines()`: the playlist arrives as its lines.
- The UTF-8 decoding with replacement that `unquote` applies after unescaping. The decoder returns the raw bytes.
- `parse_arguments` and argparse, including a missing `-url` (`None`, on which `split_url` would raise TypeError). The link is a parameter.
- `print` and the exit messages. Only which failure occurs is kept.
- The second `requests.get` on the selected URL (main.py:161), the `M3U8Downloader` and `m3u8_To_MP4` downloads, `subprocess` and `os` (main.py:161-179). These are output side effects outside the resolution logic. `Resolved` keeps both `video` (what the downloader is given) and the selected URL.
- JSON numbers are exact reals. Floating point, NaN and infinities are not modelled, so the only falsy number is zero, whether the JSON wrote `0` or `0.0`.
- Python's `isspace` is taken as a fixed list of code points. It is not read from the Unicode character database.
