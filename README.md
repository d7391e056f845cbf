# Redbee schedule to XMLTV: a verified model of the exporter's pure helpers

The exporter in `main.py` reads one provider's channel listing and
per-channel schedules and writes them as an XMLTV document. Most of the
program is I/O: HTTP, Flask, a scheduler, and a file write under a lock.
This project models the pure logic it relies on, and proves what that
logic promises:

- `format_date` turns an ISO-8601 instant into the XMLTV instant
  `YYYYMMDDHHMMSS +0000`. It deletes every `:`, `-`, `T` and `Z` and
  appends ` +0000` (`Epg.FormatDate`).
- `get_epg_url` finds, in a channel's component blob, the component whose id
  is `generator-epg-<channel id>` and returns its `internalUrl`
  (`Epg.GetEpgUrl`, a loop that returns at the first match, proved against
  the function `Epg.FirstUrlFor`).
- `_parse_title` splits a title of the shape `S<season> E<episode> <rest>`
  into title, season and episode. Any other title passes through stripped
  (`Epg.ParseTitle`).
- `build_epg` turns one schedule asset into one `<programme>` record
  (`Epg.ShapeProgramme`). It also skips a channel whose EPG URL is missing
  or empty (`Epg.SchedulePath`).

The Python built-ins these helpers use are modelled in module `PyStr`.
Strings are sequences of Unicode scalar values (Dafny's `char`). Whitespace is exactly the 29 code
points for which Python's `str.isspace` holds; `strip()` and `split()`
without arguments use that same set. `split()` gives the maximal runs of
non-whitespace, `" ".join` puts single spaces between words, and
`replace(c, "")` for a one-character `c` deletes every `c`. A missing
dictionary key or a JSON `null` is `Wrappers.Option.None`.

Files: `wrappers.dfy` (Option), `pystr.dfy` (string built-ins and their
laws), `epg.dfy` (the helpers of `main.py`).

The definitions that model the source directly are these functions. The
rows below name the lemmas that state what each one promises.

- `Epg.FormatDate`: `format_date` (main.py:40-45), built from
  `PyStr.RemoveChar` and `PyStr.RemoveEach`, the model of
  `str.replace(c, "")` and of a chain of such calls (main.py:43).
- `Epg.EpgUrlOf` and `Epg.FirstUrlFor`: what `get_epg_url` returns
  (main.py:54-59). `Epg.GetEpgUrl` is its loop.
- `Epg.ParseTitle`: `_parse_title` (main.py:111-116). `Epg.HasEpisodeTag`
  is its split condition (main.py:114). `PyStr.Strip`, `PyStr.Split`,
  `PyStr.Join`, `PyStr.StartsWith` and `PyStr.SliceFrom` model
  `strip()`, `split()`, `" ".join`, `startswith` and `s[i:]`
  (main.py:113-115).
- `Epg.ShapeProgramme`: one asset turned into one `<programme>` record in
  `build_epg` (main.py:92-106).

`main.py` has no two-provider merge, channel-key normalisation, placeholder
programmes or chronological sorting. The model follows the code:

- `_parse_title` checks only the first letter of each of the first two
  words. For example, "Sunday Evening News" becomes ("News", "unday",
  "vening"). A title with fewer than three words is never split. In the
  split branch, runs of inner whitespace collapse to single spaces.
- `build_epg` always writes `series-number` and `episode-number`, including
  when they are empty. It does not leave them out.

## Model

| member | source | states |
|---|---|---|
| PyStr.StripStart | main.py:113 | the index where `strip()` starts: everything before it is whitespace, and the character there (if any) is not |
| PyStr.StripEnd | main.py:113 | the index where `strip()` ends: everything from it on is whitespace, and the character before it (if any) is not |
| PyStr.Strip | main.py:113 | `raw.strip()` is one contiguous slice of the input, with only whitespace outside it, and neither begins nor ends with whitespace, so inner whitespace is kept exactly |
| PyStr.StripTrimmed | main.py:116 | a string that neither begins nor ends with whitespace is its own strip |
| PyStr.StripEmptyIff | main.py:113 | strip gives "" exactly when the string is all whitespace |
| PyStr.StripSplits | main.py:113 | a string is whitespace, then its strip, then whitespace |
| PyStr.WordLen | main.py:113 | the length of the leading non-whitespace run: no whitespace inside it, and whitespace (or the end) right after it |
| PyStr.WordLenBeforeSpace | main.py:113 | a whitespace character after a string does not lengthen its leading word |
| PyStr.Split | main.py:113 | every word `split()` returns is non-empty and contains no whitespace |
| PyStr.SplitAllSpace | main.py:113 | `split()` returns no words exactly when the string is all whitespace |
| PyStr.SplitWord | main.py:113 | a single word splits into itself |
| PyStr.SplitAtSpace | main.py:113 | a whitespace character separates words: the words of a + [space] + b are the words of a followed by the words of b |
| PyStr.SplitSpaceEnds | main.py:113 | whitespace added at either end does not change the words |
| PyStr.SplitStrip | main.py:113 | `s.strip().split()` equals `s.split()` |
| PyStr.SplitJoin | main.py:115 | round trip: splitting words joined by single spaces gives back exactly those words |
| PyStr.JoinSingleSpaced | main.py:115 | in words joined by `" ".join`, every whitespace character is a plain space, lies strictly inside, and has non-whitespace on both sides |
| PyStr.JoinEnds | main.py:115 | a non-empty join of words begins and ends with non-whitespace |
| PyStr.JoinNonEmpty | main.py:115 | a join whose first word is non-empty is non-empty and begins with that word's first character |
| PyStr.JoinEmptyIff | main.py:115 | a join of words is "" exactly when there are no words |
| PyStr.SliceFrom | main.py:115 | `s[i:]` is empty once i passes the end of s, and otherwise holds the characters of s from i on |
| PyStr.Without | main.py:43 | deleting the characters of a set leaves none of them and never lengthens the string |
| PyStr.RemoveCharIsWithout | main.py:43 | one `replace(c, "")` deletes exactly the occurrences of c |
| PyStr.WithoutRemoveChar | main.py:43 | deleting c and then the set D is the same as deleting D with c added |
| PyStr.WithoutAppend | main.py:43 | deleting characters distributes over concatenation |
| PyStr.WithoutLength | main.py:43 | deleting the characters of D shortens the string by the number of its characters in D |
| PyStr.WithoutNone | main.py:43 | a string with none of the characters is left unchanged |
| PyStr.WithoutNothing | main.py:43 | deleting no characters leaves the string unchanged |
| PyStr.RemoveEachIsWithout | main.py:43 | a chain of `replace(c, "")` calls, followed by deleting a set D, deletes D together with every character the chain names |
| PyStr.RemoveEachDeletes | main.py:43 | a chain of `replace(c, "")` calls deletes exactly the set of characters it names, in whatever order they appear |
| Epg.FormatDateDeletesSeparators | main.py:40-45 | `format_date(iso)` is iso with every `:`, `-`, `T` and `Z` deleted and the other characters kept in order, followed by " +0000" |
| Epg.FormatDateOrderFree | main.py:43 | any order of the four `replace` calls gives the same result |
| Epg.FormatDateShape | main.py:42-45 | the result ends in " +0000", has no separator before that suffix, and is six characters longer than iso minus its separators |
| Epg.IsoInstantDigits | main.py:43 | deleting the separators from such an instant leaves its fourteen digits |
| Epg.AppendField | main.py:43 | appending a separator and a field of digits adds exactly that field to what the deletion keeps |
| Epg.FormatDateOfIsoInstant | main.py:40-45 | round trip: `YYYY-MM-DDTHH:MM:SSZ` with digit fields formats to those fields in order followed by " +0000" |
| Epg.FormatDateOfLayout | main.py:40-45 | the same, for a string already written out as such an instant |
| Epg.FormatDateExample | main.py:41-45 | "2025-07-31T18:30:00Z" formats to "20250731183000 +0000" |
| Epg.GetEpgUrl | main.py:54-59 | the loop returns what `FirstUrlFor` gives for the blob's components (none when the key is missing) and the target id "generator-epg-" + id |
| Epg.FirstUrlForAt | main.py:56-58 | the first component whose id matches decides the result: its `internalUrl`, or None when it has no `internalUrl` |
| Epg.FirstUrlForNoMatch | main.py:59 | when no component id matches, the result is None |
| Epg.FirstUrlForFound | main.py:56-58 | conversely, a returned URL is the `internalUrl` of the first matching component |
| Epg.FirstUrlForIgnoresLater | main.py:57-58 | components after a match are never looked at: appending any of them changes nothing |
| Epg.EpgUrlOfCases | main.py:56-59 | `get_epg_url` returns None for a missing or empty `components` list and when no id matches; otherwise it returns the first match's `internalUrl` |
| Epg.SchedulePath | main.py:86-89 | a channel's schedule is fetched exactly when its EPG URL is present and non-empty, and the path fetched is that URL |
| Epg.ParseTitle | main.py:111-116 | the returned season and episode never contain whitespace |
| Epg.ParseTitleTagged | main.py:113-115 | when the words of raw number more than two and start with S and with E, the result is (words[2:] joined by single spaces, words[0][1:], words[1][1:]) |
| Epg.ParseTitleTaggedTitle | main.py:115 | in that case the title is non-empty and splits back into exactly words[2:] |
| Epg.JoinTagged | main.py:114-115 | words tagged S/E rejoin as "S" + first[1:] + " " + "E" + second[1:] + " " + the rest |
| Epg.ParseTitleTaggedReassembles | main.py:113-115 | in that case "S" + season + " E" + episode + " " + title is the words of raw joined by single spaces: only whitespace is lost |
| Epg.ParseTitleUntagged | main.py:114-116 | otherwise the result is (raw.strip(), "", "") |
| Epg.ParseTitleFallbackIff | main.py:114-116 | the result is (raw.strip(), "", "") exactly when the split condition fails |
| Epg.ParseTitleCollapsesSpace | main.py:113-115 | in the split branch, the only whitespace left in the title is single plain spaces between words |
| Epg.SplitOfTagged | main.py:113-114 | "S<season> E<episode> <title>" splits into "S" + season, "E" + episode and the words of title, and meets the split condition |
| Epg.LetterWord | main.py:114-115 | a letter followed by whitespace-free text is one word, and slicing off the letter gives the text back |
| Epg.SplitWordThen | main.py:113 | a word, a space and more text split into the word followed by the words of the text |
| Epg.SplitTwoWordsThen | main.py:113 | two words, each followed by a space, then more text, split into the two words followed by the words of the text |
| Epg.EpisodeTagOf | main.py:114-115 | words "S" + season, "E" + episode and at least one more meet the split condition, and slicing off the letters gives season and episode back |
| Epg.WordTitle | main.py:115 | a single word is its own title after splitting and rejoining |
| Epg.ParseTitleOfTagged | main.py:111-116 | round trip: "S<season> E<episode> <title>" parses back to (title, season, episode) for a whitespace-free season and episode and a single-spaced, non-empty title |
| Epg.ParseTitleOfLayout | main.py:111-116 | the same round trip for a one-word title, for a string already written out in that layout |
| Epg.ParseTitleSundayEveningNews | main.py:114-115 | only the leading letters are checked: "Sunday Evening News" gives ("News", "unday", "vening") |
| Epg.ParseTitleFriends | main.py:113-115 | "S2 E20 Friends" gives ("Friends", "2", "20") |
| Epg.ParseTitleTwoWords | main.py:114-116 | a title of two words is never split, even when the words look like a season and an episode |
| Epg.ParseTitleTheNews | main.py:116 | "The News" gives ("The News", "", "") |
| Epg.ParseTitleNoRest | main.py:114-116 | "S1 E2" gives ("S1 E2", "", "") |
| Epg.IconOf | main.py:105-106 | a programme has an icon exactly when the asset's `images` is present and non-empty, and the icon is the first image's URL |
| Epg.ShapeProgrammeWellFormed | main.py:92-106 | a shaped programme has the channel's slug, start and stop as separator-free instants followed by " +0000", whitespace-free series and episode numbers, and an icon exactly when the asset has an image |
| Epg.ShapeProgrammeOfTagged | main.py:92-106 | an asset titled "S<season> E<episode> <title>" with ISO-8601 UTC instants gives a programme with that season, that episode, the escaped title, and the instants' digits followed by " +0000" |
| Epg.FormatDateOfCompact | main.py:40-45 | formatting the instant built from fourteen digits gives back those digits followed by " +0000" |

## Left out

- `fetch_json`, the listing URL and every HTTP request in `build_epg` (main.py:48-51, 68-72, 85-86, 91): network I/O.
- Building and serialising the XML tree with `xml.etree.ElementTree` (main.py:65, 79-82, 94-108): a foreign library. `Epg.Programme` holds the attribute and child texts of one `<programme>` element.
- `xml.sax.saxutils.escape` (main.py:80, 101-102): a foreign function. It is the `escape` parameter of `Epg.ShapeProgramme`, and nothing is assumed about it.
- Epg.Programme: `title` and `desc` hold the text after the explicit `escape` call (main.py:101-102). `ET.tostring` (main.py:108) escapes that text a second time when it serialises the tree, so "Tom & Jerry" is written as `Tom &amp;amp; Jerry`. The record is not the final XML text.
- Shaping a `<channel>` element (main.py:74-82): XML building only. It is not a named core operation.
- `generate_and_store`, the file write and `_lock` (main.py:123-131), the scheduler jobs (main.py:134-138), the `/epg` route (main.py:144-149) and `app.run`: scheduling, concurrency, files and HTTP serving.
- Logging (main.py:25-31, 88, 125, 129, 131), `datetime.utcnow()` (main.py:137) and the `BASE_URL` environment lookup (main.py:21): side effects, a clock and the environment.
- Epg.FormatDate: the input is not checked to be an ISO-8601 UTC instant, and neither the code nor the model checks it. Fractional seconds and non-UTC offsets (such as `+02:00`) pass through with only the four separators deleted. `Epg.FormatDateOfIsoInstant` states the digit-only form only for `YYYY-MM-DDTHH:MM:SSZ` inputs.
- PyStr.RemoveChar: only `replace` with a one-character pattern and an empty replacement is modelled, because that is all `format_date` uses.
- Epg.Component: an `id` or `internalUrl` that is a JSON value other than a string or null is not modelled. A non-string id can never equal the target string, so it behaves like a missing one. A non-string URL is outside the `Option<string>` result.
- Epg.ComponentBlob: `comp_data["id"]` is always present, because the field is not optional. A missing id raises `KeyError` in the source at the first component examined (main.py:57), and that case cannot be expressed. With no components, or a missing `components` key, the source never reads the id and returns None (main.py:56, 59), as the model does. The f-string's conversion of a non-string id to text is not modelled. A `components` key whose value is `null`, which raises `TypeError` in the source, is not modelled.
- Epg.Asset: missing `title`, `description`, `startTime` or `endTime` keys, and an image without `url`, raise `KeyError` in the source. A JSON `null` in `title`, `startTime`, `endTime` or `description` raises `AttributeError`: in `raw.strip()` (main.py:113), in `iso_str.replace` (main.py:43) or in `escape` (main.py:102). Neither case is modelled, because every field is present and is a string.
- Strings holding lone surrogate code points (U+D800 to U+DFFF): a Python `str` decoded from JSON can hold one, but a Dafny `char` cannot.
- The two-provider merge, channel-key normalisation, placeholder programmes and chronological sorting: none of them is in `main.py`, so there is no code to model.
