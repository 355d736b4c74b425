# YouTube Trending Explorer: verified model of the result pipeline

`youtube-analyzer.py` is a Streamlit page. It searches YouTube for a keyword and
shows the results as cards. It also suggests titles and a tag string built from
the result titles. This project models the logic behind that page in Dafny and
proves properties about it:

- `urutkan_video`: the stable descending sort chosen by the "Urutkan" mode
  (module `Sorting`). It also covers why sorting by the `publishedAt` text puts
  the newest video first (module `Timestamps`).
- `format_time`, `format_views` and `hitung_vph`: the card helpers, with the
  clock reading replaced by an input (module `Formatting`).
- The tag builder (lines 153-162): two nested loops, then a join and a cut to
  500 characters (module `Tags`). It is modelled as methods with loop
  invariants.
- The body of `if submit:`: order the fetched videos, collect their titles,
  suggest the first five and build the tags (module `Search`).
- The Python string built-ins these rely on: `str.split`, `str.lower`,
  `str.strip`, `str.join`, `str(int)` and `<` on strings (module `Text`).

Below, "the strip characters" are the four characters line 156 strips from
each word: the vertical bar, the comma, the full stop and the hyphen.

A video is the record built at lines 83-91. Its views-per-hour figure is a
`real`. A sort mode is a string. Every string except the three sorting modes
keeps the API's order, as line 105 does for "Paling Relevan".

The sort is specified by what Python's `sorted(..., reverse=True)` promises:

- the result is a permutation of the input;
- the result is non-increasing in the key;
- records with equal keys keep their input order.

`Sorting.StableSortIsUnique` shows that these three facts fix the result
completely. So the insertion sort used as the model's reference agrees with
whatever algorithm Python runs.

Each mode sorts on one key; ties are broken only by stability.

## Model

| member | source | states |
|---|---|---|
| Sorting.OrderingOf | youtube-analyzer.py:97-105 | "Paling Banyak Ditonton", "Terbaru" and "VPH Tertinggi" select a descending sort on views, publishedAt and vph. Each holds if and only if the mode is that string. Every other mode keeps the API order. |
| Sorting.SortVideos | youtube-analyzer.py:97-105 | `urutkan_video` returns a permutation of its input (same multiset, same length). Under a sorting mode no record ranks above an earlier one, and every tie group keeps its input order. Under any other mode the input comes back unchanged. |
| Sorting.SortByDescending | youtube-analyzer.py:99-103 | The reference sort is non-increasing in its key. |
| Sorting.SortByStable | youtube-analyzer.py:99-103 | The reference sort is stable: for every record v, the records whose key equals v's come out in their input order. |
| Sorting.StableSortIsUnique | youtube-analyzer.py:99-103 | Two sequences that are both non-increasing and both have the same tie groups are equal. So any stable descending sort gives exactly the model's result. |
| Sorting.SortByIdempotent | youtube-analyzer.py:99-103 | Sorting a sorted list again changes nothing. |
| Sorting.SortByOfDescending | youtube-analyzer.py:99-103 | A list that is already non-increasing is left unchanged by the sort. |
| Sorting.AboveTrichotomy | youtube-analyzer.py:99-103 | For each key, of two records exactly one ranks above the other or they tie. This includes the string order used for publishedAt. |
| Sorting.InsertKeepsTies | youtube-analyzer.py:99-103 | Inserting a record never reorders a tie group. |
| Text.LexLessTransitive | youtube-analyzer.py:101 | Python's `<` on strings, by code point, is transitive. |
| Text.LexLessTotal | youtube-analyzer.py:101 | Of two different strings, one is less than the other. |
| Timestamps.TextOrderIsTimeOrder | youtube-analyzer.py:101 | For fixed-width UTC timestamps of section 5.6 of RFC 3339 (the "%Y-%m-%dT%H:%M:%SZ" form parsed at lines 34 and 46), one text is less than the other if and only if its instant is earlier. |
| Timestamps.RenderOrder | youtube-analyzer.py:101 | Zero-padded field tuples compare as text exactly as they compare as numbers. |
| Timestamps.PaddedOrder | youtube-analyzer.py:101 | Two zero-padded numbers of the same width compare as text as they compare as numbers, and are equal only when the numbers are. |
| Timestamps.NewestFirst | youtube-analyzer.py:100-101 | Under "Terbaru" a video never follows one published earlier. |
| Formatting.RecencyOf | youtube-analyzer.py:47-54 | A day count below 1 (negative included) is "today". 1..29 is that many days. 30..364 is delta//30 months, which lies in 1..12. From 365 on it is delta//365 years, at least 1. Each bucket holds if and only if its range does. |
| Formatting.FormatTime | youtube-analyzer.py:45-54 | The text `format_time` gives reads back as exactly the bucket of the day count. The reader accepts only numerals without leading zeros, so with ReadRecencyIsOnlyText this fixes the text, for example "5 hari lalu" and not "05 hari lalu". |
| Formatting.ReadRecencyIsOnlyText | youtube-analyzer.py:48-54 | A text that reads back as a bucket is exactly that bucket's wording. |
| Formatting.RecencyTextRoundTrip | youtube-analyzer.py:48-54 | Different buckets and counts are worded differently: the text of every bucket parses back to that bucket. |
| Formatting.RecencyMonotone | youtube-analyzer.py:47-54 | An older video never reads as more recent than a newer one. |
| Formatting.Vph | youtube-analyzer.py:33-36 | Views per hour is 0 when no time has passed or the date lies ahead. Otherwise, multiplied by the hours, it gives back the views. It is never negative for a non-negative view count. |
| Formatting.CompactViewsOf | youtube-analyzer.py:38-43 | The suffix is "M" if and only if n >= 1,000,000, and "K" if and only if 1,000 <= n < 1,000,000. The scaled value times 10^6 or 10^3 is n. Below 1,000 the text parses back to n, and by Text.ParseIntIsOnlyString it is exactly `str(n)`. |
| Text.IntToStringRoundTrip | youtube-analyzer.py:43 | `str(n)` parses back to n, for every integer. |
| Text.ParseIntIsOnlyString | youtube-analyzer.py:43 | The parser accepts only what `str` writes (no leading zero, no "-0"): a text that parses as n is `str(n)`. |
| Text.NumeralIsOnlyString | youtube-analyzer.py:43 | A numeral without a leading zero is `str` of its value: each number has exactly one such numeral. |
| Text.Words | youtube-analyzer.py:155 | `t.split()` yields only non-empty words without whitespace. |
| Text.WordsCoverText | youtube-analyzer.py:155 | Gluing the words of `t.split()` back together gives t with its whitespace removed: splitting loses nothing else. |
| Text.WordsOfJoin | youtube-analyzer.py:155 | Splitting words joined by single spaces gives back exactly those words, for any non-empty words without whitespace. So the words break exactly at whitespace. |
| Text.Lower | youtube-analyzer.py:156 | `w.lower()` keeps the length and lowers each character. |
| Text.Strip | youtube-analyzer.py:156 | `s.strip(cs)` is a slice s[i..j] where everything before i and everything from j on is in cs. Neither its first nor its last character is in cs. |
| Text.StripIsOnlyTrim | youtube-analyzer.py:156 | Any such slice whose ends are outside cs is the result of `s.strip(cs)`: the contract of Strip fixes its result. |
| Text.StripKeeps | youtube-analyzer.py:156 | Strip keeps every character that is not in cs. |
| Text.StripAll | youtube-analyzer.py:156 | A string made only of characters of cs strips down to the empty string. |
| Text.StripIdempotent | youtube-analyzer.py:156 | Stripping twice is stripping once. |
| Tags.Normalize | youtube-analyzer.py:156 | `w.lower().strip(...)` with the strip characters is a slice of `w.lower()` with only strip characters cut off before and after it. It has no upper-case letter and does not start or end with a strip character. |
| Tags.NormalizeIdempotent | youtube-analyzer.py:156 | Normalizing a normalized word changes nothing. |
| Tags.NormalizeKeepsLetters | youtube-analyzer.py:156 | Every character of the word that does not lower to a strip character survives, lowered. |
| Tags.TitleWordsMembers | youtube-analyzer.py:154-156 | A string is one of the candidate words if and only if it is the normalized form of a word of one of the titles. |
| Tags.DedupMembers | youtube-analyzer.py:157-158 | The `if w not in kata_unik: append` pattern keeps exactly the values it meets. |
| Tags.DedupNoDuplicates | youtube-analyzer.py:157-158 | The list it builds has no repeats. |
| Tags.DedupFirstSeenOrder | youtube-analyzer.py:157-158 | The kept values come in the order of their first occurrence. |
| Tags.AddNewWords | youtube-analyzer.py:155-158 | The inner loop over one title extends the deduplicated list of the words seen so far with this title's normalized words. |
| Tags.CollectTags | youtube-analyzer.py:153-158 | After the loops, `kata_unik` is the first-seen deduplication of the normalized title words. It has no duplicates. It holds a string if and only if that string is a normalized title word. Its words are in first-seen order. |
| Tags.SeparatorNormalizesToNothing | youtube-analyzer.py:156 | A word made only of strip characters normalizes to the empty string. |
| Tags.EmptyTagFromSeparator | youtube-analyzer.py:155-158 | A title with a word made only of strip characters puts the empty string into `kata_unik`. |
| Tags.SeparatorIsAWord | youtube-analyzer.py:155 | The vertical bar is the second word of the title "a", space, vertical bar, space, "b". |
| Tags.DropEmptyMembers | youtube-analyzer.py:157-158 | Dropping empty strings keeps exactly the non-empty values. |
| Tags.DropEmptyFirstIndex | youtube-analyzer.py:157-158 | Dropping empty strings keeps the first-occurrence order of the rest. |
| Tags.DedupNonEmptyIsDedupOfNonEmpty | youtube-analyzer.py:157-158 | Skipping empty words while deduplicating is the same as deduplicating the non-empty words. |
| Tags.NonEmptyTagFacts | youtube-analyzer.py:153-158 | The deduplicated non-empty words have no repeats. They are exactly the non-empty words. They come in first-seen order. |
| Tags.AddNewNonEmptyWords | youtube-analyzer.py:155-158 | The inner loop, skipping words that strip to nothing, extends the list of the non-empty words seen so far. |
| Tags.CollectNonEmptyTags | youtube-analyzer.py:153-158 | The loops with empty words skipped give the first-seen deduplication of the non-empty normalized title words. The list has no duplicates. It holds a string if and only if that string is a non-empty normalized title word. Its words are in first-seen order. |
| Tags.Truncated | youtube-analyzer.py:161-162 | The result is at most 500 characters. A string of at most 500 comes back unchanged. A longer one becomes exactly 500: its first 497 characters followed by "...". |
| Tags.TagString | youtube-analyzer.py:160-162 | `tag_string` is the ", "-join of the tags cut by Truncated, so it is at most 500 characters. |
| Tags.TruncatedKeepsHead | youtube-analyzer.py:161-162 | The cut leaves the first 497 characters as they are. |
| Tags.TagSurvivesCut | youtube-analyzer.py:160-162 | A tag that ends within the first 497 characters of the joined string appears whole, at its place, in the tag string. |
| Text.JoinLength | youtube-analyzer.py:160 | `sep.join(ws)` is as long as the pieces plus one separator between each two neighbours. |
| Text.JoinAt | youtube-analyzer.py:160 | The joined string holds each piece at its offset. |
| Text.JoinSeparatorAt | youtube-analyzer.py:160 | Between two neighbouring pieces the joined string holds exactly one separator. |
| Search.TitlesOf | youtube-analyzer.py:144 | The titles list has one entry per video, and entry i is video i's title. |
| Search.CollectTitles | youtube-analyzer.py:120-144 | The loop appending `v["title"]` builds exactly the titles of the ordered videos, in order. |
| Search.TitleSuggestions | youtube-analyzer.py:148 | `all_titles[:5]` holds min(5, n) titles, each equal to the title at the same position. |
| Search.SuggestionsAreTop | youtube-analyzer.py:111-148 | Under a sorting mode every fetched video is either among the first five or ranks no higher than any suggested one. |
| Search.InSomeTitleIsTitleWord | youtube-analyzer.py:144-156 | A word normalizes from some video's title if and only if it normalizes from an entry of the titles list. |
| Search.TagWordsIgnoreMode | youtube-analyzer.py:111-158 | Under every mode, the tags that lines 153-158 build are exactly the normalized words of the fetched titles, the empty word included when it occurs. The mode changes only their order. |
| Search.NonEmptyTagWordsIgnoreMode | youtube-analyzer.py:111-158 | With the loops corrected to skip empty words, the tags under every mode are exactly the non-empty normalized words of the fetched titles. |
| Search.RunSearch | youtube-analyzer.py:108-162 | The report is "no videos" if and only if nothing was fetched. Otherwise it holds the ordered videos, the first five titles and the tag string that the loops as written build from those titles. That string has at most 500 characters. |
| Search.RunSearchWithoutEmptyTags | youtube-analyzer.py:108-162 | The same report, with the tag string built by the corrected loops that skip words which strip to nothing. |

## Left out

- The Streamlit page (lines 1-30, the error message at 114, the card layout and badges at 115-143 and 145-146, the headings at 147 and 152, and 149, 164-165) is not modelled: it is UI. `Search.RunSearch` returns what the page shows instead of drawing it.
- `get_youtube_videos` (lines 57-94) is not modelled: it is network I/O against the YouTube Data API. The fetched list is an input to `Search.RunSearch`.
- Formatting.FormatTime: takes the whole-day age as input. The `strptime` parse and the `datetime.now()` reading at lines 46-47 are left out. So is the exception `strptime` raises on a malformed date.
- Formatting.Vph: takes the elapsed hours as an input `real`. It does not model the clock read, floating-point division or `round(..., 2)` (lines 34-36).
- Formatting.CompactViewsOf: does not model the `.1f` rendering of the scaled value. Python rounds the binary float, so 999,999 renders as "1000.0K". Integer or real arithmetic does not reproduce that.
- Sorting.SortVideos: the vph key is taken as given, an exact `real`. Any float value is a real, so comparing the keys loses nothing. The rounding by `round(..., 2)` in `hitung_vph` happens before the key reaches the sort and is not modelled (see Formatting.Vph).
- Text.Lower: lower-cases ASCII letters only. Python's `str.lower` also maps non-ASCII letters.
- Text.Words: splits on ASCII whitespace only (space, 9-13, 28-31). Python's `str.split()` also splits on Unicode spaces such as U+00A0 and U+0085.
- The vph badge text (`f"{v['vph']} VPH"`) is not modelled: it is Python's float printing.

## Findings

| source | as written | input that shows it | evidently intended | confidence | as-written member | corrected member |
|---|---|---|---|---|---|---|
| youtube-analyzer.py:155-158 | A word made only of strip characters strips to the empty string. The loop still appends that empty string to `kata_unik`. | The title "a", space, vertical bar, space, "b": its second word is the vertical bar, which normalizes to "". The tag string becomes "a, , b". | Words that strip to nothing are skipped, so no empty tag appears. | medium, not executed | Tags.EmptyTagFromSeparator | Tags.CollectNonEmptyTags |

`Tags.CollectTags` models the loops as written. `Tags.EmptyTagFromSeparator` shows the empty tag arises for any such title, and `Tags.SeparatorIsAWord` shows that the title "a", space, vertical bar, space, "b" is one. `Search.RunSearch` uses the loops as written, so for that title its tags include the empty string, which the join renders as "a, , b". `Search.RunSearchWithoutEmptyTags` uses the corrected `Tags.CollectNonEmptyTags`, whose tags are never empty.
