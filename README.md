# ha-albumart-finder: a verified model of the lookup rules

`run.py` listens for media-player metadata (state, title, artist, album) on an
MQTT topic, looks the track up on the iTunes Search API, downloads the cover
and serves it over HTTP as `albumart.jpg`. This project models the rules at
the core of that script in Dafny and proves what they guarantee:

- **`.env` loading** (`load_env_file`). A file's lines go through a small
  grammar:
  - blank lines and `#` comments are skipped, and so are lines with no `=`;
  - a line is split at its first `=`;
  - key and value are stripped;
  - one pair of matching quotes is removed from the value.

  The assignments then merge into the process environment, honouring
  `override`. Module `EnvFile`, built on the Python string operations of
  module `Text`. `os.environ` is the class `EnvFile.Environ`, and its method
  `LoadEnvFile` updates the map in a loop.
- **Query construction** (`find_album_art`). The ordered list of
  `(term, entity)` searches is built from the optional artist, title and
  album, using Python truthiness. Module `Artwork`:
  - `BuildQueries` is the list built by appending;
  - `Queries` is its specification: the applicable query kinds, in a fixed
    order.
- **Artwork URL rule** (`_search_itunes` after JSON decoding). Only the
  first result counts. The URL is its `artworkUrl100` with every `100x100`
  turned into `600x600` (`Artwork.SearchArtwork`).
- **First image wins** (`find_album_art`'s loop). The queries are tried in
  order. The body of the first download that is a non-empty image is
  returned (`Artwork.FindAlbumArt` against `Artwork.FirstImage`).
- **The playback gate** (`update_art_from_meta`). Only a state that
  lowercases to `playing` or `paused` leads to a lookup, and only a found
  image is a change (module `Playback`).

The network is passed in as two functions:
- `search` answers a query with a decoded search response;
- `fetch` answers a URL with a download outcome.

The script has no text normaliser, no similarity scoring, no thresholds and
no artist-match filter. The search asks for one result,
and only the first result is ever read. The first query whose download is an
image wins, whatever its content.

## Model

| member | source | states |
|---|---|---|
| Text.StripStart | run.py:68 | `str.lstrip()`: drops leading whitespace. Its contract is `Text.StripStartSpec`. |
| Text.StripEnd | run.py:68 | `str.rstrip()`: drops trailing whitespace. Its contract is `Text.StripEndSpec`. |
| Text.Strip | run.py:68 | `str.strip()`, the right strip of the left strip. Its contract is `Text.StripSpec`. |
| Text.SplitFirst | run.py:73 | `split("=", 1)`, `None` when there is no separator. Its contract is `Text.SplitFirstSpec` and `Text.SplitFirstUnique`. |
| Text.ReplaceAll | run.py:149 | `str.replace`: leftmost, non-overlapping occurrences. Its contract is `Text.ReplaceAllLength`, `Text.ReplaceAllAbsent` and `Text.ReplaceAllRemoves`. |
| Text.Lower | run.py:185 | `str.lower()` on ASCII letters. It keeps the length, and `Text.LowerEqualsIff` characterises it. |
| Text.StripStartSpec | run.py:68 | `lstrip` keeps a suffix of the text and removes only whitespace (Python's `isspace` set). What remains does not start with whitespace. |
| Text.StripEndSpec | run.py:68 | `rstrip` keeps a prefix and removes only whitespace. What remains does not end with whitespace. |
| Text.StripSpec | run.py:68 | `strip()` returns a slice of its input with no whitespace at either end. Everything cut off on either side is whitespace. |
| Text.StripKeeps | run.py:68-72 | `strip()` removes no non-whitespace character, so testing `=` on the stripped line is the same as testing it on the raw line. |
| Text.StripPadded | run.py:68 | Whitespace around a text that has no whitespace at its ends is exactly what `strip()` removes. |
| Text.StripOfTrimmed | run.py:74-75 | `strip()` leaves a text that is already trimmed unchanged. |
| Text.SplitFirstSpec | run.py:73 | `split("=", 1)` fails exactly when there is no `=`. Otherwise the head, `=` and the tail put back together give the line, and the head holds no `=`. |
| Text.SplitFirstUnique | run.py:73 | Any decomposition `a + "=" + b` with no `=` in `a` is the one the split returns, so later `=` characters stay in the value. |
| Text.ReplaceAllLength | run.py:149 | `replace` with a replacement of the pattern's length keeps the text's length. |
| Text.ReplaceAllAbsent | run.py:149 | `replace` leaves a text without the pattern unchanged. |
| Text.ReplaceAllRemoves | run.py:149 | When the pattern and the replacement cannot overlap, no occurrence of the pattern is left after `replace`. |
| Text.LowerEqualsIff | run.py:185-190 | Lowercasing gives a lower-case word exactly when the text spells that word in any mix of case. |
| EnvFile.Unquote | run.py:77-78 | Removes one pair of matching surrounding quotes. Its contract is `EnvFile.UnquoteSpec`. |
| EnvFile.ParseLine | run.py:68-78 | One line's grammar: skipped, or the (key, value) it assigns. Its contract is `EnvFile.ParseLineSkips` and the round-trip lemmas. |
| EnvFile.Assign | run.py:79-83 | Merges assignments in order, honouring `override`, and counts those made. Its contract is the `EnvFile.Assign...` lemmas below. |
| EnvFile.LoadLines | run.py:67-83 | The effect of a file's lines on an environment. `EnvFile.SkippedLineIsInert` and `EnvFile.Environ.LoadEnvFile` state it. |
| EnvFile.UnquoteSpec | run.py:77-78 | A value that starts and ends with the same quote character (`"` or `'`) loses its first and last character. A value that is that character alone becomes empty. Any other value is kept. |
| EnvFile.UnquoteQuoted | run.py:77-78 | Unquoting any text wrapped in one kind of quote gives the text back. |
| EnvFile.ParseLineSkips | run.py:67-75 | A line is skipped exactly when it is blank after stripping, starts with `#` once stripped, or has no `=`. A key that is read has no `=` and no surrounding whitespace. |
| EnvFile.ParseStrippedLine | run.py:73-78 | A line whose stripped form is `key=rest`, with no `=` in `key` and not starting with `#`, gives the stripped key and the stripped, unquoted rest. The key may be empty. |
| EnvFile.ParseLineQuoted | run.py:68-78 | Round trip: `key = "value"` with any surrounding whitespace reads back as exactly (key, value). The value may hold `=`, quotes or spaces. |
| EnvFile.ParseLineBare | run.py:68-78 | Round trip: a trimmed bare value, not wrapped in matching quotes, reads back unchanged. |
| EnvFile.AssignmentsAppend | run.py:67 | The assignments of two runs of lines are those of the first followed by those of the second. |
| EnvFile.AssignKeys | run.py:79-82 | The keys after loading are the keys before plus every key of the file. Nothing is removed. |
| EnvFile.AssignUntouched | run.py:79-82 | A key that no line assigns keeps its presence and its value. |
| EnvFile.AssignKeepsExisting | run.py:79-80 | With `override` false, a key already in the environment is never overwritten. |
| EnvFile.AssignFirstWins | run.py:79-82 | With `override` false, a key new to the environment takes the value of its first assignment in the file. |
| EnvFile.AssignLastWins | run.py:79-82 | With `override` true, a key takes the value of its last assignment in the file. |
| EnvFile.AssignCountOverride | run.py:81-83 | With `override` true, every assignment of the file is made, and the count is their number. |
| EnvFile.AssignCountNoOverride | run.py:79-83 | With `override` false, the count is exactly the number of keys the file added to the environment. |
| EnvFile.SkippedLineIsInert | run.py:69-72 | Removing a line the grammar skips changes neither the resulting environment nor the count. |
| EnvFile.LoadStep | run.py:67-82 | One line's effect: the assignment it makes, if any, followed by the effect of the remaining lines. |
| EnvFile.Environ.LoadEnvFile | run.py:54-83 | A missing file returns 0 and leaves the environment unchanged. Otherwise the new environment and the returned count are those of merging the file's assignments in line order. |
| Artwork.Select | run.py:157-165 | The applicable kinds among a list of kinds, in order. Its contract is `Artwork.SelectMembers` and `Artwork.SelectAscending`. |
| Artwork.Plan | run.py:157-165 | The kinds of query built, in the fixed order. Its contract is `Artwork.PlanLength`, `Artwork.PlanMembers` and `Artwork.PlanOrdered`. |
| Artwork.Queries | run.py:157-165 | The query list. Its contract is `Artwork.QueriesUnfold` and the lemmas after it. |
| Artwork.SearchArtwork | run.py:142-149 | The URL taken from a decoded search response. Its contract is `Artwork.SearchArtworkSpec`. |
| Artwork.FirstImage | run.py:167-178 | The body of the first query that yields an image. Its contract is `Artwork.FirstImageSpec`. |
| Artwork.QueryFor | run.py:158-165 | Every query has a non-empty term. The entity is `song` for artist+title and for title, and `album` otherwise. |
| Artwork.SelectMembers | run.py:157-165 | Selecting keeps exactly the applicable kinds, and never more kinds than there were. |
| Artwork.SelectAscending | run.py:157-165 | Selecting keeps the fixed order of the kinds. |
| Artwork.PlanUnfold | run.py:157-165 | The kinds built are artist+title, artist+album, title and album, each present exactly when its fields are non-empty. |
| Artwork.PlanLength | run.py:157-165 | At most four queries are built. |
| Artwork.PlanMembers | run.py:157-165 | A kind of query appears exactly when its fields are non-empty. |
| Artwork.PlanOrdered | run.py:157-165 | No kind appears twice, and the order is always artist+title, artist+album, title, album. |
| Artwork.QueriesUnfold | run.py:157-165 | The query list, written out kind by kind, with its terms `"<artist> <title>"`, `"<artist> <album>"`, title and album. |
| Artwork.QueriesTitleOnly | run.py:157-165 | A title with no usable artist and no usable album gives exactly one song search, for the title. |
| Artwork.QueriesAllPresent | run.py:157-165 | With all three fields non-empty, all four searches are made, in order. |
| Artwork.QueriesNonePresent | run.py:157-165 | With neither a title nor an album there are no searches at all, whatever the artist. |
| Artwork.BuildQueries | run.py:157-165 | The list built by appending is the specified query list. |
| Artwork.SearchArtworkSpec | run.py:140-152 | A URL comes back exactly when the search succeeded and its first result has a non-empty `artworkUrl100`. The URL has that field's length, holds no `100x100` any more, and is the field itself when the field held no `100x100`. |
| Artwork.SearchArtworkFirstOnly | run.py:143-145 | Results after the first never affect the outcome. |
| Artwork.FirstImageSpec | run.py:167-178 | No image exactly when no query succeeds. Otherwise the image is the non-empty body downloaded for the earliest query that succeeds. |
| Artwork.FindAlbumArt | run.py:155-178 | The loop with its early return gives the first image of the query list. |
| Playback.LookupAllowed | run.py:185-190 | The state gate. Its contract is `Playback.LookupAllowedIff`. |
| Playback.UpdateOutcome | run.py:185-197 | The bytes an update stores, if any. Its contract is `Playback.ClosedGateIgnoresNetwork` and `Playback.OpenGateStoresFirstImage`. |
| Playback.LookupAllowedIff | run.py:185-190 | The gate opens exactly for a present state spelling `playing` or `paused` in any case. A missing or null state is read as `""`. |
| Playback.ClosedGateIgnoresNetwork | run.py:190-192 | With the gate closed the outcome is "no change", whatever the network would have answered. |
| Playback.OpenGateStoresFirstImage | run.py:194-197 | With the gate open, the update stores exactly the image of the earliest successful query. It reports no change when no query succeeds. |
| Playback.UpdateArtFromMeta | run.py:181-197 | The returned flag is set exactly when bytes are stored. The bytes are the first image found, and the flag is never set when the gate is closed. |

## Left out

- MQTT connection, subscription and message callbacks (run.py:220-255) are not modelled. They are network transport and an event loop. A metadata message enters the model as a `Playback.Meta` value.
- JSON decoding of the payload, including payloads that are not objects, is left out. `Meta` holds optional strings only. A falsy non-string `state` (`0`, `false`, `[]`, `{}`) reads as `""` at run.py:185 and closes the gate, as a missing state does in the model. A truthy non-string `state` makes `.lower()` raise inside the message callback, which is not modelled.
- The Flask endpoints and the server thread (run.py:261-298) are left out: they are a web framework and concurrency.
- Real HTTP requests and `resp.json()` (run.py:135-141, 172-173) are left out. They become the `search` and `fetch` parameters. Every exception they raise, an error status of the search, and a decoded body of the wrong shape all become `SearchFailed` or `DownloadFailed`. A missing, null or non-string `artworkUrl100` is `None`.
- A given query, or a given URL, always gets the same answer. Two requests that the script would send separately cannot answer differently.
- The fixed search endpoint, `limit=1` and the timeouts are not modelled. A search is answered from its `Query` (term and entity) alone.
- File writes are left out: the placeholder JPEG, `mkdir`, and the atomic temp-file replace (run.py:109-125, 199-202). `Playback.UpdateArtFromMeta` returns the bytes that would be written.
- The globals `_latest_meta` and `_last_update_ts`, and `time.time()` (run.py:116-117, 204-211), are left out. They are process-global state and a clock.
- Logging and the module-level configuration reads (run.py:88-110) are left out: they are environment plumbing.
- EnvFile.Environ.LoadEnvFile: reading the file, its UTF-8 decoding and `splitlines()` are not modelled. The file arrives as its list of lines, or `None` when the path does not exist. Read errors (a directory at the path, bad encoding) are not modelled.
- EnvFile.Environ.LoadEnvFile: assigning to `os.environ` (run.py:81) raises for an empty key, and for a key or a value holding a NUL character. The loader then stops with that exception. The model stores such an entry like any other and goes on with the next line.
- Text.Lower: only ASCII letters are lowercased. No non-ASCII character lowercases to a single letter of `playing` or `paused`, so the gate's decision is the same as with Python's full `lower()`.
