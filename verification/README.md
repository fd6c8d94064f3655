# Thumbnail generator and launch-ticket helper, modelled in Dafny

This project models the logic of a small Streamlit tool used by a games
catalogue team. The code it models does four jobs:

- **Provider dictionary** (`get_provider_credentials`). Reads a provider
  sheet and builds a dictionary keyed by normalised provider name. Each
  entry holds a URL, a user name, a password and aliases.
- **Designer keys** (`load_user_keys` and `save_user_key`). Reads the
  `user_keys` sheet, and inserts or updates one designer's row.
- **Launch-ticket view**:
  - It escapes a ticket title and splices it into a GraphQL duplicate
    query.
  - It reports the first other issue with the same title.
  - It splits the provider tags off the end of the title, as in
    `Game - Provider/Sub`. The most specific tag is matched first. Each
    matched provider's link and login is shown once. When nothing matched,
    a warning is shown.
- **Image packaging**:
  - The Thumbnails tab buckets `box` and `portrait` uploads. It compresses
    the portrait and makes a WebP copy. It then writes the
    `Box/…`/`Portrait/…` bundle with an embedded `portrait.zip`.
  - `process_images` sorts uploads into landscape, portrait and box art.
    It compresses the landscape and portrait art, keeps the box art as
    uploaded, and zips everything. In each name, `.png` is replaced by
    `.webp`; other names are kept.

Modules:

- `Wrappers`: `Option` and `Result`.
- `Text`: Python's `strip`, `lower`, `capitalize`, `in`, `find`, `split`,
  `join` and `replace`.
- `Tables`: Python dictionaries as insertion-ordered tables. Re-assigning a
  key keeps its position.
- `Sheet`: sheet rows, cell reads and the two kinds of sheet write.
- `Providers`: the provider dictionary.
- `UserKeys`: designer keys.
- `Duplicates`: the duplicate query, including a lexer for GraphQL string
  literals.
- `ProviderMatch`: the provider lookup.
- `Files`: uploads and archives.
- `Thumbnails`: the bundle.
- `Compressor`: `process_images`.

Outside services are parameters of the functions that use them:

- the Google Sheets read (the rows), and the write (returned as a
  `SheetWrite` value);
- the Linear search (the list of issues);
- TinyPNG compression (`compress`);
- PIL's WebP encoding (`toWebp`);
- zip serialisation (`zip`).

The model follows the code on these points:

- **Thumbnail bucketing** (streamlit_app.py:283). The comprehension gives a
  file every role whose word its lower-cased name contains, and a later file
  replaces an earlier one while the role keeps its place in the dictionary.
  One file can therefore fill both roles. It is then read twice, and since
  `upl.read()` consumes the upload, the role served second gets no bytes.
- **Provider matching** (streamlit_app.py:245). A tag matches by exact name
  or exact alias only. There is no substring match.
- **Duplicate detection** (streamlit_app.py:120-141). Only exact equality of
  whole titles counts, as checked by the tracker's query. There is no
  cleaned-title index and no fuzzy ratio. The tracker compares against the
  title it reads back out of the query text, which is the ticket's title
  only when the escaping at :122 suffices.
- **Aliases**. They are a list in the order written in the sheet, not a set.

## Model

| member | source | states |
|---|---|---|
| Text.Strip | streamlit_app.py:48 | the result has no leading or trailing white space (by `StripSpec`) |
| Text.StripSpec | streamlit_app.py:48 | `strip` yields the empty string exactly on blank input; otherwise it yields a slice of the input that neither starts nor ends with white space, with only white space cut on either side |
| Text.StripStripped | streamlit_app.py:48 | a string with no white space at either end is left unchanged |
| Text.StripIdempotent | streamlit_app.py:59 | stripping twice is stripping once |
| Text.LowerAll | streamlit_app.py:59 | `lower` maps every character independently, ASCII capitals to small letters |
| Text.LowerNoUpper | streamlit_app.py:295 | a string without capitals is its own lower case |
| Text.LowerIdempotent | streamlit_app.py:59 | lower-casing twice is lower-casing once |
| Text.LowerKeepsSpaces | streamlit_app.py:59 | lower-casing neither creates nor removes white space |
| Text.StripLowerCommute | streamlit_app.py:59 | stripping then lower-casing gives the same string as lower-casing then stripping |
| Text.Capitalize | streamlit_app.py:295 | `capitalize` keeps the length of the string |
| Text.NormalizeIsNormal | streamlit_app.py:59 | `s.strip().lower()` is already stripped and lower-case, and it is empty exactly for blank input |
| Text.NormalizeEach | streamlit_app.py:48 | normalising a list of cells keeps its length |
| Text.NormalIsLower | streamlit_app.py:245 | a normalised string is its own lower case |
| Text.FindFromSpec | streamlit_app.py:241 | `find` from position `k` answers the first occurrence at or after `k`, and fails only when there is none |
| Text.FindContains | streamlit_app.py:241 | `find` fails exactly when `in` is false |
| Text.Split | streamlit_app.py:241 | a split with a non-empty separator has at least one piece |
| Text.SplitPiecesClean | streamlit_app.py:241 | no piece of a split contains the separator |
| Text.JoinSplit | streamlit_app.py:255 | joining the pieces of a split with the same separator gives back the text |
| Text.SplitLastPiece | streamlit_app.py:241 | the last piece of a split is the text after the position `LastStart` |
| Text.LastStartSpec | streamlit_app.py:241 | no separator occurs at or after `LastStart`; `LastStart` is the start exactly when there is no separator; otherwise a separator ends just before it |
| Text.ReplaceAbsent | compressor.py:31 | `replace` leaves a string without the pattern unchanged |
| Text.ReplaceAppend | compressor.py:31 | a pattern appended to a string in which it starts nowhere earlier is replaced as a whole |
| Text.ReplaceFrom | compressor.py:31 | `replace` rewrites exactly the occurrences `split` cuts at: the result is the split's pieces joined by the replacement |
| Tables.Get | streamlit_app.py:63 | a lookup fails exactly for an absent key, and a hit is a stored binding |
| Tables.Put | streamlit_app.py:63 | after `d[k] = v`, `k` maps to `v` and every other key keeps its value |
| Tables.PutKeysExisting | streamlit_app.py:63 | re-assigning a present key keeps the key order |
| Tables.PutKeysNew | streamlit_app.py:63 | assigning a new key appends it to the key order |
| Tables.PutDistinct | streamlit_app.py:63 | assignment keeps the keys distinct |
| Tables.Collect | streamlit_app.py:55-68 | a dictionary built by a loop of assignments has distinct keys |
| Tables.CollectLastWins | streamlit_app.py:55-68 | a key is present exactly when some item assigns it, and its value is the one from the last item that does |
| Tables.CollectAgree | streamlit_app.py:55-68 | two item lists that assign a key at the same places with the same values give that key the same value |
| Tables.CollectReplace | streamlit_app.py:78-85 | replacing an item by one with the same key only changes that key's value |
| Sheet.Cell | streamlit_app.py:64-66 | a cell read (`r[i].strip() if len(r) > i else ""`) is always stripped |
| Sheet.ParseBodyAt | streamlit_app.py:83 | item `i` of a parse over `rows[1:]` comes from row `i`, and the header contributes nothing |
| Sheet.CollectBodyAppend | streamlit_app.py:100-105 | appending a row that parses to `(k, v)` assigns `k := v` in the dictionary read back |
| Sheet.CollectBodyUpdate | streamlit_app.py:108-114 | overwriting the only row filed under `k` changes only `k`'s value |
| Providers.PositionFirst | streamlit_app.py:49-53 | `index` fails exactly for an absent value, and otherwise finds its first position |
| Providers.HeaderColumnsFound | streamlit_app.py:48-53 | the header lookup fails exactly when one of `provider name`, `url`, `username` or `password` is missing among the normalised header cells; the error names the first missing one in that order; otherwise every column is the first header cell normalising to its name, and `aliases` is optional |
| Providers.ParseProvidersErrors | streamlit_app.py:45-53 | an empty sheet gives an empty dictionary; otherwise the parse fails exactly when a required column is missing, naming the first one missing |
| Providers.ParsedRowsBind | streamlit_app.py:56-59 | parsed item `j` binds a key exactly when data row `j + 1` has a non-blank name cell that normalises to it |
| Providers.ParseProvidersKeys | streamlit_app.py:56-59 | a provider is in the dictionary exactly when some data row has a non-blank name normalising to it |
| Providers.ParseProvidersLastRowWins | streamlit_app.py:63-68 | a provider's entry is the record of the last row with that name: stripped URL, user name and password, read as `""` when the row is too short |
| Providers.ItemWellFormed | streamlit_app.py:57-68 | every kept row gives a non-empty normalised key, stripped fields and normalised aliases |
| Providers.ParseProvidersWellFormed | streamlit_app.py:55-69 | every parsed dictionary has distinct keys and well-formed entries |
| Providers.CollectGood | streamlit_app.py:55-68 | building a dictionary from well-formed items gives a well-formed dictionary |
| UserKeys.LoadUserKeysKeys | streamlit_app.py:78-85 | the header row is ignored; a designer is present exactly when some later row has a non-blank first cell normalising to the handle |
| UserKeys.LoadUserKeysLastRowWins | streamlit_app.py:78-85 | the last row for a handle decides its key and column, stripped, with `""` for missing cells |
| UserKeys.FindDesigner | streamlit_app.py:95 | the search finds the first data row whose unstripped first cell, lower-cased, equals the handle; it fails with the row number of the first empty row met before a match, and answers none when every row is passed over |
| UserKeys.SaveUserKeyTarget | streamlit_app.py:94-114 | an empty sheet is an error. A match updates the first matching data row, at its sheet row number counting the header as row 1. The write is an append exactly when no data row matches and none is empty. An empty row met before a match is an error. The row written is `[name, key, col]` |
| UserKeys.CanonicalRow | streamlit_app.py:79 | a row whose first cell is a non-empty normalised handle is filed under that cell |
| UserKeys.AppendThenLoad | streamlit_app.py:100-105 | reading back after an append assigns the appended row's handle |
| UserKeys.UpdateThenLoad | streamlit_app.py:108-114 | reading back after overwriting a handle's only row changes that handle alone |
| UserKeys.CanonicalAppend | streamlit_app.py:100-105 | appending a new normalised handle keeps the sheet's handles distinct and normalised |
| UserKeys.CanonicalUpdate | streamlit_app.py:108-114 | overwriting a row with the same handle keeps the sheet's handles distinct and normalised |
| UserKeys.SaveNewDesigner | streamlit_app.py:98-105 | saving a new designer appends a row, and the keys read back gain that designer with stripped key and column |
| UserKeys.SaveKnownDesigner | streamlit_app.py:106-114 | saving a known designer overwrites their row; the keys read back give them the new key and column, and every other designer keeps theirs |
| UserKeys.SaveWriteChosen | streamlit_app.py:95-114 | on a sheet of distinct normalised handles, the write is an append when nobody matches and otherwise an update of the matching row |
| UserKeys.SaveThenLoad | streamlit_app.py:72-114 | on a sheet of distinct normalised handles, saving a normalised handle succeeds. Loading afterwards gives that designer the stripped key and column, and every other designer is unchanged |
| Duplicates.EscapeQuotesEach | streamlit_app.py:122 | the escaping as written puts a backslash before every double quote and copies every other character |
| Duplicates.ReadEscapedChar | streamlit_app.py:128 | one correctly escaped character reads back as itself in a GraphQL string |
| Duplicates.ReadEscapedTitle | streamlit_app.py:128 | a correctly escaped title followed by the closing quote reads back as exactly the title, leaving the rest of the query unread |
| Duplicates.EscapeQuotesPlainTitle | streamlit_app.py:122 | for titles without backslashes or line breaks, the escaping as written is the correct one, so the query carries the title intact |
| Duplicates.EscapeQuotesBackslash | streamlit_app.py:122 | for the title `\`, the escaped literal never reads back as the title |
| Duplicates.DuplicateNodes | streamlit_app.py:126-129 | the query's answer holds exactly the issues other than this one whose title equals the title the tracker read from the query |
| Duplicates.FindDuplicateFirst | streamlit_app.py:138-141 | a duplicate is reported exactly when another issue has the same title, and the one reported is the first in the tracker's order |
| Duplicates.SentTitleEscaped | streamlit_app.py:122-128 | with backslashes and line breaks escaped too, the tracker reads exactly the ticket's title back out of the query, for every title |
| Duplicates.FindEscapedDuplicate | streamlit_app.py:119-141 | with the escaping corrected, the lookup never fails and reports the first other issue whose title equals the ticket's, for every title |
| Duplicates.FindLinearPlain | streamlit_app.py:119-141 | as written, a title without backslashes or line breaks is searched for exactly |
| Duplicates.FindLinearBackslash | streamlit_app.py:122-136 | as written, the title `\` gives a query whose title literal is never closed, so the lookup fails |
| Duplicates.FindLinearDoubleBackslash | streamlit_app.py:122-141 | as written, the title `\\` (two backslashes) is silently searched for as `\` |
| ProviderMatch.Tags | streamlit_app.py:241 | a title always yields at least one tag |
| ProviderMatch.TagsOfTitle | streamlit_app.py:241 | the tags are the normalised `/`-pieces of the last `" - "`-piece of the title. That piece holds no `" - "`. A title without `" - "` is split whole. Every tag is normalised, and no raw piece holds `/` |
| ProviderMatch.FirstUnshown | streamlit_app.py:244-253 | for one tag, the loop settles on the first provider in dictionary order that the tag matches by name or alias and that is not yet shown; otherwise nothing |
| ProviderMatch.FindUnshown | streamlit_app.py:244-253 | the inner loop over the dictionary computes exactly that provider |
| ProviderMatch.VisitTag | streamlit_app.py:243-253 | one turn of the outer loop shows the chosen provider's notices and adds it to `shown` |
| ProviderMatch.ShowTags | streamlit_app.py:242-255 | the loop over the tags, last tag first, shows exactly the notices `ScreenTags` describes |
| ProviderMatch.ShowProviders | streamlit_app.py:241-255 | what is shown for a ticket is `Screen` of its title |
| ProviderMatch.PicksDistinct | streamlit_app.py:246-252 | no provider is shown twice, every one shown comes from the dictionary, and at most one is shown per tag |
| ProviderMatch.PicksMatched | streamlit_app.py:245 | every provider shown is matched by some tag |
| ProviderMatch.PicksCover | streamlit_app.py:243-253 | every tag that some provider matches has a matching provider among those shown |
| ProviderMatch.LastTagFirst | streamlit_app.py:243 | the first provider shown is the first one the last, most specific, tag matches |
| ProviderMatch.DisplayAllQuiet | streamlit_app.py:248-251 | showing providers never produces the warning |
| ProviderMatch.ScreenWarning | streamlit_app.py:254-255 | the warning appears exactly when no provider was shown, and then it is all that is shown, listing the tags joined by `", "` |
| ProviderMatch.WarningIffUnknown | streamlit_app.py:241-255 | nothing is shown exactly when no tag matches any provider |
| Thumbnails.Bucket | streamlit_app.py:283 | the bucket has distinct roles |
| Thumbnails.LastFor | streamlit_app.py:283 | the last upload whose lower-cased name holds a role's word, or none |
| Thumbnails.FirstFor | streamlit_app.py:283 | the first upload whose lower-cased name holds a role's word: no earlier one holds it, and none means that no upload does |
| Thumbnails.BucketRole | streamlit_app.py:283 | each role's bucket entry is the last upload whose lower-cased name contains the role's word, and is absent when there is none |
| Thumbnails.BucketKeys | streamlit_app.py:283 | the roles enter the bucket in the order of their first uploads, box first when one upload holds both; a later upload replaces a role's upload but not its place |
| Thumbnails.BucketOnlyRoles | streamlit_app.py:282-283 | the bucket holds no key other than `box` and `portrait` |
| Thumbnails.TwoRoles | streamlit_app.py:285 | a table over the two roles has two entries exactly when both are present |
| Thumbnails.BucketComplete | streamlit_app.py:285-287 | the bucket is complete exactly when both a box and a portrait upload exist |
| Thumbnails.BucketShape | streamlit_app.py:283-285 | a complete bucket holds the last box and the last portrait upload, led by the role whose first upload came first |
| Thumbnails.CapitalizeRoles | streamlit_app.py:295 | the roles capitalise to the folder names `Box` and `Portrait` |
| Thumbnails.ReadAgain | streamlit_app.py:292 | `upl.read()` consumes the upload: after it, reading the same upload gives no bytes and reading another gives that one's bytes |
| Thumbnails.AddBox | streamlit_app.py:290-295 | the bytes read for the box are stored uncompressed as `<game>.jpg` in `Box`, and nothing else changes |
| Thumbnails.AddPortrait | streamlit_app.py:290-299 | the bytes read for the portrait are compressed and stored as `<game>.jpg` and, re-encoded, as `<game>.webp` in `Portrait`, and nothing else changes |
| Thumbnails.BuildStep | streamlit_app.py:289-292 | one turn of the loop reads the role's upload, files it, and marks the upload read for the turns after it |
| Thumbnails.ServeBox | streamlit_app.py:289-295 | serving the box stores what its upload reads as `Box/<game>.jpg` and marks the upload read |
| Thumbnails.ServePortrait | streamlit_app.py:289-299 | serving the portrait stores the compressed read and its WebP copy in `Portrait` and marks the upload read |
| Thumbnails.FoldersBoxFirst | streamlit_app.py:289-299 | with the box first, the box gets its upload's bytes and the portrait is compressed from what its upload reads after the box's was read |
| Thumbnails.FoldersPortraitFirst | streamlit_app.py:289-299 | with the portrait first, the portrait is compressed from its upload's bytes and the box gets what its upload reads after the portrait's was read |
| Thumbnails.FoldersOfBucket | streamlit_app.py:289-299 | in either order, two different uploads are stored as uploaded; one upload filling both roles gives its bytes to the role served first and no bytes to the other |
| Thumbnails.Prefixed | streamlit_app.py:311-313 | a folder contributes one entry per file |
| Thumbnails.LayoutEntries | streamlit_app.py:302-314 | the folders are written as `Box/<game>.jpg`, `Portrait/<game>.jpg` and `Portrait/<game>.webp`, then `portrait.zip` holding exactly the portrait folder's two files |
| Thumbnails.BundleLayout | streamlit_app.py:281-314 | processing fails exactly when a box or a portrait upload is missing. Otherwise the bundle is exactly those four entries, built from the last box upload and the last portrait upload as read in bucket order, so that an upload filling both roles gives no bytes to the role served second |
| Thumbnails.BundleSeparateUploads | streamlit_app.py:283-314 | with different uploads for the two roles, the bundle holds the box upload as uploaded and the portrait upload compressed, whatever order they came in |
| Thumbnails.BundleSharedUpload | streamlit_app.py:283-314 | with one upload filling both roles, the portrait is compressed from no bytes when the box's first upload came first, and otherwise the box is stored empty |
| Thumbnails.BundleName | streamlit_app.py:320 | the download name ends in `_bundle.zip` and starts with the game name, or `game` when the name is empty |
| Compressor.InGroup | compressor.py:8-16 | a group never holds more uploads than were given |
| Compressor.InGroupMembers | compressor.py:9-16 | an upload is box art exactly when its lower-cased name contains `box`. It is landscape art when it contains `landscape` but not `box`. It is portrait art when it contains `portrait` but neither earlier word. Otherwise it is dropped |
| Compressor.GroupsPartition | compressor.py:8-25 | the three groups and the dropped uploads together are the uploads, as a multiset |
| Compressor.GroupCounts | compressor.py:8-16 | the same partition, group by group |
| Compressor.ClassifiedCount | compressor.py:19-31 | the groups hold as many files as were classified |
| Compressor.WebpNameWithoutPng | compressor.py:31 | a name without `.png`, including one ending in `.PNG`, is written unchanged |
| Compressor.WebpOfPng | compressor.py:31 | a name whose only `.png` is at its end gets `.webp` in its place |
| Compressor.WebpNamePieces | compressor.py:31 | for every name: the name is its `.png`-free pieces joined by `.png`, and the name written is the same pieces joined by `.webp` |
| Compressor.SortUploads | compressor.py:8-16 | the first loop fills the three groups as classified, in upload order |
| Compressor.CompressEach | compressor.py:19-22 | each landscape or portrait upload keeps its name and gets the compressed contents |
| Compressor.KeepEach | compressor.py:23-25 | box uploads follow, with name and contents unchanged |
| Compressor.Rename | compressor.py:28-31 | every entry is written under `WebpName` of its name (every case-sensitive `.png` replaced by `.webp`, other names unchanged) with its contents untouched |
| Compressor.Package | compressor.py:19-31 | the archive is the compressed landscape art, then the compressed portrait art, then the box art as uploaded, each under `WebpName` of its name |
| Compressor.ProcessImages | compressor.py:6-33 | the archive holds exactly the classified uploads: landscape art compressed, then portrait art compressed, then box art unchanged. Each group keeps upload order and each entry is written under `WebpName` of its name: every case-sensitive `.png` replaced by `.webp`, other names unchanged. The dropped uploads are the only ones missing |

## Left out

- The Streamlit user interface is not modelled: widgets, `st.stop`, session state and the `issue_map` selection.
- The Google Sheets and Linear HTTP calls are not modelled. Rows and issues come in as parameters. Sheet writes are returned as values. A duplicate query whose title literal the tracker cannot read is modelled as an error; other HTTP errors and `raise_for_status` are not modelled.
- Duplicates.FindLinearDuplicate: a title that closes its literal early is reported as an error (`TitleEndsEarly`), although a query that still parses after it would run with other filters. The issue id spliced at :127 is taken to be a plain tracker id, which needs no escaping.
- TinyPNG, PIL WebP encoding and zip serialisation are function parameters. Their failures (exceptions) and the zip byte format are not modelled.
- Text.Lower: lower-cases ASCII letters only, because Python's full Unicode case mapping is out of scope.
- Text.Capitalize: upper-cases ASCII letters only, for the same reason.
- Text.Split: covers only non-empty separators. Every call in the code uses a literal non-empty one.
- Duplicates.ReadString: `\u` escapes and block strings are not modelled. Only the literal around the title matters.
- Duplicates.DuplicateNodes: the tracker's server-side filter is modelled as a list filter over the issues it knows.
- The ticket listing is not modelled: due dates and state filters, and the `issue_map` built from it. Only the per-ticket duplicate check and provider lookup are modelled.
- Process-level configuration is not modelled: API keys, environment variables and secrets.

## Findings

| source | as written | input that shows it | evidently intended | confidence | as-written member | corrected member |
|---|---|---|---|---|---|---|
| streamlit_app.py:122 | only double quotes are escaped before the title is spliced into the GraphQL string literal | the title `\` (a single backslash): the query holds `"\"` followed by ` }` and a line break; the backslash escapes the closing quote, so the literal runs on past the title and ends unterminated at the line break | escape backslashes (and line breaks) too, so the literal always denotes the title | high; not executed | Duplicates.FindLinearBackslash | Duplicates.FindEscapedDuplicate |
| streamlit_app.py:122 | the same escaping leaves backslashes as they are | the title `\\` (two backslashes): the literal `"\\"` denotes a single backslash, so the tracker looks for other issues titled `\` and misses real duplicates | the literal denotes the title itself | high; not executed | Duplicates.FindLinearDoubleBackslash | Duplicates.FindEscapedDuplicate |
