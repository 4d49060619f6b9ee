# YouTube Studio title/description changer — verified model of its core

The program (`main.py`) asks the operator for a YouTube Studio link until one
contains a video ID, reads the new title and description from `title.txt` and
`description.txt`, authenticates through OAuth and sends one `videos().update`
call. The call sets the snippet (title, description, category 22, default
language `en`) and copies the same title and description into a localization
for each of the 235 language tags in the `languages` list.

This project models the logic of that script that does not depend on I/O:

- `extractor.dfy` (module `Extractor`): `YouTubeVideoIDExtractor.extract`.
  The `re.search` for `https://studio\.youtube\.com/video/([a-zA-Z0-9_-]+)` is
  written out by hand. A scan finds the leftmost position where the literal
  prefix is followed by a token character. A greedy run of token characters
  is then taken from there. `IsSearchResult` states what the regular
  expression means. `Extract` is proved sound and complete against it, so
  `Extract(url) == Some(t)` holds exactly when `IsSearchResult(url, t)` does.
- `text.dfy` (module `Text`): Python's `str.strip()`. `IsSpace` is the exact
  set of characters for which `str.isspace()` holds.
- `file_loader.dfy` (module `FileLoader`): the strip-then-reject rule of
  `FileLoader.load_text_file`, applied to the text already read from the file.
- `video_updater.dfy` (module `VideoUpdater`): the `languages` constant and
  the request body that `VideoUpdater.update_video` builds.
- `main_flow.dfy` (module `MainFlow`): the URL prompt loop of `main`, as a
  method over the lines the operator types. Also the load-title,
  load-description, build-body sequence of `main`'s `try` block.
- `wrappers.dfy` (module `Wrappers`): `Option` and `Result`.

The prompt loop reads from a finite sequence of lines. If every line is
rejected, the method returns `None` after reading all of them. That `None`
means only that no line read so far yields an ID. `main` tests `if video_id:`, which is Python truthiness. That test
is the same as `Some?` because an extracted token is never empty
(`ExtractedTokenWellFormed`).

## Model

| member | source | states |
|---|---|---|
| `Extractor.Prefix` | main.py:40 | the literal part of the pattern, `https://studio.youtube.com/video/`, with its dots matched literally |
| `Extractor.IsTokenChar` | main.py:40 | the character class `[a-zA-Z0-9_-]` |
| `Extractor.IsSearchResult` | main.py:41-42 | what `re.search(...).group(1)` yields: the greedy token run right after the prefix at the leftmost position where the pattern matches |
| `Extractor.Extract` | main.py:39-42 | returns `None` exactly when no position has the literal prefix followed by a token character; a returned token is the greedy group of the leftmost such match |
| `Extractor.ExtractComplete` | main.py:40-42 | conversely, whenever the leftmost match's greedy group is `t`, `extract` returns `t` |
| `Extractor.FirstMatch` | main.py:41 | the scan finds the first matching position at or after `from`, with no match before it, or reports that none exists |
| `Extractor.RunLength` | main.py:40 | the `+` group is greedy: the run from `j` holds only `[a-zA-Z0-9_-]` and ends at the end of the string or at a character outside the class |
| `Extractor.MaximalRunUnique` | main.py:40 | two greedy runs from the same position are equal, so the group is determined |
| `Extractor.LeftmostUnique` | main.py:41 | a string has at most one leftmost match |
| `Extractor.ExtractedTokenWellFormed` | main.py:40-42 | a returned token is non-empty, every character is in `[a-zA-Z0-9_-]`, and prefix followed by token occurs in the URL |
| `Extractor.ExtractAtStart` | main.py:40-42 | a URL made of the prefix, a token and then nothing or a non-token character yields that token |
| `Extractor.ExtractPromptExample` | main.py:114 | the example link the prompt shows yields `krtVKlwt-1o` |
| `Extractor.ExtractPicksFirstOfTwo` | main.py:41 | when two studio links appear, the first one's ID is returned |
| `Extractor.ExtractRejectsHttp` | main.py:40 | the scheme is matched literally: an `http://` link yields `None` |
| `Extractor.ExtractRejectsUnescapedDot` | main.py:40 | the dots are escaped: `studio-youtube.com` yields `None` |
| `Extractor.ExtractRejectsBarePath` | main.py:40 | `.../video/` with nothing after it, or followed by a non-token character, yields `None` |
| `Extractor.SearchResultShifted` | main.py:116-117 | whitespace around a URL does not change its search result |
| `Extractor.ExtractIgnoresSurroundingSpace` | main.py:116-117 | whitespace around a URL does not change what `extract` returns |
| `Extractor.ExtractOfStripped` | main.py:116-117 | so `extract(url.strip()) == extract(url)`: the strip before `extract` never changes the ID |
| `Text.SkipSpaces` | main.py:104 | the left cut of `strip`: everything skipped is whitespace and the character reached is not |
| `Text.BackOverSpaces` | main.py:104 | the right cut of `strip`: everything cut is whitespace and the character before the cut is not |
| `Text.Strip` | main.py:104 | the result has no whitespace at either end, and it is empty exactly when the input is all whitespace |
| `Text.StripSplit` | main.py:104 | the input is whitespace, then the stripped text, then whitespace |
| `Text.StripUnique` | main.py:104 | stripping whitespace + trimmed text + whitespace gives back exactly that text |
| `Text.StripIdempotent` | main.py:104 | stripping twice is stripping once |
| `Text.StripAbsorbsSpace` | main.py:104 | adding whitespace around a string does not change its stripped form |
| `FileLoader.LoadError` | main.py:106 | the `ValueError` for an empty file, naming the file |
| `FileLoader.LoadTextFile` | main.py:102-107 | fails with the empty-content error naming the path exactly when the content is all whitespace; otherwise returns the stripped text, which is non-empty and trimmed |
| `FileLoader.LoadedTextIsInfix` | main.py:104 | the loaded text is the file's content with only surrounding whitespace removed |
| `FileLoader.LoadIdempotent` | main.py:104-107 | loading a text that was already loaded returns it unchanged |
| `FileLoader.LoadIgnoresSurroundingSpace` | main.py:104-107 | extra whitespace around a file's content changes neither the outcome nor the text |
| `FileLoader.LoadRejectsBlank` | main.py:105-106 | an empty file and a whitespace-only file are both rejected |
| `VideoUpdater.Languages` | main.py:16-32 | the 235 tags of `languages`, in source order |
| `VideoUpdater.LanguagesListed` | main.py:16-32 | the list has 235 tags, starting with `ab`, ending with `zu`, with `en` at index 50 |
| `VideoUpdater.Localizations` | main.py:77 | every tag of `languages` is a key, there are no other keys, and every value is `{title, description}` |
| `VideoUpdater.BuildRequest` | main.py:76-88 | the body has the given `id`, title and description, category `"22"` and default language `"en"`, and its localizations copy the snippet's title and description under exactly the listed tags |
| `VideoUpdater.DefaultLanguageLocalized` | main.py:77-85 | the default language `en` is one of the tags in `languages`, so it is localized too, and its entry holds the title and description |
| `VideoUpdater.LocalizationRoundTrip` | main.py:77 | the title and description can be read back from the localization of any listed tag |
| `VideoUpdater.BuildRequestInjective` | main.py:77-88 | different titles or descriptions give different localization maps |
| `MainFlow.Attempt` | main.py:116-117 | one round of the loop, strip then extract, gives the same as `extract` on the line as typed |
| `MainFlow.PromptForVideoId` | main.py:111-122 | reads lines until the first one whose stripped form yields an ID, returns that ID and how many lines it read, and has rejected every earlier line; if no line yields one, it has read them all and returns `None` |
| `MainFlow.PromptOutcomeUnique` | main.py:111-122 | the lines typed determine the loop's outcome and the number of lines read |
| `MainFlow.PromptStopsAtFirstValid` | main.py:111-122 | after k rejected lines and one good one, the loop stops having read exactly k+1 lines and returns the good line's ID, whatever is typed later |
| `MainFlow.PromptNeverStopsOnInvalid` | main.py:118-122 | rejected lines alone never end the loop |
| `MainFlow.PromptIgnoresLaterLines` | main.py:118-120 | the loop reads nothing past the line it stops at |
| `MainFlow.PromptYieldsToken` | main.py:116-120 | the ID the loop returns is a non-empty token in `[a-zA-Z0-9_-]`, and it is what `extract` gives on the unstripped line too |
| `MainFlow.PrepareUpdate` | main.py:124-130 | succeeds exactly when both files have non-whitespace content; a blank `title.txt` aborts with its error before `description.txt` is looked at, and a blank `description.txt` aborts with its own; on success the body is built from the two stripped texts |
| `MainFlow.PreparedRequestWellFormed` | main.py:124-130 | a prepared body has the chosen ID, non-empty trimmed title and description, and the same title and description in every localization |
| `MainFlow.ExampleRun` | main.py:124-130 | with `title.txt` = "My Title" and `description.txt` = "My Desc\n", the body has snippet `{My Title, My Desc, 22, en}` and every localization `{My Title, My Desc}` |

## Left out

- OAuth (`YouTubeServiceAuthenticator.get_authenticated_service`, main.py:57-67): delegated entirely to `google_auth_oauthlib`, the console and the network.
- The `videos().update(part="snippet,status,localizations", ...).execute()` call and the log of its response (main.py:90-95): network I/O through `googleapiclient`. Only the body it sends is modelled. The `part` list belongs to the call and is not part of the body.
- `ConsoleInput.async_input` and the asyncio executor (main.py:49-51): console input is the sequence of lines given to `PromptForVideoId`. The prompt texts and the success and error log lines are not modelled.
- Opening and reading the files (main.py:103): `LoadTextFile` gets the text as a parameter. An unreadable or missing file raises an I/O error in the source, and that error is not modelled.
- The catch-all `except` in `main` (main.py:132-133) only logs. `PrepareUpdate`'s `Failure` stands for the exception reaching it.
- Logging and the ANSI colour constants (main.py:8-11): presentation only.
- `VideoUpdater.Localizations`: the map's size is not stated. The 235 tags are all distinct, so the map has 235 entries. Proving that would take pairwise comparisons of 235 string literals, so the model only states the key set.
- `MainFlow.PromptForVideoId`: the method returns `None` once its finite input is used up without a valid line; this says only that no line read so far yields an ID. End of input (`EOFError` from `input()`, not caught by `main`, which ends the program before any file is read) is not modelled.
- Python strings are sequences of code points; Dafny's `string`s are sequences of Unicode scalar values, so a lone surrogate (which a Python `str` can hold, for example console input decoded with `surrogateescape`) cannot be represented. Such a character is neither whitespace nor a token character, so no modelled outcome depends on it. Decoding the files as UTF-8 is not modelled.
