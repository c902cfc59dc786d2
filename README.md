# Image and Word to PDF converters — a verified Dafny model

The repository holds three small converter apps:

- **ImageToPdf**, a React Native app. Images are queued, optionally edited (rotation and a
  colour filter), and printed to PDF with page settings.
- **WordToPdfConverterMain**, a React Native front-end and an Express back-end. The front-end
  takes Word, PDF, image and video files. The back-end turns an uploaded Word document into a
  text-only PDF.
- **WordToPdfConverter**, an older batch screen. It only simulates the conversion, as a
  progress bar per file.

This project models the logic these apps contain, leaving out the library calls around it:

- the image queue of the home screen. It is a list of records keyed by `uri`, with these
  operations:
  - add, which ignores a `uri` already listed;
  - move up and down;
  - status update;
  - edit merge;
  - remove;
  - "convert all pending";
- the CSS chosen for a filter and for a margin setting, and the two output-name rules;
- the editor's filter cycle and the record it hands back;
- the PDF settings record and its option lists;
- the multi-format front-end's intake: display name, extension, allow-list, duplicate detection,
  dispatch by extension, destination name, and removal after conversion;
- the back-end's upload filter, size limit, stored and output file names, and the response
  each `/convert` request gets;
- the batch screen's pick, its tick-by-tick progress machine, the pending count, the convert
  button's state and the download name.

Each source file is one module:

| module | file | form |
|---|---|---|
| `Common` | — | string rules the apps share: JavaScript `\|\|` on strings, `split(c).pop()`, `lastIndexOf`, `indexOf`, `replace` with a string pattern, ASCII `toLowerCase`, the regex `/\.[^/.]+$/`, decimal rendering of a number |
| `ImageFiles` | — | the image record shared by the home screen and the editor |
| `ImageQueue` | ImageToPdf/frontend/src/screens/HomeScreen.js | list functions with their lemmas; class `HomeScreen`, whose handlers assign `files`; `MoveFile` swaps in a copied array; `ConvertAll` hands the pending files to `ConvertEach`, a loop |
| `EditImage` | ImageToPdf/frontend/src/components/EditImageModal.js | pure filter cycle; class `ImageEditor` |
| `PdfSettings` | ImageToPdf/frontend/src/components/SettingsModal.js | pure record updates and selection predicates |
| `WordIntake` | WordToPdfConverterMain/frontend/App.js | pure name rules; class `WordConverter` holding `files` |
| `ConvertServer` | WordToPdfConverterMain/backend/server.js | pure: predicates, names, and the response as a function of the library outcomes |
| `BatchConverter` | WordToPdfConverter/App.js | class `ConverterApp`; `ConvertFiles` visits the files in a loop, and `RunInterval` runs one file's interval ticks in a loop |

Some values come from outside the model and enter as parameters:

- clocks (`Date.now()`) and random ids (`Math.random()`);
- picker answers;
- printing, extraction and write outcomes;
- user confirmations.

Absent, `null`, `undefined` and empty strings are all modelled as `""`. These are exactly the
strings that JavaScript's `||` treats as false.

### Where the code and its documentation differ (the model follows the code)

- The documentation says a disallowed MIME type gets a 400. In the code, multer's
  `fileFilter` error and its `LIMIT_FILE_SIZE` error both reach the error middleware, so the
  answer is 500 with the error's message (server.js:37, 40, 97-100). `ConvertServer.HandleConvert`
  returns 500 for both.
- The documentation says both scratch files are deleted after every request. In the code,
  deletion is only scheduled inside the `res.download` callback (server.js:65-77). When
  extraction fails or the PDF stream errors, the scratch files stay. `HandleConvert`'s
  `cleanup` list is empty on every non-200 answer.
- The documentation says extraction failures carry a generic message. The code appends the
  extractor's own message (server.js:87).

## Model

| member | source | states |
|---|---|---|
| Common.Or | ImageToPdf/frontend/src/screens/HomeScreen.js:212 | JavaScript `a \|\| b` on strings: `a` when it is non-empty, otherwise `b` (absent and null strings are the empty string here) |
| Common.AfterLast | WordToPdfConverterMain/frontend/App.js:27 | `split(c).pop()` contains no `c`, is the whole string when there is no `c`, and otherwise is the text after some `c` that ends the rest of the string |
| Common.Lower | WordToPdfConverterMain/frontend/App.js:40 | `toLowerCase` keeps the length, lowers each character independently, and leaves no upper-case ASCII letter |
| Common.StripExtension | ImageToPdf/frontend/src/screens/HomeScreen.js:202 | the regex `/\.[^/.]+$/` either leaves the name alone or removes exactly a final dot and the genuine extension after it |
| Common.StripExtensionIff | ImageToPdf/frontend/src/screens/HomeScreen.js:202 | the name changes exactly when it ends in a dot followed by a non-empty run of characters that are neither dot nor slash |
| Common.ExtensionAfterLastDot | ImageToPdf/frontend/src/screens/HomeScreen.js:202 | when the last dot is not the final character and no slash follows it, the name is the part before it, the dot and a genuine extension |
| Common.StripExtensionOf | WordToPdfConverterMain/frontend/App.js:194 | stripping `stem.ext` gives back `stem` for every stem, even one with dots, whenever `ext` is a genuine extension |
| Common.LastIndexAppend | WordToPdfConverterMain/backend/server.js:50 | the last dot of `a + b` is in `b` when `b` has one, and otherwise is the last dot of `a` |
| Common.IndexOfFirst | WordToPdfConverter/App.js:85 | `indexOf` returns the first position where the pattern occurs |
| Common.ReplaceFirst | WordToPdfConverter/App.js:85 | `replace` with a string pattern: the first occurrence `indexOf` finds is replaced, and a string without one is unchanged; `DocxReplacedFirst`, `DocReplacedSecond` and `NoDocx` pin it on the download names |
| Common.Decimal | ImageToPdf/frontend/src/screens/HomeScreen.js:179 | the rendering of `Date.now()` is non-empty, all digits, and has no leading zero |
| Common.ParseDecimalOfDecimal | WordToPdfConverterMain/backend/server.js:26 | reading the digits back gives the timestamp |
| Common.DecimalInjective | WordToPdfConverterMain/backend/server.js:26 | different timestamps render differently |
| EditImage.FilterIndex | ImageToPdf/frontend/src/components/EditImageModal.js:55-56 | `indexOf` in the filter list is the filter's position, and -1 exactly for a name not in the list |
| EditImage.NextFilter | ImageToPdf/frontend/src/components/EditImageModal.js:54-58 | Normal→BW→Document→Normal; any unknown name goes to Normal; the result is always a listed filter |
| EditImage.ToggleThrice | ImageToPdf/frontend/src/components/EditImageModal.js:54-58 | three presses return every listed filter to itself |
| EditImage.ToggleNotTwice | ImageToPdf/frontend/src/components/EditImageModal.js:54-58 | one press or two presses never return a listed filter to itself, so the cycle has length three |
| EditImage.InitialFilter | ImageToPdf/frontend/src/components/EditImageModal.js:15 | the editor opens on the image's own filter, or Normal when it has none |
| EditImage.Saved | ImageToPdf/frontend/src/components/EditImageModal.js:61 | the saved record carries the chosen filter and is otherwise the current image |
| EditImage.Rotated | ImageToPdf/frontend/src/components/EditImageModal.js:28 | the rotated record carries the new uri and is otherwise the current image |
| EditImage.ImageEditor.constructor | ImageToPdf/frontend/src/components/EditImageModal.js:8-9 | no image is open, and the filter is Normal |
| EditImage.ImageEditor.Open | ImageToPdf/frontend/src/components/EditImageModal.js:12-17 | a new image prop is opened with its initial filter; a null prop changes nothing |
| EditImage.ImageEditor.ToggleFilter | ImageToPdf/frontend/src/components/EditImageModal.js:54-58 | the filter moves one step along the cycle, and the image is untouched |
| EditImage.ImageEditor.Rotate | ImageToPdf/frontend/src/components/EditImageModal.js:19-34 | with an image open and a rotation result, the current image takes the new uri; with no image or a failed rotation, nothing changes; the filter never changes |
| EditImage.ImageEditor.Save | ImageToPdf/frontend/src/components/EditImageModal.js:60-65 | the record handed back is the current image with the chosen filter, and there is one exactly when an image is open |
| PdfSettings.Offered | ImageToPdf/frontend/src/components/SettingsModal.js:42-97 | every section offers at least one option |
| PdfSettings.Select | ImageToPdf/frontend/src/components/SettingsModal.js:47-95 | choosing an option sets its section's field and leaves the other two fields unchanged |
| PdfSettings.Get | ImageToPdf/frontend/src/components/SettingsModal.js:46-94 | the settings field each section reads: page size, orientation or margins |
| PdfSettings.IsSelected | ImageToPdf/frontend/src/components/SettingsModal.js:46-94 | an option is shown selected exactly when its section's field holds its value; `ExactlyOneSelected` counts them |
| PdfSettings.DefaultOffered | ImageToPdf/frontend/src/screens/HomeScreen.js:22-26 | the initial settings A4 / Portrait / Normal are values the modal offers |
| PdfSettings.SelectKeepsOffered | ImageToPdf/frontend/src/components/SettingsModal.js:42-97 | choosing offered options keeps every field within the offered values |
| PdfSettings.SelectIdempotent | ImageToPdf/frontend/src/components/SettingsModal.js:47 | choosing the same value twice is choosing it once, and choosing the current value changes nothing |
| PdfSettings.CountWhenAbsent | ImageToPdf/frontend/src/components/SettingsModal.js:46-94 | when the field's value is not among the options, none of them is marked selected |
| PdfSettings.CountWhenPresent | ImageToPdf/frontend/src/components/SettingsModal.js:46-94 | when the options have distinct values and the field holds one of them, exactly one is marked selected |
| PdfSettings.OfferedDistinct | ImageToPdf/frontend/src/components/SettingsModal.js:42-97 | no section offers the same value twice |
| PdfSettings.ExactlyOneSelected | ImageToPdf/frontend/src/components/SettingsModal.js:42-97 | while the settings hold offered values, every section shows exactly one selected option |
| ImageQueue.HasUri | ImageToPdf/frontend/src/screens/HomeScreen.js:74 | `files.some(f => f.uri === uri)`: some entry carries the uri; `WithFile` uses it to ignore a duplicate |
| ImageQueue.NewEntry | ImageToPdf/frontend/src/screens/HomeScreen.js:78-85 | a new entry copies the asset's uri, name, size and type, and starts pending, with the Normal filter and no PDF |
| ImageQueue.WithFile | ImageToPdf/frontend/src/screens/HomeScreen.js:73-86 | a listed uri leaves the list unchanged; otherwise the new entry is appended after the existing ones; distinct uris stay distinct |
| ImageQueue.Swap | ImageToPdf/frontend/src/screens/HomeScreen.js:91-93 | the destructuring swap exchanges two entries, leaves the rest alone, and keeps the multiset of entries |
| ImageQueue.Moved | ImageToPdf/frontend/src/screens/HomeScreen.js:88-96 | 'up' swaps with the previous entry and 'down' with the next one; at the ends, and for any other direction, nothing changes; the result is always a permutation |
| ImageQueue.MoveUpThenDown | ImageToPdf/frontend/src/screens/HomeScreen.js:88-96 | moving an entry up and then back down restores the list |
| ImageQueue.SwapKeepsDistinct | ImageToPdf/frontend/src/screens/HomeScreen.js:91-93 | exchanging two entries keeps the uris distinct |
| ImageQueue.MovedKeepsDistinct | ImageToPdf/frontend/src/screens/HomeScreen.js:88-96 | a move keeps the uris distinct |
| ImageQueue.StatusSet | ImageToPdf/frontend/src/screens/HomeScreen.js:212 | the entry takes the new status; its `pdfUri` is the new one when given, else the old one; nothing else changes |
| ImageQueue.WithStatus | ImageToPdf/frontend/src/screens/HomeScreen.js:211-213 | exactly the entries with that uri are updated; every entry keeps its uri and its position |
| ImageQueue.WithStatusKeepsDistinct | ImageToPdf/frontend/src/screens/HomeScreen.js:211-213 | a status update keeps the uris distinct |
| ImageQueue.WithStatusOverwrites | ImageToPdf/frontend/src/screens/HomeScreen.js:117-191 | the 'converting' mark is fully overwritten by the final done or error update |
| ImageQueue.Without | ImageToPdf/frontend/src/screens/HomeScreen.js:215-217 | after removal no entry carries the uri, and the list did not grow |
| ImageQueue.WithoutMembers | ImageToPdf/frontend/src/screens/HomeScreen.js:215-217 | removal keeps exactly the entries whose uri differs |
| ImageQueue.WithoutAbsent | ImageToPdf/frontend/src/screens/HomeScreen.js:215-217 | removing a uri that is not listed changes nothing |
| ImageQueue.DistinctInit | ImageToPdf/frontend/src/screens/HomeScreen.js:215-217 | in a list with distinct uris, the prefix has distinct uris and no earlier entry shares the last entry's uri |
| ImageQueue.WithoutAt | ImageToPdf/frontend/src/screens/HomeScreen.js:215-217 | with distinct uris, removing entry `i` closes the gap and keeps the others in order |
| ImageQueue.AddThenRemove | ImageToPdf/frontend/src/screens/HomeScreen.js:73-86 | adding a new asset and then removing its uri gives back the original list |
| ImageQueue.WithoutKeepsDistinct | ImageToPdf/frontend/src/screens/HomeScreen.js:215-217 | removal keeps the uris distinct |
| ImageQueue.Merge | ImageToPdf/frontend/src/screens/HomeScreen.js:104 | every field comes from the edited record except that the status goes back to pending and an absent `pdfUri` keeps the entry's |
| ImageQueue.Merged | ImageToPdf/frontend/src/screens/HomeScreen.js:103-105 | exactly the entries carrying the edited file's original uri are merged; the others are untouched |
| ImageQueue.MergedKeepsDistinct | ImageToPdf/frontend/src/screens/HomeScreen.js:103-105 | the merge keeps the uris distinct when the edited uri is unchanged or new |
| ImageQueue.FilterStyle | ImageToPdf/frontend/src/screens/HomeScreen.js:125-127 | BW gives the grayscale CSS, Document the grayscale-contrast-brightness CSS, and any other filter nothing |
| ImageQueue.PageMargin | ImageToPdf/frontend/src/screens/HomeScreen.js:130-132 | Small is 20px, Normal is 40px, and any other setting is 0 |
| ImageQueue.Sanitize | ImageToPdf/frontend/src/screens/HomeScreen.js:179 | the sanitized name keeps only `[a-zA-Z0-9-_]`, and only characters of the input, and is no longer than the input |
| ImageQueue.SanitizeAppend | ImageToPdf/frontend/src/screens/HomeScreen.js:179 | sanitizing distributes over concatenation |
| ImageQueue.SanitizeKeepsClean | ImageToPdf/frontend/src/screens/HomeScreen.js:179 | a name made only of allowed characters is kept whole |
| ImageQueue.SanitizeIdempotent | ImageToPdf/frontend/src/screens/HomeScreen.js:179 | sanitizing twice is sanitizing once |
| ImageQueue.CleanStem | ImageToPdf/frontend/src/screens/HomeScreen.js:179 | the name and timestamp part of the renamed file holds only allowed characters |
| ImageQueue.PdfFileName | ImageToPdf/frontend/src/screens/HomeScreen.js:179 | the renamed output `<sanitized name>_<Date.now()>.pdf`; `CleanStem` and `PdfFileNameShape` give its shape |
| ImageQueue.PdfFileNameShape | ImageToPdf/frontend/src/screens/HomeScreen.js:179-180 | the renamed file has no `/`, so it stays in the document directory; its only dot starts `.pdf`; stripping the extension gives back `<name>_<timestamp>` |
| ImageQueue.FinalUri | ImageToPdf/frontend/src/screens/HomeScreen.js:177-182 | without a PDF name the printed file is kept; with one, the file is the renamed copy in the document directory |
| ImageQueue.OpenTarget | ImageToPdf/frontend/src/screens/HomeScreen.js:199-204 | a recorded PDF is shared; otherwise the document directory plus the name with its extension replaced by `.pdf` |
| ImageQueue.OpenTargetFallback | ImageToPdf/frontend/src/screens/HomeScreen.js:202-203 | for `stem.ext` with no recorded PDF, the shared file is `<docDir><stem>.pdf` |
| ImageQueue.PendingOf | ImageToPdf/frontend/src/screens/HomeScreen.js:220 | the pending selection holds only pending entries and is no longer than the list |
| ImageQueue.PendingMembers | ImageToPdf/frontend/src/screens/HomeScreen.js:220 | the pending selection holds exactly the pending entries |
| ImageQueue.PendingOfAppend | ImageToPdf/frontend/src/screens/HomeScreen.js:220 | the pending selection keeps list order: that of two lists together is theirs one after the other |
| ImageQueue.Outcome | ImageToPdf/frontend/src/screens/HomeScreen.js:182-191 | a conversion whose printing and renaming went through ends done with the final uri; one that threw ends failed and, through `WithStatus` with an empty uri, keeps any earlier pdf uri |
| ImageQueue.ConvertedUpTo | ImageToPdf/frontend/src/screens/HomeScreen.js:228-230 | the list after the first `k` pending files were converted in order, each by its `Outcome`; it keeps the list's length |
| ImageQueue.ConvertedUpToEffect | ImageToPdf/frontend/src/screens/HomeScreen.js:228-230 | after the first `k` conversions, entries whose uri was not among them are unchanged, the others are done or failed, and every uri stays in place |
| ImageQueue.ConvertAllSettles | ImageToPdf/frontend/src/screens/HomeScreen.js:219-234 | after "convert all" every entry that was pending is done or failed; with distinct uris, every other entry is exactly as it was |
| ImageQueue.HomeScreen.constructor | ImageToPdf/frontend/src/screens/HomeScreen.js:16-30 | the initial state: empty list, not converting, empty PDF name, default settings, nothing being edited |
| ImageQueue.HomeScreen.AddFile | ImageToPdf/frontend/src/screens/HomeScreen.js:73-86 | the list becomes `WithFile` of the old list |
| ImageQueue.HomeScreen.MoveFile | ImageToPdf/frontend/src/screens/HomeScreen.js:88-96 | the array copy with its in-place swap yields `Moved` of the old list |
| ImageQueue.HomeScreen.OpenEditor | ImageToPdf/frontend/src/screens/HomeScreen.js:98-101 | the file becomes the one being edited |
| ImageQueue.HomeScreen.SaveEditedImage | ImageToPdf/frontend/src/screens/HomeScreen.js:103-105 | the list becomes the merge keyed by the edited file's original uri |
| ImageQueue.HomeScreen.UpdateFileStatus | ImageToPdf/frontend/src/screens/HomeScreen.js:211-213 | the list becomes `WithStatus` of the old list |
| ImageQueue.HomeScreen.RemoveFile | ImageToPdf/frontend/src/screens/HomeScreen.js:215-217 | the list becomes `Without` of the old list |
| ImageQueue.HomeScreen.UpdateSettings | ImageToPdf/frontend/src/screens/HomeScreen.js:373 | the settings become the record the modal sends |
| ImageQueue.HomeScreen.HandleConvert | ImageToPdf/frontend/src/screens/HomeScreen.js:107-195 | the file ends done with its final uri, or failed when a library step threw; converting ends false |
| ImageQueue.HomeScreen.ConvertEach | ImageToPdf/frontend/src/screens/HomeScreen.js:228-230 | the given files are converted one after the other, in list order; converting ends false when there was at least one |
| ImageQueue.HomeScreen.ConvertAll | ImageToPdf/frontend/src/screens/HomeScreen.js:219-234 | with nothing pending, nothing changes; otherwise the pending files that existed at the start are converted one by one, in list order, and converting ends false |
| WordIntake.AssetName | WordToPdfConverterMain/frontend/App.js:27 | the name, else the file name, else the uri's last segment, which holds no `/` |
| WordIntake.Interpret | WordToPdfConverterMain/frontend/App.js:24-32 | the first asset wins; without assets, the legacy `uri` and `name` are used exactly when the answer says success or carries a uri |
| WordIntake.Extension | WordToPdfConverterMain/frontend/App.js:39-40 | the extension contains no dot and is no longer than the name |
| WordIntake.ExtensionOf | WordToPdfConverterMain/frontend/App.js:40 | the extension of `stem.ext` is the lower-cased `ext`, whatever dots the stem holds |
| WordIntake.ExtensionOfDotless | WordToPdfConverterMain/frontend/App.js:40 | a name without a dot is its own extension, lower-cased |
| WordIntake.Accepted | WordToPdfConverterMain/frontend/App.js:39-47 | a picked file is kept exactly when its lower-cased extension is one of doc, docx, pdf, jpg, jpeg, png, mp4 |
| WordIntake.RouteOf | WordToPdfConverterMain/frontend/App.js:244-282 | jpg/jpeg/png go to printing (png as image/png, the others as image/jpeg); pdf is copied; mp4 goes to the thumbnail route; doc/docx go to the back-end; anything else has no route |
| WordIntake.ConvertName | WordToPdfConverterMain/frontend/App.js:192 | the name converted is the file's name, or `file` when it has none |
| WordIntake.Dispatch | WordToPdfConverterMain/frontend/App.js:244-322 | the route is the one for the extension of that name; `RoutedIffAccepted` shows it exists exactly for accepted files |
| WordIntake.RoutedIffAccepted | WordToPdfConverterMain/frontend/App.js:41-47 | a file has a conversion route exactly when its name passed the allow-list |
| WordIntake.DefaultNameUnrouted | WordToPdfConverterMain/frontend/App.js:27-47 | the fallback name `file` has no route, and an empty name is refused |
| WordIntake.RouteIffAllowed | WordToPdfConverterMain/frontend/App.js:41 | an extension has a conversion route exactly when it is on the allow-list |
| WordIntake.BaseName | WordToPdfConverterMain/frontend/App.js:194 | the name with only its final extension removed, by the regex `/\.[^/.]+$/` |
| WordIntake.Destination | WordToPdfConverterMain/frontend/App.js:249-304 | every route writes `<documentDirectory><baseName>.pdf` |
| WordIntake.DestinationOf | WordToPdfConverterMain/frontend/App.js:249 | every route writes `<docDir><stem>.pdf` for a file named `stem.ext` |
| WordIntake.KeptAfterConvert | WordToPdfConverterMain/frontend/App.js:244-326 | a file stays listed exactly when an image or PDF step threw; the video and Word routes catch their own failures and the file is removed |
| WordIntake.HasUri | WordToPdfConverterMain/frontend/App.js:49 | `files.find(f => f.uri === uri)` finds something exactly when some entry carries the uri; a pick with such a uri is not appended |
| WordIntake.WithoutUri | WordToPdfConverterMain/frontend/App.js:324 | after removal no entry carries the uri, and the list did not grow |
| WordIntake.WithoutUriMembers | WordToPdfConverterMain/frontend/App.js:339 | removal keeps exactly the entries whose uri differs |
| WordIntake.WordConverter.constructor | WordToPdfConverterMain/frontend/App.js:11 | the list starts empty |
| WordIntake.WordConverter.PickWordFiles | WordToPdfConverterMain/frontend/App.js:14-60 | the outcome is cancelled, unreadable, unsupported, already selected or selected, as the answer and the list dictate; only "selected" appends, and then exactly the interpreted file; distinct uris stay distinct |
| WordIntake.WordConverter.ConvertToPdf | WordToPdfConverterMain/frontend/App.js:190-328 | the route and destination are those of the file's name; the file leaves the list unless an image or PDF step threw |
| WordIntake.WordConverter.ConfirmDelete | WordToPdfConverterMain/frontend/App.js:333-342 | the entry goes exactly when the user presses Delete |
| ConvertServer.MimeAllowed | WordToPdfConverterMain/backend/server.js:32-39 | exactly the two Word MIME types pass the upload filter; `HandleConvert` answers every other type with 500 and the filter's message |
| ConvertServer.WithinLimit | WordToPdfConverterMain/backend/server.js:40 | a file of at most 10 MiB passes, and `HandleConvert` answers a larger one with 500 "File too large" |
| ConvertServer.StoredName | WordToPdfConverterMain/backend/server.js:25-27 | the scratch name `<Date.now()>-<originalname>`; `TimestampOf` and `StoredNameInjective` show both parts can be read back |
| ConvertServer.DashAfterDigits | WordToPdfConverterMain/backend/server.js:26 | in `<digits>-...` the first dash is the one right after the digits |
| ConvertServer.TimestampOf | WordToPdfConverterMain/backend/server.js:26 | the timestamp and the original name can be read back from a stored name |
| ConvertServer.StoredNameInjective | WordToPdfConverterMain/backend/server.js:25-27 | two stored names are equal only when both the millisecond and the original name agree |
| ConvertServer.ParsedName | WordToPdfConverterMain/backend/server.js:50 | `path.parse().name` is a prefix of the name, and is the whole name when it has no dot |
| ConvertServer.OriginalStemOf | WordToPdfConverterMain/backend/server.js:50 | the stem of `stem.ext` is `stem` |
| ConvertServer.StoredStem | WordToPdfConverterMain/backend/server.js:50 | the stem of a stored name is the timestamp, the dash and the original's stem |
| ConvertServer.OutputName | WordToPdfConverterMain/backend/server.js:50 | the output path's name and the download name are the stored name's stem plus `.pdf`; `OutputOfStored` and `OutputIsStoredIff` say what that is |
| ConvertServer.OutputOfStored | WordToPdfConverterMain/backend/server.js:50 | the output and download name is `<timestamp>-<original stem>.pdf` |
| ConvertServer.OutputOfWordName | WordToPdfConverterMain/backend/server.js:67 | an upload named `stem.ext` is answered with `<timestamp>-<stem>.pdf` |
| ConvertServer.OutputsDistinctAcrossInstants | WordToPdfConverterMain/backend/server.js:50 | uploads stored in different milliseconds never share an output file |
| ConvertServer.SameInstantOutputsCollide | WordToPdfConverterMain/backend/server.js:50 | within one millisecond, two uploads that differ only in their extension (`a.doc` and `a.docx`) are stored apart but write the same output file |
| ConvertServer.StatusCode | WordToPdfConverterMain/backend/server.js:46-99 | the HTTP status of a response: 200 for the download, otherwise the status of the JSON error (400 or 500) |
| ConvertServer.Join | WordToPdfConverterMain/backend/server.js:49-50 | `path.join(dir, name)` for a plain name: the directory, a slash and the name; `JoinSame` shows it keeps names apart |
| ConvertServer.HandleConvert | WordToPdfConverterMain/backend/server.js:30-100 | no file gives 400; a refused type or an oversize upload gives 500 with the library's message; extraction runs exactly for accepted uploads; an extraction failure gives 500 with the message; a stream failure gives 500; otherwise the PDF is sent under the output name, and both scratch files are scheduled for deletion; only 200 schedules deletion; the status is always 200, 400 or 500 |
| ConvertServer.SuccessCleansBoth | WordToPdfConverterMain/backend/server.js:64-77 | an accepted upload that extracts and writes gets 200, with deletion of the stored input and of the sent output; the two deleted paths are the same exactly when the original is named `*.pdf` |
| ConvertServer.JoinSame | WordToPdfConverterMain/backend/server.js:49-50 | two files in the upload directory are the same path exactly when their names are equal |
| ConvertServer.OutputIsStoredIff | WordToPdfConverterMain/backend/server.js:50 | the output file is the uploaded file itself exactly when the original name ends in `.pdf` |
| ConvertServer.PdfOriginalOverwritten | WordToPdfConverterMain/backend/server.js:50 | an upload named `stem.pdf` gets an output name equal to its stored name |
| ConvertServer.DashNameEndsWith | WordToPdfConverterMain/backend/server.js:26 | a stored name `<ts>-<original>` ends in a dash-free suffix only when the original does |
| BatchConverter.Min | WordToPdfConverter/App.js:62 | `Math.min` is a lower bound of both arguments and equals one of them |
| BatchConverter.ShownAfter | WordToPdfConverter/App.js:59-63 | the progress shown after some ticks is 20 per tick, capped at 100; `FiveTicks` pins it |
| BatchConverter.FiveTicks | WordToPdfConverter/App.js:57-66 | the bar is full exactly from the fifth tick on; before it each tick shows 20 more; the bar never exceeds 100 |
| BatchConverter.NewFile | WordToPdfConverter/App.js:31-35 | a picked asset keeps its name, gets its name plus a random suffix as id, is not converted and is at 0 |
| BatchConverter.NewFiles | WordToPdfConverter/App.js:30-35 | one entry per asset, keeping its name, not converted and at progress 0 |
| BatchConverter.PendingCount | WordToPdfConverter/App.js:172 | the pending count is at most the number of files |
| BatchConverter.PendingCountZero | WordToPdfConverter/App.js:154-172 | nothing is pending exactly when every file is converted |
| BatchConverter.PendingCountAppend | WordToPdfConverter/App.js:172 | the pending count of two lists together is the sum of their counts |
| BatchConverter.PendingCountAll | WordToPdfConverter/App.js:172 | a list with no converted file has all its files pending |
| BatchConverter.AllConverted | WordToPdfConverter/App.js:154-164 | `pickedFiles.every(f => f.isConverted)`; `PendingCountZero` shows it holds exactly when the pending count is zero |
| BatchConverter.PickAddsPending | WordToPdfConverter/App.js:30-36 | a pick adds one pending file per asset |
| BatchConverter.ConvertDisabled | WordToPdfConverter/App.js:154-156 | the button is disabled exactly while processing or when nothing is pending |
| BatchConverter.WithProgress | WordToPdfConverter/App.js:61-63 | exactly the entries with the id take the progress, and the others are untouched |
| BatchConverter.MarkConverted | WordToPdfConverter/App.js:69-71 | exactly the entries with the id are marked converted, and the others are untouched |
| BatchConverter.PendingIdsHas | WordToPdfConverter/App.js:49-55 | every file not yet converted when the run starts has its id among those the run finishes |
| BatchConverter.PendingIdsOutside | WordToPdfConverter/App.js:49-55 | an id that no unconverted file carries is not finished by the run |
| BatchConverter.PrefixStep | WordToPdfConverter/App.js:49-55 | one more file in the prefix adds its id to the pending ids and one to the pending count exactly when it is not converted |
| BatchConverter.Finished | WordToPdfConverter/App.js:61-71 | the entry at the end of its interval: progress 100 and converted, the other fields kept |
| BatchConverter.PendingIds | WordToPdfConverter/App.js:49-55 | the ids of the files not yet converted when the run starts, the ones whose interval runs; `PendingIdsHas` and `PendingIdsOutside` pin it |
| BatchConverter.FinishedBy | WordToPdfConverter/App.js:58-71 | the entries whose id is finished are at 100 and converted, and the others are untouched |
| BatchConverter.Settled | WordToPdfConverter/App.js:43-79 | the list after a run: exactly the files that were pending at its start are finished |
| BatchConverter.FinishOne | WordToPdfConverter/App.js:58-71 | one file's interval finishes every entry with its id and leaves the others alone |
| BatchConverter.ProgressOverwrites | WordToPdfConverter/App.js:61-63 | each tick's stored progress replaces the previous tick's |
| BatchConverter.SettledAllConverted | WordToPdfConverter/App.js:43-79 | after a run every file is converted, nothing is pending, and the button is disabled |
| BatchConverter.SettledWithDistinctIds | WordToPdfConverter/App.js:49-78 | with distinct ids, a run leaves converted files untouched and ends every other file at 100 and converted |
| BatchConverter.DownloadNameAsWritten | WordToPdfConverter/App.js:85 | the download name as written: the first `.docx` anywhere becomes `.pdf`, then the first `.doc` anywhere does |
| BatchConverter.DocxReplacedFirst | WordToPdfConverter/App.js:85 | in `a.doc<b>.docx`, where `a` and `b` have no dot and `b` does not start with `x`, the first replacement hits the real extension |
| BatchConverter.DocReplacedSecond | WordToPdfConverter/App.js:85 | in `a.doc<c>` with a dotless `a`, the `.doc` replacement hits the `.doc` right after `a`, whatever follows |
| BatchConverter.NoDocx | WordToPdfConverter/App.js:85 | `a.doc<b>` with dotless `a` and `b`, and `b` not starting with `x`, holds no `.docx`, so the first replacement leaves it alone |
| BatchConverter.DownloadNameAsWrittenRewritesStem | WordToPdfConverter/App.js:85 | as written, `a.doc<b>.docx` is offered as `a.pdf<b>.pdf`, which is not `a.doc<b>.pdf`; for example `my.document.docx` becomes `my.pdfument.pdf` |
| BatchConverter.DownloadNameAsWrittenRewritesOther | WordToPdfConverter/App.js:85 | as written, `a.doc<b>` with no Word extension is offered as `a.pdf<b>`, while the corrected rule keeps it; for example `notes.document` becomes `notes.pdfument` |
| BatchConverter.DownloadName | WordToPdfConverter/App.js:85 | corrected rule (see ## Findings): a name without a final `.docx` or `.doc` is offered unchanged |
| BatchConverter.DownloadNameOf | WordToPdfConverter/App.js:85 | corrected rule (see ## Findings): `stem.docx` and `stem.doc` are offered as `stem.pdf`, whatever the stem holds |
| BatchConverter.ConverterApp.constructor | WordToPdfConverter/App.js:15-16 | an empty list, not processing |
| BatchConverter.ConverterApp.PickDocument | WordToPdfConverter/App.js:18-41 | ignored while processing and on cancel; otherwise the new entries are appended after the existing files |
| BatchConverter.ConverterApp.RunInterval | WordToPdfConverter/App.js:57-77 | one file's interval takes exactly five ticks; it ends with that file's entries at 100 and converted, the count one higher, and processing cleared when the count reaches the total |
| BatchConverter.ConverterApp.ConvertFiles | WordToPdfConverter/App.js:43-79 | with an empty list or a run under way, nothing changes; otherwise the list ends settled, processing ends false even when every file was already converted, and the run takes five ticks per pending file |

## Left out

- Rendering, styles, alerts, toasts and permission prompts. The modelled handlers return an
  outcome instead of showing a message.
- Library calls are parameters: printing, file reading, moving, copying and writing, sharing,
  the media library, video thumbnails, `fetch`/`FormData`, mammoth extraction and the pdfkit
  layout.
- The HTML templates beyond the margin and filter CSS, and the PDF contents beyond "the
  extracted text".
- HomeScreen.js `pickDocument` and `pickImages`: only the asset each hands to `addFile` is
  modelled. The gallery picker's own defaults (`image_<now>.jpg`, size 0, `image/jpeg`) are
  not modelled.
- The gallery and camera pickers of WordToPdfConverterMain/frontend/App.js (lines 62 and on)
  are not modelled. They feed the same list, which the model covers.
- EditImageModal.js `handleCrop` (line 36) is not modelled. It uses the native editor, and
  its record update has the same form as `Rotate`'s.
- `EditImage.ImageEditor.Save` with no image open returns None. The modal renders nothing
  then, so Save cannot be pressed.
- React's asynchronous state updates and stale closures: each handler is an atomic,
  sequential update of the current state. The batch screen's 300 ms intervals run one file
  after the other, not interleaved.
- Timing: the 10-second cleanup delay and the 300 ms tick period are not modelled. The
  cleanup is the list of paths to delete, and a tick is one loop step.
- Express, multer and HTTP themselves. The upload's `originalname` is taken to be a plain
  file name with no `/`.
- The `/health` endpoint (server.js:92-94).
- The outcome of `res.download` (server.js:66-76): a send error is only logged and the cleanup is scheduled either way, so `ConvertServer.HandleConvert` has no parameter for it.
- Case-folding beyond ASCII: `Common.Lower` lowers only `A`-`Z`.
- ImageQueue.Merge: `{ ...f, ...updated }` with `pdfUri` present but `undefined` in
  `updated` would clear the entry's `pdfUri`. The model treats an absent or empty `pdfUri` as
  keeping the old one. The edited record always comes from the list, so the two agree except
  under the interleavings left out above.
- BatchConverter.ConverterApp.PickDocument: the ids come from `Math.random()`; the model takes
  the random suffixes as parameters. `SettledWithDistinctIds` needs distinct ids; the other
  results about a run hold for any ids.
- The HomeScreen `pdfName` text field is assigned directly by the input. It is the class
  field `pdfName`, with no method of its own.

## Findings

| source | as written | input that shows it | evidently intended | confidence | as-written member | corrected member |
|---|---|---|---|---|---|---|
| WordToPdfConverter/App.js:85 | `fileName.replace('.docx', '.pdf').replace('.doc', '.pdf')` replaces the first `.docx` and then the first `.doc` anywhere in the name | `my.document.docx` is offered as `my.pdfument.pdf` (a = `my`, b = `ument`) | replace only the final `.docx` or `.doc` extension by `.pdf` | not executed | BatchConverter.DownloadNameAsWrittenRewritesStem | BatchConverter.DownloadNameOf |
| WordToPdfConverter/App.js:85 | the same two replacements also fire on a name that has no Word extension at all | `notes.document` is offered as `notes.pdfument` (a = `notes`, b = `ument`) | leave a name without a final `.docx` or `.doc` unchanged | not executed | BatchConverter.DownloadNameAsWrittenRewritesOther | BatchConverter.DownloadName |
