# Daily photo store — a Dafny model

A model of the logic in `app.py` of a small Flask application that keeps one
photo per calendar day. Visitors upload an image for a date; the application
stores it in an upload directory as `{date}.{ext}`, replaces any earlier photo
for that date, shows per-date slots on the upload page and lists all photos,
newest first, in a gallery.

The upload directory is an immutable `map<string, seq<bv8>>` from file name to
bytes. Every request handler becomes a pure function from that map (and the
request's fields) to a result. The modules follow the structure of the program:

- `Wrappers` (`wrappers.dfy`): the `Option` type.
- `Text` (`text.dfy`): the Python string operations the handlers use, on ASCII
  text. These are `strip`, `lower`, `rfind` (the split point of
  `rsplit(".", 1)`), `endswith`, and the code-point order that `<` and `sort`
  use on strings.
- `Naming` (`naming.dfy`): `ALLOWED_EXTENSIONS` and `allowed_file`; `DATE_RE`
  and the date test; the stored name `{date}.{ext}`; the gallery's suffix
  filter; and the root that posix `os.path.splitext` returns.
- `Dates` (`dates.dfy`): `generate_dates` on day ordinals, and `%Y-%m-%d`
  formatting of a calendar date.
- `PhotoStore` (`store.dfy`): the POST branch of `upload` with its clean-up
  loop, and `find_existing_for_date`. It also states the
  one-photo-per-date invariant that uploads keep.
- `Gallery` (`gallery.dfy`): the listing loop of `views` and its stable
  descending sort.
- `Examples` (`examples.dfy`): concrete file names, dates and one gallery,
  stated as lemmas.

Python's set iteration order and the order of `os.listdir` are unspecified.
The lookup takes `order`, any enumeration of the allow-set, and the gallery
takes `listing`, any enumeration of the directory without repeats; their
properties are proved for every such order. The upload's clean-up loop visits
one fixed enumeration, `AllowedOrder`; `CleanUpOrderIrrelevant` shows that
every other enumeration removes the same files. `date.today()` is a parameter
too.

## Model

| member | source | states |
|---|---|---|
| Text.Lower | app.py:18 | `str.lower` on ASCII: same length, each letter lower-cased, no upper-case letter left |
| Text.EndsWithIff | app.py:99 | `str.endswith`: holds exactly when the text is some prefix followed by the suffix |
| Text.LexLe | app.py:105 | Python's `<=` on strings: a prefix comes first, and a smaller first character comes first |
| Text.RFind | app.py:18 | the split point of `rsplit(".", 1)`: none exactly when the name has no '.', otherwise a '.' with no '.' after it |
| Text.Strip | app.py:44 | the result neither starts nor ends with whitespace and sits inside the input with only whitespace around it |
| Text.StripSurrounded | app.py:44 | any whitespace around a trimmed text is exactly what `strip` removes |
| Text.LowerEndsWithDot | app.py:99 | a name whose lower-cased form ends in `.e`, with no '.' in `e`, has its last '.' right before that suffix |
| Text.LexLeTotal | app.py:105 | any two date keys are comparable, as the sort needs |
| Text.LexLeAntisym | app.py:105 | keys that are each at most the other are equal |
| Text.LexLeTrans | app.py:105 | the string order on keys is transitive |
| Text.LexLeConcat | app.py:105 | a common-length prefix decides the order first, the rest breaks ties |
| Naming.AllowedShape | app.py:11 | every allowed extension is non-empty, lower-case, and free of '.' and '/' |
| Naming.AllowedOrderIsAllowed | app.py:64 | the clean-up loop visits exactly the allowed extensions |
| Naming.AllowedFile | app.py:17-18 | `allowed_file`: an accepted name has a '.' and does not end with one |
| Naming.Extension | app.py:18 | the text after the last '.' exists exactly when there is a '.', holds no '.', and ends the name after a '.' |
| Naming.AllowedFileIff | app.py:17-18 | `allowed_file` holds exactly when some '.' has no '.' after it and the lower-cased rest is an allowed extension |
| Naming.AllowedFileAt | app.py:17-18 | with the last '.' at a given position, acceptance depends only on the lower-cased text after it |
| Naming.AllowedFileOfSplit | app.py:17-18 | a stem, a '.' and a '.'-free tail is accepted exactly when the lower-cased tail is allowed, whatever the stem |
| Naming.ExtensionOfAllowedFile | app.py:55-59 | an accepted name has an extension and its lower-cased form is allowed, so line 59 cannot fail |
| Naming.DateReMatch | app.py:12 | `DATE_RE.match` accepts exactly the DDDD-DD-DD texts and those texts followed by one line feed, because `$` also matches before a final newline |
| Naming.DateAccepted | app.py:44-47 | the date test accepts exactly the fields whose stripped text has the shape DDDD-DD-DD, despite `$` also matching before a final line feed |
| Naming.SyntaxAccepted | app.py:44-47 | a field that already has the date shape is accepted and kept unchanged by `strip` |
| Naming.StoredName | app.py:60 | the name parses back: with a '.'-free extension, the '.' after the date is the name's last '.', so `rsplit(".", 1)` recovers the date and the extension |
| Naming.StoredNameExtension | app.py:59-60 | the stored name splits back at its last '.' into the date and the extension |
| Naming.StoredNameInjective | app.py:60-66 | different (date, extension) pairs with '.'-free extensions never give the same stored name |
| Naming.StoredNameAllowed | app.py:59-60 | a stored name passes `allowed_file` again |
| Naming.IsImageName | app.py:99 | the gallery's suffix filter: a name it keeps has a '.' and does not end with one |
| Naming.ExtensionOfSuffix | app.py:99 | a name that passes the gallery's suffix test for `e` has an extension that lower-cases to `e` |
| Naming.ImageNameIffAllowedFile | app.py:99 | the gallery's case-insensitive suffix filter accepts exactly the names `allowed_file` accepts |
| Naming.StoredNameIsImage | app.py:99 | every stored name passes the gallery filter |
| Naming.SplitExtRoot | app.py:101 | the root is the name cut at an extension-starting '.' (the last '.', after the last '/', not part of a leading-dot run), or the whole name when there is none |
| Naming.SplitExtRootOfStoredName | app.py:101 | the gallery key of `{date}.{e}` is the date |
| Dates.GenerateDates | app.py:21-24 | `days + 1` ordinals, the first today and each one day after the previous; none for negative `days`; an error when the range passes 31 December 9999 |
| Dates.DigitsRoundTrip | app.py:28 | zero-padded decimal digits read back as the number |
| Dates.DigitsOrder | app.py:28 | zero-padded numbers of one width compare as strings the way they compare as numbers |
| Dates.FormatDate | app.py:28 | `%Y-%m-%d` of a date from year 1000 on has the shape the date test accepts |
| Dates.FormatDateInjective | app.py:28 | different dates format to different strings |
| Dates.FormatDateOrder | app.py:28 | formatted dates compare as strings exactly as the dates compare in time |
| PhotoStore.FormText | app.py:44 | `request.form.get("date", "")`: the submitted text when the field was sent, and "" when it was not, which the date test then rejects |
| PhotoStore.RemoveStale | app.py:63-70 | the clean-up loop removes exactly the `{date}.{e}` files for the visited `e` other than the target name |
| PhotoStore.CleanUpOrderIrrelevant | app.py:64-70 | the clean-up removes the same files whatever order it visits the allow-set in |
| PhotoStore.SavePhoto | app.py:59-72 | after the save, the target holds the bytes, no other `{date}.{e}` remains, and every other file is untouched |
| PhotoStore.Upload | app.py:43-74 | each failure happens exactly under its condition, in the handler's order, and leaves the store unchanged; a success stores the bytes under `{date}.{lower(ext)}`, leaves it the only photo of that date, and touches no other file |
| PhotoStore.UploadSavesAs | app.py:59-60 | a well-formed date and an accepted name are saved under the date plus the lower-cased extension |
| PhotoStore.UploadKeepsOnePerDate | app.py:63-72 | uploads keep at most one allowed-extension file per date |
| PhotoStore.UploadKeepsOnlyPhotos | app.py:59-72 | uploads only ever add `{date}.{e}` names for well-formed dates and allowed `e` |
| PhotoStore.SecondUploadReplaces | app.py:63-72 | a second upload for a date holds the new bytes, and the first file is gone when its name differs |
| PhotoStore.FindExisting | app.py:29-33 | the lookup finds nothing exactly when no visited candidate exists, and otherwise returns the first candidate in visiting order that exists |
| PhotoStore.FindExistingForDate | app.py:27-33 | `find_existing_for_date` returns none exactly when no `{date}.{e}` with allowed `e` exists, and otherwise the first present one in the set's iteration order |
| PhotoStore.FindOnlyCandidate | app.py:29-32 | when one photo of the date exists, the lookup returns it |
| PhotoStore.LookupOrderIrrelevant | app.py:29-32 | under the one-per-date invariant the lookup is the same for every iteration order of the set |
| PhotoStore.LookupFindsUpload | app.py:27-33 | after an upload for a date, the lookup for that date returns the saved name |
| Gallery.EntryOf | app.py:101-102 | the listing record keeps the file name, and its key is the name cut at its extension-starting '.' when there is one, and the whole name otherwise |
| Gallery.Collect | app.py:97-102 | the loop keeps exactly the names that pass the suffix filter, each keyed by its `splitext` root |
| Gallery.CollectAppend | app.py:97-102 | the loop appends in listing order: collecting two stretches of a listing gives the two results concatenated |
| Gallery.CollectUnique | app.py:97-102 | a listing without repeats gives entries without repeated names |
| Gallery.InsertDesc | app.py:105 | inserting into a descending list keeps it descending and adds exactly the new entry |
| Gallery.SortDesc | app.py:105 | the sort returns a permutation of its input in non-increasing key order |
| Gallery.SortDescUnique | app.py:105 | sorting keeps names distinct |
| Gallery.InsertDescStable | app.py:105 | the inserted entry goes after every entry with an equal key |
| Gallery.SortDescStable | app.py:105 | the sort is stable: for each key, entries keep their listing order |
| Gallery.Views | app.py:94-106 | the gallery lists each stored image name once, and nothing else, keyed by its `splitext` root and sorted non-increasing |
| Gallery.ViewsStable | app.py:98-105 | entries with equal keys appear in directory-listing order |
| Gallery.GalleryShowsUpload | app.py:98-102 | after a successful upload the gallery holds the new file under its date |
| Gallery.GalleryOnePerDate | app.py:98-105 | a store built by uploads shows at most one gallery entry per date |
| Examples.NoDotRejected | app.py:17-18 | `photo` is rejected |
| Examples.EmptyExtensionRejected | app.py:17-18 | `photo.` is rejected |
| Examples.OtherExtensionRejected | app.py:17-18 | `photo.txt` is rejected |
| Examples.UpperCaseAccepted | app.py:17-18 | `photo.JPG` is accepted |
| Examples.OnlyLastExtensionCounts | app.py:18 | `image.png.exe` is rejected: only the last extension counts |
| Examples.TextFileRejected | app.py:55 | `notes.txt` is rejected at upload |
| Examples.TextFileHidden | app.py:99 | `notes.txt` is left out of the gallery |
| Examples.WrongGroupingRejected | app.py:12 | `2024-1-5` is not a valid date field |
| Examples.WordsRejected | app.py:12 | `not-a-date` is not a valid date field |
| Examples.BlankRejected | app.py:47 | a field of spaces is rejected as empty |
| Examples.CalendarNotChecked | app.py:12 | `2024-13-40` is accepted: only the shape is checked |
| Examples.SurroundingSpaceStripped | app.py:44 | a field with a leading space and a final line feed is accepted |
| Examples.SplitExtOfStoredName | app.py:101 | the key of `2024-01-01.png` is `2024-01-01` |
| Examples.SplitExtKeepsLeadingDotName | app.py:101 | the key of `.png` is `.png` itself |
| Examples.SplitExtInnerDots | app.py:101 | the key of `a.b.png` is `a.b` |
| Examples.MarchAfterJanuary | app.py:105 | `2024-03-10` sorts above `2024-01-01` |
| Examples.GalleryExample | app.py:94-106 | with two photos and a text file, the gallery shows the March photo, then the January one, whatever the listing order |

## Left out

- Flask plumbing: routing, `render_template`, `flash` messages, `redirect` and `url_for` anchors, `send_from_directory`, the secret key, `os.makedirs` and `app.run`. These are framework code and I/O with no logic of their own. The outcome of `Upload` carries what the redirect anchor needs.
- The GET branch of `upload` (app.py lines 76-86). It pairs each generated day with its lookup for the template. The model proves the two halves (`GenerateDates`, `FindExistingForDate`) but not the conversion from a day ordinal to a year, month and day. That conversion is calendar-library code.
- PhotoStore.RemoveStale: `os.remove` is taken to succeed. The best-effort `except OSError: pass` is not modelled.
- PhotoStore.SavePhoto: a failing `file.save` is not modelled.
- PhotoStore.FindExistingForDate: requires a year of at least 1000. `strftime("%Y")` pads smaller years differently across platforms.
- Gallery.Views: a missing upload directory (`FileNotFoundError`) is the empty store with an empty listing. Directories and other non-file entries returned by `os.listdir` are not modelled.
- Text.Strip: strips only ASCII whitespace (the characters 9-13, 28-31 and space), not Python's full Unicode whitespace set.
- Text.Lower: lower-cases only ASCII letters; Python's Unicode case mapping is not modelled.
- Naming.DateAccepted: `\d` is taken to match ASCII digits only. Python's `re` also matches other Unicode decimal digits.
- Naming.SplitExtRoot: follows posix `os.path.splitext`; the Windows variant that also splits at '\\' is not modelled.
- Dates.GenerateDates: `date.today()` is the parameter `today`, as a day ordinal.
- Concurrent requests and the interleaving of the clean-up with other requests.
- `static/js/main.js`: a page animation with no logic to model.
- A file named with an upper-case extension, such as `2024-01-01.PNG`, can only be put there by hand. The gallery shows it, because its filter ignores case. The upload clean-up only removes lower-case names, so such a file survives an upload for its date. `OnePerDate` and `OnlyPhotos` hold only for stores built by uploads, and the lemmas that use them require them.
