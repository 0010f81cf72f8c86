# Auto-Email-Campaign in Dafny

A Dafny model of the four scripts behind a Postmark e-mail campaign:

- `remove_duplicates.py` normalises addresses and removes repeated rows from one CSV list. At Gmail domains the normaliser drops `+` tags and dots.
- `scrub_lists.py` drops rows whose address fails an external validator or looks like a bot sign-up. Its entry point offers the CSV files of the `email` folder and takes a comma-separated choice of 1-based numbers.
- `send_daily.py` runs one day of the Christmas campaign: it loads the VIP list and sends the day's template to it, waits, then does the same for the cold list.
- `deploy_new_year.py` looks up today's date in a fixed schedule. It merges the scheduled lists into a set of addresses and sends the day's template to them.

Both senders post 500 addresses at a time and count the addresses of every post that the server answered with status 200.

Modules:

- `Text` (text.dfy): the `str` operations the scripts use.
  - `strip`, with Python's whitespace set.
  - `lower`, for ASCII letters.
  - `split` and `count` on one character, `replace(c, "")`, and `startswith`/`endswith`.
- `Csv` (csv.dfy): rows as maps from column name to text, and the search for the column named `email` in any case.
- `RemoveDuplicates`, `ScrubLists`, `SendDaily`, `DeployNewYear`: one module per script.
- `Postmark` (postmark.dfy): the batch sender both campaign scripts contain. It has the same code in both, apart from the sender address and the message stream. Each script module wraps it with its own constants.

How the scripts' surroundings are represented:

- **Files.** The file system is a map from a file name to its data rows. A name is in the map exactly when the file exists.
- **Inputs.** Environment variables, the typed answers, today's date and the folder listing are parameters.
- **Address validator.** `validate_email` is a function parameter `validates`. It is true when the call returns and false when it raises.
- **Server answers.** `respond(k)` is the answer to the k-th post: a status code or an exception.
- **The wait.** Whether the 90-minute wait was cut short is a Boolean.

## Model

| member | source | states |
|---|---|---|
| Text.Split | remove_duplicates.py:17 | `split` on one character gives one piece more than there are separators, and no piece holds the separator |
| Text.SplitJoin | remove_duplicates.py:17 | joining the pieces of a split with the separator gives back the original text |
| Text.JoinSplit | remove_duplicates.py:17 | splitting a join of separator-free pieces gives back those pieces |
| Text.Lower | remove_duplicates.py:13 | `lower()` keeps the length, turns each ASCII capital into its lowercase letter and changes no other character |
| Text.StripLeft | remove_duplicates.py:13 | the result is a suffix that does not start with whitespace, and everything removed is whitespace |
| Text.StripRight | remove_duplicates.py:13 | the result is a prefix that does not end with whitespace, and everything removed is whitespace |
| Text.Strip | scrub_lists.py:50 | `strip()` never lengthens its input and leaves no whitespace at either end |
| Text.StripStart | scrub_lists.py:50 | the text `strip()` keeps is a contiguous slice of the input, and everything before and after that slice is whitespace |
| Text.Count | scrub_lists.py:20 | the count is zero exactly when the character does not occur, and at most the length |
| Text.RemoveChar | remove_duplicates.py:23 | `replace(c, "")` leaves no c, never lengthens, and adds no other character |
| Text.RemoveCharConcat | remove_duplicates.py:23 | `replace(c, "")` works piece by piece on a concatenation, so every other character stays, in order |
| Text.SplitOnce | remove_duplicates.py:17 | with exactly one separator, `split` gives the text before it and the text after it |
| Text.StripLowerCommute | remove_duplicates.py:13 | lowercasing and stripping commute |
| Text.CountAround | remove_duplicates.py:17 | the count of a character splits around any position of the string |
| Text.StripEmpty | deploy_new_year.py:57 | `strip()` yields `""` exactly for strings made only of whitespace |
| Csv.EmailColumn | remove_duplicates.py:43 | the email column is the first header whose lowercase form is `email`; there is none exactly when no header matches |
| RemoveDuplicates.Cleaned | remove_duplicates.py:13 | the text the normaliser works on has no upper-case letter and no surrounding whitespace, and equals stripping first and lowercasing after, so the order of the two calls does not matter |
| RemoveDuplicates.GmailLocal | remove_duplicates.py:21-23 | the Gmail local part holds neither `+` nor `.` |
| RemoveDuplicates.Canonicalize | remove_duplicates.py:14-25 | fails exactly when the text holds two or more `@`; text without `@` comes back unchanged |
| RemoveDuplicates.NormalizeEmail | remove_duplicates.py:8-25 | the result is lowercase; it is an error exactly when the cleaned text has two or more `@`; without `@` the result is `lower(strip(email))` |
| RemoveDuplicates.CanonicalizeOnce | remove_duplicates.py:17-25 | with one `@` the address is local part, `@` and domain, and only the local part of a Gmail address changes |
| RemoveDuplicates.CanonicalizeJoin | remove_duplicates.py:17-25 | an address built from a local part and a domain without `@` splits back into the two |
| RemoveDuplicates.NormalizeOtherDomain | remove_duplicates.py:17-25 | outside `gmail.com` and `googlemail.com` the result equals `lower(strip(email))`: dots and `+` tags stay |
| RemoveDuplicates.GmailLocalCut | remove_duplicates.py:21-23 | the Gmail local part is the text before the first `+`, with every dot removed |
| RemoveDuplicates.CanonicalizeGmail | remove_duplicates.py:19-25 | at a Gmail domain the local part is cut at its first `+` and loses its dots; the domain is kept |
| RemoveDuplicates.NormalizeGmail | remove_duplicates.py:19-25 | at a Gmail domain the result is the cut, dot-free local part, `@` and the unchanged domain |
| RemoveDuplicates.NormalizeIgnoresCase | remove_duplicates.py:13-19 | lowercasing the input first changes nothing, so the domain test is case-insensitive |
| RemoveDuplicates.NormalizeBlank | remove_duplicates.py:13-15 | an empty or all-whitespace value normalises to `""` |
| RemoveDuplicates.CanonicalizeGmailFixed | remove_duplicates.py:19-25 | a Gmail address whose local part has no `+`, `.` or `@` is its own canonical form |
| RemoveDuplicates.CanonicalizeIdempotent | remove_duplicates.py:14-25 | a canonical form is its own canonical form, at Gmail and other domains alike |
| RemoveDuplicates.CanonicalizeEnd | remove_duplicates.py:17-25 | canonicalising never puts whitespace at the end: the result ends in the domain's last character, or in `@` |
| RemoveDuplicates.NormalizeIdempotent | remove_duplicates.py:13-25 | normalising twice equals normalising once when the result does not start with whitespace |
| RemoveDuplicates.NormalizeCanonical | remove_duplicates.py:13-25 | the canonical form of cleaned text that does not start with whitespace normalises to itself |
| RemoveDuplicates.GmailLocalDotSpace | remove_duplicates.py:21-23 | deleting the dots of `". " + l` leaves `" " + l` |
| RemoveDuplicates.CleanedNoop | remove_duplicates.py:13 | lowercase text without surrounding whitespace is left alone by the cleaning step |
| RemoveDuplicates.CleanedLeadingSpace | remove_duplicates.py:13 | one leading space is stripped |
| RemoveDuplicates.NormalizeJoin | remove_duplicates.py:13-25 | a lowercase address joined from a local part and a domain, without surrounding whitespace, is normalised through its local part alone |
| RemoveDuplicates.NormalizeDotSpace | remove_duplicates.py:13-25 | at a Gmail domain, `". " + l + "@" + d` normalises to `" " + l + "@" + d` |
| RemoveDuplicates.NormalizeLeadingSpace | remove_duplicates.py:13-25 | `" " + l + "@" + d` normalises to `l + "@" + d` |
| RemoveDuplicates.NormalizeNotIdempotent | remove_duplicates.py:13-25 | without that condition idempotence fails: a second pass changes `". " + l + "@gmail.com"` again |
| RemoveDuplicates.FirstIndices | remove_duplicates.py:49-57 | the kept positions are positions of the input, at most one per row |
| RemoveDuplicates.Pick | remove_duplicates.py:55 | the kept rows are the input rows at the kept positions, in order |
| RemoveDuplicates.FirstIndicesMembers | remove_duplicates.py:53-55 | a position is kept exactly when its key has not occurred before it |
| RemoveDuplicates.FirstIndicesIncreasing | remove_duplicates.py:49-55 | kept positions are strictly increasing, so the output keeps the input order |
| RemoveDuplicates.FirstIndicesDistinct | remove_duplicates.py:53-55 | no two kept rows share a normalised key |
| RemoveDuplicates.FirstOccurrence | remove_duplicates.py:53-55 | every key has a first position, and that position is kept |
| RemoveDuplicates.FirstIndicesCover | remove_duplicates.py:53-55 | every key of the input is the key of some kept row |
| RemoveDuplicates.KeptPlusDuplicates | remove_duplicates.py:49-57 | kept rows plus counted duplicates equal the rows read |
| RemoveDuplicates.DedupStep | remove_duplicates.py:53-57 | one more row adds its position to the kept ones exactly when its key is new, and adds one duplicate otherwise |
| RemoveDuplicates.PickAppend | remove_duplicates.py:55 | keeping one more position appends that row to the kept rows |
| RemoveDuplicates.SeenSetMembers | remove_duplicates.py:53-54 | a key value is in `seen_normalized` exactly when some earlier row produced it |
| RemoveDuplicates.SeenStep | remove_duplicates.py:53-54 | a row's key is new exactly when it is not in `seen_normalized`, and afterwards it is |
| RemoveDuplicates.EmailKey | remove_duplicates.py:50-51 | a row's key is `normalize_email` of its email cell; it fails exactly when the cell is missing or the cleaned cell holds two or more `@`; a key never holds an upper-case letter |
| RemoveDuplicates.FailedMeetsSpec | remove_duplicates.py:49-51 | stopping at the first row whose key fails is the specified outcome |
| RemoveDuplicates.WrittenMeetsSpec | remove_duplicates.py:49-57 | when no key fails, the first row of every key with the other rows counted as duplicates is the specified outcome: distinct keys, input order, every key represented |
| RemoveDuplicates.FirstFailure | remove_duplicates.py:49-51 | the position found holds a failed key and no earlier position does |
| RemoveDuplicates.Deduplicated | remove_duplicates.py:49-57 | the result is the specified outcome: the first row whose key fails, or else the first row of every key in input order, with distinct keys, every key represented and the rest counted |
| RemoveDuplicates.DeduplicateRows | remove_duplicates.py:49-57 | the loop's outcome is `Deduplicated`: it keeps exactly the first row of each key, in order, counts the others, and stops at the first row whose key fails |
| RemoveDuplicates.Deduplicate | remove_duplicates.py:27-57 | a missing input file or email column returns before anything is written; otherwise the rows are deduplicated by normalised address, empty values included, and a row with two `@` or a missing cell stops the run |
| ScrubLists.Username | scrub_lists.py:17 | the username is the text before the first `@` |
| ScrubLists.UsernameOf | scrub_lists.py:17 | the username of `local + "@" + rest` is `local` |
| ScrubLists.NormalizeAndValidate | scrub_lists.py:8-25 | the verdict is `invalid` exactly when the validator rejects; `bot_pattern` exactly when it accepts and the username has a `+` or more than 3 dots; the flag is true exactly for `valid` |
| ScrubLists.VerdictIgnoresDomain | scrub_lists.py:17-23 | the bot test looks only at the part before `@` |
| ScrubLists.ThreeDotsValid | scrub_lists.py:20-23 | exactly three dots and no `+` is still valid |
| ScrubLists.AddressOf | scrub_lists.py:50 | the address read from a row is empty exactly when the cell is missing or made only of whitespace |
| ScrubLists.Address | scrub_lists.py:50 | `row.get(key, "").strip()` has no surrounding whitespace, and is empty exactly when the cell is missing or all whitespace |
| ScrubLists.Kept | scrub_lists.py:56-58 | the cleaned rows never outnumber the input rows |
| ScrubLists.KeptSound | scrub_lists.py:51-58 | every cleaned row is an input row, with a non-empty address and a valid verdict |
| ScrubLists.KeptComplete | scrub_lists.py:51-58 | every input row with a non-empty address and a valid verdict is cleaned |
| ScrubLists.TallyBalance | scrub_lists.py:49-62 | valid, invalid and bot counts plus skipped blank rows equal the rows read, and the valid count is the number of cleaned rows |
| ScrubLists.ScrubStep | scrub_lists.py:49-62 | one more row changes the cleaned list and each count by that row alone |
| ScrubLists.ScrubRows | scrub_lists.py:49-62 | the loop's list and counters are the in-order cleaned rows and the per-status counts; rows with an empty address count nowhere |
| ScrubLists.ScrubResult | scrub_lists.py:43-47 | with no email column nothing is written |
| ScrubLists.OutputPath | scrub_lists.py:29 | the output goes into the `email` folder under a name that starts with `CLEANED_` and ends with the input name |
| ScrubLists.ScrubCsv | scrub_lists.py:27-68 | the outcome is the cleaned rows under the input headers, written to `email/CLEANED_<name>` with the three counts |
| ScrubLists.OfferedFiles | scrub_lists.py:82 | a name is offered exactly when it is listed, ends in `.csv` and does not start with `CLEANED_` |
| ScrubLists.ParseInt | scrub_lists.py:95 | a token reads as an integer exactly when it is an optional sign followed by one or more ASCII digits; the value is the digits' decimal value, negated after `-`, so `+3` reads as 3 and `-03` as -3 |
| ScrubLists.DigitsRoundTrip | scrub_lists.py:95 | a decimal numeral reads back as the number it writes |
| ScrubLists.RenderPlain | scrub_lists.py:95 | a decimal numeral holds no comma and no surrounding whitespace |
| ScrubLists.ParseRender | scrub_lists.py:95 | `int()` reads back every integer written in decimal, negative ones included |
| ScrubLists.ParseRenderAll | scrub_lists.py:95 | every decimal numeral reads back as its number |
| ScrubLists.Readings | scrub_lists.py:95 | one reading per token; a token that strips to the decimal numeral of n reads as n |
| ScrubLists.Collect | scrub_lists.py:95 | the indices are the readings less one, in order; the whole choice fails exactly when some token is not an integer |
| ScrubLists.CollectOne | scrub_lists.py:95 | the single reading k gives the single index k - 1 |
| ScrubLists.ChoiceOfNumber | scrub_lists.py:95 | typing the numeral of k alone gives the single index k - 1 |
| ScrubLists.ParseTokens | scrub_lists.py:95 | the choice fails exactly when some stripped token is not an integer; otherwise each index is its token's number less one, one per token |
| ScrubLists.SelectFiles | scrub_lists.py:97 | only offered files are selected, at most one per entered number |
| ScrubLists.SelectInRange | scrub_lists.py:97 | in-range indices select the files at those indices, keeping order and repeats |
| ScrubLists.SelectAppend | scrub_lists.py:97 | selecting for a choice made of two parts selects for each part in turn, so out-of-range entries drop out and the others keep their order and repeats |
| ScrubLists.SelectEmpty | scrub_lists.py:97-101 | the selection is empty exactly when no index is in range |
| ScrubLists.PlanScrub | scrub_lists.py:76-110 | each of the five outcomes happens exactly when its condition holds: no folder; no offered file; a token that is not an integer; a parsed choice that selects nothing; otherwise the plan is to scrub the selected files, in the order typed |
| ScrubLists.SelectedAreOffered | scrub_lists.py:82-97 | every selected file is a listed `.csv` file that is not a cleaned output |
| ScrubLists.SelectOneBased | scrub_lists.py:95-97 | typing k selects the k-th offered file |
| ScrubLists.SelectNonPositive | scrub_lists.py:95-101 | typing 0 or a negative number selects nothing |
| ScrubLists.ScrubSelected | scrub_lists.py:106-107 | each selected file is scrubbed, once per mention, in order |
| Postmark.Lo | send_daily.py:61-62 | a slice start is clipped to the list length |
| Postmark.Chunks | send_daily.py:61-62 | there are ceil(n / 500) slices |
| Postmark.NumChunksCeiling | send_daily.py:61 | `range(0, n, 500)` has ceil(n / 500) steps, and none when n = 0 |
| Postmark.RoundsAreChunks | send_daily.py:61 | the loop runs exactly ceil(n / 500) rounds |
| Postmark.ChunkSize | send_daily.py:61-62 | every slice holds between 1 and 500 addresses |
| Postmark.FlattenPrefix | send_daily.py:61-62 | the first k slices together are the first 500k addresses |
| Postmark.FlattenChunks | send_daily.py:61-62 | the slices together are the input list |
| Postmark.Posts | send_daily.py:61-75 | one payload is posted per slice |
| Postmark.RecipientsPrefix | send_daily.py:61-72 | the first k payloads address the first k slices |
| Postmark.PostsReachEveryone | send_daily.py:61-72 | the `To` fields of all payloads, in order, are the input list |
| Postmark.Sent | send_daily.py:58-89 | after k posts the running total is at most the number of addresses posted so far |
| Postmark.Delivered | send_daily.py:58-89 | the returned total never exceeds the list length, so no address is counted twice |
| Postmark.SentAll | send_daily.py:77-81 | after k posts all answered 200, the total is the addresses posted so far |
| Postmark.DeliveredAll | send_daily.py:77-81 | when every post is answered 200 the total is the list length |
| Postmark.SentNone | send_daily.py:83-87 | after k posts none answered 200, the total is 0 |
| Postmark.DeliveredNone | send_daily.py:83-87 | error statuses and exceptions add nothing |
| Postmark.BuildMessages | send_daily.py:64-72 | one message per address of the slice, in order, with the sender, the template, an empty model and the stream |
| Postmark.Messages | send_daily.py:64-72 | one message per address, in order, each with the sender, the template alias, an empty model and the stream |
| Postmark.SendBatch | send_daily.py:48-89 | posts exactly the per-slice payloads and returns the 200-answered total, at most the list length; an empty list posts nothing and returns 0 |
| SendDaily.EmailValues | send_daily.py:43-45 | a file yields at most one address per row |
| SendDaily.EmailValuesMembers | send_daily.py:43-45 | a value is loaded exactly when it is non-empty and some row holds it under `Email` |
| SendDaily.EmailValuesAppend | send_daily.py:43-45 | the values of two consecutive parts of a file are those of the first part followed by those of the second, so file order and repeats are kept |
| SendDaily.EmailValuesOne | send_daily.py:44-45 | one row yields its `Email` value when that is present and non-empty, and nothing otherwise |
| SendDaily.EmailValuesKeepsRepeats | send_daily.py:43-45 | a file whose rows all hold the same non-empty value loads that value once per row |
| SendDaily.LoadEmails | send_daily.py:33-46 | a missing file gives `[]`; otherwise the non-empty `Email` values, in file order, unstripped |
| SendDaily.SendBatch | send_daily.py:48-89 | the shared sender with `contact@mail.anione.me` and stream `christmas-campaign` |
| SendDaily.TemplateFor | send_daily.py:16-24 | a template exists exactly for days 1 to 7, and day N's is `xmas-day-N` |
| SendDaily.RunPhase | send_daily.py:102-108 | a phase loads its list and sends only when it is non-empty |
| SendDaily.Phase | send_daily.py:102-108 | a phase first loads its file; it sends exactly when the list is non-empty, to every loaded address in order, with a total at most the list length; it never waits |
| SendDaily.RunCampaign | send_daily.py:91-141 | the run's steps are the VIP phase, then the wait and the cold phase unless the day is VIP-only |
| SendDaily.CampaignSteps | send_daily.py:91-141 | nothing happens exactly for a day without a template; otherwise the VIP list is loaded first; the wait happens exactly on a templated day that is not VIP-only; every send uses the day's template |
| SendDaily.NoTemplateNoSteps | send_daily.py:92-95 | a day without a template loads and sends nothing |
| SendDaily.VipSendIffNonEmpty | send_daily.py:102-108 | the VIP list is sent to exactly when it is non-empty, to every address of it, with the day's template |
| SendDaily.SkipDayStopsAfterVip | send_daily.py:111-113 | a VIP-only day stops after the VIP phase |
| SendDaily.ColdPhaseFollows | send_daily.py:115-139 | otherwise the wait and then the cold phase follow, with the same template |
| SendDaily.InterruptOnlyMarksWait | send_daily.py:120-129 | cutting the wait short changes nothing but the wait step |
| SendDaily.Confirmed | send_daily.py:148-149 | the gate passes exactly for a three-letter answer spelling `yes` in any mix of case, with nothing around it |
| SendDaily.Launch | send_daily.py:148-152 | a missing or empty token exits first; a declined confirmation aborts; otherwise the day's campaign runs |
| DeployNewYear.CampaignFor | deploy_new_year.py:32-43 | a campaign is found exactly for the ten dates from 2025-12-29 to 2026-01-07, and each names at least one list, all among the six known files |
| DeployNewYear.EmailOf | deploy_new_year.py:55-57 | a row yields an address exactly when its `email` cell is present and non-empty; the address is stripped, and is `""` exactly when the cell is all whitespace |
| DeployNewYear.GatheredMembers | deploy_new_year.py:54-57 | a value is gathered exactly when some row yields it |
| DeployNewYear.FileEmailsMembers | deploy_new_year.py:54-57 | a file contributes exactly the stripped, present, non-empty `email` values of its rows |
| DeployNewYear.LoadedSetMembers | deploy_new_year.py:45-58 | an address is loaded exactly when an existing file among the names contributes it; missing files are skipped |
| DeployNewYear.WhitespaceValueLoadsEmpty | deploy_new_year.py:55-57 | a whitespace-only value passes the truthiness test and is loaded as `""` |
| DeployNewYear.NoEmailColumnContributesNothing | deploy_new_year.py:55 | a file without a column named exactly `email` contributes nothing |
| DeployNewYear.LoadedSet | deploy_new_year.py:45-57 | every existing file among the names contributes all its addresses to the merged set |
| DeployNewYear.LoadedSetAppend | deploy_new_year.py:47-57 | merging over two groups of files is the union of merging over each |
| DeployNewYear.ListOf | deploy_new_year.py:58 | `list(set)` holds every element once |
| DeployNewYear.AddFileEmails | deploy_new_year.py:54-57 | reading one file adds exactly the addresses it contributes to the set |
| DeployNewYear.LoadEmails | deploy_new_year.py:45-58 | the result is duplicate-free and holds exactly the merged set |
| DeployNewYear.SendBatch | deploy_new_year.py:60-97 | the shared sender with the configured sender and stream `new-year-campaign` |
| DeployNewYear.Sender | deploy_new_year.py:11 | a set `SENDER_EMAIL` is the sender, whatever its value; without it the sender is `contact@mail.anione.me`; the sender is empty exactly when the variable is set to `""` |
| DeployNewYear.Deploy | deploy_new_year.py:99-123 | a missing or empty token exits first, then an unscheduled date, then an empty merged list; otherwise every merged address is posted once and the 200-answered total is reported |

## Left out

- **Files and CSV.** Reading and writing files, CSV parsing, and BOM and encoding handling are not modelled.
  - A file is its header list and data rows.
  - The written output is the header list and rows carried in the outcome.
- **Short rows.** `csv.DictReader` stores `None` for the missing cells of a short row. In the model such a cell is missing from the row's map.
  - In `remove_duplicates.py` a missing cell makes `normalize_email(None)` raise. `RemoveDuplicates.EmailKey` models this as a failed key, and the run stops at that row.
  - `ScrubLists.Address` reads a missing cell as `""`, so the row is skipped. In the source a `None` there makes `.strip()` raise, and that crash is not modelled.
- **Empty files.** For an empty file, `reader.fieldnames` is `None`, and the header search raises `TypeError`. The model has an empty header list instead, which gives the no-email-column outcome.
- **The validator.** `email_validator.validate_email` is a foreign library with a DNS lookup. It is the parameter `validates`.
- **HTTP.** `requests.post`, the URL, the request headers and the token are not modelled. Each post's answer is `respond(k)`.
- **Console output.** Every `print` and the progress display are left out.
- **The wait.** The 90-minute `time.sleep` countdown and its `KeyboardInterrupt` handler become one `Wait(interrupted)` step.
- **Command line and environment.** `argparse`, `input()`, `datetime.now()`, `dotenv` and `os.getenv` become parameters.
  - A `--day` value that is not an integer is rejected by argparse before anything runs. That rejection is not modelled.
- **Case folding.** `str.lower()` is modelled for ASCII letters only. Python also lowercases other letters.
- **Integer parsing.** `ScrubLists.ParseInt` does not accept the underscores between digits or the non-ASCII digits that Python's `int()` accepts.
- RemoveDuplicates.Deduplicate: a row with more cells than headers is not modelled. `csv.DictReader` stores the extra cells under the key `None`, and `writer.writerows` at line 63 then raises `ValueError`. The output file has already been truncated by then. The model's `Written` outcome does not have that failure.
- ScrubLists.ScrubCsv: the same long row makes `writer.writerows` at line 68 raise `ValueError`. `main`'s `except ValueError` at lines 109-110 catches it, prints the bad-numbers message and skips the remaining files. The model writes every file.
- **Errors while scrubbing.** In `scrub_lists.py` the `try` block of `main` also covers the scrubbing loop. A `ValueError` raised while a file is being scrubbed would end the remaining files early. The model's scrubbing raises nothing.
- **Order of `list(set)`.** The order of the merged list in `deploy_new_year.py` is arbitrary. `DeployNewYear.ListOf` chooses the elements in an unspecified order.
