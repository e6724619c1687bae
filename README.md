# MusicHabits in Dafny

MusicHabits keeps a monthly chart of a listener's top artists. Each run does three things:
- it normalises the month's API response into a snapshot of at most fifteen ranked artists;
- it merges that snapshot into a CSV history, one row per artist per month;
- it colours every artist of every month for the chart, so that an artist keeps its colour while it stays in the chart and a departing artist's colour goes to the next newcomer.

This project models those three parts and proves what they promise.

- `wrappers.dfy`: `Option` and `Result`.
- `order.dfy`: Python's `<` on tuples of integers and on strings, as one lexicographic order on integer sequences.
- `sorting.dfy`: `sorted(xs, key=...)`, modelled as a stable insertion sort. It is proved sorted and a permutation, and sorting an already-ordered input leaves it unchanged.
- `numbers.dfy`: `str(n)` and `int(s)` on ASCII text (whitespace being what `int()` strips from ASCII text: space and tab to carriage return), with the round trip `int(str(n)) == n`.
- `data_processor.dfy`: the `ArtistStat` and `MonthlySnapshot` records, and `process_data` as a method. Its loop reproduces the source: it truncates to fifteen entries, ranks from 1, defaults names and playcounts, then sorts.
- `storage.dfy`: the history as an ordered dict (a sequence of key/payload entries) and CSV rows as records of eight text columns. It contains:
  - `load_history`: the grouping loop;
  - `save_data`: the merge;
  - `_write_history`: the row writer;
  - the round trip from written rows back to a history.
- `color_allocation.dfy`: the colour allocator as functions over its state. The state holds:
  - the palette and the free pool (lists);
  - the ledger (a dict);
  - the active colours (an ordered dict);
  - the set of colours in use.

  The functions cover `_assign_color`, the drop step, admission, one snapshot and the whole loop. They are followed by the properties: continuity, reuse of freed colours, seed handling and no duplicate colour in a month.
- `ui_updater.dfy`: a class `ColorContext` holding those five collections as fields. Its methods update the fields in place as the Python code does and are proved against the functions of `color_allocation.dfy`. The file also has `_prepare_snapshots` and the `_load_existing_colors` loop.

Parameters stand for what comes from outside:
- Python's string `hash` is a parameter `hash: string -> int`, and every property holds for every such function.
- The plotly colour lists are a parameter `plotly`.
- The timestamp strings `process_data` formats are inputs.
- `str.lower` in the sort key is a parameter `lower`.

## Model

| member | source | states |
|---|---|---|
| DataProcessor.ProcessData | app/data_processor.py:27-74 | The snapshot carries the given month key, label and timestamp; it holds min(n, 15) artists for n entries; artist i comes from entry i, with rank i+1, the defaulted name, the coerced playcount, no image and the entry's url. |
| DataProcessor.RankedIsSorted | app/data_processor.py:49-67 | Artists ranked 1, 2, … in list order are already ordered by the key `(rank, -playcount, lower(name))`, whatever their playcounts and names. |
| DataProcessor.SortKeepsRankOrder | app/data_processor.py:67 | The final sort returns the ranked list unchanged. |
| DataProcessor.NameDefaults | app/data_processor.py:50 | A missing or empty name becomes "Artist " followed by the decimal rank; any other name is kept. |
| DataProcessor.CoercePlaycount | app/data_processor.py:51-54 | `int(value or 0)` with TypeError and ValueError caught: an integer is kept, a boolean is 1 or 0, text gives its parsed value when `int()` accepts it and 0 when it does not, and null or a container gives 0. |
| DataProcessor.DecimalPlaycountParses | app/data_processor.py:52 | A playcount given as the decimal text of n is read as n. |
| DataProcessor.PlaycountDefaultsToZero | app/data_processor.py:51-54 | A missing, null, empty, zero or false playcount, and text that `int()` rejects, all become 0. |
| DataProcessor.MissingEntriesGiveNone | app/data_processor.py:45 | No response, no "topartists" object or no "artist" list gives an empty entry list. |
| DataProcessor.FirstTestEntry | tests/test_data_processor.py:6-41 | The test's first entry, "Artist A" with playcount "42", normalises to name "Artist A", playcount 42, rank 1, no image and its url. |
| Numbers.Decimal | app/storage.py:103-106 | `str(n)` as the CSV writer renders playcount and rank: a minus sign exactly when n is negative, then the digits of the magnitude with no leading zero (zero is "0"). |
| Numbers.ParseInt | app/storage.py:60-63 | `int()` on a field: when it succeeds the stripped text is non-blank, and the result is negative only when the text starts with a minus sign and never positive when it does. |
| Numbers.DecimalRoundTrip | app/storage.py:60-63 | Reading back the decimal text an integer is written as gives that integer: `int(str(n)) == n`, negative numbers included. |
| Numbers.ParseRejectsNonNumbers | app/data_processor.py:52-54 | For every string: text that is empty after stripping whitespace, text whose first character after stripping is neither a sign nor a digit, a lone sign, and text with a non-digit after its first character are not integers. |
| Numbers.ParseWellFormed | app/storage.py:60-63 | `int()` succeeds exactly when the stripped text is one or more digits after an optional sign, and then gives the value the digits denote, negated after a minus. |
| Numbers.LeadingZeroIgnored | app/storage.py:60-63 | A leading zero does not change the value of a digit string. |
| Numbers.ParseZeroPadded | app/data_processor.py:52 | Text `str` never writes still parses: `int(" 007 ") == 7`. |
| Numbers.ParseSignedForms | app/data_processor.py:52 | A plus sign and negative zero parse: `int("+5") == 5` and `int("-0") == 0`. |
| Numbers.ParseStripsOnlyAsciiSpace | app/storage.py:60 | Vertical tab and form feed around a number are skipped; the separators 0x1C and 0x1F, which `str.isspace()` accepts, make `int()` fail. |
| Sorting.SortBy | app/storage.py:91-95 | The sort returns a permutation of its input with no element ahead of one whose key is strictly smaller. |
| Sorting.SortByStable | app/storage.py:92-95 | Stability: for every key value, the elements with that key come out in the order they went in. |
| Sorting.SortByOfSorted | app/data_processor.py:67 | Sorting a sequence already in key order leaves it unchanged (stability). |
| Storage.SnapshotToPayload | app/storage.py:28-34 | The payload has the snapshot's month key, label and timestamp, and its artists field by field, in order. |
| Storage.LoadHistory | app/storage.py:42-67 | Reading the rows yields the history `LoadedHistory` defines, or the first row whose playcount or rank is not an integer. On success the keys are unique, each month's payload carries its own key, and keys strictly ascend. |
| Storage.GroupedBuckets | app/storage.py:45-65 | On success every row parses, and the months are exactly the rows' month keys. Each month holds that month's artists in row order, with label and timestamp from its first row. |
| Storage.GroupedFailsAt | app/storage.py:60-63 | A row that fails to parse after a successful prefix ends the read with that row's number. |
| Storage.SetdefaultAppend | app/storage.py:47-65 | `setdefault` of the month's bucket followed by the artist append is the grouping step `AddToBucket`. |
| Storage.AddToBucketShape | app/storage.py:47-65 | One row either grows its month's existing bucket in place, or appends a new bucket after all the others. No other entry changes. |
| Storage.SortedHistoryAscending | app/storage.py:67 | Sorting the history keeps it well keyed and puts its keys in strictly ascending order. |
| Storage.GetAfterSort | app/storage.py:67 | Sorting the history changes no key's payload. |
| Storage.PutOverwrites | app/storage.py:80 | After `history[key] = p`, the key maps to p, every other key keeps its payload, and the keys are the old keys plus that key. |
| Storage.SaveData | app/storage.py:70-83 | `save_data` fails exactly when reading the file fails. On success the result has unique keys in ascending order. The new month maps to the snapshot's payload, every other month keeps what the file held, and no other month appears. |
| Storage.WriteMonth | app/storage.py:92-108 | One month's rows: one per artist, each with the month's key, each parsing back. They come in `(rank, -playcount)` order. |
| Storage.WriteHistory | app/storage.py:86-108 | The rows written run month by month and artist by artist, in month-key order. |
| Storage.RowsOfOrdered | app/storage.py:91 | Months written in month-key order give rows in month-key order. |
| Storage.ReloadedArtistsRanked | app/storage.py:92-95 | A month reads back with its artists in `(rank, -playcount)` order. |
| Storage.RowRoundTrip | app/storage.py:57-64 | The row written for an artist reads back as that artist, except that an empty link reads back as missing. |
| Storage.RoundTrip | app/storage.py:42-108 | Rows written for months with distinct keys read back as the months in key order. Each keeps its fields and has its artists in `(rank, -playcount)` order with empty links read as missing. Months without artists are gone. |
| Storage.ReloadedUnchanged | app/storage.py:92-108 | A month already in rank order and without empty links reads back exactly as it was. |
| Storage.SaveThenLoad | app/storage.py:70-108 | The rows `save_data` writes read back as the history it returned, up to link emptiness, rank order and months without artists. |
| Storage.SaveIntoEmpty | app/storage.py:79-83 | Saving into an empty file gives the one-month history of the snapshot. |
| Storage.SaveOverSameMonth | app/storage.py:79-83 | Saving over a file that holds at most the same month gives the one-month history of the new snapshot. |
| Storage.SaveTwiceKeepsLatest | tests/test_storage_ui.py:28-37 | Saving two snapshots of one month, starting from an empty file, leaves one month whose payload is the second snapshot's. |
| ColorAllocation.DefaultPalette | app/ui_updater.py:13-14 | The default palette is never empty, and equals the plotly colours whenever there are any. |
| ColorAllocation.PreferenceHonoured | app/ui_updater.py:142-148 | A usable ledger colour is handed out as it is. It leaves the free pool if it is there, else the palette if there. Either way only its first occurrence goes and the rest keep their order; otherwise neither list changes. |
| ColorAllocation.FreePoolServesNext | app/ui_updater.py:150-152 | Without a usable preference, a non-empty free pool gives up one of its colours and the palette stays as it was. |
| ColorAllocation.SingleSlotReuse | app/ui_updater.py:150-152 | A free pool of exactly one colour gives that colour to a newcomer without a usable preference, and is left empty, for every hash. |
| ColorAllocation.PaletteServesNext | app/ui_updater.py:150-159 | Without a usable preference and with an empty free pool, a newcomer takes the palette's head and the rest of the palette stays. |
| ColorAllocation.RefillServesNext | app/ui_updater.py:154-159 | With both lists empty the newcomer takes the head of a refilled palette. That is the default colour at the least position not in use or, when all are in use, the first default colour. |
| ColorAllocation.WithoutHead | app/ui_updater.py:81 | The list filter keeps order: its head is the first element not excluded. |
| ColorAllocation.InitialPaletteHead | app/ui_updater.py:81 | The initial palette's head is the first default colour the ledger does not give out. |
| ColorAllocation.AssignFreshUnlessExhausted | app/ui_updater.py:142-159 | While the lists avoid the colours in use, the colour handed out is in use only through the last-resort refill, once every default colour is in use. |
| ColorAllocation.SeedColorsReserved | app/ui_updater.py:74-81 | The ledger starts as a copy of the seed without empty colours. The palette starts as the default colours the ledger does not give out. Nothing is active, free or in use. |
| ColorAllocation.DropDepartedFrees | app/ui_updater.py:90-95 | The drop step keeps only the current names active, with their colours unchanged. The departed names leave the ledger and their colours leave `in_use`; those colours are appended to the free pool in dict order. Nothing else changes. |
| ColorAllocation.DropKeysSpec | app/ui_updater.py:90-95 | The drop loop over the distinct active names is the reference drop step that `DropDepartedFrees` describes. |
| ColorAllocation.AdmitAll | app/ui_updater.py:97-110 | After a month's artists are admitted every one of them is active, and an artist already active keeps its colour. |
| ColorAllocation.RunShape | app/ui_updater.py:85-130 | One decorated month per month, in order. Each copies key, label and timestamp, lists the same artists in the same order, and colours each with its active colour at the end of that month. |
| ColorAllocation.Continuity | app/ui_updater.py:90-119 | An artist in two consecutive months has the same colour in both. |
| ColorAllocation.ColorRunShape | app/ui_updater.py:69-132 | `_attach_consistent_colors` returns one copy of each month in order, and colours carry over between consecutive months. |
| ColorAllocation.DropKeepsGood | app/ui_updater.py:90-95 | After the drop step the state stays consistent (see `InitialGood`) and only current names are active. |
| ColorAllocation.AdmitKeepsGood | app/ui_updater.py:97-110 | While fewer names are active than there are distinct default colours, an admission keeps the state consistent and hands a newcomer a colour nobody active wears. |
| ColorAllocation.InitialGood | app/ui_updater.py:74-81 | With a duplicate-free default palette, the initial state is consistent. `in_use` is the set of active colours, and the active colours are pairwise distinct. The palette and free pool hold no duplicates, share no colour with each other and avoid `in_use`. |
| ColorAllocation.RunKeepsGood | app/ui_updater.py:85-130 | With a duplicate-free default palette and no month with more distinct names than default colours, the state stays consistent through every month. |
| ColorAllocation.NoDuplicateColours | app/ui_updater.py:142-159 | Under those conditions two different artists of one month never share a colour. |
| ColorAllocation.FirstMonthKeepsSeeds | tests/test_storage_ui.py:131-159 | In the first month, an artist with a non-empty seed colour gets that colour. The conditions are that the month's seeded names have distinct seed colours and that the palette has room for the others. |
| ColorAllocation.FreedColourIsReused | tests/test_storage_ui.py:105-128 | With no seed, for months [A, B] then [A, C], the newcomer C receives the colour B gave back, whatever the hash and palette. |
| UiUpdater.ColorContext.constructor | app/ui_updater.py:74-81 | The working state starts as `Initial`: the seed's non-empty colours in the ledger, and the palette without them. |
| UiUpdater.ColorContext.AssignColor | app/ui_updater.py:135-159 | `_assign_color` returns the colour `Choice` picks, and leaves the palette and free pool as `Choice` says. The ledger, active colours and `in_use` are untouched. |
| UiUpdater.ColorContext.DropIfDeparted | app/ui_updater.py:91-95 | One name of the drop loop: absent from the month, it loses its active colour, `in_use` entry and ledger entry, and its colour goes to the free pool. |
| UiUpdater.ColorContext.DropDeparted | app/ui_updater.py:90-95 | The drop loop over a copy of the active names leaves the state `Dropped` describes and keeps the key order well formed. |
| UiUpdater.ColorContext.AdmitName | app/ui_updater.py:99-110 | One artist of the month: the name is then active, and every name active before keeps its colour. |
| UiUpdater.ColorContext.AdmitArtists | app/ui_updater.py:97-121 | The artist loop admits the month's names in order and lists every artist with its active colour. |
| UiUpdater.ColorContext.DecorateSnapshot | app/ui_updater.py:86-130 | One pass of the snapshot loop is one `Step`: drop, admit, decorate. |
| UiUpdater.AttachConsistentColors | app/ui_updater.py:69-132 | The loop returns `ColorRun`: one decorated copy of each month, in order, with colours carried over between consecutive months. |
| UiUpdater.SortedHistoryOrder | app/ui_updater.py:65 | Sorting history keys gives a permutation of the entries with keys strictly ascending. |
| UiUpdater.PrepareSnapshots | app/ui_updater.py:61-66 | One decorated snapshot per history key, in ascending key order, each copying its month. A missing seed means no seed. When payloads carry their own keys, the decorated month keys strictly ascend. |
| UiUpdater.RememberedIsLastColour | app/ui_updater.py:51-58 | A name has a colour exactly when some record names it with a colour. The colour is that of the last such record. |
| UiUpdater.LoadExistingColors | app/ui_updater.py:41-58 | A missing or unreadable file gives no colours. Otherwise the result is the fold over every artist record of every snapshot, in file order, skipping records without a name or colour. |

## Left out

- The CSV reader and writer, the file system (`exists`, `mkdir`, `open`), the JSON encoder and decoder, and their exceptions. Rows are records of column text. A missing file is an empty row list in `load_history`, and `None` in `LoadExistingColors`. The header row is not modelled.
- `update_ui` and `_render_html` (app/ui_updater.py:17-38, 162-171): directory creation, file writes and HTML template substitution.
- `app/api_client.py` (a network call) and `app/main.py` (environment variables and orchestration) are not part of this model.
- `datetime.now`, `strftime` and `isoformat` in `process_data`: the three strings they produce are inputs.
- The actual plotly colour strings: they come from a library outside the model, so the palette is a parameter. Python's salted `str.__hash__` is a parameter `hash`.
- Numbers.ParseInt: models `int()` on an ASCII sign and digits, stripping the whitespace `int()` strips from ASCII text: space and tab to carriage return. It does not model digit-group underscores, non-ASCII digits or non-ASCII whitespace such as U+00A0. It does not model CPython's limit of 4300 digits (`sys.get_int_max_str_digits`): `int()` of longer text raises ValueError, so `process_data` would record a playcount of 0 where the model keeps the value, and `load_history` would fail where the model succeeds.
- Numbers.Decimal: `str(n)` of an integer with more than 4300 digits raises ValueError in CPython, so the CSV writer would fail; the model writes every integer, and `DecimalRoundTrip` holds for all of them.
- DataProcessor.ArtistEntries: `None` means the key is missing. An explicit JSON null is not modelled: `{"topartists": null}` raises AttributeError at app/data_processor.py:45, and `{"topartists": {"artist": null}}` raises TypeError at the slice on line 46. The model has no such failure; `ProcessData` always returns a snapshot.
- DataProcessor.ProcessData: a playcount is null, a boolean, an integer, text or a container. Floats and other JSON types are not modelled. A name is text or missing, so `str()` of non-string names is not modelled.
- DataProcessor.SortKey: `str.lower` is a parameter, because Unicode case folding is outside the model. The sort key never reaches the name anyway, since ranks are distinct.
- Storage.WriteHistory: the `.get("rank", 0)` and `.get("playcount", 0)` defaults are not modelled. Every payload the program builds has both fields, so those defaults never apply.
- Storage.RoundTrip: it requires distinct month keys, as every history dict has. A month with no artists writes no rows and is lost on reload; the lemma states that outcome, not a lossless round trip.
- UiUpdater.LoadExistingColors: records are modelled with an optional name and colour, and a snapshot with an optional artist list. Non-string JSON values for names and colours are not modelled.
- UiUpdater.AttachConsistentColors: `int(artist_payload["playcount"])` at app/ui_updater.py:115 is the identity here, because the payload playcount is already an integer.
- ColorAllocation.NoDuplicateColours: it requires a duplicate-free default palette and at most as many distinct names per month as default colours. Without these the last-resort refill can hand out a colour already in use, as `AssignFreshUnlessExhausted` states.
- ColorAllocation.FirstMonthKeepsSeeds: it covers the first month after the seed, as the re-run test does, and requires the month's seeded names to have distinct seed colours. It also requires the initial palette to hold at least as many colours as the month has unseeded names. Past that, the refill can give a seed colour to an earlier unseeded artist.
