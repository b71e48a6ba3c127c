# Province and municipality location files, modelled in Dafny

`scripts/make_amsterdam_locations.py` builds one `LOCATIONS.js` file per Dutch
municipality. The file sits under `<province>/<municipality>/` and lists the
municipality's neighbourhoods as `"<neighbourhood>, <municipality>, <province>, Netherlands"`
strings. Three inputs feed it:

- the CBS StatLine neighbourhood records, which hold codes, titles and parent codes;
- the Wikipedia list of Dutch municipalities, read with a small HTML table parser;
- a table of manual overrides for municipalities that the list no longer shows.

This project models the core of the script and proves properties of the model:

| module | file | models |
|---|---|---|
| `CellText` | `cell_text.dfy` | `_normalize_cell` |
| `WordSplit` | `words.dfy` | what `str.split()` makes of a text before and after the whitespace steps of `_normalize_cell` |
| `WikiTables` | `wiki_tables.dfy` | `WikiTableParser`: pure step functions over the parser's fields, and a class whose methods update those fields |
| `Slugs` | `slugs.dfy` | `slugify` |
| `Provinces` | `provinces.dfy` | `load_municipality_provinces` from the parsed tables on: table search, header columns, the row loop, the remap and the overrides |
| `MunicipalityIndex` | `municipality_index.dfy` | `build_municipality_index`: both loops, the fallback spellings, the sorting and the missing-province error |
| `Locations` | `locations.dfy` | `write_locations`: the path components and the exact text of the file |
| `Json` | `json.dfy` | `json.dumps` of a string with `ensure_ascii`, and a reader that undoes it |
| `Text`, `Collections`, `Wrappers` | | the Python string, dictionary and sorting operations these use |

Choices of the model:

- Strings are sequences of Unicode code points.
- `str.isspace`, `strip`, `lower` on ASCII text, `replace`, the `in` substring test, `split`, `"".join` and code-point string order are all defined character by character.
- The two calls into Unicode tables are function parameters: `unicodedata.normalize("NFKD", _)` is `nfkd` and `str.casefold` is `caseFold`.
- The order in which Python iterates over a `set` enters the program in two places. For the fallback spellings of a name it is a parameter, `setOrder`, whose one requirement is that it lists every element once. For the neighbourhood titles, `SortedTitles` lists the set through `SetToSeq`, which may pick any order.
- Every property is proved for every choice of these parameters. Some results do depend on the choice: see the set order under "## Left out".
- A dictionary built by assignments in a loop is `LastWins` over the sequence of assignments: the last write to a key wins.
- Where the program stops with `SystemExit`, the model returns a `Failure` carrying the reason.

Note that:

- Neighbourhood titles are deduplicated exactly, as a Python `set` does. They are not deduplicated case-insensitively: `str.casefold` is only the sort key.
- The missing-province report lists a name once per unresolved municipality code, so two codes with the same name give two entries. It is not deduplicated.
- A municipality record whose title is empty is still recorded, with an empty name.

## Model

| member | source | states |
|---|---|---|
| CellText.NormalizeCellIsNormal | scripts/make_amsterdam_locations.py:85-91 | whatever the input, the result has no leading or trailing whitespace, no no-break space, soft hyphen or zero-width space, no `[...]` marker left, and every whitespace character is a single plain space |
| CellText.NormalizeCellFixpoint | scripts/make_amsterdam_locations.py:85-91 | a text is left unchanged by the normalisation exactly when it already has the normal form above (both directions) |
| CellText.NormalizeCellIdempotent | scripts/make_amsterdam_locations.py:85-91 | normalising twice gives the same text as normalising once |
| CellText.NormalizeCellWords | scripts/make_amsterdam_locations.py:85-91 | the result is the words (as `split()` finds them) of the text once the hidden characters and the footnote markers are gone, joined by single spaces |
| WordSplit.WordsCollapse | scripts/make_amsterdam_locations.py:90 | collapsing whitespace runs into single spaces keeps the words |
| WordSplit.WordsStrip | scripts/make_amsterdam_locations.py:91 | `strip()` keeps the words |
| WordSplit.JoinWordsSpaced | scripts/make_amsterdam_locations.py:90-91 | a text with no edge whitespace and only single plain spaces is its words joined by `" "` |
| CellText.NoBreakSpaceReplaced | scripts/make_amsterdam_locations.py:86 | after `replace("\xa0", " ")` no no-break space is left; the text is unchanged exactly when it had none; and only no-break spaces change, each into whitespace |
| CellText.DeleteChar | scripts/make_amsterdam_locations.py:87-88 | deleting a character leaves none of it and keeps every other character exactly as often as it occurred |
| CellText.Unhidden | scripts/make_amsterdam_locations.py:86-88 | after the three replacements no no-break space, soft hyphen or zero-width space is left, and every other character occurs as often as in the text with its no-break spaces made plain spaces |
| CellText.DeleteCharAppend | scripts/make_amsterdam_locations.py:87-88 | deleting a character from a joined text is deleting it from each part, so the characters that stay keep their order |
| CellText.UnhiddenAppend | scripts/make_amsterdam_locations.py:86-88 | the three replacements on a joined text are the replacements on each part, so the characters that stay keep their order |
| Text.WithoutCounts | scripts/make_amsterdam_locations.py:87-88 | removing a class of characters drops each of them and keeps every other character as often as it occurred |
| CellText.DeleteCharAbsent | scripts/make_amsterdam_locations.py:87-88 | deleting a character that does not occur changes nothing |
| CellText.StripFootnotesClean | scripts/make_amsterdam_locations.py:89 | after removing the `\[[^\]]*\]` markers, no `[` is followed anywhere later by a `]` |
| CellText.StripFootnotesKeeps | scripts/make_amsterdam_locations.py:89 | a text with no `[` followed later by a `]` is left unchanged |
| CellText.StripFootnotesMarker | scripts/make_amsterdam_locations.py:89 | only markers are removed: a `[`, the text up to the first `]` after it and that `]` disappear, and the text before the marker is kept |
| CellText.CollapseKeepsNoFootnote | scripts/make_amsterdam_locations.py:89-90 | collapsing whitespace after the marker removal creates no new marker |
| CellText.StripNormal | scripts/make_amsterdam_locations.py:91 | the final `strip()` of a text in the collapsed form gives the normal form |
| Text.CollapseRunsSingle | scripts/make_amsterdam_locations.py:90 | after `re.sub(r"\s+", " ", _)`, every whitespace character is a plain space and no two are adjacent (used for `-+` and `[^a-z0-9]+` too) |
| Text.CollapseRunsKeeps | scripts/make_amsterdam_locations.py:90 | collapsing keeps every character outside the class, in order |
| Text.CollapseRunsFixes | scripts/make_amsterdam_locations.py:175 | a text whose class characters are already single `rep` characters is unchanged, which is why the second substitution in `slugify` is redundant |
| Text.CollapseRuns | scripts/make_amsterdam_locations.py:90 | a run substitution gives an empty result exactly for an empty input, and the result starts with a class character exactly when the input does |
| Text.TrimCuts | scripts/make_amsterdam_locations.py:91 | `strip` removes exactly a leading and a trailing run of the class: the rest is a slice of the input that neither starts nor ends with a class character |
| Text.TrimStart | scripts/make_amsterdam_locations.py:91 | the leading strip gives a suffix of the input: everything dropped is in the class, and what is kept does not start with a class character |
| Text.TrimEnd | scripts/make_amsterdam_locations.py:91 | the trailing strip gives a prefix of the input: everything dropped is in the class, and what is kept does not end with a class character |
| Text.TrimKeeps | scripts/make_amsterdam_locations.py:91 | text that neither starts nor ends with a class character is left unchanged by the strip |
| Text.TrimWithout | scripts/make_amsterdam_locations.py:176 | `strip("-")` removes only dashes |
| Text.ReplaceAll | scripts/make_amsterdam_locations.py:173 | `replace` changes nothing when the pattern does not occur |
| Text.ReplaceCharGone | scripts/make_amsterdam_locations.py:256 | replacing a character by text that does not contain it leaves none of that character, as with `-` and a space |
| Text.LexLeTotal | scripts/make_amsterdam_locations.py:249 | Python string order compares any two strings |
| Text.LexLeTransitive | scripts/make_amsterdam_locations.py:249 | Python string order is transitive |
| Text.LexLeAntisymmetric | scripts/make_amsterdam_locations.py:249 | two strings that are each `<=` the other are equal |
| Collections.LastWinsMeaning | scripts/make_amsterdam_locations.py:209-222 | after assigning `d[k] = v` in a loop, a key is present exactly when some step assigned it, and it holds the value of the last such step |
| Collections.FirstIndex | scripts/make_amsterdam_locations.py:204-207 | `next(idx for ...)` gives the first index that satisfies the test, or nothing (the `StopIteration`) exactly when no index does |
| Collections.SortBy | scripts/make_amsterdam_locations.py:270 | `sorted(_, key=...)` returns a permutation of its input, in non-decreasing order of the key |
| Collections.SetToSeq | scripts/make_amsterdam_locations.py:270 | iterating over a set yields each element exactly once |
| WikiTables.WikiTableParser.constructor | scripts/make_amsterdam_locations.py:97-105 | the fields start with no tables, not capturing, depth 0, no open table, row or cell, and an empty buffer |
| WikiTables.WikiTableParser.HandleStartTag | scripts/make_amsterdam_locations.py:107-123 | `handle_starttag` changes the fields as the step function says, and keeps the parser's invariant |
| WikiTables.WikiTableParser.HandleEndTag | scripts/make_amsterdam_locations.py:125-142 | `handle_endtag` changes the fields as the step function says, and keeps the parser's invariant |
| WikiTables.WikiTableParser.CloseTable | scripts/make_amsterdam_locations.py:126-132 | `</table>` while capturing lowers the depth. At depth 0 it stores the table if it has rows and stops capturing |
| WikiTables.WikiTableParser.CloseRow | scripts/make_amsterdam_locations.py:133-136 | `</tr>` while capturing adds a non-empty row to the open table and closes the row |
| WikiTables.WikiTableParser.CloseCell | scripts/make_amsterdam_locations.py:137-142 | `</td>`/`</th>` in a cell adds the normalised joined buffer to the open row and clears the buffer |
| WikiTables.WikiTableParser.HandleData | scripts/make_amsterdam_locations.py:144-146 | text is buffered only inside a cell |
| WikiTables.WikiTableParser.Feed | scripts/make_amsterdam_locations.py:185-186 | feeding a page runs the handlers over its events in order: the new fields are `Run` of the old ones over the events |
| WikiTables.RunKeepsWellFormed | scripts/make_amsterdam_locations.py:94-146 | over any event sequence the parser keeps its invariant. Capturing holds exactly when the depth is positive and a table is open, and every stored table and row holds only normalised cells |
| WikiTables.StepKeepsWellFormed | scripts/make_amsterdam_locations.py:107-146 | each handler keeps the parser's invariant |
| WikiTables.ParsedRowClean | scripts/make_amsterdam_locations.py:135-140 | every cell of every collected row is a normalised text |
| WikiTables.ParsedTablesAreClean | scripts/make_amsterdam_locations.py:129-130 | every collected table is non-empty, and every row in it is non-empty and made of normalised cells |
| WikiTables.RunKeepsTables | scripts/make_amsterdam_locations.py:130 | a table, once collected, is never changed or removed |
| WikiTables.TableTagsTrackDepth | scripts/make_amsterdam_locations.py:109-132 | inside a captured table, a nested `<table>` only deepens the capture. `</table>` ends it exactly when the depth returns to 0, storing the table if it has a row |
| WikiTables.OutsideTablesOnlyWikitableCounts | scripts/make_amsterdam_locations.py:107-146 | outside a captured table no event stores a table; an event changes the state exactly when it is a `<table>` whose class list contains `wikitable`, or when a cell left open by its table's close is still buffering and the event is text, a `<br>` or a `</td>`/`</th>` |
| WikiTables.CellLeftOpen | scripts/make_amsterdam_locations.py:125-146 | `<table class=wikitable><tr><td></table>` stores nothing and leaves the cell open, so text after it is still buffered |
| WikiTables.DataOutsideCellIgnored | scripts/make_amsterdam_locations.py:144-146 | text outside a cell leaves the state unchanged |
| WikiTables.CellWithBreak | scripts/make_amsterdam_locations.py:119-142 | `<td>a<br>b</td>` in an open row adds the single cell `_normalize_cell(a + " " + b)`, ends the cell with an empty buffer, and leaves every other field as it was |
| Slugs.SlugifyValue | scripts/make_amsterdam_locations.py:169-176 | every slug is non-empty and made of `a-z0-9` and dashes, with no leading, trailing or doubled dash |
| Slugs.Slugify | scripts/make_amsterdam_locations.py:171-176 | the `or "item"` fallback means the slug is never empty |
| Slugs.LowerAsciiLowers | scripts/make_amsterdam_locations.py:172 | after `lower()` no letter `A`..`Z` is left; the text is unchanged exactly when it had none; lowering twice is lowering once |
| Slugs.DashedShape | scripts/make_amsterdam_locations.py:174-175 | after the `[^a-z0-9]+` substitution the text is made of `a-z0-9` and dashes, with no two dashes in a row, so the `-+` substitution changes nothing |
| Slugs.SlugifyIsSlug | scripts/make_amsterdam_locations.py:169-176 | the slug of any decomposed text has the shape above |
| Slugs.SlugifyLetters | scripts/make_amsterdam_locations.py:170-176 | the slug keeps exactly the ASCII letters (lower-cased) and digits of the name, in order, with `&` read as `and`. A name with none becomes `item` |
| Slugs.PreparedLetters | scripts/make_amsterdam_locations.py:171-173 | after the ASCII filter, lower-casing and the `&` replacement, the letters and digits that remain are the reference reading of the name |
| Slugs.SlugifyKeepsSlug | scripts/make_amsterdam_locations.py:169-176 | a text that is already a slug is its own slug |
| Slugs.SlugifyIdempotent | scripts/make_amsterdam_locations.py:169-176 | slugifying a slug changes nothing |
| Slugs.AlnumNameSlug | scripts/make_amsterdam_locations.py:171-176 | a name of ASCII letters and digits becomes its lower-case form |
| Provinces.FindMunicipalityTable | scripts/make_amsterdam_locations.py:188-197 | the nested loop with its two `break`s finds the first table with a `Gemeente` row, and that row |
| Provinces.ReadTableMapping | scripts/make_amsterdam_locations.py:209-222 | the row loop builds the last-wins mapping of the table's assignments |
| Provinces.LoadMunicipalityProvinces | scripts/make_amsterdam_locations.py:188-225 | the loader returns the mapping, or one of its two errors, exactly as the specification function describes |
| Provinces.NoTableIffNoGemeenteRow | scripts/make_amsterdam_locations.py:190-200 | the "could not locate" error happens exactly when no row of any table has a `Gemeente` cell |
| Provinces.FindHeaderIsFirst | scripts/make_amsterdam_locations.py:190-197 | the chosen header row has a `Gemeente` cell. No earlier table and no earlier row of its table has one |
| Provinces.HeaderColumnsDecide | scripts/make_amsterdam_locations.py:202-224 | after normalising the header, the columns error happens exactly when no heading contains `Gemeente` or none contains `Provin`. Otherwise the result is the table mapping overlaid with the overrides |
| Provinces.ParsedHeaderUnchanged | scripts/make_amsterdam_locations.py:185-207 | on the parser's output the header is already normalised, so the columns error means exactly that no heading names a province |
| Provinces.TableRowsDecide | scripts/make_amsterdam_locations.py:210-222 | a municipality that is not overridden comes from the last qualifying row naming it. A qualifying row is not the header, has no `Gemeente` cell, is wide enough and has both cells non-empty after stripping; its province is remapped |
| Provinces.OverridesWin | scripts/make_amsterdam_locations.py:224 | every override is present, and it wins over the table |
| Provinces.TableValuesRemapped | scripts/make_amsterdam_locations.py:217-222 | every value read from the table is a remapped non-empty label |
| Provinces.EntryRemapped | scripts/make_amsterdam_locations.py:217-221 | a row that yields an entry has a non-empty stripped province cell, and its value is that cell remapped |
| Provinces.RemapCanonical | scripts/make_amsterdam_locations.py:40-50 | remapping a non-empty label gives a non-empty name that the remap leaves as it is |
| Provinces.OverrideValuesCanonical | scripts/make_amsterdam_locations.py:55-82 | every override province is non-empty and already a folder name, so the remap leaves it alone |
| Provinces.MappingValuesCanonical | scripts/make_amsterdam_locations.py:188-225 | every province in a loaded mapping is non-empty and unchanged by the remap |
| MunicipalityIndex.CollectRecords | scripts/make_amsterdam_locations.py:230-242 | the first loop builds the code-to-name dictionary and the code-to-titles groups, as the specification functions define them |
| MunicipalityIndex.MuniNamesMeaning | scripts/make_amsterdam_locations.py:233-239 | a code is a municipality exactly when some stripped key equals it and starts with `GM`. Its name is the title of the last such record, even an empty one |
| MunicipalityIndex.GroupedMeaning | scripts/make_amsterdam_locations.py:233-242 | a title is in a code's neighbourhoods exactly when some record with a stripped `BU` key has that stripped, non-empty parent code and that stripped, non-empty title |
| MunicipalityIndex.ResolveSound | scripts/make_amsterdam_locations.py:250-261 | the chosen province is non-empty. It is the name's own entry whenever that entry is non-empty, and otherwise the entry of one of the three fallback spellings |
| MunicipalityIndex.ResolveNoneIff | scripts/make_amsterdam_locations.py:250-264 | with non-empty provinces, a name is unresolved exactly when neither it nor any fallback spelling is in the mapping, whatever the set order |
| MunicipalityIndex.UnresolvedOrderFree | scripts/make_amsterdam_locations.py:253-261 | the set of unresolved municipalities does not depend on the set iteration order |
| MunicipalityIndex.LoadedMappingOrderFree | scripts/make_amsterdam_locations.py:244-264 | with a loaded mapping, which municipalities are unresolved does not depend on the set order |
| MunicipalityIndex.HyphenVariantHasNoHyphen | scripts/make_amsterdam_locations.py:256 | the `replace("-", " ")` spelling has no hyphen left |
| MunicipalityIndex.FirstPresent | scripts/make_amsterdam_locations.py:258-261 | the chosen spelling is one the mapping has |
| MunicipalityIndex.FirstPresentMeaning | scripts/make_amsterdam_locations.py:258-261 | `next(..., None)` picks a spelling from the iteration order. It gives `None` exactly when the mapping has none of them |
| MunicipalityIndex.SortedTitles | scripts/make_amsterdam_locations.py:270 | the neighbourhoods come out as a permutation of the title set, sorted by the case-fold key; titles with equal keys may come out in either order, as they keep the set's iteration order |
| MunicipalityIndex.SortedCodes | scripts/make_amsterdam_locations.py:249 | `sorted(muni_names.items())` visits every code once, in string order |
| MunicipalityIndex.ResolveCodes | scripts/make_amsterdam_locations.py:249-271 | the second loop indexes exactly the codes that resolve, each with its code, name, province and sorted neighbourhoods. It lists the name of every code that does not resolve, once per code |
| MunicipalityIndex.NameCounts | scripts/make_amsterdam_locations.py:273-274 | the list of unresolved names holds each name as often as there are unresolved codes with that name |
| MunicipalityIndex.BuildMunicipalityIndex | scripts/make_amsterdam_locations.py:229-279 | a loader failure is passed on. Otherwise the result succeeds exactly when every municipality resolves, and then it has every municipality code with its entry. On failure the error lists the unresolved names, sorted, once per code |
| Json.JsonRoundTrip | scripts/make_amsterdam_locations.py:298 | reading `json.dumps(s)` back as a JSON string gives `s` |
| Json.ScanEscaped | scripts/make_amsterdam_locations.py:298 | reading the escaped body of any string, up to the closing quote, gives the string back and leaves the text after the quote untouched |
| Json.EscapePlain | scripts/make_amsterdam_locations.py:298 | printable ASCII text without quotes or backslashes is written as it is |
| Json.JsonQuotePrintable | scripts/make_amsterdam_locations.py:298 | `json.dumps` with `ensure_ascii` writes only printable ASCII |
| Json.Hex4Parses | scripts/make_amsterdam_locations.py:298 | the four hex digits of a `\uXXXX` escape read back as the code unit |
| Json.SurrogatesJoin | scripts/make_amsterdam_locations.py:298 | a character beyond the BMP is written as a surrogate pair that recombines to it |
| Locations.LocationsPath | scripts/make_amsterdam_locations.py:286-291 | the path has three components: two slugs, which are non-empty and made only of `a-z0-9` and inner dashes, so never `/`, `.` or `..`, and then `LOCATIONS.js` |
| Locations.WriteLocations | scripts/make_amsterdam_locations.py:282-299 | nothing is written exactly when the municipality has no neighbourhoods. Otherwise the path and text are as rendered, and the text reads back as the location strings |
| Locations.RenderReads | scripts/make_amsterdam_locations.py:294-299 | the text written for any list of location strings parses back to exactly that list, in order |
| Locations.RenderIsAscii | scripts/make_amsterdam_locations.py:293-299 | the file is plain ASCII whatever the names hold: printable characters and newlines only |

## Left out

- Downloading the two pages (`fetch_bytes`, `fetch_json`, the `HTTPError` handling at lines 157-166 and 180-183) is not modelled. It is I/O: the model starts from the parsed tables and the list of CBS records.
- The HTML tokenizer behind `HTMLParser.feed` is not modelled. A page is the sequence of start-tag, end-tag and text events the tokenizer reports, and `Feed` hands them to the handlers in order.
- `unicodedata.normalize("NFKD", _)` and `str.casefold` are not modelled, because they depend on the Unicode tables. They are parameters, and every property holds for any such function.
- The order in which Python iterates over a set is not modelled, because the language does not fix it and string hashing changes it from one run to the next. For the fallback spellings (lines 253-261) it is the `setOrder` parameter: the province chosen for a name with several fallback spellings in the mapping depends on it, while whether a code resolves at all does not (`UnresolvedOrderFree`).
- MunicipalityIndex.SortedTitles: promises only a permutation of the titles sorted by the case-fold key (line 270), because `sorted` is stable and titles with equal case-fold keys, such as `Centrum` and `centrum`, keep the set's iteration order. The model leaves their order open, and the order of such titles in `LOCATIONS.js`, and with it the bytes of the file, can differ between runs.
- Creating directories, writing the file, `rmtree`, `main` (lines 302-325) and the progress messages on stderr are not modelled, because they are file-system and console I/O. `WriteLocations` returns the path components and the text instead.
- MunicipalityIndex.BuildMunicipalityIndex: takes the outcome of `load_municipality_provinces` as a parameter instead of calling it, because the loader's input is the downloaded page. `LoadedMappingOrderFree` connects the two.
- `SystemExit` is not modelled as stopping the program. Each error is a `Failure` value whose message text is given by `ErrorMessage` and `IndexErrorMessage`.
- Python's `str.lower` is modelled on ASCII text only. It is applied after the non-ASCII characters have been dropped, so no other character reaches it.
