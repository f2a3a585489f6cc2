# msys2-texlive core, modelled in Dafny

This project models msys2-texlive, the tool that builds TeX Live packages for MSYS2. It covers the in-memory pipeline at the tool's core:

- **Tlpdb parsing.** The tool reads the TeX Live package database (`texlive.tlpdb`). It cuts the database into blocks at blank lines and turns each block of `key value` lines into a record (`parse_perl`, `get_all_packages`).
- **Dependency resolution.** `get_dependencies` resolves a scheme's dependencies by a depth-first walk that expands collection and scheme names. `get_needed_packages_with_info` sorts the names the walk returns and looks each one up.
- **Extraction.** The tool extracts the lines of the `.fmts`, `.maps`, `language.def` and `language.dat` files from the packages' `execute` entries (`create_fmts`, `create_maps`, `create_language_def`, `create_language_dat`).
- **Small builders.** It builds the CONTENTS manifest, a package's URL on a mirror, and the archive name.

**Modules.** There is one module per source concern:

| module | models |
|---|---|
| `Text` | Python string operations: the whitespace set of `\s` and `str.strip`, `in`, `split`, `join`, and string ordering |
| `Sorting` | `list.sort` on strings |
| `Tlpdb` | `parse_perl`, `get_all_packages` |
| `Resolver` | `get_dependencies`, `get_needed_packages_with_info` |
| `FileCreator` | `create_fmts`, `create_maps` of texlive/file_creator.py |
| `LanguageFiles` | `create_language_def`, `create_language_dat` |
| `Utils` | texlive/utils.py |
| `LegacyCreators` | the older copies in download_archives.py that behave differently |

**How each operation is modelled.** Each imperative routine of the source is a `method` with the source's loops. Its postcondition ties the result to a specification function that folds over the input. Lemmas then prove what the source promises about that function.

**Inputs and outputs.**
- The tlpdb comes in as the list of lines `readlines()` gives.
- A package dictionary is a sequence of `(name, record)` pairs in iteration order.
- Each creator returns the text it would write.
- A Python exception that escapes becomes `Err(KeyError(key))`, `Err(TypeError)` or `Err(IndexError)`.

**The older copies.** download_archives.py holds older copies of several routines:
- `create_fmts` (download_archives.py:216-262), `write_contents_file` (download_archives.py:141-154) and `get_url_for_package` (download_archives.py:181-184) are the same code as their texlive/ counterparts. The texlive/ members model both copies.
- The old `create_maps` and the old `get_file_archive_name` differ from their texlive/ counterparts. They have their own members in `LegacyCreators`.

## Model

| member | source | states |
|---|---|---|
| Tlpdb.NonSpaceRun | download_archives.py:23 | `\S*` takes the maximal leading run of non-whitespace characters: all characters before the run's end are non-space, and the character at its end is whitespace. |
| Tlpdb.LineEnd | download_archives.py:23 | `[^\n]*` stops at the first line break at or after its start, or at the end of the text. |
| Tlpdb.MatchValueShape | download_archives.py:23 | A match's value is non-empty with a line break at most as its first character: `[\s\S]` may take the break ending a line such as "execute ", `[^\n]*` stops at the next. |
| Tlpdb.MatchesLine | download_archives.py:23 | A line `key value` yields the pair (key, value): the key is the whole non-space run, and the value is everything after the first space up to the line break, untrimmed. Matching then resumes at the line break. |
| Tlpdb.MatchesNoSpaceLine | download_archives.py:23 | A line without a space yields no pair. |
| Tlpdb.SkipNewline | download_archives.py:23 | A line break never starts a match. |
| Tlpdb.FoldCharacterization | download_archives.py:68-80 | A key is stored iff it is non-empty and occurs. Its stored entries are all its values in source order. It is a plain string exactly when it occurs once. |
| Tlpdb.ParsePerl | download_archives.py:66-81 | The loop that fills `final_dict` returns the fold of the regex matches, so everything FoldCharacterization proves applies to it. |
| Tlpdb.ParseSerialize | download_archives.py:66-81 | Round trip: well-formed pairs written as `key value` lines and parsed back give each key its values in the original order. A key seen once holds a plain string. |
| Tlpdb.DotInStr | download_archives.py:94-95 | `'.' in str(value)` holds iff some entry of the value has a dot. This covers both a string and a list's repr. |
| Tlpdb.AddBlock | download_archives.py:92-97 | Filing a block fails only with KeyError("name"). |
| Tlpdb.ReadBlock | download_archives.py:92-97 | The loop body for a blank line: strip the joined lines, parse them, then fail on a missing name, skip a dotted name, or store the record under `str(name)`. |
| Tlpdb.ScanWith | download_archives.py:89-97 | The `last_line` cursor never passes the current line. |
| Tlpdb.ScanBlankStep | download_archives.py:91-97 | On a `"\n"` line, the block from `last_line` through that line is filed, and the cursor moves to the line. |
| Tlpdb.ScanOtherStep | download_archives.py:90-91 | Any other line changes nothing. |
| Tlpdb.ScanErrPersists | download_archives.py:94 | Once a block raises, the result of the whole loop is that error. |
| Tlpdb.GetAllPackages | download_archives.py:84-98 | The loop with its `last_line` cursor computes AllPackages of the lines. |
| Tlpdb.AllPackagesIgnoresUnterminatedTail | download_archives.py:90-91 | Lines after the last blank line never reach the database, however many there are. |
| Tlpdb.AllPackagesKeys | download_archives.py:94-96 | Every key of the database is dot-free and equals `str` of its record's `name`. |
| Tlpdb.EmptyBlockCannotAdd | download_archives.py:92-94 | A block made only of blank lines has no `name` and raises KeyError("name"). |
| Tlpdb.EmptyBlockFails | download_archives.py:90-94 | Two consecutive blank lines, or a blank first line, make `get_all_packages` raise KeyError("name"). |
| Tlpdb.ScanErrorIsName | download_archives.py:94 | The only error `get_all_packages` raises is KeyError("name"). |
| Tlpdb.Put | download_archives.py:137 | `d[k] = v` on an insertion-ordered dict: keys stay unique; an existing key keeps its place and takes the new value; a new key goes last; every other entry is unchanged. |
| Text.StripAllSpace | download_archives.py:92 | Stripping a text made only of whitespace gives "". |
| Text.LeTotal | download_archives.py:133 | Python's string order is total. |
| Text.LeAntisymmetric | download_archives.py:133 | Python's string order is antisymmetric. |
| Text.LeTransitive | download_archives.py:133 | Python's string order is transitive. |
| Sorting.SortStrings | download_archives.py:133 | `sort()` result: a permutation of its input, of the same length. |
| Sorting.SortStringsSorted | download_archives.py:133 | The result of `sort()` is in ascending order. |
| Sorting.SortedUnique | download_archives.py:133 | Two sorted permutations of one multiset are equal, so the sort's result is determined by the input's elements alone. |
| Sorting.SortStringsPermutation | download_archives.py:133 | Inputs with the same elements sort to the same list. |
| Sorting.SortEmptyFirst | texlive/file_creator.py:104-105 | The empty piece that `split` leaves after the final line break sorts first. |
| Resolver.Dependencies | download_archives.py:101-124 | A call that succeeds was given a known name. It only appends collection names of the database to `collection_list`, and it keeps `collection_list` free of duplicates. |
| Resolver.Expand | download_archives.py:115-123 | The loop over a `depend` list keeps the same invariants: `collection_list` only grows, by distinct collection names of the database. The decreasing measure is the set of unvisited database names, which proves termination. |
| Resolver.GetDependencies | download_archives.py:101-124 | The recursive, looping `get_dependencies` computes Dependencies. `collection_list` is threaded as a value. |
| Resolver.ExpandFresh | download_archives.py:117-120 | A collection absent from `collection_list` is appended before the recursive call. The call's list is then concatenated unchecked onto the local list. |
| Resolver.LeafDependencies | download_archives.py:108-113 | With no `depend` the result is []. A single-string `depend` yields exactly [dep], is never expanded even when it names a collection, and leaves `collection_list` unchanged. |
| Resolver.ExpandPlain | download_archives.py:121-123 | Over plain names, the local membership check leaves no duplicate: the result holds each name once, in first-seen order. |
| Resolver.PlainListDependencies | download_archives.py:115-123 | A list without collections yields its names without duplicates and visits nothing. |
| Resolver.ExpandClosure | download_archives.py:115-123 | The returned names are the plain names of the rest of the list plus those of every newly visited collection. Every collection the list names is visited, with its children. Nothing unreachable from the list is visited. |
| Resolver.ExpandFreshClosure | download_archives.py:117-120 | ExpandClosure's property for the step that expands a fresh collection. |
| Resolver.ExpandNameClosure | download_archives.py:121-123 | ExpandClosure's property for the step over a plain name. |
| Resolver.DependenciesClosure | download_archives.py:101-124 | One call returns exactly the package's own names plus those of the collections it newly visits. Those collections are closed under children and all reachable from the package. |
| Resolver.ResolveClosure | download_archives.py:132 | From an empty `collection_list`, the visited collections are distinct database collections, each expanded at most once. They are exactly the collections reachable from the scheme, and the returned names are exactly what the scheme and those collections list. |
| Resolver.ExampleDuplicate | download_archives.py:120-123 | Two sub-collections that both list `pkg1` give `["pkg1", "pkg1"]`: sub-results are not deduplicated. |
| Resolver.ExampleScheme | download_archives.py:115-123 | A scheme with one collection of two packages resolves to those packages and visits the collection. |
| Resolver.ExampleDiamond | download_archives.py:117-120 | A collection reached twice is expanded only the first time. |
| Resolver.ExampleCycle | download_archives.py:118 | A collection that lists itself is not expanded again. |
| Resolver.ExampleMissing | download_archives.py:106 | A listed collection missing from the database raises KeyError with its name. |
| Resolver.NotCollection | download_archives.py:117 | A name shorter than "scheme" can never pass the collection test. |
| Resolver.IsCollectionAt | download_archives.py:117 | A name starting with "collection" or "scheme" is expanded. |
| Resolver.BuildInfo | download_archives.py:134-137 | The dict built has unique keys. A failure is KeyError for some dotless listed name that is missing from the database. |
| Resolver.BuildInfoErrPersists | download_archives.py:135-137 | Once a lookup raises, the loop's result is that error. |
| Resolver.CollectInfo | download_archives.py:134-138 | The lookup loop computes BuildInfo of the sorted names. |
| Resolver.BuildInfoProps | download_archives.py:133-137 | For sorted names, the build succeeds iff every dotless name is in the database. Its keys are then strictly ascending, dot-free and exactly the dotless names, each mapped to its record. |
| Resolver.InfoPut | download_archives.py:137 | Adding a name no smaller than every earlier one keeps that invariant. |
| Resolver.PutAscending | download_archives.py:137 | Adding a greatest key keeps the keys strictly ascending. |
| Resolver.SortedElems | download_archives.py:133 | Sorting changes neither the set of names nor the set of dotless ones. |
| Resolver.NeededPackagesWithInfo | download_archives.py:127-138 | The whole of `get_needed_packages_with_info` over the tlpdb lines computes NeededPackages. |
| Resolver.NeededPackagesProps | download_archives.py:127-138 | Success holds iff every dotless dependency is in the database, and a failure is KeyError for such a missing name. On success the keys are strictly ascending and dot-free. They are exactly the dotless dependencies, each mapped to its database record, whose `name` is the key. Duplicates collapse. |
| FileCreator.LastEq | texlive/file_creator.py:16 | The last `=` before a position, or none. |
| FileCreator.KvMatchesSpace | texlive/file_creator.py:16 | Whitespace never starts a `key=value` match. |
| FileCreator.KvMatchesToken | texlive/file_creator.py:16 | A whitespace-delimited token yields at most one pair. The key is the text before the token's last `=` that has a character after it, and the value is the rest of the token. |
| FileCreator.KvMatchesNoPair | texlive/file_creator.py:16 | A token without such an `=` yields no pair. |
| FileCreator.KvDictLast | texlive/file_creator.py:24-26 | A key is in the dict iff some pair for it has a quote-free value, and it holds the last such value. |
| FileCreator.CollectPairs | texlive/file_creator.py:24-26 | The `finditer` loop computes that dict. |
| FileCreator.FirstQuote | texlive/file_creator.py:17-19 | The opening quote is the first `'` or `"` not preceded by a backslash. |
| FileCreator.Closing | texlive/file_creator.py:17-19 | The closing quote is the next occurrence of the same quote not preceded by a backslash. |
| FileCreator.QuoteSpan | texlive/file_creator.py:17-19 | The options span found lies strictly between two equal quotes of the text. |
| FileCreator.QuoteSpanOf | texlive/file_creator.py:27-29 | For quote-free text before `"options"`, the span recovered is exactly the options. |
| FileCreator.WithDefaults | texlive/file_creator.py:30-32 | The keys are the old keys plus the defaulted ones. Old values are kept, and every added one is the default. |
| FileCreator.FillDefaults | texlive/file_creator.py:30-32 | The defaults loop computes WithDefaults. |
| FileCreator.FmtFields | texlive/file_creator.py:22-33 | The fmts dict holds name, engine, patterns and options. |
| FileCreator.ParsePerlString | texlive/file_creator.py:22-33 | The imperative `parse_perl_string` computes FmtFields. |
| FileCreator.FmtFieldsSpec | texlive/file_creator.py:22-33 | `options` is the quoted span when one exists. Otherwise each field is the last quote-free `key=value` value, or "-". |
| FileCreator.PackageFormats | texlive/file_creator.py:36-51 | One package: its string or each list entry holding "AddFormat" gives one line. |
| FileCreator.CreateFmts | texlive/file_creator.py:35-51 | The nested loops compute FmtsText. |
| FileCreator.EntryFmtGate | texlive/file_creator.py:47-51 | An entry adds a line iff it holds "AddFormat". |
| FileCreator.EntriesFmtsLines | texlive/file_creator.py:46-51 | An entry list gives exactly one `name engine patterns options` line per gated entry, in order. |
| FileCreator.FmtsTextLines | texlive/file_creator.py:35-51 | The fmts text is exactly one line per gated entry, package by package and entry by entry, with no sorting. |
| FileCreator.SearchFrom | texlive/file_creator.py:67-69 | It finds the first position where the pattern occurs with a character after it. |
| FileCreator.MapSearch | texlive/file_creator.py:67-69 | On success, the group runs from the marker (after `add`) through one arbitrary character to the end of that line, at the leftmost occurrence of `add` + marker with a character after it. On failure there is no such occurrence. |
| FileCreator.MapEntriesFrom | texlive/file_creator.py:90-99 | Every gated entry is an entry holding addMap, addMixedMap or addKanjiMap. |
| FileCreator.MapLineNoBreak | texlive/file_creator.py:67-69 | A map line taken from an entry whose only possible line break is its first character has no line break. |
| FileCreator.PackageMapLines | texlive/file_creator.py:86-101 | One package's string-or-list loop computes PackageMaps, TypeError included. |
| FileCreator.EntriesMapsErrPersists | texlive/file_creator.py:100 | Once `+= None` raises, the loop's result is that error. |
| FileCreator.CreateMaps | texlive/file_creator.py:85-106 | The loops and the final sort compute MapsText. |
| FileCreator.EntriesMapsLines | texlive/file_creator.py:94-101 | An entry list succeeds iff every gated entry has a map line. It then holds one line per gated entry, in order, with MixedMap taking precedence over Map and Map over KanjiMap. |
| FileCreator.MapsRawLines | texlive/file_creator.py:85-101 | The same, package by package, before sorting. |
| FileCreator.SortLinesSplit | texlive/file_creator.py:104-106 | The sorted text splits into the sorted pieces of the raw text: sorted, and a permutation of them. |
| FileCreator.SortLinesEmpty | texlive/file_creator.py:104-106 | Without map lines the text is "". |
| FileCreator.SortLinesOfLines | texlive/file_creator.py:104-106 | Lines ending in "\n" sort to `"\n".join([""] + sorted(lines))`: the empty piece comes first. |
| FileCreator.MapsTextSpec | texlive/file_creator.py:85-107 | The maps text fails iff some gated entry has no map line. When no `execute` entry holds a line break past its first character (the shape of every value `parse_perl` builds, see `Tlpdb.MatchValueShape`), it is `"\n".join([""] + sorted(lines))`, and "" without map entries. The discarded `strip()` has no effect. |
| LanguageFiles.LangFields | texlive/file_creator.py:135-151 | The language dict holds all seven default keys. |
| LanguageFiles.ParseLanguageString | texlive/file_creator.py:135-151 | The imperative language `parse_string` computes LangFields. |
| LanguageFiles.LangFieldsSpec | texlive/file_creator.py:135-151 | Each field is the last quote-free `key=value` value for it, or "". |
| LanguageFiles.SynonymsLanguage | texlive/file_creator.py:184-191 | The synonym loop, which overwrites `parsed_dict["name"]` each round, computes SynonymsText. |
| LanguageFiles.EntryLanguage | texlive/file_creator.py:178-191 | One entry computes EntryText. |
| LanguageFiles.PackageLanguage | texlive/file_creator.py:155-191 | One package, string or list, including its header and the KeyError on a missing name, computes PackageText. |
| LanguageFiles.CreateLanguageDef | texlive/file_creator.py:114-195 | `create_language_def` computes LanguageText with the def rendering. |
| LanguageFiles.CreateLanguageDat | texlive/file_creator.py:198-273 | `create_language_dat` computes LanguageText with the dat rendering. |
| LanguageFiles.SynonymsTextLines | texlive/file_creator.py:184-191 | The synonym text is one line per synonym, in order. |
| LanguageFiles.EntryTextLines | texlive/file_creator.py:178-191 | An entry's text is the rendering of its lines. |
| LanguageFiles.EntriesTextLines | texlive/file_creator.py:177-191 | The same for an entry list. |
| LanguageFiles.PackageTextLines | texlive/file_creator.py:155-191 | The same for a package. Both fail together, with the same error. |
| LanguageFiles.LanguageTextLines | texlive/file_creator.py:153-191 | The whole file is the rendering of LanguageLines. It fails, and with the same error, exactly when the lines do. |
| LanguageFiles.DefDatAgree | texlive/file_creator.py:241-269 | language.def and language.dat fail together, with the same error. They have the same number of lines, and the same header lines at the same places. |
| LanguageFiles.EntryLinesCount | texlive/file_creator.py:161-172 | An AddHyphen entry yields 1 line without synonyms, else 2 + (number of commas). Any other entry yields none. |
| LanguageFiles.EntryLinesShape | texlive/file_creator.py:161-172 | The first line is the language. Each later line is one comma-separated synonym with only `name` substituted, in order. |
| LanguageFiles.EntriesLinesNoHeader | texlive/file_creator.py:177-191 | Entries never produce a header line. |
| LanguageFiles.EntriesLinesEmpty | texlive/file_creator.py:174-178 | An entry list yields lines iff some entry holds "AddHyphen". |
| LanguageFiles.PackageLinesShape | texlive/file_creator.py:174-183 | A package yields nothing without an AddHyphen entry. Otherwise it yields exactly one `% from name:` header first, then at least one entry line and no other header. |
| LanguageFiles.PackageTextSingle | texlive/file_creator.py:157-172 | A plain-string `execute`: nothing without "AddHyphen", else the header followed by the entry. |
| LanguageFiles.PackageLinesError | texlive/file_creator.py:176 | A package fails iff it needs a header and has no `name`. The error is then KeyError("name"). |
| LanguageFiles.LanguageLinesError | texlive/file_creator.py:159 | The file fails iff some package needs a header and has no `name`. The error is then KeyError("name"). |
| Utils.ArchiveNameShape | texlive/utils.py:10-12 | The name is the package, "-", the version and ".tar.xz". |
| Utils.ArchiveNameInjective | texlive/utils.py:10-12 | For one version, different packages get different archive names. |
| Utils.UrlForPackage | texlive/utils.py:15-18 | It raises IndexError exactly for an empty mirror. |
| Utils.UrlForPackageShape | texlive/utils.py:15-18 | The URL starts with the mirror and ends with `archive/` + package + ".tar.xz". Exactly one `/` precedes `archive/`: the mirror's own when it has one, which holds iff the URL is the mirror plus that tail. |
| Utils.UrlForPackageSlash | texlive/utils.py:16-18 | A mirror without a trailing slash gives the URL of the same mirror with one. |
| Utils.UrlForPackageInjective | texlive/utils.py:15-18 | On one mirror, different packages get different URLs. |
| Utils.WriteContentsFile | texlive/utils.py:26-37 | The template loop computes ContentsText. |
| Utils.ContentsHeaderLines | texlive/utils.py:27-35 | The header is five lines: the fixed note, `# They were downloaded from {url}archive/`, two fixed lines and the blank line. |
| Utils.HeaderLinesNoBreak | texlive/utils.py:27-35 | With a one-line URL, none of the five header lines holds a line break. |
| Utils.ContentsTextErrPersists | texlive/utils.py:36-37 | Once a package lacks a field, the result is that error. |
| Utils.ContentsTextLines | texlive/utils.py:27-37 | The manifest is produced iff every package has `name` and `revision`. It is then the header followed by one `name revision` line per package, in iteration order. |
| Utils.ContentsTextError | texlive/utils.py:37 | A failure comes from the first package lacking a field: KeyError("name") if it lacks `name`, else KeyError("revision"). |
| Utils.ContentsTextSplit | texlive/utils.py:27-37 | With one-line fields, the manifest has exactly 5 + (number of packages) line breaks, and its lines are the header lines then the package lines. |
| Text.SplitUnlines | texlive/file_creator.py:104 | Splitting lines that each end in "\n" gives the lines plus a final "". |
| Text.SplitJoin | texlive/file_creator.py:104-106 | `split` inverts `join` over pieces without the separator. |
| Text.SplitCount | texlive/file_creator.py:166 | `split(",")` gives one piece more than there are commas. |
| LegacyCreators.LegacyArchiveNameIgnoresPackage | download_archives.py:49-51 | The old name is the same for every package. It is the name `get_file_archive_name` in texlive/utils.py gives exactly when the package is texlive-core, the only package the command line accepts. |
| LegacyCreators.LegacyPackageMapLines | download_archives.py:287-298 | The old gate and loop compute LegacyPackageMaps. |
| LegacyCreators.LegacyCreateMaps | download_archives.py:265-303 | The old `create_maps` computes LegacyMapsText. |
| LegacyCreators.LegacyEntriesMapsError | download_archives.py:296-298 | Past the gate, the entries fail with TypeError iff some entry has no map line. |
| LegacyCreators.BareMarkersHaveNoLine | download_archives.py:277-285 | The bare markers "addMap" and "addMixedMap" have nothing after the marker, so they have no map line. |
| LegacyCreators.LegacyListNeverWritten | download_archives.py:291-298 | A list-valued `execute` never writes a line. It is skipped unless an element is exactly a bare marker, and then it raises TypeError. |
| LegacyCreators.MapLineOfEntry | texlive/file_creator.py:76-79 | "addMap a.map" has the map line "Map a.map". |
| LegacyCreators.OneMapNew | texlive/file_creator.py:85-106 | The current code writes "\nMap a.map" for a package listing "addMap a.map". |
| LegacyCreators.SortOneLine | texlive/file_creator.py:104-106 | One line sorts behind the leading empty piece. |
| LegacyCreators.OneMapOld | download_archives.py:287-303 | The old code writes "" for that same package. |
| LegacyCreators.LegacyDropsMapList | download_archives.py:291 | The old and the current `create_maps` disagree on that package. |

## Left out

- Network access is not modelled: `find_mirror`, `download`, `download_and_retry`, `download_texlive_tlpdb`.
- File and archive work is not modelled: `open`/`write`, `cleanup`, `create_tar_archive`, `download_all_packages`. Each creator returns its text instead of writing it.
- The upload is not modelled. `upload_asset` comes from a module that is not part of this model.
- Logging, argparse and `main` are not modelled. They are process setup only.
- `find_checksum_from_file` and `check_whether_gpg_exists` are not modelled. They wrap hashlib and a system lookup.
- `time.strftime("%Y%m%d")` is a clock read, so the date is the `version` parameter of Utils.ArchiveName and LegacyCreators.LegacyArchiveName.
- `get_all_packages` reads its file with `readlines()`. Both it and `get_needed_packages_with_info` take those lines as a parameter instead.
- FileCreator.QuoteSpan: the quote regex (texlive/file_creator.py:17-19) is modelled as a deterministic scan. The scan takes the first quote not preceded by a backslash, and the content up to the next equal quote not preceded by a backslash. It is not claimed to agree with the backtracking engine in the regex's corner cases. The main one is an empty quoted span, an opening quote directly followed by the same quote: the lookahead in `(?:.(?!(?<![\\])\1))*` tests the character after the one `.` consumes, so `.` swallows that second quote and the span runs on to a later equal quote. For `"" x "` the regex gives the options `" x ` and the scan gives "". The others are a doubled closing quote, which `.?` swallows, and an unmatched opening quote, after which the search moves on.
- Tlpdb.Str: `str()` of a list value is written as `['a', 'b']` without Python's repr escaping of quotes and backslashes inside the items.
- Sorting.SortStrings: `list.sort()` is modelled as a value (an insertion sort proved sorted and a permutation), not as an in-place sort of the list object.
- Resolver.GetDependencies: `collection_list`, which the source shares by reference across the call tree, is passed in and returned extended (Resolution.visited). The aliasing itself is not modelled.
- Tlpdb.Database: `get_all_packages` builds a dict, and the model keeps it as a map, without its insertion order. It only serves lookups. The dicts that are iterated later (`deps_info`, the creators' input) are sequences of pairs in insertion order.
- FileCreator.FillDefaults: `create_fmts` walks a set literal of default keys. Its order cannot change the result, so the model walks a fixed list.
- The loop bodies that run once per package or per entry are separate methods (for example Tlpdb.ReadBlock, FileCreator.PackageFormats and Resolver.CollectInfo), each tied to its specification function.
- The character classes `\s` and `\S`, and `str.strip`, follow the set of characters Python counts as whitespace. Nothing else about Unicode is modelled.

## Findings

| source | as written | input that shows it | evidently intended | confidence | as-written member | corrected member |
|---|---|---|---|---|---|---|
| download_archives.py:291 | `"addMap" in temp or "addMixedMap" in temp` is a list-membership test when `execute` is a list, so a real entry such as "addMap a.map" never passes the gate. | a package whose `execute` is `["addMap a.map"]`. The old `create_maps` writes "". Had an element been exactly "addMap", the run would have raised TypeError instead. | test each entry for the substring, as texlive/file_creator.py:94-99 does, giving "\nMap a.map" | high; not executed | LegacyCreators.LegacyDropsMapList | FileCreator.MapsTextSpec |
