# quran-ebook, modelled in Dafny

quran-ebook builds EPUB 3 books of the Quran. It loads a corpus from the quran.com API, with an
optional translation and its footnotes. It validates the corpus against the known structure:
114 surahs, 6236 ayahs, pages 1-604 in reading order. It then renders the corpus through one
of four layouts into a ZIP archive. A companion tool builds a StarDict word-by-word dictionary.
The tool works from the QPC word list, the Quranic Arabic Corpus morphology file and a Lane's
Lexicon summary.

This project models the core of that pipeline:

| module | file | models |
|---|---|---|
| `Models` | models.dfy | Corpus records (`Footnote`, `Ayah`, `Surah`, `Mushaf`) and the corpus reading order. |
| `Registry` | registry.dfy | The font registry, script/font pairings, riwayah table and filename abbreviations. Also holds the insertion-ordered dictionaries (`Table`) the source builds everywhere. |
| `Schema` | schema.dfy | The build configuration, its pairing warnings and the derived output filename. |
| `Validate` | validate.dfy | The eight structural checks, each a loop method proved equal to a specification function. Lemmas say what an empty result means. |
| `QuranApi` | quran_api.dfy | The text transforms of the API loader: trailing ayah numbers, QPC markers, the sajdah hair space, the translation footnote markers. Also the loading loop over fetched records. |
| `Navigation` | navigation.dfy | The page-marker pass and the juz/page navigation lists of the builder. |
| `Builder` | builder.dfy | Chapter paths, layout selection, endnotes, the file layout each layout writes, and the descriptive title. |
| `Package` | package.dfy | The package document (OPF): manifest, spine and book id. |
| `Epub` | epub.dfy | `build_epub`: the checks before writing, the order files are written in, and the archive. |
| `Files` | files.dfy | The ordered `files` dictionary of the builder and the ZIP entry list. |
| `Noteref` | noteref.dfy | Removing the API's own footnote anchors from a translation. |
| `Dictionary` | dictionary.dfy | Headword extraction, pause-mark stripping, morphology parsing and merging, entry HTML, headword normalisation. |
| `StarDict` | stardict.dfy | The `.ifo`, `.idx` and `.dict` files of the StarDict output, with a reader that gets the entries back. |
| `Text`, `Pattern`, `Utf8`, `Wrappers` | text.dfy, pattern.dfy, utf8.dfy, wrappers.dfy | Python string primitives used above: `split`, `join`, `str(int)`, `strip`, whitespace words, `lower`, a greedy regular-expression matcher, and UTF-8 encoding. |

Loops in the source are methods with loop invariants. Each method is proved equal to a
recursive specification function, and lemmas state the properties of that function. The
builder's `files` dictionary is a class (`Files.FileSet`) whose `Put` updates it in place.
Everything else in the source is pure and is modelled by functions. Source errors (a missing
key, a failed `struct.pack`, an empty corpus) become `Result`/`Option` values, not
preconditions.

## Model

| member | source | states |
|---|---|---|
| Models.NewAyah | src/quran_ebook/models.py:14-27 | An ayah built from its required fields keeps them and every optional field takes its default: no page, juz, hizb, marker, translation or footnotes, and both flags false. |
| Models.NewMushaf | src/quran_ebook/models.py:51-57 | A Mushaf built without the optional fields keeps its surahs and script, has empty metadata, and its bismillah is the default Uthmani bismillah. |
| Models.BismillahFacts | src/quran_ebook/models.py:40-48 | Only surah 9 lacks the bismillah and only surah 1 has it as its first ayah, so the second implies the first. |
| Models.InSurah | src/quran_ebook/data/validate.py:119-120 | The inner loop over one surah visits each ayah once, in order, tagged with the surah's number. |
| Models.ReadingInnerStep | src/quran_ebook/data/validate.py:119-120 | One step of the nested `for surah ... for ayah` loop appends exactly the next ayah to the reading order. |
| Models.ReadingOuterStep | src/quran_ebook/data/validate.py:119-120 | Finishing a surah's ayahs extends the reading order to the next prefix of the surahs. |
| Models.ReadingLength | src/quran_ebook/data/validate.py:119-120 | The reading order holds as many entries as the surahs hold ayahs. |
| Models.ReadingMembers | src/quran_ebook/data/validate.py:119-120 | Every entry of the reading order is an ayah of some surah, paired with that surah's number. |
| Models.ReadingMemberAt | src/quran_ebook/data/validate.py:119-120 | The same, for one position of the reading order. |
| Registry.Keys | src/quran_ebook/config/registry.py:97 | `d.keys()` lists the keys of a dictionary in insertion order, one per entry. |
| Registry.Lookup | src/quran_ebook/config/registry.py:204-205 | `d.get(k)` is absent exactly when `k` is not a key; otherwise it is a value stored under `k`. |
| Registry.LookupFrom | src/quran_ebook/config/registry.py:204-205 | A search from position `i` fails exactly when no later entry has the key. |
| Registry.IndexOf | src/quran_ebook/epub/builder.py:369-372 | The position of a key is that of its first entry, and there is none exactly when the key is absent. |
| Registry.IndexFrom | src/quran_ebook/epub/builder.py:369-372 | The same, searching from position `i`. |
| Registry.LookupFromIndex | src/quran_ebook/config/registry.py:204-205 | A lookup returns the value of the first entry with the key. |
| Registry.AssignLookup | src/quran_ebook/epub/builder.py:369-372 | After `d[name] = v`, looking up `name` gives `v` and every other key gives what it gave before. |
| Registry.AssignIndexSame | src/quran_ebook/epub/builder.py:369-372 | After `d[name] = v`, `name` is stored where it was before, or last when it is new, and holds `v`. |
| Registry.AssignIndexOther | src/quran_ebook/epub/builder.py:369-372 | `d[name] = v` leaves every other key at its position with its entry unchanged. |
| Registry.AssignKeys | src/quran_ebook/epub/builder.py:369-372 | `d[name] = v` keeps the keys in order and appends `name` only when it is new. |
| Registry.AssignAllSnoc | src/quran_ebook/epub/builder.py:369-372 | A run of assignments followed by one more is that run, then the one assignment. |
| Registry.AssignAllFresh | src/quran_ebook/epub/builder.py:369-372 | Assigning keys that are all new, each once, appends the entries in order. |
| Registry.ValidateScriptFontPair | src/quran_ebook/config/registry.py:86-116 | At most one warning. An unknown script gives the unknown-script warning. A known script with an unknown font gives the unknown-font warning. A registered font outside a non-empty pairing list gives the mismatch warning. Otherwise there is no warning. |
| Registry.DefaultFont | src/quran_ebook/config/registry.py:119-122 | The default font is the head of the script's pairing list, and there is none exactly when that list is empty or the script is unknown. |
| Registry.PairedFontsRegistered | src/quran_ebook/config/registry.py:29-83 | Every font named in a pairing list is a registered font. |
| Registry.DefaultFontValidates | src/quran_ebook/config/registry.py:86-122 | A script's default font passes validation with no warning. |
| Registry.IndopakAcceptsRegisteredFonts | src/quran_ebook/config/registry.py:82 | A script with an empty pairing list accepts every registered font without a warning. |
| Registry.Riwayah | src/quran_ebook/config/registry.py:161-163 | `get_riwayah` returns the table's riwayah for a listed script and "hafs" otherwise. |
| Registry.RiwayahAlwaysHafs | src/quran_ebook/config/registry.py:142-163 | Every script's riwayah is "hafs". |
| Registry.Abbreviate | src/quran_ebook/config/registry.py:190-205 | The short code comes from the category's table. An unknown category or key gives the key back unchanged. |
| Registry.AbbreviationsUsed | src/quran_ebook/config/registry.py:169-187 | The codes the default and the translated builds use: `kfgqpc`, `ayah` and `bilin`. |
| Schema.Warnings | src/quran_ebook/config/schema.py:53-65 | The configuration's warnings are exactly those of the script/font pairing check, so there is at most one. |
| Schema.AutoFilename | src/quran_ebook/config/schema.py:71-97 | The derived name is "quran", the riwayah, the font code, the layout code and the language, joined with "_". |
| Schema.OutputFilename | src/quran_ebook/config/schema.py:99-102 | A non-empty configured filename wins; otherwise the derived one is used. The result is never empty. |
| Schema.TranslatedFilename | src/quran_ebook/config/schema.py:79-97 | Any translated book is named `quran_hafs_{font}_bilin_{book}-{translation}-{abbreviation}`, whatever its configured structure. |
| Schema.ArabicOnlyFilename | src/quran_ebook/config/schema.py:79-97 | An Arabic-only book is named `quran_hafs_{font}_{layout}_{book language}`. |
| Schema.AutoFilenameDependsOnlyOnNamingInputs | src/quran_ebook/config/schema.py:71-97 | Two configurations that agree on script, font, structure, book language and translation language and abbreviation get the same derived name. |
| Schema.DefaultConfigHasNoWarnings | src/quran_ebook/config/schema.py:11-61 | The all-defaults configuration passes the pairing check. |
| Schema.DefaultConfigFilename | src/quran_ebook/config/schema.py:11-102 | The all-defaults configuration is named `quran_hafs_kfgqpc_ayah_ar`. |
| Validate.ExpectedAyahs | src/quran_ebook/data/validate.py:13-30 | `AYAH_COUNTS.get(n)` has an entry exactly for the surah numbers 1..114. |
| Validate.AyahCountsTotal | src/quran_ebook/data/validate.py:11-30 | The 114 canonical counts add up to 6236. |
| Validate.SurahCountMessage | src/quran_ebook/data/validate.py:64-67 | A corpus of 113 surahs is reported as "Expected 114 surahs, got 113". |
| Validate.SurahCountErrors | src/quran_ebook/data/validate.py:64-67 | There is one violation exactly when the corpus does not hold 114 surahs, and it carries the actual count. |
| Validate.CheckSurahOrdering | src/quran_ebook/data/validate.py:70-75 | The loop's result is the ordering specification over all surahs. |
| Validate.OrderingErrorsSound | src/quran_ebook/data/validate.py:70-75 | Every ordering violation names an index whose surah is not numbered index + 1, with that surah's number. |
| Validate.OrderingErrorsComplete | src/quran_ebook/data/validate.py:70-75 | Every misnumbered surah is reported. |
| Validate.OrderingErrorsExact | src/quran_ebook/data/validate.py:70-75 | No ordering violation exactly when surah i + 1 sits at index i for every i. |
| Validate.CheckAyahCounts | src/quran_ebook/data/validate.py:78-99 | The loop's result is the ayah-count specification: per surah, the table mismatch then the field mismatch, then the total. |
| Validate.AyahCountScanMeaning | src/quran_ebook/data/validate.py:78-95 | The running total is the number of ayahs, and the per-surah part is empty exactly when every surah agrees with the table and with its own count. |
| Validate.AyahCountErrorsMeaning | src/quran_ebook/data/validate.py:78-99 | No ayah-count violation exactly when every surah's counts agree and the corpus holds 6236 ayahs. |
| Validate.CheckAyahSequencing | src/quran_ebook/data/validate.py:102-114 | The nested loop with its `break` computes the sequencing specification. |
| Validate.FirstSequenceErrorMeaning | src/quran_ebook/data/validate.py:106-113 | The scan of one surah reports at most one violation: the first ayah whose number is not its index + 1. It reports none exactly when all are numbered in order. |
| Validate.SequencingErrorsMeaning | src/quran_ebook/data/validate.py:102-114 | At most one violation per surah, and none exactly when every surah's ayahs are numbered 1..N. |
| Validate.CheckEmptyText | src/quran_ebook/data/validate.py:117-124 | The loop's result is the empty-text specification over the reading order. |
| Validate.EmptyTextErrorsMeaning | src/quran_ebook/data/validate.py:117-124 | No empty-text violation exactly when no ayah's text is all whitespace. |
| Validate.CheckPageNumbers | src/quran_ebook/data/validate.py:127-146 | The loop, which skips ayahs without a page and moves `prev_page`, computes the page specification. |
| Validate.PageScanPrev | src/quran_ebook/data/validate.py:130-145 | `prev_page` is 0 or some page seen. When pages never decrease, it is the largest page seen so far. |
| Validate.PageErrorsMeaning | src/quran_ebook/data/validate.py:127-146 | No page violation exactly when every present page is in 1..604 and present pages never decrease in reading order. |
| Validate.BismillahErrors | src/quran_ebook/data/validate.py:149-156 | The short-text violation is reported exactly when the text has fewer than 10 code points. The mismatch is reported exactly when ayah 1:1 exists and differs from it. Nothing else is reported. |
| Validate.CheckForbiddenCodepoints | src/quran_ebook/data/validate.py:159-170 | The loop's result is the forbidden-code-point specification over the reading order. |
| Validate.ForbiddenErrorsMeaning | src/quran_ebook/data/validate.py:159-170 | No such violation exactly when no ayah's text holds U+06DE. |
| Validate.ValidateMushaf | src/quran_ebook/data/validate.py:43-61 | The checks run in the source's order and their violations are concatenated. The forbidden-code-point check runs only for QPC scripts. |
| Validate.ValidIffWellFormed | src/quran_ebook/data/validate.py:43-170 | The validator reports nothing exactly when the corpus is well formed: 114 surahs in order, counts agreeing, 6236 ayahs, ayahs numbered in order, no blank text, pages in range and non-decreasing, the bismillah present and matching 1:1, and no rub-al-hizb mark in a QPC text. |
| Validate.WellFormedShape | src/quran_ebook/data/validate.py:13-99 | In a well-formed corpus surah i + 1 sits at index i, holds its canonical number of ayahs, and the reading order visits 6236 ayahs. |
| Validate.TotalFollowsFromTable | src/quran_ebook/data/validate.py:86-98 | The total check is implied by the others: 114 in-order surahs whose counts agree with the table hold 6236 ayahs. |
| Validate.TotalAgreesPrefix | src/quran_ebook/data/validate.py:81-84 | The ayahs of the first n in-order surahs add up to the canonical counts of surahs 1..n. |
| QuranApi.StripTrailingNumber | src/quran_ebook/data/quran_api.py:38 | The trailing-number substitution either leaves the text alone or removes exactly a separator (NBSP or space) and a run of Arabic-Indic digits that reach the end or a final newline. |
| QuranApi.DigitRunStartIs | src/quran_ebook/data/quran_api.py:38 | The digit run the pattern takes before the end is the maximal one. |
| QuranApi.TrailingNumberRemoved | src/quran_ebook/data/quran_api.py:57 | An ayah number after a separator at the end of the text, or before a final newline, is removed and nothing else is. |
| QuranApi.RemoveRubAlHizb | src/quran_ebook/data/quran_api.py:58 | No rub-al-hizb mark is left, the text never grows, and a text without the mark is unchanged. |
| QuranApi.AddHairSpace | src/quran_ebook/data/quran_api.py:60 | Every sajdah sign is followed by a hair space, and every other character of the result was in the input. |
| QuranApi.StripQpcMarkers | src/quran_ebook/data/quran_api.py:50-61 | After the three clean-ups no rub-al-hizb mark is left, and every sajdah sign is followed by a hair space. |
| QuranApi.RemoveRubAlHizbFrom | src/quran_ebook/data/quran_api.py:43 | From any position the scan can resume at, the substitution keeps exactly the characters the per-position filter keeps. |
| QuranApi.RemoveRubAlHizbKept | src/quran_ebook/data/quran_api.py:43 | A character that is neither a mark nor an NBSP right after one is kept by both the substitution and the filter. |
| QuranApi.RemoveRubAlHizbPair | src/quran_ebook/data/quran_api.py:43 | A mark followed by an NBSP is removed together with that NBSP, as the optional `\xa0?` takes it. |
| QuranApi.RemoveRubAlHizbAlone | src/quran_ebook/data/quran_api.py:43 | A mark not followed by an NBSP is removed alone. |
| QuranApi.RemoveRubAlHizbKeeps | src/quran_ebook/data/quran_api.py:58 | `_RUB_ALHIZB.sub` keeps exactly the characters that are neither a rub-al-hizb mark nor an NBSP right after one, in order. |
| QuranApi.RemoveRubAlHizbNoNbsp | src/quran_ebook/data/quran_api.py:58 | Text without an NBSP loses exactly its rub-al-hizb marks. |
| QuranApi.AddHairSpaceAppend | src/quran_ebook/data/quran_api.py:60 | `str.replace` with a one-character pattern works character by character: it distributes over concatenation. |
| QuranApi.AddHairSpaceChar | src/quran_ebook/data/quran_api.py:60 | One sajdah sign becomes the sign and a hair space. Any other character stays as it is. |
| QuranApi.AddHairSpaceInverse | src/quran_ebook/data/quran_api.py:60 | Deleting the hair spaces from the result gives back any text that held none, so only hair spaces are inserted. |
| QuranApi.AddHairSpaceNoSajdah | src/quran_ebook/data/quran_api.py:60 | Text without a sajdah sign is unchanged. |
| QuranApi.StripQpcMarkersNumbered | src/quran_ebook/data/quran_api.py:57-60 | A text ending in a separator and Arabic-Indic digits (and possibly a newline) loses that number. The rest is filtered of marks and gets hair spaces. |
| QuranApi.StripQpcMarkersUnnumbered | src/quran_ebook/data/quran_api.py:57-60 | A text with no trailing number keeps all its content apart from the mark removal and the hair spaces. |
| QuranApi.StripQpcMarkersPlain | src/quran_ebook/data/quran_api.py:50-61 | A text with no trailing number, no rub-al-hizb mark and no sajdah sign comes back unchanged. |
| QuranApi.ValidMarkerElems | src/quran_ebook/data/quran_api.py:47 | A valid footnote marker is exactly one whose every part is a possible match of its element of the pattern. |
| QuranApi.MarkerTextParts | src/quran_ebook/data/quran_api.py:47 | A marker's parts, put together, are the marker as written. |
| QuranApi.MatchMarkerSound | src/quran_ebook/data/quran_api.py:47 | What the greedy match finds at a position is a valid marker written there. |
| QuranApi.MatchMarkerComplete | src/quran_ebook/data/quran_api.py:47 | A valid marker written at a position is found there, with exactly its id and number. |
| QuranApi.MarkerFollowOk | src/quran_ebook/data/quran_api.py:47 | Each repeating part of a valid marker is followed by a character it cannot take, so the greedy match is the regular-expression match. |
| QuranApi.PartsFollowOk | src/quran_ebook/data/quran_api.py:47 | The same follow conditions, on the parts of any valid marker. |
| QuranApi.FootnoteFor | src/quran_ebook/data/quran_api.py:232-236 | The recorded footnote has the marker's id and number as integers. Its text is the one stored under the id as written, or empty. |
| QuranApi.Step | src/quran_ebook/data/quran_api.py:242 | One step of the substitution always moves forward. |
| QuranApi.ProcessTranslationText | src/quran_ebook/data/quran_api.py:213-243 | The left-to-right loop gives the rewritten text and the footnotes in marker order, as the substitution specification says. |
| QuranApi.NoMarkersUnchanged | src/quran_ebook/data/quran_api.py:242-243 | A text without a footnote marker comes back unchanged, with no footnotes. |
| QuranApi.LanguageDirection | src/quran_ebook/data/quran_api.py:78-89 | The direction of the first language with the code, itself "ltr" when it has none, or "ltr" when no language has the code. |
| QuranApi.SortedScriptFieldsSorted | src/quran_ebook/data/quran_api.py:266-269 | The list in the unknown-script message holds exactly the script fields, in increasing order, as `sorted` gives them. |
| QuranApi.TranslationAt | src/quran_ebook/data/quran_api.py:303-304 | A verse has a translation record exactly when translations were fetched and there is one at its index. |
| QuranApi.LoadedAyah | src/quran_ebook/data/quran_api.py:295-320 | A loaded ayah keeps the verse's number, page, juz and quarter. Its hizb flag says the raw text held the mark. A QPC text has no mark left and any other text is unchanged. Sajdah follows the record, no page marker is set, and the translation is present exactly when a record was fetched, rewritten with its footnotes. |
| QuranApi.LoadedSurah | src/quran_ebook/data/quran_api.py:282-330 | A loaded surah keeps the chapter's metadata and has one ayah per fetched verse, in order. |
| QuranApi.LoadedSurahs | src/quran_ebook/data/quran_api.py:281-330 | One surah per chapter. |
| QuranApi.Load | src/quran_ebook/data/quran_api.py:246-344 | An unknown script is refused with its own error. Otherwise the load fails only when there is no ayah 1:1. On success the surahs are the loaded ones and the script is kept. |
| QuranApi.LoadAyah | src/quran_ebook/data/quran_api.py:295-320 | The body of the inner loop builds the loaded ayah. |
| QuranApi.LoadSurah | src/quran_ebook/data/quran_api.py:294-330 | The inner loop builds the loaded surah. |
| QuranApi.LoadQuran | src/quran_ebook/data/quran_api.py:246-344 | The loops give what the load specification gives. |
| QuranApi.LoadedBismillahMatches | src/quran_ebook/data/quran_api.py:332-339 | A loaded corpus never fails the bismillah-match check, since its bismillah is ayah 1:1. |
| QuranApi.LoadedQpcHasNoRubAlHizb | src/quran_ebook/data/quran_api.py:298-299 | A corpus loaded in a QPC script passes the forbidden-code-point check. |
| Pattern.RunEnd | src/quran_ebook/data/quran_api.py:47 | A greedy run ends within the text, at or after its start. |
| Pattern.RunEndMaximal | src/quran_ebook/data/quran_api.py:47 | A greedy run takes only characters of its class and stops at the first one that is not. |
| Pattern.RunEndIs | src/quran_ebook/data/quran_api.py:47 | A run of class characters that stops before a non-class character is exactly what the greedy run takes. |
| Pattern.ElemEnd | src/quran_ebook/data/quran_api.py:47 | An element that matches ends within the text. |
| Pattern.MatchElemsSound | src/quran_ebook/data/quran_api.py:47 | What the greedy match returns is a cut of the text into greedy parts. |
| Pattern.MatchElemsComplete | src/quran_ebook/data/quran_api.py:47 | Any cut of the text into greedy parts is what the greedy match returns, so there is only one. |
| Pattern.GreedyPartsElems | src/quran_ebook/data/quran_api.py:47 | Each greedy part is a possible match of its element. |
| Pattern.HasAtConcat | src/quran_ebook/data/quran_api.py:47 | `u + v` is written at a position exactly when `u` is, and `v` right after it. |
| Pattern.GreedyPartsWritten | src/quran_ebook/data/quran_api.py:47 | Greedy parts put back together are the text at the match position. |
| Pattern.WrittenGreedyParts | src/quran_ebook/data/quran_api.py:47 | Parts written one after another, each a possible match followed by a character it cannot take, are greedy parts. |
| Navigation.Westernized | src/quran_ebook/epub/builder.py:66-69 | The reverse digit table keeps the length of a string. |
| Navigation.ArabicNumerals | src/quran_ebook/epub/builder.py:66-69 | The Eastern form of `n` has as many characters as `str(n)`. |
| Navigation.ArabicNumeralsRoundTrip | src/quran_ebook/epub/builder.py:66-69 | Translating the Eastern digits back gives `str(n)`. For `n >= 0` every character is an Eastern digit, and the digits read back as `n`. |
| Navigation.LastPageMeaning | src/quran_ebook/epub/builder.py:78-83 | `prev_page` is unset exactly when no ayah visited has a page. Otherwise it is the page of the last ayah visited that has one. |
| Navigation.Mark | src/quran_ebook/epub/builder.py:81-82 | The pass changes nothing of an ayah but its page marker. |
| Navigation.MarkedReading | src/quran_ebook/epub/builder.py:78-83 | The pass keeps the number of ayahs. |
| Navigation.MarkedReadingSnoc | src/quran_ebook/epub/builder.py:78-83 | One more ayah is marked against the last page seen before it. |
| Navigation.MarkedReadingAt | src/quran_ebook/epub/builder.py:78-83 | Each ayah of the marked reading is that ayah marked against the pages of the ayahs before it. |
| Navigation.LastPageSnoc | src/quran_ebook/epub/builder.py:81-83 | `prev_page` moves to an ayah's page when it has one and stays otherwise. |
| Navigation.MarkStep | src/quran_ebook/epub/builder.py:80-83 | One iteration of the inner loop keeps the marked prefix and `prev_page` in step with the reading order. |
| Navigation.MarkSurahAyahs | src/quran_ebook/epub/builder.py:80-83 | The inner loop marks one surah's ayahs as the marked reading order says, keeps their number, and leaves `prev_page` at the last page seen. |
| Navigation.ComputePageMarkers | src/quran_ebook/epub/builder.py:72-83 | Only page markers change: the surahs keep their fields and ayah counts, and the new reading order is the marked reading order. |
| Navigation.PageMarkerMeaning | src/quran_ebook/epub/builder.py:72-83 | On an unmarked corpus an ayah is marked exactly when it has a page that differs from the last page seen before it, and then with that page. The first ayah with a page is always marked. Nothing else of the ayah changes. |
| Navigation.PageListSnoc | src/quran_ebook/epub/builder.py:99-104 | One more ayah adds an entry exactly when it has a marker, with its page, its page-break target and its decimal label. |
| Navigation.ComputePageList | src/quran_ebook/epub/builder.py:86-105 | The loop's entries are the page-list specification over the reading order. |
| Navigation.PageListEntries | src/quran_ebook/epub/builder.py:86-105 | Every entry belongs to a marked ayah, and there are no more entries than ayahs. |
| Navigation.LastPageBelow | src/quran_ebook/epub/builder.py:78-83 | With non-decreasing pages, the last page seen before an ayah is at most that ayah's page. |
| Navigation.PageListBounded | src/quran_ebook/epub/builder.py:72-105 | With non-decreasing pages, every page in the page list is at most the last page seen. |
| Navigation.IncreasingSnoc | src/quran_ebook/epub/builder.py:100-104 | Appending a page above every listed page keeps the list strictly increasing. |
| Navigation.PageListIncreasing | src/quran_ebook/epub/builder.py:72-105 | With non-decreasing pages, the page list of the marked corpus lists each page once, in increasing order. |
| Navigation.HasPageEntryAppend | src/quran_ebook/epub/builder.py:100-104 | Appending entries never loses a page. |
| Navigation.PageListCoversPages | src/quran_ebook/epub/builder.py:72-105 | On an unmarked corpus every page some ayah lies on gets an entry. |
| Navigation.PageListPagesAreAyahPages | src/quran_ebook/epub/builder.py:72-105 | On an unmarked corpus every entry is for a page some ayah lies on. |
| Navigation.ComputeJuzEntries | src/quran_ebook/epub/builder.py:108-130 | The loop's entries are the juz specification over the reading order. |
| Navigation.JuzScanFacts | src/quran_ebook/epub/builder.py:119-129 | `prev_juz` is the juz of the last entry and the last juz seen. Consecutive entries name different juz, and each carries the label "جزء" and its number in Eastern numerals. |
| Navigation.JuzEntriesSnoc | src/quran_ebook/epub/builder.py:122-129 | An ayah adds an entry exactly when it has a juz that differs from the last juz seen, and the entry links to that ayah. |
| Navigation.HasJuzEntryAppend | src/quran_ebook/epub/builder.py:123-128 | Appending entries never loses a juz. |
| Navigation.JuzEntriesCoverJuz | src/quran_ebook/epub/builder.py:108-130 | Every juz some ayah lies in gets an entry, and every entry is the juz of some ayah. |
| Builder.RenderChapters | src/quran_ebook/epub/builder.py:478-481 | The chapter loop of every layout builder gives one chapter item per surah, in surah order. It stores each surah's rendering under its chapter path. |
| Builder.ChapterSnoc | src/quran_ebook/epub/builder.py:478-481 | One more surah adds its chapter item and its chapter file. |
| Builder.ChapterItemsAt | src/quran_ebook/epub/builder.py:481 | Item k is `("chapter-{n}", "chapter-{n}.xhtml")` for the number n of surah k. |
| Builder.ChapterFilesAt | src/quran_ebook/epub/builder.py:479-480 | File k is the rendering of surah k, stored under `OEBPS/chapter-{n}.xhtml`. |
| Builder.ChapterItemsNumbered | src/quran_ebook/epub/builder.py:478-481 | For a corpus whose surahs are in order, the items are `chapter-1` .. `chapter-N`. |
| Builder.ChapterPathInjective | src/quran_ebook/epub/builder.py:480 | Different surah numbers give different chapter paths. |
| Builder.ChapterFilesDistinct | src/quran_ebook/epub/builder.py:478-481 | In a corpus whose surahs are in order, no two chapters overwrite each other's file. |
| Builder.TranslationNotesSnoc | src/quran_ebook/epub/builder.py:557-564 | One more ayah adds a popup exactly when its translation is non-empty. The popup holds its surah, its number, its translation with noteref links unwrapped, and its footnotes. |
| Builder.CollectTranslationNotes | src/quran_ebook/epub/builder.py:554-564 | The loop's popups are the popup specification over the reading order. |
| Builder.TranslationNotesExact | src/quran_ebook/epub/builder.py:554-564 | Every translated ayah has a popup, every popup belongs to a translated ayah, and there are no more popups than ayahs. |
| Builder.TranslationNotesSound | src/quran_ebook/epub/builder.py:554-564 | Every popup belongs to a translated ayah, so there are no more popups than ayahs. |
| Builder.TranslationNotesComplete | src/quran_ebook/epub/builder.py:554-564 | Every ayah with a non-empty translation has a popup. |
| Builder.BuildInteractive | src/quran_ebook/epub/builder.py:532-585 | The chapters go through the interactive template. Then the endnotes file holds every popup and no separate footnotes. It is written even when there are no popups, and its item is listed last. |
| Builder.IdsSnoc | src/quran_ebook/epub/builder.py:607 | Adding a footnote adds its id to the seen set. |
| Builder.DedupSnoc | src/quran_ebook/epub/builder.py:604-607 | A footnote is kept exactly when its id was not kept already. |
| Builder.AllFootnotesSnoc | src/quran_ebook/epub/builder.py:603-604 | One more ayah contributes its footnotes, in order. |
| Builder.AddFootnotes | src/quran_ebook/epub/builder.py:604-607 | The innermost loop extends the de-duplicated list by one ayah's footnotes. It keeps `seen_fn_ids` equal to the ids kept. |
| Builder.AddSurahFootnotes | src/quran_ebook/epub/builder.py:603-607 | The ayah loop extends the de-duplicated list by one surah's footnotes. |
| Builder.BuildBilingual | src/quran_ebook/epub/builder.py:588-637 | Each surah's chapter goes through the bilingual template. The endnotes file holds the de-duplicated footnotes. It is written, and listed last, only when there is one. |
| Builder.FirstPositionsFacts | src/quran_ebook/epub/builder.py:604-607 | The first-occurrence positions are increasing, each is a first occurrence, and every first occurrence is among them. |
| Builder.DedupIds | src/quran_ebook/epub/builder.py:604-607 | The kept footnotes have pairwise distinct ids, and every id found is among them. |
| Builder.DedupKeepsFirst | src/quran_ebook/epub/builder.py:604-607 | De-duplication keeps exactly the first footnote with each id, in order. |
| Builder.AllFootnotesEmpty | src/quran_ebook/epub/builder.py:619 | No footnote is collected exactly when no ayah has one. |
| Builder.AllFootnotesMembers | src/quran_ebook/epub/builder.py:602-604 | Every footnote of every ayah is collected. |
| Builder.EndnoteFootnotesCover | src/quran_ebook/epub/builder.py:599-626 | The endnotes list every footnote id found on any ayah exactly once. The list is empty, so no endnotes file is written, exactly when no ayah has a footnote. |
| Builder.SelectLayout | src/quran_ebook/epub/builder.py:411-430 | "interactive_inline" needs a translation and fails without one. Any other translated book is bilingual. An Arabic-only book is continuous for "inline" and by-surah otherwise. Each case holds in both directions. |
| Builder.JoinParts | src/quran_ebook/epub/builder.py:157 | `sep.join` of two, three or four parts puts `sep` between neighbours. |
| Builder.DescriptiveTitleShape | src/quran_ebook/epub/builder.py:141-157 | The title is the book title and the Arabic name of "hafs". A translated book adds the layout's Arabic label when there is one, then the translation's name, all joined with " — ". |
| Package.RenderPackageOpf | src/quran_ebook/epub/builder.py:171-268 | The loops build the manifest and the spine specifications. The package holds the book id of the output filename, the descriptive title, and the book's language followed by the translation's. |
| Package.ChapterManifestAt | src/quran_ebook/epub/builder.py:207-211 | Chapter item k is declared with its own id and href, as XHTML. |
| Package.ChapterSpineAt | src/quran_ebook/epub/builder.py:207-215 | Chapter item k is in the spine, linear unless its id is "endnotes". |
| Package.FontManifestAt | src/quran_ebook/epub/builder.py:223-228 | Font i is declared under `fonts/` with id "font-arabic" for the first and "font-symbol-{i}" for the others. |
| Package.SpineOrder | src/quran_ebook/epub/builder.py:201-215 | The reading order is the cover, the table of contents, then the chapter items in order. Only the "endnotes" entry is non-linear. |
| Package.ManifestLayout | src/quran_ebook/epub/builder.py:188-228 | The manifest is the navigation document, the cover, the chapter items in order, the stylesheet, then the fonts. |
| Package.SpineInManifest | src/quran_ebook/epub/builder.py:188-228 | Every spine entry refers to a document the manifest declares. |
| Package.FontIdsDistinct | src/quran_ebook/epub/builder.py:224 | Distinct font positions get distinct manifest ids. |
| Package.BookIdDependsOnlyOnNamingInputs | src/quran_ebook/epub/builder.py:183-184 | The book id depends only on the output filename. Two configurations without a set filename that agree on the naming inputs get the same id, so a rebuild keeps its identity. |
| Epub.SymbolFontRegistered | src/quran_ebook/epub/builder.py:350 | The symbol font key "scheherazade_new" is in the font registry, so `FONTS[SYMBOL_FONT_KEY]` never fails. |
| Epub.RenderLayout | src/quran_ebook/epub/builder.py:411-430 | The chosen layout builder returns its chapter items and leaves its files in the dictionary. |
| Epub.PathKinds | src/quran_ebook/epub/builder.py:369-457 | Each archive path the build writes has its own kind, so paths of different kinds never collide. |
| Epub.PutNewKind | src/quran_ebook/epub/builder.py:369-457 | Storing a path of a kind not stored yet appends it and stores no path twice. |
| Epub.PutNew | src/quran_ebook/epub/builder.py:369-457 | Storing a path not stored yet appends it. |
| Epub.ChapterFilesAppend | src/quran_ebook/epub/builder.py:478-481 | On a corpus whose surahs are in order, the chapter files are appended, each under a new path. |
| Epub.LayoutFilesAppend | src/quran_ebook/epub/builder.py:411-430 | On a corpus whose surahs are in order, a layout builder appends the chapter paths, and the endnotes path exactly when its layout writes endnotes. No path is stored twice. |
| Epub.EndnotesAppend | src/quran_ebook/epub/builder.py:411-430 | The endnotes file is added last, under a path not stored before. |
| Epub.MarkedFootnotes | src/quran_ebook/epub/builder.py:343 | The page-marker pass changes no footnote, so the endnotes do not depend on when it runs. |
| Epub.SameShapePaths | src/quran_ebook/epub/builder.py:343 | After the page-marker pass the surahs keep their numbers, so they keep their chapter paths and items. |
| Epub.SameShapeInOrder | src/quran_ebook/epub/builder.py:340-343 | The page-marker pass keeps the surahs in order. |
| Epub.PutNewKindIn | src/quran_ebook/epub/builder.py:369-457 | `files[path] = doc` for a path of a new kind appends exactly that entry. |
| Epub.WriteFront | src/quran_ebook/epub/builder.py:369-407 | The container description, the display options and the cover are the first three files. |
| Epub.WriteTail | src/quran_ebook/epub/builder.py:432-452 | After the layout's files come the table of contents and the stylesheet, then the text font. The symbol font follows only when it is a different file. The font list names exactly the fonts shipped. |
| Epub.WriteFonts | src/quran_ebook/epub/builder.py:447-452 | The text font is always written. The symbol font is added under a new path only when it is a different file. The returned font list names exactly the font files written. |
| Epub.PutSecondFont | src/quran_ebook/epub/builder.py:449-451 | A symbol font with a file name other than the text font's is stored under a new path after it. |
| Epub.ArchiveNames | src/quran_ebook/epub/builder.py:291-311 | The archive lists "mimetype" first, then the dictionary's paths. Every entry after the first is deflated, and the last holds the last file written. |
| Epub.WriteBookFiles | src/quran_ebook/epub/builder.py:369-457 | Every file goes into the dictionary in the order the build writes it, with the package document last. |
| Epub.WriteBook | src/quran_ebook/epub/builder.py:369-460 | The files of the book, zipped, form the book's archive. |
| Epub.BookArchiveOf | src/quran_ebook/epub/builder.py:454-460 | Zipping the book's files, with the package document last, gives an archive with "mimetype" stored first. Then come the book's paths in writing order, deflated, with the package document last. |
| Epub.CheckBuild | src/quran_ebook/epub/builder.py:321-413 | The build fails exactly when one of its checks fails, with the first failing check's error. The checks are the data source, the validator, the font registry and the layout, in that order. On success it gives the chosen layout, the text font and the symbol font. |
| Epub.BuildEpub | src/quran_ebook/epub/builder.py:315-469 | The build fails exactly as the checks say. On success it gives the book's archive: "mimetype" first and uncompressed, then every path in writing order, deflated, and the package document last. |
| Files.FileSet.Put | src/quran_ebook/epub/builder.py:372 | `files[name] = doc` is an insertion-ordered dictionary assignment. |
| Files.AssembleEpub | src/quran_ebook/epub/builder.py:291-311 | The loop's entries are the archive specification of the dictionary. |
| Files.ArchiveLayout | src/quran_ebook/epub/builder.py:291-311 | The archive has one more entry than the dictionary. The first is "mimetype", stored, with an empty extra field and the EPUB media type. Then every file follows in dictionary order, deflated. |
| Noteref.FindChar | src/quran_ebook/epub/builder.py:529 | The first position at or after `from` holding the character, or none when no later position holds it. |
| Noteref.FindText | src/quran_ebook/epub/builder.py:529 | The first position at or after `from` where the text is written, or none when it is written nowhere after. |
| Noteref.MatchAt | src/quran_ebook/epub/builder.py:529 | A match found at a position is a match of the noteref pattern there: `<a`, whitespace, attributes without `>` that contain `class="noteref"`, then the shortest newline-free link text before `</a>`. |
| Noteref.MatchAtComplete | src/quran_ebook/epub/builder.py:529 | Wherever the pattern matches, that match is found, with the first `>` and the first `</a>`. |
| Noteref.FindCharIs | src/quran_ebook/epub/builder.py:529 | The search finds the first occurrence. |
| Noteref.FindTextIs | src/quran_ebook/epub/builder.py:529 | The text search finds the first occurrence. |
| Noteref.NoAnchorUnchanged | src/quran_ebook/epub/builder.py:522-529 | Text in which no anchor tag opens comes back unchanged. |
| Noteref.StripAnchor | src/quran_ebook/epub/builder.py:522-529 | An anchor whose opening tag carries `class="noteref"` and whose link text is digits becomes `<sup>` around the digits. |
| Noteref.StripIngestedLink | src/quran_ebook/epub/builder.py:522-529 | The anchor the loader writes for a translator footnote becomes exactly `<sup>number</sup>`, so popups show plain superscripts. |
| Noteref.LinkHeadOpens | src/quran_ebook/data/quran_api.py:238 | The loader's anchor starts with `<a` and a space. |
| Noteref.LinkHeadHasNoGt | src/quran_ebook/data/quran_api.py:238 | The loader's anchor has no `>` before the footnote id. |
| Text.NatToString | src/quran_ebook/epub/builder.py:103 | `str(n)` is a non-empty string of digits, with no leading zero unless n is 0. |
| Text.DigitsValueOfNatToString | tools/build_dictionary.py:151-154 | Parsing `str(n)` with `int` gives n back. |
| Text.IntToString | src/quran_ebook/epub/builder.py:103 | `str(i)` is never empty. |
| Text.IntToStringInjective | src/quran_ebook/epub/builder.py:481 | Distinct integers have distinct decimal renderings. |
| Text.JoinCons | src/quran_ebook/config/schema.py:97 | Joining a non-empty tail after a first part puts exactly one separator between them. |
| Text.Split | tools/build_dictionary.py:146 | `split` gives at least one piece. |
| Text.SplitJoin | tools/build_dictionary.py:146 | `join` undoes `split` with the same separator, and no piece holds the separator. |
| Text.SplitCons | tools/build_dictionary.py:146 | A separator-free piece followed by the separator is cut exactly there. |
| Text.SplitNone | tools/build_dictionary.py:146 | A string without the separator is not split. |
| Text.SplitOfJoin | tools/build_dictionary.py:146 | Separator-free pieces joined by the separator split back into the same pieces. |
| Text.Words | tools/build_dictionary.py:270 | A string that starts with a non-space character has a first word that starts with it. |
| Text.WordsAreWords | tools/build_dictionary.py:270 | `split()` gives non-empty words with no whitespace in them. |
| Text.WordsConcat | tools/build_dictionary.py:270 | Together the words are exactly the input's non-whitespace characters, in order. |
| Text.WordsChars | tools/build_dictionary.py:270 | Every character of every word comes from the input. |
| Text.StripEmptyIffAllSpace | src/quran_ebook/data/validate.py:121-122 | A text strips to nothing exactly when it is all whitespace. |
| Text.TrimLeftEmpty | src/quran_ebook/data/validate.py:121 | `lstrip` gives nothing exactly for all-whitespace text; otherwise its result starts with a non-space character. |
| Text.TrimLeftSuffix | src/quran_ebook/data/validate.py:121 | `lstrip` gives a suffix of its input. |
| Text.TrimRightEmpty | src/quran_ebook/data/validate.py:121 | `rstrip` gives nothing exactly for all-whitespace text. |
| Text.Lower | tools/build_dictionary.py:337 | `lower` keeps the length. |
| Text.RemoveChar | tools/build_dictionary.py:268 | Removing a character leaves none of it and adds no new character. |
| Utf8.EncodeChar | src/quran_ebook/epub/builder.py:372 | A code point is encoded in one to four bytes, with a zero byte only for NUL. |
| Utf8.DecodeEncodeChar | src/quran_ebook/epub/builder.py:372 | Decoding one code point's bytes gives that code point back. |
| Utf8.DecodeEncode | src/quran_ebook/epub/builder.py:372 | Decoding the UTF-8 encoding of a string gives the string back. |
| Utf8.EncodeInjective | tools/build_dictionary.py:404-409 | Different strings have different encodings. |
| Utf8.EncodeAppend | tools/build_dictionary.py:404-409 | The encoding of a concatenation is the concatenation of the encodings. |
| Utf8.EncodeNul | tools/build_dictionary.py:409-411 | The encoding holds a zero byte exactly when the string holds NUL, so a headword's NUL terminator cannot be confused with its text. |
| Dictionary.PauseRunStart | tools/build_dictionary.py:254 | The run of pause marks that ends at a position is all pause marks and maximal. |
| Dictionary.PauseRunStartIs | tools/build_dictionary.py:254 | A maximal run of pause marks ending at a position is the one found. |
| Dictionary.StripPauseMarks | tools/build_dictionary.py:257-259 | Exactly the maximal run of pause marks at the end of the word is removed, or before a final newline, where `$` also matches. |
| Dictionary.StripPauseMarksUnchanged | tools/build_dictionary.py:257-259 | A word is left as it is exactly when it does not end in a pause mark. |
| Dictionary.StripPauseMarksOfWord | tools/build_dictionary.py:257-259 | A stem that does not end in a pause mark, followed by pause marks, loses exactly the marks. |
| Dictionary.StripPauseMarksIdempotent | tools/build_dictionary.py:257-259 | For a word without a newline, stripping twice is stripping once, and the result does not end in a pause mark. |
| Dictionary.SpaceRunStart | tools/build_dictionary.py:232 | The run of whitespace that ends at a position is all whitespace and maximal. |
| Dictionary.SpaceRunStartIs | tools/build_dictionary.py:232 | A maximal whitespace run ending at a position is the one found. |
| Dictionary.VerseNumberTailAt | tools/build_dictionary.py:232 | Whitespace, Arabic-Indic digits and whitespace at the end of the text form the verse-number tail. |
| Dictionary.StripVerseNumber | tools/build_dictionary.py:267 | The substitution leaves the text alone, or removes a suffix that is a verse-number tail and keeps the text before it. |
| Dictionary.StripVerseNumberAt | tools/build_dictionary.py:267 | A text that ends in a verse-number tail starting after a character that is neither whitespace nor a digit loses exactly that tail. |
| Dictionary.StripVerseNumberNone | tools/build_dictionary.py:267 | A text whose last non-space character is not an Arabic-Indic digit keeps its text. |
| Dictionary.ExtractQpcWords | tools/build_dictionary.py:262-270 | Every word is non-empty and holds neither whitespace nor a rub-al-hizb mark. Together the words are all the other characters of the verse after its number is stripped, in order. |
| Dictionary.PythonIntOfIntToString | tools/build_dictionary.py:172 | `int` reads back what `str` writes for every integer. |
| Dictionary.ReadTags | tools/build_dictionary.py:159-176 | The details are tags other than `ROOT:`, `LEM:` and `VF:`, taken from the list, and a root is set only when a `ROOT:` tag exists. |
| Dictionary.ReadTagsLastRoot | tools/build_dictionary.py:165-167 | Within one segment the last `ROOT:` tag gives the root. |
| Dictionary.ReadTagsLastLemma | tools/build_dictionary.py:168-169 | Within one segment the last `LEM:` tag gives the lemma. |
| Dictionary.ParseLineOf | tools/build_dictionary.py:143-176 | A line made of a four-part location, the Arabic segment, the part of speech and the tags, joined by tabs, is read as the word key `surah:ayah:word` and the segment's record. |
| Dictionary.ParseLineKey | tools/build_dictionary.py:151-156 | The key of an accepted line is the first three colon parts of its location. |
| Dictionary.ParseTagList | tools/build_dictionary.py:165-176 | The tag loop computes the tag specification. |
| Dictionary.ParseMorphology | tools/build_dictionary.py:123-199 | A missing file gives an empty table. Otherwise every accepted line is recorded under its word key, merging into the record already there. |
| Dictionary.MergedSnoc | tools/build_dictionary.py:178-197 | One more segment is recorded as itself for a new word and merged otherwise. |
| Dictionary.MorphologyLookup | tools/build_dictionary.py:123-199 | Under each key the table holds the merge of exactly that key's segments, in file order. |
| Dictionary.KeySegmentsNonEmpty | tools/build_dictionary.py:141-156 | A key has segments exactly when some accepted line carries it. |
| Dictionary.MorphologyKeys | tools/build_dictionary.py:123-199 | The table's keys are exactly the keys of the accepted lines. |
| Dictionary.MergedRoot | tools/build_dictionary.py:189-190 | The first segment with a non-empty root gives the word its root. With none, the first segment's stays. |
| Dictionary.MergedLemma | tools/build_dictionary.py:191-192 | The first segment with a non-empty lemma gives the word its lemma. With none, the first segment's stays. |
| Dictionary.MergedVerbForm | tools/build_dictionary.py:193-194 | The first segment with a non-zero verb form gives the word its form. With none, the first segment's stays. |
| Dictionary.MergedPos | tools/build_dictionary.py:179-197 | A word keeps its first segment's details and part of speech. A particle becomes the first later verb or noun and is never lowered back. |
| Dictionary.Lowers | tools/build_dictionary.py:337 | One lower-cased spelling per translation. |
| Dictionary.UniqueTranslationsFrom | tools/build_dictionary.py:333-340 | Every kept translation is a non-empty stripped input. |
| Dictionary.UniqueTranslationsFacts | tools/build_dictionary.py:333-340 | The kept translations differ pairwise ignoring case, and every non-blank input has its spelling among them. |
| Dictionary.FirstKeptPrefix | tools/build_dictionary.py:335-340 | Whether an earlier translation is the first of its spelling does not depend on later ones. |
| Dictionary.KeptPositionsFacts | tools/build_dictionary.py:335-340 | The kept positions are increasing, each is the first of its spelling, and every such first is kept. |
| Dictionary.KeptPositionsSound | tools/build_dictionary.py:335-340 | Each kept position is the first of its spelling, and the positions increase. |
| Dictionary.KeptPositionsComplete | tools/build_dictionary.py:335-340 | Every translation that is the first of its spelling is kept. |
| Dictionary.KeptIffFirst | tools/build_dictionary.py:338-340 | The last translation is kept exactly when it is the first non-blank one with its spelling. |
| Dictionary.UniqueTranslationsKeepFirst | tools/build_dictionary.py:333-340 | De-duplication keeps the first spelling of each translation, stripped, in input order. |
| Dictionary.DedupTranslations | tools/build_dictionary.py:333-340 | The loop with its `seen` set computes the de-duplication specification. |
| Dictionary.TruncateSummary | tools/build_dictionary.py:371-373 | A summary over 200 characters becomes its first 197 characters and "...". A shorter one is unchanged. |
| Dictionary.JoinWithout | tools/build_dictionary.py:380 | Joining pieces without a character, with a separator without it, gives text without it. |
| Dictionary.LocationTextTotal | tools/build_dictionary.py:377-383 | The location line shows the total, after an ellipsis, exactly when there are more than five locations. |
| Dictionary.JoinNonEmpty | tools/build_dictionary.py:385 | Joining pieces whose first is non-empty gives non-empty text. |
| Dictionary.TranslationPartPresent | tools/build_dictionary.py:342-343 | The translation part is there exactly when some translation is not blank, and then it is not empty. |
| Dictionary.EntryHtmlEmpty | tools/build_dictionary.py:322-385 | An entry's HTML is empty exactly when it has no non-blank translation, no transliteration, no morphology to show, no root summary and no location. |
| Dictionary.MorphLine | tools/build_dictionary.py:350-366 | The appends build the morphology line's pieces. |
| Dictionary.BuildEntryHtml | tools/build_dictionary.py:322-385 | Growing the list of parts step by step gives the entry specification. |
| Dictionary.NormalizeHeadwords | tools/build_dictionary.py:571-583 | The normalisation loop fills the canonical table as the specification says. |
| Dictionary.GatheredSnoc | tools/build_dictionary.py:573-583 | One more raw headword merges into its canonical entry. |
| Dictionary.NormalizedLookup | tools/build_dictionary.py:560-583 | Each canonical headword holds exactly what its group of raw headwords gathers, and a form no raw headword strips to has no entry. |
| Dictionary.GroupMembers | tools/build_dictionary.py:571-573 | The group of a canonical form is the raw headwords that strip to it. It is non-empty exactly when one does. |
| Dictionary.NormalizedKeys | tools/build_dictionary.py:571-573 | The canonical headwords are exactly the pause-stripped raw headwords. |
| Dictionary.NormalizedKeysClean | tools/build_dictionary.py:571-573 | When no raw headword holds a newline, no canonical headword ends in a pause mark. |
| Dictionary.GatheredLists | tools/build_dictionary.py:574-581 | A canonical entry's translations and locations are its members', in order, with nothing dropped. |
| Dictionary.GatheredVariants | tools/build_dictionary.py:582-583 | The variants are the members' headwords that differ from the canonical form. |
| Dictionary.GatheredTransliteration | tools/build_dictionary.py:575-576 | The first member with a non-empty transliteration gives it. With none there is none. |
| Dictionary.GatheredMorph | tools/build_dictionary.py:577-578 | The first member with morphology gives it. With none there is none. |
| Dictionary.GatheredRoot | tools/build_dictionary.py:579-580 | The first member with a non-empty root gives it. With none there is none. |
| StarDict.PackU32 | tools/build_dictionary.py:411 | `struct.pack(">I", n)` gives four bytes. |
| StarDict.UnpackPack | tools/build_dictionary.py:411 | Unpacking a packed value gives it back, so the big-endian layout loses nothing. |
| StarDict.DictDataSnoc | tools/build_dictionary.py:403-407 | Each definition's UTF-8 bytes are appended to `.dict`. |
| StarDict.DictDataPrefix | tools/build_dictionary.py:403-407 | Earlier `.dict` contents are prefixes of later ones. |
| StarDict.PrefixOffsets | tools/build_dictionary.py:405-406 | The offsets and sizes computed so far do not change as more entries follow. |
| StarDict.IdxRecordsSnoc | tools/build_dictionary.py:409-412 | One more entry whose offset and size fit adds its record: the UTF-8 headword, a NUL, then the offset and the size. |
| StarDict.UnfitEntry | tools/build_dictionary.py:411 | An entry whose offset or size does not fit in four bytes makes the write fail. |
| StarDict.SumLengthsFlatten | tools/build_dictionary.py:428 | `idxfilesize` is the length of the records written one after the other. |
| StarDict.WriteStardict | tools/build_dictionary.py:392-440 | The loop fails with the `struct.error` text exactly when some offset or size does not fit. Otherwise it gives the `.dict`, `.idx` and `.ifo` contents of the specification. |
| StarDict.DictEntryAt | tools/build_dictionary.py:403-407 | Definition k sits in `.dict` at its offset, for its size, and the next one starts where it ends. |
| StarDict.DictEnds | tools/build_dictionary.py:403-407 | `.dict` starts with the first definition and ends with the last. |
| StarDict.FindNul | tools/build_dictionary.py:411 | The first zero byte at or after a position, or none. |
| StarDict.ParseIdxRecord | tools/build_dictionary.py:411 | A record with a NUL-free headword reads back to its headword, offset and size. |
| StarDict.FindNulIs | tools/build_dictionary.py:411 | The search finds the first zero byte. |
| StarDict.FlattenCons | tools/build_dictionary.py:425-426 | The records written one after the other start with the first record. |
| StarDict.ParseRecords | tools/build_dictionary.py:421-426 | Records of NUL-free headwords read back, in order, to their fields. |
| StarDict.IdxRoundTrip | tools/build_dictionary.py:392-426 | When no headword holds NUL, reading `.idx` back gives every entry in order, with its UTF-8 headword and its definition's offset and size in `.dict`. The headword bytes decode back to the headword. |
| StarDict.SplitLines | tools/build_dictionary.py:429-438 | Newline-free lines, each ended by a newline, split back into those lines and an empty tail. |
| StarDict.IfoLinesOneLine | tools/build_dictionary.py:429-438 | No `.ifo` line holds a newline. |
| StarDict.IfoReadBack | tools/build_dictionary.py:427-438 | Read back line by line, `.ifo` has eight lines. The third is `wordcount=` and the number of entries, and the fourth is `idxfilesize=` and the length of `.idx`. |

## Left out

- Network, cache and file I/O are not modelled: the `_fetch_*` functions of `quran_api.py`, the HTTP loop, the sleeps and the caches of the dictionary tool, font downloads, and every file read or write. What they would return enters the model as parameters: the fetched chapters, verses and translation records, the language list, the morphology file's lines, the raw word table and the Lane's root summaries. The result of a build is the archive's entry list, not a written file.
- The Tanzil loader (`data/tanzil.py`) is not part of this model. `Epub.BuildEpub` takes the loaded corpus as a parameter, whichever source loaded it.
- Template rendering (Jinja2) is not modelled. Each rendered document is a `Files.Doc` value naming its template and some of its arguments. The following arguments are not part of the documents:
  - `Files.ChapterPage` holds the template and the surah. It leaves out `bismillah_text`, which every chapter render receives (`epub/builder.py:479`). It also leaves out the bilingual render's `translation_lang` and `translation_dir` (`epub/builder.py:609-614`).
  - `Files.CoverPage` holds the title and the font. It leaves out the subtitle, the translation label and the `layout_descriptor` (`epub/builder.py:388-405`).
  - The endnotes language and direction, the generator version and the CSS substitutions are also left out.
- ZIP encoding (local headers, DEFLATE, CRCs) is not modelled. An archive is the list of its entries, each with a name, compression method, extra field and content.
- `uuid.uuid5` (section 4.3 of RFC 4122) is an uninterpreted function parameter. The `dcterms:modified` timestamp, the package version and the OPF `dc:description` text are left out of the package document.
- `LAYOUT_LABELS`, `RIWAYAH_ARABIC` and `NATIVE_LANGUAGE_NAMES` are imported by `epub/builder.py` but are not defined in `config/registry.py`. The label tables enter `Builder.DescriptiveTitle` as parameters, and the native language name (used only on the cover) is not modelled.
- `get_font_path` and the font bytes are not modelled. A font file is named by its registry key.
- `Navigation.ComputePageMarkers`: the source updates the ayah records in place. The model returns the updated corpus as a new value, so aliasing of ayah records is not captured.
- `QuranApi.Load`: the Surah record has no `name_translation` field, so the translated chapter name the loader passes is dropped. The pagination of the verse fetch is not modelled, and the model requires one fetched verse list (and one translation list) per chapter.
- `QuranApi.Load`: the converse of its error case (a corpus without ayah 1:1 always fails) is not stated. Only "it fails only then" is.
- `Text.IsSpace` lists Python's whitespace code points. `Text.Lower` lowers ASCII letters only, not the full Unicode case mapping.
- QuranApi.ProcessTranslationText / Pattern.InClass: `\d` in the footnote pattern is read as the ASCII digits 0-9. Python matches any Unicode decimal digit (category Nd) there, and `int()` accepts those too. So a marker written with, say, Arabic-Indic digits (`<sup foot_note=١٢>١</sup>`) is rewritten by the source but left unchanged by the model.
- `Dictionary.PythonIntOfIntToString`: Python's `int()` also accepts underscores and non-ASCII digits. The model reads an optional sign and ASCII digits only.
- The morphology file arrives already split into lines (`str.splitlines`), so the other line separators Python recognises are not modelled.
- `Dictionary.StripPauseMarksIdempotent` is stated for words without a newline only. That holds for every headword, since headwords come from a split at whitespace.
- `Dictionary.LocationTextTotal` assumes verse keys without an ellipsis character. That holds for the `surah:ayah` keys the tool builds.
- Step 5 of the dictionary tool is not modelled: sorting the canonical headwords, building one entry per headword and one synonym entry per variant. `StarDict.WriteStardict` takes the entry list as given.
- The `dictzip` compression and the prints of `write_stardict` are not modelled. A `struct.error` from `struct.pack` becomes an `Err` result.
- `Schema.Warnings`: the validator stores the warnings on the configuration once. The model computes them as a function of the configuration.
