# wordnet2db core, modelled in Dafny

wordnet2db reads Princeton WordNet's `index.*` and `data.*` files and writes a
dictionary of English words and their definitions. The output is one of three
forms: an SQLite database, a file of SQL statements, or a JSON file.

This project models the three parts of the program that hold its logic:

- **Directory scan** (`get_paths`, src/file_handler/mod.rs). It sorts the
  directory entries into index files and data files, then pairs every index file
  with every data file that has the same extension. `IndexDataPair` holds one such
  pair. Module `FileHandler`.
- **Parser** (`get_word_data`, src/dictionary_handler/mod.rs). It reads every
  index line. It skips license lines and words the command-line filters reject. It
  takes the synset byte offsets from the rest. It records the words, each with its
  set of offsets. It reads the gloss at each offset from the data file; the first
  pair to list an offset gives its definition. These modules cover it:
  - `IndexLine` handles one index line.
  - `DataLine` extracts the gloss.
  - `Text` holds the quote escaping and the UTF-8 byte length.
  - `Args` holds the filter arguments.
  - `DictionaryHandler` is the loop itself.
  - `DictionaryProperties` holds what the loop's result means.
- **Exporters.**
  - `word_data_to_json` lists the words in key order, each with the definitions
    of its offsets. Module `DictionaryHandler`.
  - `create_word_database` and `dump_sql` walk the words in key order. Each word
    gets a word id. The first time an offset is seen with a known definition, it
    gets a definition id. Every offset that has a definition id gets a
    `word_definition` row. `dump_sql` also writes the `sqlite_sequence` trailer.
    Modules `IdAssignment` (the shared id assignment, as a fold over rows),
    `DbHandler` (the two loops as methods) and `DbProperties` (the tables the loops
    produce).

Two parts of the Rust code have no fixed order, and the model treats them as
inputs:

- **HashSet iteration.** A `HashSet` is iterated in an arbitrary order. Each loop
  over such a set picks its elements with `:|`. It returns the order it used as a
  ghost sequence, and `Enumerates(order, s)` states that this order lists `s`
  exactly once. Every property below holds for every such order.
- **BTreeMap iteration.** A `BTreeMap<String, _>` is iterated in byte order of its
  keys. This is `KeyOrder.SortedKeys`, ordered by `KeyOrder.Below`.

The inputs that come from the file system are given as values:

- A directory listing is a `Result` holding one `Option<string>` per entry: `None`
  for an entry that could not be read, or `IoError` when the listing itself fails.
- A pair's index file is its sequence of lines, each as `read_line` returns it: with its
  line ending, except perhaps the last line. `HeadToken` of a space-free line and the
  length filter both see that `"\n"`.
- A pair's data file is a function from a byte offset to `Some(line)`, or to
  `None` when the seek or read fails.

## Model

| member | source | states |
|---|---|---|
| FileHandler.GettersOfNew | src/file_handler/mod.rs:12-22 | the getters of a new pair return the index path and the data path it was built from |
| FileHandler.NewOfGetters | src/file_handler/mod.rs:6-22 | a pair is the pair built from its own getters' results |
| FileHandler.LastDot | src/file_handler/mod.rs:68 | the position found holds a dot and no later position does; none is found only when the name has no dot |
| FileHandler.FileExtension | src/file_handler/mod.rs:68 | `Path::extension` of a file name: the text after the last dot, or none for "..", for no dot and for a dot only in front; characterised by the three lemmas below |
| FileHandler.FileExtensionShape | src/file_handler/mod.rs:68 | when `extension()` is present, the file name is a non-empty stem, a dot and that extension, and the extension has no dot |
| FileHandler.FileExtensionOfStem | src/file_handler/mod.rs:68 | conversely, a non-empty stem, a dot and a dot-free extension give exactly that extension |
| FileHandler.FileExtensionNone | src/file_handler/mod.rs:68 | `extension()` is absent if and only if the name is "..", or has no dot after its first character |
| FileHandler.Listed | src/file_handler/mod.rs:45-59 | an entry name goes into the list for a part when it is not "index.sense" and contains the part; characterised by PathsContainingMembers |
| FileHandler.PathsContaining | src/file_handler/mod.rs:40-60 | the paths collected for a part, in entry order; never more than the entries |
| FileHandler.PathsContainingMembers | src/file_handler/mod.rs:40-59 | a path is collected for a part ("index" or "data") if and only if a readable entry has that name, that name is not "index.sense", and it contains the part |
| FileHandler.IgnoredIndexInNeither | src/file_handler/mod.rs:31-47 | "index.sense" is neither an index file nor a data file |
| FileHandler.ListedInBoth | src/file_handler/mod.rs:49-59 | a name containing both "index" and "data" is collected in both lists |
| FileHandler.PathsContainingAppend | src/file_handler/mod.rs:40-60 | the collection over two listings joined is the two collections joined |
| FileHandler.PathsInEntryOrder | src/file_handler/mod.rs:50-58 | collected paths keep the order of the directory entries they come from |
| FileHandler.Matches | src/file_handler/mod.rs:67-72 | the pairs one pass of the inner loop yields, no more than the data paths; characterised by MatchesMembers and MatchesCount |
| FileHandler.Pairing | src/file_handler/mod.rs:63-75 | the pairs of the nested loop; characterised by PairingMembers, PairingByCells and PairingCount |
| FileHandler.Classify | src/file_handler/mod.rs:40-60 | the loop over the entries returns exactly the index list and the data list that the collection function defines |
| FileHandler.PairWith | src/file_handler/mod.rs:67-72 | one pass of the inner loop appends, in order, one pair for each data path with the same extension; the `continue` does not end the pass |
| FileHandler.PairPaths | src/file_handler/mod.rs:63-73 | the nested loop returns exactly the pairing function of the two lists |
| FileHandler.GetPaths | src/file_handler/mod.rs:26-76 | a failed listing is an error and nothing else is; a good listing gives the pairing of its index and data lists |
| FileHandler.MatchesMembers | src/file_handler/mod.rs:67-72 | a pair comes out of one pass if and only if its data path is in the list and has the index path's extension |
| FileHandler.PairingMembers | src/file_handler/mod.rs:63-75 | a pair comes out if and only if its index path is an index file, its data path is a data file, and their extensions are equal |
| FileHandler.GetPathsMembers | src/file_handler/mod.rs:26-76 | the same, stated over the directory entries' names |
| FileHandler.CellsSorted | src/file_handler/mod.rs:66-67 | the grid cells visited are strictly increasing: index outer, data inner |
| FileHandler.CellsExact | src/file_handler/mod.rs:66-68 | the cells visited are exactly the (index, data) positions whose extensions are equal |
| FileHandler.PairingByCells | src/file_handler/mod.rs:66-69 | the k-th pair returned is built from the k-th of those cells, so pairs come out in index-major order |
| FileHandler.MatchesCount | src/file_handler/mod.rs:67-72 | one pass yields as many pairs as there are data positions with the index path's extension |
| FileHandler.PairingCount | src/file_handler/mod.rs:63-75 | the number of pairs is the sum over index files of their matching data files |
| Text.Utf8Len | src/dictionary_handler/mod.rs:85 | `String::len` counts bytes: at least the number of characters and at most four times it |
| Text.Utf8LenAscii | src/dictionary_handler/mod.rs:85 | for ASCII text the byte length is the character count |
| Text.Utf8LenAppend | src/dictionary_handler/mod.rs:85 | the byte length of a concatenation is the sum of the byte lengths |
| Text.EscapeQuotes | src/dictionary_handler/mod.rs:70 | `replace("'", "''")`: never shorter than its input; UnescapeEscape undoes it |
| Text.UnescapeEscape | src/dictionary_handler/mod.rs:70 | doubling single quotes is undone by halving them, so no text is lost |
| Text.EscapeQuotesNoQuote | src/dictionary_handler/mod.rs:70 | text without a single quote is unchanged by the escaping |
| IndexLine.IsLicenseLine | src/dictionary_handler/mod.rs:64 | a line starting with two spaces; LicenseLineIgnored states that it has no effect |
| IndexLine.LengthAccepted | src/dictionary_handler/mod.rs:84-95 | the length list when it is non-empty, otherwise the minimum and maximum bounds; its consequences are in ParseIndexLine and AggregateFilter |
| IndexLine.WordAccepted | src/dictionary_handler/mod.rs:72-95 | the number filter, the whole-word filter and the length filter together; its consequences are in ParseIndexLine and AggregateFilter |
| IndexLine.DefaultsAccept | src/main.rs:32-43 | with the default arguments a word is kept if and only if it has no digit and is at most 45 bytes long |
| IndexLine.HeadToken | src/dictionary_handler/mod.rs:70 | the word is the longest space-free prefix of the line, and a space follows it unless it is the whole line |
| IndexLine.DecimalValue | src/dictionary_handler/mod.rs:99 | the value of n digits is below 10 to the n |
| IndexLine.MatchesFrom | src/dictionary_handler/mod.rs:98-100 | every match position found is a place where the offset regex matches, and successive matches do not overlap |
| IndexLine.MatchesFromComplete | src/dictionary_handler/mod.rs:98-100 | every place the offset regex matches is found |
| IndexLine.OffsetValue | src/dictionary_handler/mod.rs:99 | an eight-digit offset parses to a value below 100000000, so the u64 parse never fails |
| IndexLine.OffsetsOf | src/dictionary_handler/mod.rs:98-100 | one offset per match, each below 100000000 |
| IndexLine.OffsetsOfSound | src/dictionary_handler/mod.rs:98-100 | every offset collected is the value of a match of the offset regex |
| IndexLine.OffsetsOfComplete | src/dictionary_handler/mod.rs:98-100 | the value of every match of the offset regex is collected |
| IndexLine.ParseIndexLine | src/dictionary_handler/mod.rs:63-100 | a license line is skipped; a skipped non-license line is one the filters reject; a kept line gives the escaped head word (digit-free unless numbers are kept, punctuation- and space-free for whole words, byte length in the list or within the bounds) and its offsets |
| DataLine.MatchEnd | src/dictionary_handler/mod.rs:36 | the definition regex matches from a bar at a given position exactly up to the end returned, and to no later end |
| DataLine.FirstMatch | src/dictionary_handler/mod.rs:121-126 | the match start returned is the leftmost bar at which the definition regex matches |
| DataLine.Gloss | src/dictionary_handler/mod.rs:121-126 | the quote-escaped capture of the first match, or empty; characterised by GlossIsLeftmostLongest and GlossEmptyIffNoMatch |
| DataLine.GlossIsLeftmostLongest | src/dictionary_handler/mod.rs:121-126 | the gloss is the capture of the leftmost match, taken to its longest end, with its quotes doubled |
| DataLine.GlossEmptyIffNoMatch | src/dictionary_handler/mod.rs:121-126 | the gloss is empty exactly when the regex does not match the line |
| Iteration.CountInEnumeration | src/dictionary_handler/mod.rs:159-163 | an order that lists a set once meets a second set as often as the two sets share elements |
| KeyOrder.BelowTransitive | src/dictionary_handler/mod.rs:12 | the key order of the BTreeMap is transitive |
| KeyOrder.BelowTotal | src/dictionary_handler/mod.rs:12 | any two distinct keys are ordered one way |
| KeyOrder.SortedKeys | src/dictionary_handler/mod.rs:154 | the keys visited are exactly the keys of the map, one position per key |
| KeyOrder.SortedKeysAscending | src/dictionary_handler/mod.rs:154 | the keys are visited strictly ascending, no key twice |
| DictionaryHandler.ResolveOffsets | src/dictionary_handler/mod.rs:113-133 | the offset loop: read each offset, keep an existing definition, or fail on a bad read; characterised by ResolveOffsetsEffect and ResolveOffsetsFails |
| DictionaryHandler.AddEntry | src/dictionary_handler/mod.rs:102-110 | the word gets the union of its old and new offsets; part of LineEffect |
| DictionaryHandler.AddLine | src/dictionary_handler/mod.rs:63-135 | one index line; characterised by LineEffect |
| DictionaryHandler.AddLines | src/dictionary_handler/mod.rs:62-136 | one index file; characterised by AddLinesEffect, AddLinesFails and LicenseLineIgnored |
| DictionaryHandler.AddPairs | src/dictionary_handler/mod.rs:48-137 | all the pairs; characterised by AddPairsEffect, AddPairsFirstWriter and AddPairsFails |
| DictionaryHandler.Aggregate | src/dictionary_handler/mod.rs:27-140 | the result of `get_word_data`; characterised by AggregateWords, AggregateDefinitions and AggregateFilter |
| DictionaryHandler.GetWordData | src/dictionary_handler/mod.rs:27-140 | the nested loops over pairs, lines and offsets compute the aggregate function of the pairs and the arguments |
| DictionaryHandler.DefinitionsOf | src/dictionary_handler/mod.rs:159-163 | the definitions of the offsets in a visiting order; one per offset that has a definition |
| DictionaryHandler.DefinitionsOfSound | src/dictionary_handler/mod.rs:159-163 | every definition listed for a word is the definition of one of the offsets visited |
| DictionaryHandler.DefinitionsOfComplete | src/dictionary_handler/mod.rs:159-163 | every visited offset that has a definition contributes it |
| DictionaryHandler.DefinitionsOfEnumeration | src/dictionary_handler/mod.rs:159-163 | for any visiting order of a word's offsets, one definition per offset that has one, and exactly those definitions |
| DictionaryHandler.CollectDefinitions | src/dictionary_handler/mod.rs:159-163 | the inner loop visits the offset set in some order and collects the definitions of that order |
| DictionaryHandler.RecordsFollowKeys | src/dictionary_handler/mod.rs:154-165 | records built key by key are strictly ascending by word and cover every word |
| DictionaryHandler.WordDataToJson | src/dictionary_handler/mod.rs:148-166 | one record per word in key order, each holding the definitions of its offsets in the order visited; the words are ascending and complete |
| DictionaryProperties.KeptEntriesSound | src/dictionary_handler/mod.rs:62-100 | every entry kept comes from a line of the index file |
| DictionaryProperties.AllKeptEntriesSound | src/dictionary_handler/mod.rs:48-100 | every entry kept comes from some pair's index line |
| DictionaryProperties.FirstIn | src/dictionary_handler/mod.rs:129 | the first pair to list an offset lists it, and no earlier pair does |
| DictionaryProperties.ResolveOffsetsEffect | src/dictionary_handler/mod.rs:113-133 | the offset loop adds exactly the offsets of the line, keeps every definition already present, and reads each new one from this pair's data file |
| DictionaryProperties.LineEffect | src/dictionary_handler/mod.rs:63-133 | one index line adds its offsets under its word and defines exactly those offsets that were missing |
| DictionaryProperties.AddLinesEffect | src/dictionary_handler/mod.rs:62-136 | one index file adds the entries of its kept lines and defines their offsets from its own data file |
| DictionaryProperties.AddPairsEffect | src/dictionary_handler/mod.rs:48-137 | all the pairs together add the entries of every kept line |
| DictionaryProperties.AddPairsFirstWriter | src/dictionary_handler/mod.rs:48-137 | every newly defined offset is defined from the data file of the first pair that lists it |
| DictionaryProperties.AggregateWords | src/dictionary_handler/mod.rs:102-110 | the words are exactly the kept words, each with the union of the offsets of all its lines |
| DictionaryProperties.EntriesCoverOffsets | src/dictionary_handler/mod.rs:102-133 | when offsets and words come from the same entries, an offset is defined exactly when some word lists it |
| DictionaryProperties.AggregateDefinitionKeys | src/dictionary_handler/mod.rs:113-133 | the defined offsets are exactly the offsets of the kept lines |
| DictionaryProperties.AggregateFirstWriter | src/dictionary_handler/mod.rs:129 | every definition is the gloss, with the part of speech, read from the first pair listing its offset |
| DictionaryProperties.AggregateDefinitions | src/dictionary_handler/mod.rs:102-133 | every defined offset is listed by some word and every listed offset is defined, each from its first listing pair |
| DictionaryProperties.AggregateFilter | src/dictionary_handler/mod.rs:72-95 | every word kept passes the number, whole-word and length filters |
| DictionaryProperties.ResolveOffsetsFails | src/dictionary_handler/mod.rs:113-118 | the offset loop fails if and only if the data file cannot be read at one of the offsets |
| DictionaryProperties.AddLinesFails | src/dictionary_handler/mod.rs:62-136 | one index file fails if and only if one of its kept lines lists an unreadable offset |
| DictionaryProperties.AddPairsFails | src/dictionary_handler/mod.rs:48-137 | the parse fails if and only if some pair has a kept line with an unreadable offset |
| DictionaryProperties.LicenseLineIgnored | src/dictionary_handler/mod.rs:63-67 | removing a license line anywhere in an index file changes nothing |
| DictionaryProperties.JsonRecordOfRun | src/dictionary_handler/mod.rs:154-166 | after a parse, each word's record has exactly one definition per offset of the word |
| IdAssignment.Start | src/db_handler/mod.rs:57-62 | the empty id map and all counters at 1 |
| IdAssignment.AssignDefinition | src/db_handler/mod.rs:71-85 | the Vacant test and the definition row; characterised by AssignDefinitionEffect |
| IdAssignment.AddJoin | src/db_handler/mod.rs:87-90 | the join row for an offset that has an id; characterised by AddJoinEffect |
| IdAssignment.VisitOffset | src/db_handler/mod.rs:70-91 | one offset: the definition step, then the join step |
| IdAssignment.StartWord | src/db_handler/mod.rs:65-67 | the word row with the current word id |
| IdAssignment.VisitWord | src/db_handler/mod.rs:65-95 | one word: its row, its offsets in the visiting order, the next word id; characterised by VisitWordJoins |
| IdAssignment.VisitWords | src/db_handler/mod.rs:64-95 | the words in order; characterised by VisitWordsRows, VisitWordsGood, VisitWordsIds and VisitWordsJoins |
| IdAssignment.Export | src/db_handler/mod.rs:57-95 | the fold over the words in key order; characterised by the Export lemmas below and in DbProperties |
| IdAssignment.AssignDefinitionEffect | src/db_handler/mod.rs:71-85 | visiting an offset gives it an id exactly when it has none yet and has a definition, and changes neither the words nor the joins |
| IdAssignment.AddJoinEffect | src/db_handler/mod.rs:87-90 | a join row is added for the current word exactly when the offset has an id, and no other word's joins change |
| IdAssignment.StartWordGood | src/db_handler/mod.rs:62-67 | starting a word keeps the numbering invariant |
| IdAssignment.AssignDefinitionGood | src/db_handler/mod.rs:71-85 | assigning a definition id keeps the numbering invariant |
| IdAssignment.AddJoinGood | src/db_handler/mod.rs:87-90 | adding a join row keeps the numbering invariant |
| IdAssignment.VisitOffsetsStep | src/db_handler/mod.rs:70-91 | a word's offset loop assigns ids to the defined offsets it visits and adds one join per defined offset visited |
| IdAssignment.VisitWordJoins | src/db_handler/mod.rs:65-95 | a word's joins are exactly its defined offsets, once each, and other words' joins are untouched |
| IdAssignment.VisitWordsRows | src/db_handler/mod.rs:62-94 | word ids run 1, 2, 3, ... in the order of the words |
| IdAssignment.VisitWordsGood | src/db_handler/mod.rs:57-95 | after all words, ids are consecutive from 1 in every table and every join names an existing word and definition |
| IdAssignment.VisitWordsIds | src/db_handler/mod.rs:71-85 | the offsets given ids are exactly the visited offsets that have a definition |
| IdAssignment.VisitWordsJoins | src/db_handler/mod.rs:87-90 | each word's joins are exactly its defined offsets |
| IdAssignment.ExportWords | src/db_handler/mod.rs:62-94 | the word rows are the keys in order, numbered from 1 |
| IdAssignment.GoodDefinitionFacts | src/db_handler/mod.rs:58-84 | definition ids are 1 to n, distinct offsets get distinct ids, and each definition row carries its offset's definition |
| IdAssignment.GoodJoinFacts | src/db_handler/mod.rs:170-174 | join ids are 1 to n, and each join names the id of its offset's definition row and an existing word id |
| IdAssignment.NumberedDefinitionsOffsets | src/db_handler/mod.rs:71-84 | there is one definition row per offset given an id, and no other |
| IdAssignment.ExportDefinitionIds | src/db_handler/mod.rs:71-85 | an offset gets a definition id if and only if it has a definition and some word lists it |
| IdAssignment.ExportLinksPerWord | src/db_handler/mod.rs:87-90 | each word has one join per offset of the word that has a definition |
| IdAssignment.ExportMissingOffset | src/db_handler/mod.rs:71-90 | an offset without a definition gets no id, no definition row and no join |
| IdAssignment.ExportOrder | src/db_handler/mod.rs:154-174 | every join row comes after the definition row it refers to, so the SQL needs no forward reference to a definition |
| DbHandler.Tables | src/db_handler/mod.rs:53-55 | the three tables filled by the prepared inserts in row order; characterised by TablesWords, TablesDefinitions and TablesLinks |
| DbHandler.TablesWords | src/db_handler/mod.rs:65-67 | the word table holds the words of the word rows, in order |
| DbHandler.TablesDefinitions | src/db_handler/mod.rs:75-77 | the definition table holds the definitions of the definition rows, in order |
| DbHandler.TablesLinks | src/db_handler/mod.rs:87-89 | the join table holds the (definition id, word id) of each join row, in order |
| DbHandler.InsertOffset | src/db_handler/mod.rs:70-91 | one offset's step updates the id map, the counter and the tables as the fold's offset step does |
| DbHandler.InsertOffsets | src/db_handler/mod.rs:70-91 | a word's offset loop visits its set in some order and matches the fold over that order |
| DbHandler.InsertWord | src/db_handler/mod.rs:65-94 | one word's iteration inserts the rows the fold adds for that word |
| DbHandler.InsertWords | src/db_handler/mod.rs:64-95 | the word loop matches the fold over the words, with one visiting order per word |
| DbHandler.CreateWordDatabase | src/db_handler/mod.rs:10-102 | the tables written are those of the fold over the words in key order, for the visiting orders returned |
| DbHandler.RowText | src/db_handler/mod.rs:148-175 | the `INSERT` statement written for one row, with its ids in decimal |
| DbHandler.SequenceTrailer | src/db_handler/mod.rs:181-186 | the `sqlite_sequence` reset, its three rows and the commit; DumpCounts gives its values |
| DbHandler.DumpText | src/db_handler/mod.rs:121-186 | the whole dump: prologue, rows, trailer; DumpFraming gives its framing |
| DbHandler.NatTextValue | src/db_handler/mod.rs:183-185 | the id text that `format!` writes is a decimal numeral with no leading zero whose value is the id |
| DbHandler.DumpFraming | src/db_handler/mod.rs:124-186 | the dump starts with the foreign-key pragma and the transaction start, and ends with the commit |
| DbHandler.WritePrologue | src/db_handler/mod.rs:124-145 | the opening pushes build the prologue text |
| DbHandler.WriteTrailer | src/db_handler/mod.rs:181-186 | the closing pushes append the `sqlite_sequence` trailer for the three counters |
| DbHandler.WriteOffset | src/db_handler/mod.rs:153-175 | one offset's step writes the text of the rows the fold's offset step adds |
| DbHandler.WriteOffsets | src/db_handler/mod.rs:153-175 | a word's offset loop writes the rows of the fold over some visiting order of its set |
| DbHandler.WriteWord | src/db_handler/mod.rs:148-179 | one word's iteration writes the rows the fold adds for that word |
| DbHandler.WriteWords | src/db_handler/mod.rs:147-179 | the word loop writes the rows of the fold over the words in key order |
| DbHandler.WriteRowsAndTrailer | src/db_handler/mod.rs:147-186 | the rows are followed by the trailer, whose counters are the fold's counters minus one |
| DbHandler.DumpSql | src/db_handler/mod.rs:105-193 | the text written is the prologue, the rows of the fold over the words in key order, and the trailer |
| DbProperties.ListedOffsets | src/db_handler/mod.rs:71-85 | the offsets that have a definition and are named by some word, the reference set DatabaseDefinitions compares the table to; all of them are defined |
| DbProperties.DatabaseWords | src/db_handler/mod.rs:62-94 | the word table is the words in BTreeMap order |
| DbProperties.ExportOffsets | src/db_handler/mod.rs:71-84 | definition rows have distinct offsets, numbered 1 to n in order, each with its offset's definition |
| DbProperties.DatabaseDefinitions | src/db_handler/mod.rs:71-85 | the definition table lists each offset that is both defined and named by a word exactly once, with its definition |
| DbProperties.DatabaseLinks | src/db_handler/mod.rs:87-90 | every join links a word to a definition of an offset that word lists |
| DbProperties.DatabaseLinksComplete | src/db_handler/mod.rs:87-90 | every defined offset of every word is joined to it |
| DbProperties.DatabaseLinkCounts | src/db_handler/mod.rs:87-90 | word n has as many joins as it has defined offsets |
| DbProperties.AggregatedDatabase | src/db_handler/mod.rs:71-85 | after a parse, every definition is named by a word, so the definition table holds every definition exactly once |
| DbProperties.DumpCounts | src/db_handler/mod.rs:181-185 | the `sqlite_sequence` trailer gives the numbers of definition, word and join rows written |

## Left out

- File and directory I/O is not modelled. Opening and reading files, writing `dictionary.json`, `dictionary.sqlite3` and `dictionary_dump.sql`, and `fs::read_dir` are all left out. The model takes their contents as inputs and returns what would be written.
- DictionaryHandler.GetWordData: a failure to open or read an index file is not modelled; only a failed seek or read in a data file leads to `IoError`.
- `is_valid_dir` (src/file_handler/mod.rs:79-93) and the `main` dispatch in src/main.rs are not modelled. They are checks on the file system and the choice of exporter; the model has no file system.
- The "no words found" error in src/main.rs:66 is not modelled, because it belongs to `main`.
- `println!` progress messages and `colored` output are left out; they have no effect on the result.
- `serde_json::to_string_pretty` is left out. DictionaryHandler.WordDataToJson returns the records that would be serialised.
- rusqlite is not called. A table is the sequence of its inserted rows. The row ids are those AUTOINCREMENT gives a fresh table, 1 to n in insertion order. A failed `execute` or `commit` is not modelled.
- `Path::extension` is modelled on the file name as a character string. A name that is not valid UTF-8 is assumed to arrive after `to_string_lossy` conversion.
- `IndexDataPair` in this source has no part of speech, although src/dictionary_handler/mod.rs:129 calls `get_part_of_speech` on it. Each of the parser's source pairs therefore carries its part of speech as an explicit value. Opening the files a path pair names is I/O and not modelled.
- The regular expressions are written out over ASCII. `\d` is '0' to '9', `\s` is the six ASCII whitespace characters and `[[:punct:]]` is ASCII punctuation. The Rust `regex` crate's Unicode `\d` and `\s` also match non-ASCII digits and spaces; those are not modelled.
- Text is a sequence of Unicode scalar values. `String::len` is modelled by the UTF-8 width of each character.
- The `i64` id counters and the `u64` offsets are unbounded naturals. No WordNet file comes close to overflowing them, and eight-digit offsets are below 100000000.
- Iteration order of `HashSet` and `HashMap` is arbitrary in Rust. The model returns the order used as a ghost value and proves everything for every order. It does not say which order the program takes.
- `create_word_database` keeps no counter for `word_definition` ids. The shared fold keeps one anyway, and it matches the ids AUTOINCREMENT assigns.
- Each loop body too large to verify at once is a helper method, with a contract stating the step it performs. This applies to `DbHandler.InsertOffset`, `DbHandler.WriteOffset`, `DbHandler.WriteWord`, `FileHandler.Classify`, `FileHandler.PairWith` and `DictionaryHandler.CollectDefinitions`.
- When a seek lands past the end of a data file, the read succeeds with an empty line. The model covers this through the data-file function returning `Some("")`; it does not model the file's length.

## Points where the code is easy to misread

Each item says what the code does, and the model follows it:

- **Pairing.** Files are paired by `Path::extension` alone
  (src/file_handler/mod.rs:68). The pairs carry no part of speech.
  - An index file and a data file that both lack an extension are paired (`None`
    equals `None`). FileExtensionNone states when that happens.
  - A file name is classified by substring, so "mydata.txt" counts as a data file.
  - Every index file pairs with every data file whose extension matches.
- **Quote escaping** happens in the parser (src/dictionary_handler/mod.rs:70 and
  :125). `dump_sql` writes words and
  glosses verbatim.
- **Length** is the byte length of the escaped word (src/dictionary_handler/mod.rs:85),
  although the argument help in src/main.rs:23-38 speaks of a character count.
- **Offsets.** Any whitespace character before an offset is accepted. The word is
  split on the space character only.
- **Every offset is read.** Every offset of every kept line is read again from the
  data file, and a failed read fails the whole parse, even for an offset that
  already has a definition.
- **Definitions.** The first pair listing an offset supplies its definition. The
  parser only defines offsets that some word lists (AggregatedDatabase), so the
  exporters' "has a definition" test never skips an offset that a word lists.
- **Gloss.** The gloss is the leftmost match of the definition regex, taken to its
  longest end. A line without a match gives an empty gloss.
