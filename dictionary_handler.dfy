/**
 * The parse-and-aggregate engine of src/dictionary_handler/mod.rs. `get_word_data`
 * folds every kept index line of every index/data pair into a word table
 * (`BTreeMap<String, HashSet<u64>>`) and a definition table (`HashMap<u64, Definition>`);
 * `word_data_to_json` groups the definitions by word.
 */
module DictionaryHandler {
  import opened Wrappers
  import opened Text
  import opened Args
  import opened IndexLine
  import opened DataLine
  import opened KeyOrder
  import opened Iteration

  datatype Definition = Definition(data: string, partOfSpeech: string)

  /** Offset in a data file to the definition read there. */
  type Definitions = map<nat, Definition>

  /** Escaped word to the set of offsets of its definitions. */
  type Words = map<string, set<nat>>

  datatype WordData = WordData(definitions: Definitions, words: Words)

  /**
   * One index/data pair with its files already opened: the lines of the index file,
   * each as `read_line` returns it; the line `read_line` returns after a seek to each
   * byte offset of the data file (`None` when the seek or the read fails); and the part
   * of speech the caller attributes to the pair.
   */
  datatype SourcePair = SourcePair(
    indexLines: seq<string>,
    dataLineAt: nat -> Option<string>,
    partOfSpeech: string)

  function Empty(): WordData {
    WordData(map[], map[])
  }

  function Lookup(words: Words, w: string): set<nat> {
    if w in words then words[w] else {}
  }

  // ----- The run as a fold (the specification of GetWordData) -----

  /**
   * The inner loop over the offsets of a kept line: every offset is sought and its line
   * read, whether or not it is already resolved; a definition is inserted only for an
   * offset not yet present. `None` when a read fails.
   */
  function ResolveOffsets(defs: Definitions, pair: SourcePair, offsets: seq<nat>): Option<Definitions>
    decreases |offsets|
  {
    if |offsets| == 0 then Some(defs)
    else
      match pair.dataLineAt(offsets[0])
      case None => None
      case Some(line) =>
        var o := offsets[0];
        var defs' := if o in defs then defs else defs[o := Definition(Gloss(line), pair.partOfSpeech)];
        ResolveOffsets(defs', pair, offsets[1..])
  }

  /** The word table after a kept line: its offsets are added to the word's set. */
  function AddEntry(words: Words, e: IndexEntry): Words {
    words[e.word := Lookup(words, e.word) + Elems(e.offsets)]
  }

  /** One pass of the `while read_line` loop. */
  function AddLine(wd: WordData, args: FilterArgs, pair: SourcePair, line: string): Result<WordData> {
    match ParseIndexLine(args, line)
    case None => Ok(wd)
    case Some(e) =>
      match ResolveOffsets(wd.definitions, pair, e.offsets)
      case None => IoError
      case Some(defs) => Ok(WordData(defs, AddEntry(wd.words, e)))
  }

  function AddLines(wd: WordData, args: FilterArgs, pair: SourcePair, lines: seq<string>): Result<WordData>
    decreases |lines|
  {
    if |lines| == 0 then Ok(wd)
    else
      match AddLine(wd, args, pair, lines[0])
      case IoError => IoError
      case Ok(wd') => AddLines(wd', args, pair, lines[1..])
  }

  function AddPairs(wd: WordData, args: FilterArgs, pairs: seq<SourcePair>): Result<WordData>
    decreases |pairs|
  {
    if |pairs| == 0 then Ok(wd)
    else
      match AddLines(wd, args, pairs[0], pairs[0].indexLines)
      case IoError => IoError
      case Ok(wd') => AddPairs(wd', args, pairs[1..])
  }

  /** `get_word_data`: both tables start empty and see every pair in turn. */
  function Aggregate(pairs: seq<SourcePair>, args: FilterArgs): Result<WordData> {
    AddPairs(Empty(), args, pairs)
  }

  /** The rest of the run once the current pair's lines have been processed. */
  function AfterPair(r: Result<WordData>, args: FilterArgs, rest: seq<SourcePair>): Result<WordData> {
    match r
    case IoError => IoError
    case Ok(wd) => AddPairs(wd, args, rest)
  }

  /** The rest of the run once the current line's offsets have been resolved. */
  function AfterLine(d: Option<Definitions>, words: Words, args: FilterArgs, pair: SourcePair,
                     lines: seq<string>, rest: seq<SourcePair>): Result<WordData>
  {
    match d
    case None => IoError
    case Some(defs) => AfterPair(AddLines(WordData(defs, words), args, pair, lines), args, rest)
  }

  // ----- The imperative engine -----

  method GetWordData(pairs: seq<SourcePair>, args: FilterArgs) returns (r: Result<WordData>)
    ensures r == Aggregate(pairs, args)
  {
    var definitions: Definitions := map[];
    var words: Words := map[];
    for p := 0 to |pairs|
      invariant AddPairs(WordData(definitions, words), args, pairs[p..]) == Aggregate(pairs, args)
    {
      var pair := pairs[p];
      assert pairs[p..][1..] == pairs[p + 1..];
      var lines := pair.indexLines;
      var i := 0;
      while i < |lines|
        invariant 0 <= i <= |lines|
        invariant AfterPair(AddLines(WordData(definitions, words), args, pair, lines[i..]), args, pairs[p + 1..])
                  == Aggregate(pairs, args)
      {
        var indexLine := lines[i];
        assert lines[i..][1..] == lines[i + 1..];
        i := i + 1;
        // License lines start with two spaces.
        if IsLicenseLine(indexLine) {
          continue;
        }
        var foundWord := EscapeQuotes(HeadToken(indexLine));
        if !args.keepNumbers && HasDigit(foundWord) {
          continue;
        }
        if args.onlyWholeWords && HasPunctOrSpace(foundWord) {
          continue;
        }
        var wordLength := Utf8Len(foundWord);
        if |args.charCounts| > 0 {
          if wordLength !in args.charCounts {
            continue;
          }
        } else if wordLength < args.minChars || wordLength > args.maxChars {
          continue;
        }
        var byteOffsets := OffsetsOf(indexLine);
        ghost var entry := IndexEntry(foundWord, byteOffsets);
        ghost var before := WordData(definitions, words);
        assert ParseIndexLine(args, indexLine) == Some(entry);
        if foundWord in words {
          words := words[foundWord := words[foundWord] + Elems(byteOffsets)];
        } else {
          assert Lookup(words, foundWord) + Elems(byteOffsets) == Elems(byteOffsets);
          words := words[foundWord := Elems(byteOffsets)];
        }
        assert words == AddEntry(before.words, entry);
        assert byteOffsets[0..] == byteOffsets;
        assert AfterPair(AddLines(before, args, pair, lines[i - 1..]), args, pairs[p + 1..])
            == AfterLine(ResolveOffsets(definitions, pair, byteOffsets), words, args, pair, lines[i..], pairs[p + 1..]);
        for j := 0 to |byteOffsets|
          invariant AfterLine(ResolveOffsets(definitions, pair, byteOffsets[j..]), words, args, pair, lines[i..], pairs[p + 1..])
                    == Aggregate(pairs, args)
        {
          var offset := byteOffsets[j];
          assert byteOffsets[j..][1..] == byteOffsets[j + 1..];
          var dataCurrentLine := pair.dataLineAt(offset);
          if dataCurrentLine.None? {
            return IoError;
          }
          var definition := Gloss(dataCurrentLine.value);
          if offset !in definitions {
            definitions := definitions[offset := Definition(definition, pair.partOfSpeech)];
          }
        }
      }
    }
    return Ok(WordData(definitions, words));
  }

  // ----- word_data_to_json -----

  /** One element of the JSON array: a word with its definitions. */
  datatype WordDataJson = WordDataJson(word: string, definitions: seq<Definition>)

  /**
   * The definitions pushed while visiting the offsets in the order `order`: one per
   * visited offset the definition table holds, in visiting order; offsets it does not
   * hold are skipped.
   */
  function DefinitionsOf(order: seq<nat>, defs: Definitions): (r: seq<Definition>)
    ensures |r| == CountIn(order, defs.Keys)
    decreases |order|
  {
    if |order| == 0 then []
    else
      var last := order[|order| - 1];
      DefinitionsOf(order[..|order| - 1], defs) + (if last in defs then [defs[last]] else [])
  }

  lemma DefinitionsOfSnoc(order: seq<nat>, defs: Definitions, o: nat)
    ensures DefinitionsOf(order + [o], defs) == DefinitionsOf(order, defs) + (if o in defs then [defs[o]] else [])
  {
    assert (order + [o])[..|order|] == order;
  }

  /** Every pushed definition is the definition of a visited offset. */
  lemma {:induction false} DefinitionsOfSound(order: seq<nat>, defs: Definitions)
    ensures forall d :: d in DefinitionsOf(order, defs) ==>
      exists k :: 0 <= k < |order| && order[k] in defs && defs[order[k]] == d
    decreases |order|
  {
    if |order| > 0 {
      var init := order[..|order| - 1];
      DefinitionsOfSound(init, defs);
      forall d | d in DefinitionsOf(init, defs)
        ensures exists k :: 0 <= k < |order| && order[k] in defs && defs[order[k]] == d
      {
        var k :| 0 <= k < |init| && init[k] in defs && defs[init[k]] == d;
        assert order[k] == init[k];
      }
    }
  }

  /** Every held offset the visit passes contributes its definition. */
  lemma {:induction false} DefinitionsOfComplete(order: seq<nat>, defs: Definitions, k: nat)
    requires k < |order| && order[k] in defs
    ensures defs[order[k]] in DefinitionsOf(order, defs)
    decreases |order|
  {
    var init := order[..|order| - 1];
    if k < |order| - 1 {
      assert init[k] == order[k];
      DefinitionsOfComplete(init, defs, k);
    }
  }

  /**
   * Whatever order the offset set is visited in, the word's record lists one definition
   * per offset of the set that has one, and exactly the definitions of those offsets.
   */
  lemma DefinitionsOfEnumeration(order: seq<nat>, offsets: set<nat>, defs: Definitions)
    requires Enumerates(order, offsets)
    ensures |DefinitionsOf(order, defs)| == |offsets * defs.Keys|
    ensures forall d :: d in DefinitionsOf(order, defs) <==> exists o :: o in offsets && o in defs && defs[o] == d
  {
    CountInEnumeration(order, offsets, defs.Keys);
    DefinitionsOfSound(order, defs);
    forall d | exists o :: o in offsets && o in defs && defs[o] == d
      ensures d in DefinitionsOf(order, defs)
    {
      var o :| o in offsets && o in defs && defs[o] == d;
      var k :| 0 <= k < |order| && order[k] == o;
      DefinitionsOfComplete(order, defs, k);
    }
  }

  /**
   * The inner loop of `word_data_to_json`: the offsets of one word are visited in an
   * unspecified order `order`, and each one the definition table holds has its
   * definition pushed.
   */
  method CollectDefinitions(offsets: set<nat>, definitions: Definitions)
    returns (found: seq<Definition>, ghost order: seq<nat>)
    ensures Enumerates(order, offsets)
    ensures found == DefinitionsOf(order, definitions)
  {
    found := [];
    order := [];
    var remaining := offsets;
    while remaining != {}
      invariant Distinct(order) && Elems(order) !! remaining && Elems(order) + remaining == offsets
      invariant found == DefinitionsOf(order, definitions)
      decreases |remaining|
    {
      var offset :| offset in remaining;
      VisitStep(order, remaining, offsets, offset);
      DefinitionsOfSnoc(order, definitions, offset);
      remaining := remaining - {offset};
      order := order + [offset];
      if offset in definitions {
        found := found + [definitions[offset]];
      }
    }
  }

  /** The records' words strictly ascend in the word table's key order. */
  predicate WordsAscending(records: seq<WordDataJson>) {
    forall i, j :: 0 <= i < j < |records| ==> Below(records[i].word, records[j].word)
  }

  /** Records named by the keys of the word table in key order are ordered and cover every word. */
  lemma RecordsFollowKeys(words: Words, records: seq<WordDataJson>)
    requires |records| == |SortedKeys(words.Keys)|
    requires forall i :: 0 <= i < |records| ==> records[i].word == SortedKeys(words.Keys)[i]
    ensures WordsAscending(records)
    ensures (set r | r in records :: r.word) == words.Keys
  {
    var keys := SortedKeys(words.Keys);
    SortedKeysAscending(words.Keys);
    forall w | w in words
      ensures w in (set r | r in records :: r.word)
    {
      var i :| 0 <= i < |keys| && keys[i] == w;
      assert records[i] in records;
    }
    forall r | r in records
      ensures r.word in words
    {
      var i :| 0 <= i < |records| && records[i] == r;
      assert keys[i] in keys;
    }
  }

  /**
   * `word_data_to_json` before serialisation: one record per word in the word table's
   * key order, each with the definitions of its offsets in the order the offset set is
   * visited (`orders[i]`, unspecified for a hash set). The count and the contents of
   * each record's definitions do not depend on that order.
   */
  method WordDataToJson(wd: WordData) returns (records: seq<WordDataJson>, ghost orders: seq<seq<nat>>)
    ensures var keys := SortedKeys(wd.words.Keys);
      && |records| == |keys| && |orders| == |keys|
      && forall i :: 0 <= i < |keys| ==>
           && Enumerates(orders[i], wd.words[keys[i]])
           && records[i] == WordDataJson(keys[i], DefinitionsOf(orders[i], wd.definitions))
    ensures WordsAscending(records)
    ensures (set r | r in records :: r.word) == wd.words.Keys
  {
    var definitions := wd.definitions;
    var keys := SortedKeys(wd.words.Keys);
    records := [];
    orders := [];
    for i := 0 to |keys|
      invariant |records| == i && |orders| == i
      invariant forall n :: 0 <= n < i ==>
        && Enumerates(orders[n], wd.words[keys[n]])
        && records[n] == WordDataJson(keys[n], DefinitionsOf(orders[n], definitions))
    {
      var word := keys[i];
      var found, order := CollectDefinitions(wd.words[word], definitions);
      records := records + [WordDataJson(word, found)];
      orders := orders + [order];
    }
    RecordsFollowKeys(wd.words, records);
  }
}
