/**
 * What the two exporters of src/db_handler/mod.rs leave behind, for any visiting
 * orders of the offset sets: the three tables `create_word_database` fills, and the
 * script `dump_sql` writes.
 */
module DbProperties {
  import opened Wrappers
  import opened Args
  import opened KeyOrder
  import opened Iteration
  import opened DictionaryHandler
  import opened DictionaryProperties
  import opened IdAssignment
  import opened DbHandler

  /** The offsets that get a definition id: listed by some word, and with a definition. */
  function ListedOffsets(wd: WordData): (r: set<nat>)
    ensures r <= wd.definitions.Keys
  {
    set o | o in wd.definitions.Keys && exists w :: w in wd.words && o in wd.words[w]
  }

  /** How many links of the word_definition table point at word id `n`. */
  function LinksTo(links: seq<Link>, n: nat): nat
    decreases |links|
  {
    if |links| == 0 then 0
    else LinksTo(links[..|links| - 1], n) + (if links[|links| - 1].wordId == n then 1 else 0)
  }

  lemma {:induction false} LinksToTables(rows: seq<Row>, n: nat)
    ensures LinksTo(Tables(rows).wordDefinition, n) == CountJoins(rows, n)
    decreases |rows|
  {
    if |rows| > 0 {
      var init := rows[..|rows| - 1];
      var links := Tables(init).wordDefinition;
      LinksToTables(init, n);
      if rows[|rows| - 1].WordDefinitionRow? {
        assert Tables(rows).wordDefinition[..|links|] == links;
      } else {
        assert Tables(rows).wordDefinition == links;
      }
    }
  }

  /** The offsets of the definition rows, in emission order: offset k+1 got definition id k+1. */
  function DefinitionOffsets(rows: seq<Row>): (r: seq<nat>)
    ensures |r| == |DefinitionRowsOf(rows)|
    ensures forall k :: 0 <= k < |r| ==> r[k] == DefinitionRowsOf(rows)[k].offset
    decreases |rows|
  {
    if |rows| == 0 then []
    else
      var last := rows[|rows| - 1];
      DefinitionOffsets(rows[..|rows| - 1]) + (if last.DefinitionRow? then [last.offset] else [])
  }

  // ----- The tables, from the numbering of the rows they are filled from -----

  /** `os` lists the offsets that have an id, the one with id k+1 at index k. */
  ghost predicate IdsInOrder(ids: map<nat, nat>, os: seq<nat>) {
    && Elems(os) == ids.Keys
    && forall k :: 0 <= k < |os| ==> os[k] in ids && ids[os[k]] == k + 1
  }

  /**
   * The offsets of numbered definition rows are a duplicate-free enumeration of the
   * offsets with an id, id k+1 going to the k-th; the definition table filled from
   * those rows holds, at k, the definition of the k-th offset.
   */
  lemma DefinitionTable(D: seq<Row>, ids: map<nat, nat>, defs: Definitions, os: seq<nat>, table: seq<Definition>)
    requires NumberedDefinitions(D, ids, defs)
    requires |os| == |D| && forall k :: 0 <= k < |D| ==> os[k] == D[k].offset
    requires |table| == |D| && forall k :: 0 <= k < |D| ==> table[k] == D[k].definition
    ensures Distinct(os) && IdsInOrder(ids, os)
    ensures forall k :: 0 <= k < |os| ==> os[k] in defs && table[k] == defs[os[k]]
  {
    forall i, j | 0 <= i < j < |os|
      ensures os[i] != os[j]
    {
      assert ids[os[i]] == i + 1 && ids[os[j]] == j + 1;
    }
    forall o | o in ids
      ensures o in Elems(os)
    {
      var k := ids[o] - 1;
      assert os[k] == o;
    }
  }

  /** An offset with an id sits at index id-1 of the offsets in id order. */
  lemma IdIndex(ids: map<nat, nat>, os: seq<nat>, o: nat)
    requires IdsInOrder(ids, os)
    requires o in ids
    ensures 1 <= ids[o] <= |os| && os[ids[o] - 1] == o
  {
    assert o in Elems(os);
    var i :| 0 <= i < |os| && os[i] == o;
    assert ids[os[i]] == i + 1;
  }

  /** Each of the word_definition rows `J` links one of the words `keys` to an offset of that word. */
  ghost predicate JoinsOfWords(J: seq<Row>, keys: seq<string>, words: Words) {
    forall k :: 0 <= k < |J| ==>
      && J[k].WordDefinitionRow? && 1 <= J[k].wordId <= |keys|
      && keys[J[k].wordId - 1] in words && J[k].offset in words[keys[J[k].wordId - 1]]
  }

  /**
   * The word_definition rows link word ids among the first |keys|, each to an offset of
   * that word, when word id n is linked to the offsets of the n-th word.
   */
  lemma JoinsListed(rows: seq<Row>, keys: seq<string>, words: Words, defs: Definitions)
    requires JoinsReferToWords(rows, |keys|)
    requires forall i :: 0 <= i < |keys| ==> keys[i] in words
    requires forall n :: 1 <= n <= |keys| ==> JoinOffsets(rows, n) == words[keys[n - 1]] * defs.Keys
    ensures JoinsOfWords(JoinRowsOf(rows), keys, words)
  {
    var J := JoinRowsOf(rows);
    JoinRowsListed(rows, |keys|);
    forall k | 0 <= k < |J|
      ensures 1 <= J[k].wordId <= |keys| && J[k].offset in words[keys[J[k].wordId - 1]]
    {
      var n := J[k].wordId;
      assert J[k].offset in JoinOffsets(rows, n);
    }
  }

  /**
   * Each link joins one of the words `keys` (word id n is the n-th) to one of the
   * offsets `os` (definition id k+1 is the k-th) that this word lists.
   */
  ghost predicate LinksWithin(links: seq<Link>, os: seq<nat>, keys: seq<string>, words: Words) {
    forall k :: 0 <= k < |links| ==>
      && 1 <= links[k].wordId <= |keys| && keys[links[k].wordId - 1] in words
      && 1 <= links[k].definitionId <= |os|
      && os[links[k].definitionId - 1] in words[keys[links[k].wordId - 1]]
  }

  /** Each offset the i-th word lists that has a definition is linked to word id i+1. */
  ghost predicate LinksCover(links: seq<Link>, os: seq<nat>, keys: seq<string>, words: Words, defs: Definitions)
    requires forall i :: 0 <= i < |keys| ==> keys[i] in words
  {
    forall i :: 0 <= i < |keys| ==>
      forall o :: o in words[keys[i]] && o in defs ==>
        exists k ::
          && 0 <= k < |links| && links[k].wordId == i + 1
          && 1 <= links[k].definitionId <= |os| && os[links[k].definitionId - 1] == o
  }

  /**
   * Links filled from numbered word_definition rows, each linking a word id among the
   * first |keys| to an offset of that word, point at the id of such an offset.
   */
  lemma LinksListed(J: seq<Row>, ids: map<nat, nat>, os: seq<nat>, keys: seq<string>, words: Words,
                    links: seq<Link>)
    requires NumberedJoins(J, ids) && IdsInOrder(ids, os)
    requires JoinsOfWords(J, keys, words) && LinksFrom(links, J)
    ensures LinksWithin(links, os, keys, words)
  {
    forall k | 0 <= k < |links|
      ensures 1 <= links[k].definitionId <= |os| && os[links[k].definitionId - 1] == J[k].offset
    {
      IdIndex(ids, os, J[k].offset);
    }
  }

  /** Each offset linked to word id n has a link to n pointing at its id. */
  lemma LinkTableComplete(rows: seq<Row>, ids: map<nat, nat>, os: seq<nat>, links: seq<Link>, n: nat, o: nat)
    requires NumberedJoins(JoinRowsOf(rows), ids) && IdsInOrder(ids, os)
    requires LinksFrom(links, JoinRowsOf(rows))
    requires o in JoinOffsets(rows, n)
    ensures exists k ::
      && 0 <= k < |links| && links[k].wordId == n
      && 1 <= links[k].definitionId <= |os| && os[links[k].definitionId - 1] == o
  {
    var J := JoinRowsOf(rows);
    var x :| x in rows && x.WordDefinitionRow? && x.wordId == n && x.offset == o;
    RowsOfMembers(rows);
    assert x in J;
    var k :| 0 <= k < |J| && J[k] == x;
    assert links[k] == Link(x.definitionId, n);
    IdIndex(ids, os, o);
  }

  /**
   * Links filled from numbered word_definition rows, where word id n is linked to the
   * offsets of the n-th word that have a definition, link each such offset to its word.
   */
  lemma LinksComplete(rows: seq<Row>, ids: map<nat, nat>, os: seq<nat>, keys: seq<string>, words: Words,
                      defs: Definitions, links: seq<Link>)
    requires NumberedJoins(JoinRowsOf(rows), ids) && IdsInOrder(ids, os)
    requires forall i :: 0 <= i < |keys| ==> keys[i] in words
    requires forall n :: 1 <= n <= |keys| ==> JoinOffsets(rows, n) == words[keys[n - 1]] * defs.Keys
    requires LinksFrom(links, JoinRowsOf(rows))
    ensures LinksCover(links, os, keys, words, defs)
  {
    forall i, o | 0 <= i < |keys| && o in words[keys[i]] && o in defs
      ensures exists k ::
        && 0 <= k < |links| && links[k].wordId == i + 1
        && 1 <= links[k].definitionId <= |os| && os[links[k].definitionId - 1] == o
    {
      assert o in JoinOffsets(rows, i + 1);
      LinkTableComplete(rows, ids, os, links, i + 1, o);
    }
  }

  // ----- create_word_database -----

  /** The word table holds every word once, in key order, so word id n is the n-th word. */
  lemma DatabaseWords(wd: WordData, orders: seq<seq<nat>>)
    requires ValidOrders(wd, orders)
    ensures Tables(Export(wd, orders).rows).word == SortedKeys(wd.words.Keys)
  {
    var rows := Export(wd, orders).rows;
    TablesWords(rows);
    ExportWords(wd, orders);
  }

  /** What the numbering says about the definition rows of the exported rows. */
  lemma ExportOffsets(wd: WordData, orders: seq<seq<nat>>)
    requires |orders| == |SortedKeys(wd.words.Keys)|
    ensures Distinct(DefinitionOffsets(Export(wd, orders).rows))
    ensures IdsInOrder(Export(wd, orders).definitionIds, DefinitionOffsets(Export(wd, orders).rows))
    ensures |Tables(Export(wd, orders).rows).definition| == |DefinitionOffsets(Export(wd, orders).rows)|
    ensures forall k :: 0 <= k < |DefinitionOffsets(Export(wd, orders).rows)| ==>
      && DefinitionOffsets(Export(wd, orders).rows)[k] in wd.definitions
      && Tables(Export(wd, orders).rows).definition[k] == wd.definitions[DefinitionOffsets(Export(wd, orders).rows)[k]]
  {
    var st := Export(wd, orders);
    ExportGood(wd, orders);
    TablesDefinitions(st.rows);
    DefinitionTable(DefinitionRowsOf(st.rows), st.definitionIds, wd.definitions,
                    DefinitionOffsets(st.rows), Tables(st.rows).definition);
  }

  /** Definition id k+1 went to the offset of the k-th exported definition row. */
  lemma ExportIdsInOrder(wd: WordData, orders: seq<seq<nat>>)
    requires |orders| == |SortedKeys(wd.words.Keys)|
    ensures IdsInOrder(Export(wd, orders).definitionIds, DefinitionOffsets(Export(wd, orders).rows))
  {
    ExportOffsets(wd, orders);
  }

  /**
   * The definition table holds one row per listed offset, in the order the offsets got
   * their ids: the offsets are each listed offset once, and row k is the definition of
   * the k-th, so a definition shared by several words is written once.
   */
  lemma DatabaseDefinitions(wd: WordData, orders: seq<seq<nat>>)
    requires ValidOrders(wd, orders)
    ensures Enumerates(DefinitionOffsets(Export(wd, orders).rows), ListedOffsets(wd))
    ensures |Tables(Export(wd, orders).rows).definition| == |DefinitionOffsets(Export(wd, orders).rows)|
    ensures forall k :: 0 <= k < |DefinitionOffsets(Export(wd, orders).rows)| ==>
      && DefinitionOffsets(Export(wd, orders).rows)[k] in wd.definitions
      && Tables(Export(wd, orders).rows).definition[k] == wd.definitions[DefinitionOffsets(Export(wd, orders).rows)[k]]
  {
    ExportOffsets(wd, orders);
    ExportDefinitionIds(wd, orders);
    assert Export(wd, orders).definitionIds.Keys == ListedOffsets(wd);
  }

  /** The exported word_definition rows carry the ids of their offsets. */
  lemma ExportNumberedJoins(wd: WordData, orders: seq<seq<nat>>)
    requires |orders| == |SortedKeys(wd.words.Keys)|
    ensures NumberedJoins(JoinRowsOf(Export(wd, orders).rows), Export(wd, orders).definitionIds)
  {
    ExportGood(wd, orders);
  }

  /** The exported word_definition rows link emitted word ids. */
  lemma ExportJoinsReferToWords(wd: WordData, orders: seq<seq<nat>>)
    requires ValidOrders(wd, orders)
    ensures JoinsReferToWords(Export(wd, orders).rows, |SortedKeys(wd.words.Keys)|)
  {
    ExportGood(wd, orders);
    ExportWords(wd, orders);
  }

  /** Each exported word_definition row links a word id to an offset of that word. */
  lemma ExportJoinsListed(wd: WordData, orders: seq<seq<nat>>)
    requires ValidOrders(wd, orders)
    ensures JoinsOfWords(JoinRowsOf(Export(wd, orders).rows), SortedKeys(wd.words.Keys), wd.words)
  {
    ExportJoinsReferToWords(wd, orders);
    ExportLinksPerWord(wd, orders);
    JoinsListed(Export(wd, orders).rows, SortedKeys(wd.words.Keys), wd.words, wd.definitions);
  }

  /**
   * Every link points at an existing word and an existing definition id, and that id
   * was given to an offset the word lists.
   */
  lemma DatabaseLinks(wd: WordData, orders: seq<seq<nat>>, db: Database, os: seq<nat>, keys: seq<string>)
    requires ValidOrders(wd, orders)
    requires db == Tables(Export(wd, orders).rows) && os == DefinitionOffsets(Export(wd, orders).rows)
    requires keys == SortedKeys(wd.words.Keys)
    ensures LinksWithin(db.wordDefinition, os, keys, wd.words)
  {
    var rows := Export(wd, orders).rows;
    ExportNumberedJoins(wd, orders);
    ExportJoinsListed(wd, orders);
    ExportIdsInOrder(wd, orders);
    TablesLinks(rows);
    LinksListed(JoinRowsOf(rows), Export(wd, orders).definitionIds, os, keys, wd.words, db.wordDefinition);
  }

  /**
   * Every offset a word lists that has a definition is linked to that word, pointing at
   * the definition id of that offset.
   */
  lemma DatabaseLinksComplete(wd: WordData, orders: seq<seq<nat>>, db: Database, os: seq<nat>, keys: seq<string>)
    requires ValidOrders(wd, orders)
    requires db == Tables(Export(wd, orders).rows) && os == DefinitionOffsets(Export(wd, orders).rows)
    requires keys == SortedKeys(wd.words.Keys)
    ensures forall i :: 0 <= i < |keys| ==> keys[i] in wd.words
    ensures LinksCover(db.wordDefinition, os, keys, wd.words, wd.definitions)
  {
    var rows := Export(wd, orders).rows;
    ExportNumberedJoins(wd, orders);
    ExportLinksPerWord(wd, orders);
    ExportIdsInOrder(wd, orders);
    TablesLinks(rows);
    LinksComplete(rows, Export(wd, orders).definitionIds, os, keys, wd.words, wd.definitions, db.wordDefinition);
  }

  /** The number of links to a word is the number of its offsets that have a definition. */
  lemma DatabaseLinkCounts(wd: WordData, orders: seq<seq<nat>>)
    requires ValidOrders(wd, orders)
    ensures forall n :: 1 <= n <= |SortedKeys(wd.words.Keys)| ==>
      LinksTo(Tables(Export(wd, orders).rows).wordDefinition, n)
        == |wd.words[SortedKeys(wd.words.Keys)[n - 1]] * wd.definitions.Keys|
  {
    var st := Export(wd, orders);
    ExportLinksPerWord(wd, orders);
    forall n | 1 <= n <= |SortedKeys(wd.words.Keys)|
      ensures LinksTo(Tables(Export(wd, orders).rows).wordDefinition, n)
        == |wd.words[SortedKeys(wd.words.Keys)[n - 1]] * wd.definitions.Keys|
    {
      LinksToTables(st.rows, n);
    }
  }

  lemma ListedAll(wd: WordData)
    requires forall o :: o in wd.definitions <==> exists w :: w in wd.words && o in wd.words[w]
    ensures ListedOffsets(wd) == wd.definitions.Keys
  {
    forall o | o in wd.definitions
      ensures o in ListedOffsets(wd)
    {
      var w :| w in wd.words && o in wd.words[w];
    }
  }

  /**
   * After a successful `get_word_data`, every stored definition is written to the
   * definition table: each stored offset is listed by some word.
   */
  lemma AggregatedDatabase(pairs: seq<SourcePair>, args: FilterArgs, wd: WordData, orders: seq<seq<nat>>)
    requires Aggregate(pairs, args) == Ok(wd)
    requires ValidOrders(wd, orders)
    ensures ListedOffsets(wd) == wd.definitions.Keys
    ensures Enumerates(DefinitionOffsets(Export(wd, orders).rows), wd.definitions.Keys)
    ensures |Tables(Export(wd, orders).rows).definition| == |wd.definitions|
  {
    AggregateDefinitions(pairs, args);
    ListedAll(wd);
    DatabaseDefinitions(wd, orders);
    DistinctSize(DefinitionOffsets(Export(wd, orders).rows));
  }

  // ----- dump_sql -----

  /**
   * The three `sqlite_sequence` values are the numbers of definition, word and
   * word_definition `INSERT`s in the script, which are also the largest ids used; the
   * script is the prologue followed by this text.
   */
  lemma DumpCounts(wd: WordData, orders: seq<seq<nat>>)
    requires ValidOrders(wd, orders)
    ensures BodyText(Export(wd, orders)) == RowsText(Export(wd, orders).rows)
      + SequenceTrailer(|DefinitionRowsOf(Export(wd, orders).rows)|, |WordRowsOf(Export(wd, orders).rows)|,
          |JoinRowsOf(Export(wd, orders).rows)|)
    ensures |WordRowsOf(Export(wd, orders).rows)| == |SortedKeys(wd.words.Keys)|
  {
    ExportGood(wd, orders);
    ExportWords(wd, orders);
  }
}
