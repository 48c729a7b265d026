/**
 * The two exporters of src/db_handler/mod.rs. `create_word_database` inserts the rows
 * of the id-assignment loop into three fresh AUTOINCREMENT tables through rusqlite;
 * `dump_sql` writes the same rows as SQL text, with their ids spelt out, and closes
 * the script with the `sqlite_sequence` counts.
 */
module DbHandler {
  import opened Text
  import opened IndexLine
  import opened KeyOrder
  import opened Iteration
  import opened Wrappers
  import opened Args
  import opened DictionaryHandler
  import opened DictionaryProperties
  import opened IdAssignment

  // ----- create_word_database -----

  /** A word_definition row as stored: the two foreign keys. */
  datatype Link = Link(definitionId: nat, wordId: nat)

  /**
   * The three tables of `dictionary.sqlite3`, each in insertion order. The tables are
   * created empty with `INTEGER PRIMARY KEY AUTOINCREMENT`, so the row at position k
   * has id k + 1.
   */
  datatype Database = Database(definition: seq<Definition>, word: seq<string>, wordDefinition: seq<Link>)

  /** The prepared `INSERT` for one emitted row; the id column is left to AUTOINCREMENT. */
  function Insert(db: Database, r: Row): Database {
    match r
    case WordRow(_, w) => db.(word := db.word + [w])
    case DefinitionRow(_, _, d) => db.(definition := db.definition + [d])
    case WordDefinitionRow(_, definitionId, wordId, _) =>
      db.(wordDefinition := db.wordDefinition + [Link(definitionId, wordId)])
  }

  /** The database after inserting `rows` in order into empty tables. */
  function Tables(rows: seq<Row>): Database
    decreases |rows|
  {
    if |rows| == 0 then Database([], [], [])
    else Insert(Tables(rows[..|rows| - 1]), rows[|rows| - 1])
  }

  lemma TablesAppend(rows: seq<Row>, r: Row)
    ensures Tables(rows + [r]) == Insert(Tables(rows), r)
  {
    assert (rows + [r])[..|rows|] == rows;
  }

  // Each table holds, in order, the payloads of the rows emitted for it.

  lemma {:induction false} TablesWords(rows: seq<Row>)
    ensures |Tables(rows).word| == |WordRowsOf(rows)|
    ensures forall k :: 0 <= k < |WordRowsOf(rows)| ==> Tables(rows).word[k] == WordRowsOf(rows)[k].word
    decreases |rows|
  {
    if |rows| > 0 {
      var init := rows[..|rows| - 1];
      var last := rows[|rows| - 1];
      assert rows == init + [last];
      TablesWords(init);
      RowsAppend(init, last);
    }
  }

  lemma {:induction false} TablesDefinitions(rows: seq<Row>)
    ensures |Tables(rows).definition| == |DefinitionRowsOf(rows)|
    ensures forall k :: 0 <= k < |DefinitionRowsOf(rows)| ==>
      Tables(rows).definition[k] == DefinitionRowsOf(rows)[k].definition
    decreases |rows|
  {
    if |rows| > 0 {
      var init := rows[..|rows| - 1];
      var last := rows[|rows| - 1];
      assert rows == init + [last];
      TablesDefinitions(init);
      RowsAppend(init, last);
    }
  }

  /** `links` holds, in order, the (definition id, word id) pairs of the word_definition rows `J`. */
  ghost predicate LinksFrom(links: seq<Link>, J: seq<Row>) {
    && |links| == |J|
    && forall k :: 0 <= k < |J| ==> J[k].WordDefinitionRow? && links[k] == Link(J[k].definitionId, J[k].wordId)
  }

  lemma {:induction false} TablesLinks(rows: seq<Row>)
    ensures LinksFrom(Tables(rows).wordDefinition, JoinRowsOf(rows))
    decreases |rows|
  {
    if |rows| > 0 {
      var init := rows[..|rows| - 1];
      var last := rows[|rows| - 1];
      assert rows == init + [last];
      TablesLinks(init);
      RowsAppend(init, last);
    }
  }

  /**
   * The visiting orders chosen so far enumerate the offset sets of the first words,
   * one order per word (stated by recursion, so that a loop invariant using it stays
   * cheap).
   */
  ghost predicate OrdersFor(words: Words, keys: seq<string>, orders: seq<seq<nat>>)
    decreases |orders|
  {
    |orders| == 0 ||
    (&& OrdersFor(words, keys, orders[..|orders| - 1])
     && |orders| <= |keys| && keys[|orders| - 1] in words
     && Enumerates(orders[|orders| - 1], words[keys[|orders| - 1]]))
  }

  lemma TakeOneMore<T>(s: seq<T>, i: nat)
    requires i < |s|
    ensures s[..i + 1] == s[..i] + [s[i]]
  {
  }

  lemma OrdersForExtend(words: Words, keys: seq<string>, orders: seq<seq<nat>>, order: seq<nat>)
    requires OrdersFor(words, keys, orders)
    requires |orders| < |keys| && keys[|orders|] in words && Enumerates(order, words[keys[|orders|]])
    ensures OrdersFor(words, keys, orders + [order])
  {
    assert (orders + [order])[..|orders|] == orders;
  }

  lemma {:induction false} OrdersForAll(words: Words, keys: seq<string>, orders: seq<seq<nat>>)
    requires OrdersFor(words, keys, orders)
    ensures forall j :: 0 <= j < |orders| ==> j < |keys| && keys[j] in words && Enumerates(orders[j], words[keys[j]])
    decreases |orders|
  {
    if |orders| > 0 {
      var init := orders[..|orders| - 1];
      OrdersForAll(words, keys, init);
      assert forall j :: 0 <= j < |init| ==> init[j] == orders[j];
    }
  }

  /**
   * One pass of the inner loop of `create_word_database`: insert the definition of an
   * unseen offset and record its id, then link the offset's id to the current word.
   * `st` is the fold's state that the arguments stand for.
   */
  method InsertOffset(defs: Definitions, offset: nat, ghost st: ExportState,
                      definitionIds0: map<nat, nat>, definitionId0: nat, wordId: nat, db0: Database)
    returns (definitionIds: map<nat, nat>, definitionId: nat, db: Database)
    requires definitionIds0 == st.definitionIds && definitionId0 == st.nextDefinitionId
    requires wordId == st.nextWordId && db0 == Tables(st.rows)
    ensures definitionIds == VisitOffset(st, defs, offset).definitionIds
    ensures definitionId == VisitOffset(st, defs, offset).nextDefinitionId
    ensures wordId == VisitOffset(st, defs, offset).nextWordId
    ensures db == Tables(VisitOffset(st, defs, offset).rows)
  {
    definitionIds, definitionId, db := definitionIds0, definitionId0, db0;
    ghost var mid := AssignDefinition(st, defs, offset);
    if offset !in definitionIds {
      if offset in defs {
        TablesAppend(st.rows, DefinitionRow(definitionId, offset, defs[offset]));
        db := db.(definition := db.definition + [defs[offset]]);
        definitionIds := definitionIds[offset := definitionId];
        definitionId := definitionId + 1;
      }
    }
    if offset in definitionIds {
      TablesAppend(mid.rows, WordDefinitionRow(mid.nextWordDefinitionId, definitionIds[offset], wordId, offset));
      db := db.(wordDefinition := db.wordDefinition + [Link(definitionIds[offset], wordId)]);
    }
  }

  /**
   * The inner `for offset in offsets` loop of `create_word_database`, run from the
   * state `first`, visiting the offsets in the order returned in `order`.
   */
  method InsertOffsets(defs: Definitions, offsets: set<nat>, ghost first: ExportState,
                       definitionIds0: map<nat, nat>, definitionId0: nat, wordId: nat, db0: Database)
    returns (definitionIds: map<nat, nat>, definitionId: nat, db: Database, ghost order: seq<nat>)
    requires definitionIds0 == first.definitionIds && definitionId0 == first.nextDefinitionId
    requires wordId == first.nextWordId && db0 == Tables(first.rows)
    ensures Enumerates(order, offsets)
    ensures definitionIds == VisitOffsets(first, defs, order).definitionIds
    ensures definitionId == VisitOffsets(first, defs, order).nextDefinitionId
    ensures wordId == VisitOffsets(first, defs, order).nextWordId
    ensures db == Tables(VisitOffsets(first, defs, order).rows)
  {
    definitionIds, definitionId, db := definitionIds0, definitionId0, db0;
    ghost var st := first;
    var remaining := offsets;
    order := [];
    while remaining != {}
      invariant Distinct(order) && Elems(order) !! remaining && Elems(order) + remaining == offsets
      invariant st == VisitOffsets(first, defs, order)
      invariant definitionIds == st.definitionIds && definitionId == st.nextDefinitionId && wordId == st.nextWordId
      invariant db == Tables(st.rows)
      decreases |remaining|
    {
      var offset :| offset in remaining;
      definitionIds, definitionId, db := InsertOffset(defs, offset, st, definitionIds, definitionId, wordId, db);
      VisitStep(order, remaining, offsets, offset);
      assert (order + [offset])[..|order|] == order;
      order := order + [offset];
      st := VisitOffset(st, defs, offset);
      remaining := remaining - {offset};
    }
  }

  /**
   * One iteration of the outer loop of `create_word_database`: the word's row, then
   * its offsets, in the order returned in `order`, then the next word id.
   */
  method InsertWord(defs: Definitions, word: string, offsets: set<nat>, ghost st: ExportState,
                    definitionIds0: map<nat, nat>, definitionId0: nat, wordId0: nat, db0: Database)
    returns (definitionIds: map<nat, nat>, definitionId: nat, wordId: nat, db: Database, ghost order: seq<nat>)
    requires definitionIds0 == st.definitionIds && definitionId0 == st.nextDefinitionId
    requires wordId0 == st.nextWordId && db0 == Tables(st.rows)
    ensures Enumerates(order, offsets)
    ensures definitionIds == VisitWord(st, defs, word, order).definitionIds
    ensures definitionId == VisitWord(st, defs, word, order).nextDefinitionId
    ensures wordId == VisitWord(st, defs, word, order).nextWordId
    ensures db == Tables(VisitWord(st, defs, word, order).rows)
  {
    TablesAppend(st.rows, WordRow(wordId0, word));
    db := db0.(word := db0.word + [word]);
    ghost var first := StartWord(st, word);
    definitionIds, definitionId, db, order :=
      InsertOffsets(defs, offsets, first, definitionIds0, definitionId0, wordId0, db);
    wordId := wordId0 + 1;
  }

  /**
   * The outer `for (word, offsets) in words` loop of `create_word_database`, over the
   * words `keys` in that order.
   */
  method InsertWords(defs: Definitions, words: Words, keys: seq<string>)
    returns (db: Database, ghost orders: seq<seq<nat>>)
    requires forall i :: 0 <= i < |keys| ==> keys[i] in words
    ensures |orders| == |keys| && OrdersFor(words, keys, orders)
    ensures db == Tables(VisitWords(defs, keys, orders).rows)
  {
    var definitionIds: map<nat, nat> := map[];
    var definitionId: nat := 1;
    var wordId: nat := 1;
    db := Database([], [], []);
    orders := [];
    ghost var st := Start();
    for i := 0 to |keys|
      invariant |orders| == i
      invariant OrdersFor(words, keys, orders)
      invariant st == VisitWords(defs, keys[..i], orders)
      invariant definitionIds == st.definitionIds && definitionId == st.nextDefinitionId && wordId == st.nextWordId
      invariant db == Tables(st.rows)
    {
      var word := keys[i];
      ghost var order;
      definitionIds, definitionId, wordId, db, order :=
        InsertWord(defs, word, words[word], st, definitionIds, definitionId, wordId, db);
      OrdersForExtend(words, keys, orders, order);
      TakeOneMore(keys, i);
      VisitWordsSnoc(defs, keys[..i], orders, word, order);
      st := VisitWord(st, defs, word, order);
      orders := orders + [order];
    }
    assert keys[..|keys|] == keys;
  }

  /**
   * `create_word_database`: the outer loop runs over the word table in key order, the
   * inner loop over each word's offset set in an unspecified order, returned in
   * `orders`. The tables hold exactly the rows of the id-assignment fold for those
   * orders.
   */
  method CreateWordDatabase(wd: WordData) returns (db: Database, ghost orders: seq<seq<nat>>)
    ensures ValidOrders(wd, orders)
    ensures db == Tables(Export(wd, orders).rows)
  {
    var keys := SortedKeys(wd.words.Keys);
    db, orders := InsertWords(wd.definitions, wd.words, keys);
    OrdersForAll(wd.words, keys, orders);
  }

  // ----- dump_sql -----

  function DigitChar(d: nat): (c: char)
    requires d < 10
    ensures IsDigit(c) && c as int - '0' as int == d
  {
    ('0' as int + d) as char
  }

  /** `format!("{}", n)` of a non-negative integer: its decimal digits, no leading zero. */
  function NatText(n: nat): string
    decreases n
  {
    (if n < 10 then "" else NatText(n / 10)) + [DigitChar(n % 10)]
  }

  /** `format!("{}", i)` of an `i64`: a minus sign before the digits of a negative value. */
  function IntText(i: int): string {
    if i < 0 then "-" + NatText(-i) else NatText(i)
  }

  /**
   * The text of a number reads back as that number: it is a nonempty string of
   * digits, with no leading zero unless it is "0", whose decimal value is `n`.
   */
  lemma {:induction false} NatTextValue(n: nat)
    ensures |NatText(n)| >= 1
    ensures forall k :: 0 <= k < |NatText(n)| ==> IsDigit(NatText(n)[k])
    ensures NatText(n)[0] == '0' ==> n == 0
    ensures DecimalValue(NatText(n)) == n
    decreases n
  {
    var s := NatText(n);
    var c := DigitChar(n % 10);
    if n < 10 {
      assert s == [c];
      assert s[..0] == "";
    } else {
      var head := NatText(n / 10);
      NatTextValue(n / 10);
      assert s == head + [c];
      assert s[..|s| - 1] == head;
      assert s[0] == head[0];
      assert DecimalValue(s) == DecimalValue(head) * 10 + n % 10;
    }
  }

  const DefinitionTableText: string :=
    "CREATE TABLE definition (\n"
    + "                            id              INTEGER PRIMARY KEY AUTOINCREMENT,\n"
    + "                            data            TEXT,\n"
    + "                            part_of_speech  TEXT NOT NULL\n"
    + "    );\n"

  const WordTableText: string :=
    "CREATE TABLE word (\n"
    + "                            id      INTEGER PRIMARY KEY AUTOINCREMENT,\n"
    + "                            data    TEXT NOT NULL\n"
    + "    );\n"

  const WordDefinitionTableText: string :=
    "CREATE TABLE word_definition (\n"
    + "                            id              INTEGER PRIMARY KEY AUTOINCREMENT,\n"
    + "                            definition_id   INTEGER,\n"
    + "                            word_id         INTEGER,\n"
    + "                            FOREIGN KEY (definition_id) REFERENCES definition(id),\n"
    + "                            FOREIGN KEY (word_id) REFERENCES word(id)\n"
    + "    );\n"

  const PragmaText: string := "PRAGMA defer_foreign_keys=ON;\n"

  const BeginText: string := "BEGIN TRANSACTION;\n"

  /** What the script holds before the first row: the pragma, the transaction start and the tables. */
  const Prologue: string :=
    PragmaText + BeginText + DefinitionTableText + WordTableText + WordDefinitionTableText

  /** The `INSERT` statement `dump_sql` writes for one row, with its id spelt out. */
  function RowText(r: Row): string {
    match r
    case WordRow(id, w) => "INSERT INTO word VALUES(" + NatText(id) + ",'" + w + "');\n"
    case DefinitionRow(id, _, d) =>
      "INSERT INTO definition VALUES(" + NatText(id) + ",'" + d.data + "','" + d.partOfSpeech + "');\n"
    case WordDefinitionRow(id, definitionId, wordId, _) =>
      "INSERT INTO word_definition VALUES(" + NatText(id) + "," + NatText(definitionId) + "," + NatText(wordId) + ");\n"
  }

  function RowsText(rows: seq<Row>): string
    decreases |rows|
  {
    if |rows| == 0 then "" else RowsText(rows[..|rows| - 1]) + RowText(rows[|rows| - 1])
  }

  /** Writing one more row after `head` and the rows so far is writing the longer row list. */
  lemma RowsTextAppend(head: string, rows: seq<Row>, r: Row)
    ensures head + RowsText(rows + [r]) == head + RowsText(rows) + RowText(r)
  {
    assert (rows + [r])[..|rows|] == rows;
    Concat3(head, RowsText(rows), RowText(r));
  }

  lemma Concat3(a: string, b: string, c: string)
    ensures a + (b + c) == a + b + c
  {
  }

  const DeleteSequenceText: string := "DELETE FROM sqlite_sequence;\n"

  /** One `sqlite_sequence` row: the table's name and the value `format!` gives it. */
  function SequenceText(table: string, value: int): string {
    "INSERT INTO sqlite_sequence VALUES('" + table + "'," + IntText(value) + ");\n"
  }

  const CommitText: string := "COMMIT;"

  /**
   * The statements after the loop: `sqlite_sequence` is emptied and given, for each
   * table, the value of its counter minus one, and the transaction is committed.
   */
  function SequenceTrailer(definitions: int, words: int, wordDefinitions: int): string {
    DeleteSequenceText + SequenceText("definition", definitions) + SequenceText("word", words)
    + SequenceText("word_definition", wordDefinitions) + CommitText
  }

  lemma PrologueSteps(sql: string)
    requires sql == "" + PragmaText + BeginText + DefinitionTableText + WordTableText + WordDefinitionTableText
    ensures sql == Prologue
  {
    assert "" + PragmaText == PragmaText;
  }

  lemma Concat6(x: string, a: string, b: string, c: string, d: string, e: string)
    ensures x + a + b + c + d + e == x + (a + b + c + d + e)
  {}

  /** Pushing the trailer's statements one by one onto `x` appends the trailer. */
  lemma TrailerSteps(x: string, definitions: int, words: int, wordDefinitions: int)
    ensures x + DeleteSequenceText + SequenceText("definition", definitions) + SequenceText("word", words)
      + SequenceText("word_definition", wordDefinitions) + CommitText
      == x + SequenceTrailer(definitions, words, wordDefinitions)
  {
    Concat6(x, DeleteSequenceText, SequenceText("definition", definitions), SequenceText("word", words),
      SequenceText("word_definition", wordDefinitions), CommitText);
  }

  /** What `dump_sql` writes after the tables for the final state of its loops: the rows, then the trailer. */
  function BodyText(st: ExportState): string {
    RowsText(st.rows) + SequenceTrailer(st.nextDefinitionId - 1, st.nextWordId - 1, st.nextWordDefinitionId - 1)
  }

  /** The whole script `dump_sql` writes for the final state of its loops. */
  function DumpText(st: ExportState): string {
    Prologue + BodyText(st)
  }

  lemma PrefixGrows(a: string, b: string, c: string)
    requires a <= b
    ensures a <= b + c
  {
    assert (b + c)[..|a|] == b[..|a|];
  }

  predicate EndsWith(s: string, tail: string) {
    |s| >= |tail| && s[|s| - |tail|..] == tail
  }

  lemma SuffixGrows(a: string, b: string, tail: string)
    requires EndsWith(b, tail)
    ensures EndsWith(a + b, tail)
  {
    assert (a + b)[|a + b| - |tail|..] == b[|b| - |tail|..];
  }

  lemma PrologueOpening()
    ensures PragmaText + BeginText <= Prologue
  {
    var opening := PragmaText + BeginText;
    PrefixGrows(opening, opening, DefinitionTableText);
    PrefixGrows(opening, opening + DefinitionTableText, WordTableText);
    PrefixGrows(opening, opening + DefinitionTableText + WordTableText, WordDefinitionTableText);
  }

  lemma TrailerClosing(definitions: int, words: int, wordDefinitions: int)
    ensures EndsWith(SequenceTrailer(definitions, words, wordDefinitions), CommitText)
  {
    var statements := DeleteSequenceText + SequenceText("definition", definitions) + SequenceText("word", words)
      + SequenceText("word_definition", wordDefinitions);
    assert EndsWith(CommitText, CommitText);
    SuffixGrows(statements, CommitText, CommitText);
  }

  /** The script opens with the pragma and the transaction start, and closes with the commit. */
  lemma DumpFraming(st: ExportState)
    ensures PragmaText + BeginText <= DumpText(st)
    ensures EndsWith(DumpText(st), CommitText)
  {
    PrologueOpening();
    PrefixGrows(PragmaText + BeginText, Prologue, BodyText(st));
    BodyTextSplit(st);
    var trailer := SequenceTrailer(st.nextDefinitionId - 1, st.nextWordId - 1, st.nextWordDefinitionId - 1);
    TrailerClosing(st.nextDefinitionId - 1, st.nextWordId - 1, st.nextWordDefinitionId - 1);
    SuffixGrows(RowsText(st.rows), trailer, CommitText);
    SuffixGrows(Prologue, BodyText(st), CommitText);
  }

  /** One pass of the inner loop of `dump_sql`; `st` is the fold's state the arguments stand for. */
  method WriteOffset(defs: Definitions, offset: nat, ghost st: ExportState,
                     definitionIds0: map<nat, nat>, definitionId0: nat, wordId: nat,
                     wordDefinitionId0: nat, ghost head: string, sql0: string)
    returns (definitionIds: map<nat, nat>, definitionId: nat, wordDefinitionId: nat, sql: string)
    requires definitionIds0 == st.definitionIds && definitionId0 == st.nextDefinitionId
    requires wordId == st.nextWordId && wordDefinitionId0 == st.nextWordDefinitionId
    requires sql0 == head + RowsText(st.rows)
    ensures definitionIds == VisitOffset(st, defs, offset).definitionIds
    ensures definitionId == VisitOffset(st, defs, offset).nextDefinitionId
    ensures wordId == VisitOffset(st, defs, offset).nextWordId
    ensures wordDefinitionId == VisitOffset(st, defs, offset).nextWordDefinitionId
    ensures sql == head + RowsText(VisitOffset(st, defs, offset).rows)
  {
    definitionIds, definitionId, wordDefinitionId, sql := definitionIds0, definitionId0, wordDefinitionId0, sql0;
    ghost var mid := AssignDefinition(st, defs, offset);
    if offset !in definitionIds {
      if offset in defs {
        var row := DefinitionRow(definitionId, offset, defs[offset]);
        RowsTextAppend(head, st.rows, row);
        sql := sql + RowText(row);
        definitionIds := definitionIds[offset := definitionId];
        definitionId := definitionId + 1;
      }
    }
    if offset in definitionIds {
      var row := WordDefinitionRow(wordDefinitionId, definitionIds[offset], wordId, offset);
      RowsTextAppend(head, mid.rows, row);
      sql := sql + RowText(row);
      wordDefinitionId := wordDefinitionId + 1;
    }
  }

  /** The inner `for offset in offsets` loop of `dump_sql`, run from the state `first`. */
  method WriteOffsets(defs: Definitions, offsets: set<nat>, ghost first: ExportState,
                      definitionIds0: map<nat, nat>, definitionId0: nat, wordId: nat,
                      wordDefinitionId0: nat, ghost head: string, sql0: string)
    returns (definitionIds: map<nat, nat>, definitionId: nat, wordDefinitionId: nat, sql: string,
             ghost order: seq<nat>)
    requires definitionIds0 == first.definitionIds && definitionId0 == first.nextDefinitionId
    requires wordId == first.nextWordId && wordDefinitionId0 == first.nextWordDefinitionId
    requires sql0 == head + RowsText(first.rows)
    ensures Enumerates(order, offsets)
    ensures definitionIds == VisitOffsets(first, defs, order).definitionIds
    ensures definitionId == VisitOffsets(first, defs, order).nextDefinitionId
    ensures wordId == VisitOffsets(first, defs, order).nextWordId
    ensures wordDefinitionId == VisitOffsets(first, defs, order).nextWordDefinitionId
    ensures sql == head + RowsText(VisitOffsets(first, defs, order).rows)
  {
    definitionIds, definitionId, wordDefinitionId, sql := definitionIds0, definitionId0, wordDefinitionId0, sql0;
    ghost var st := first;
    var remaining := offsets;
    order := [];
    while remaining != {}
      invariant Distinct(order) && Elems(order) !! remaining && Elems(order) + remaining == offsets
      invariant st == VisitOffsets(first, defs, order)
      invariant definitionIds == st.definitionIds && definitionId == st.nextDefinitionId && wordId == st.nextWordId
      invariant wordDefinitionId == st.nextWordDefinitionId && sql == head + RowsText(st.rows)
      decreases |remaining|
    {
      var offset :| offset in remaining;
      definitionIds, definitionId, wordDefinitionId, sql :=
        WriteOffset(defs, offset, st, definitionIds, definitionId, wordId, wordDefinitionId, head, sql);
      VisitStep(order, remaining, offsets, offset);
      assert (order + [offset])[..|order|] == order;
      order := order + [offset];
      st := VisitOffset(st, defs, offset);
      remaining := remaining - {offset};
    }
  }

  /** One pass of the outer loop of `dump_sql`: the word's row, then its offsets. */
  method WriteWord(defs: Definitions, word: string, offsets: set<nat>, ghost st: ExportState,
                   definitionIds0: map<nat, nat>, definitionId0: nat, wordId0: nat,
                   wordDefinitionId0: nat, ghost head: string, sql0: string)
    returns (definitionIds: map<nat, nat>, definitionId: nat, wordId: nat, wordDefinitionId: nat, sql: string,
             ghost order: seq<nat>)
    requires definitionIds0 == st.definitionIds && definitionId0 == st.nextDefinitionId
    requires wordId0 == st.nextWordId && wordDefinitionId0 == st.nextWordDefinitionId
    requires sql0 == head + RowsText(st.rows)
    ensures Enumerates(order, offsets)
    ensures definitionIds == VisitWord(st, defs, word, order).definitionIds
    ensures definitionId == VisitWord(st, defs, word, order).nextDefinitionId
    ensures wordId == VisitWord(st, defs, word, order).nextWordId
    ensures wordDefinitionId == VisitWord(st, defs, word, order).nextWordDefinitionId
    ensures sql == head + RowsText(VisitWord(st, defs, word, order).rows)
  {
    RowsTextAppend(head, st.rows, WordRow(wordId0, word));
    sql := sql0 + RowText(WordRow(wordId0, word));
    ghost var first := StartWord(st, word);
    definitionIds, definitionId, wordDefinitionId, sql, order :=
      WriteOffsets(defs, offsets, first, definitionIds0, definitionId0, wordId0, wordDefinitionId0, head, sql);
    wordId := wordId0 + 1;
  }

  /**
   * The outer `for (word, offsets) in words` loop of `dump_sql`, over the words `keys`
   * in that order, appending to `sql0`, the text written so far.
   */
  method WriteWords(defs: Definitions, words: Words, keys: seq<string>, sql0: string)
    returns (definitionId: nat, wordId: nat, wordDefinitionId: nat, sql: string, ghost orders: seq<seq<nat>>)
    requires forall i :: 0 <= i < |keys| ==> keys[i] in words
    ensures |orders| == |keys| && OrdersFor(words, keys, orders)
    ensures definitionId == VisitWords(defs, keys, orders).nextDefinitionId
    ensures wordId == VisitWords(defs, keys, orders).nextWordId
    ensures wordDefinitionId == VisitWords(defs, keys, orders).nextWordDefinitionId
    ensures sql == sql0 + RowsText(VisitWords(defs, keys, orders).rows)
  {
    ghost var head := sql0;
    var definitionIds: map<nat, nat> := map[];
    definitionId, wordId, wordDefinitionId, sql := 1, 1, 1, sql0;
    orders := [];
    ghost var st := Start();
    for i := 0 to |keys|
      invariant |orders| == i
      invariant OrdersFor(words, keys, orders)
      invariant st == VisitWords(defs, keys[..i], orders)
      invariant definitionIds == st.definitionIds && definitionId == st.nextDefinitionId && wordId == st.nextWordId
      invariant wordDefinitionId == st.nextWordDefinitionId && sql == head + RowsText(st.rows)
    {
      var word := keys[i];
      ghost var order;
      definitionIds, definitionId, wordId, wordDefinitionId, sql, order :=
        WriteWord(defs, word, words[word], st, definitionIds, definitionId, wordId, wordDefinitionId, head, sql);
      OrdersForExtend(words, keys, orders, order);
      TakeOneMore(keys, i);
      VisitWordsSnoc(defs, keys[..i], orders, word, order);
      st := VisitWord(st, defs, word, order);
      orders := orders + [order];
    }
    assert keys[..|keys|] == keys;
  }

  /** The body text of a state: its rows, then the trailer of its counters. */
  lemma BodyTextSplit(st: ExportState)
    ensures BodyText(st) == RowsText(st.rows)
      + SequenceTrailer(st.nextDefinitionId - 1, st.nextWordId - 1, st.nextWordDefinitionId - 1)
  {
  }

  lemma TrailerOfCounters(definitions: int, words: int, wordDefinitions: int,
                          definitions': int, words': int, wordDefinitions': int)
    requires definitions == definitions' && words == words' && wordDefinitions == wordDefinitions'
    ensures SequenceTrailer(definitions, words, wordDefinitions) == SequenceTrailer(definitions', words', wordDefinitions')
  {
  }

  /** The opening pushes of `dump_sql`: the pragma, the transaction start and the three tables. */
  method WritePrologue() returns (sql: string)
    ensures sql == Prologue
  {
    sql := "";
    sql := sql + PragmaText;
    sql := sql + BeginText;
    sql := sql + DefinitionTableText;
    sql := sql + WordTableText;
    sql := sql + WordDefinitionTableText;
    PrologueSteps(sql);
  }

  /** The closing pushes of `dump_sql`: the `sqlite_sequence` rows and the commit. */
  method WriteTrailer(sql0: string, definitions: int, words: int, wordDefinitions: int) returns (sql: string)
    ensures sql == sql0 + SequenceTrailer(definitions, words, wordDefinitions)
  {
    sql := sql0 + DeleteSequenceText;
    sql := sql + SequenceText("definition", definitions);
    sql := sql + SequenceText("word", words);
    sql := sql + SequenceText("word_definition", wordDefinitions);
    sql := sql + CommitText;
    TrailerSteps(sql0, definitions, words, wordDefinitions);
  }

  /** Everything `dump_sql` writes after the tables: the rows and the trailer, appended to `sql0`. */
  method WriteRowsAndTrailer(wd: WordData, sql0: string) returns (sql: string, ghost orders: seq<seq<nat>>)
    ensures ValidOrders(wd, orders)
    ensures sql == sql0 + BodyText(Export(wd, orders))
  {
    var keys := SortedKeys(wd.words.Keys);
    var definitionId: int, wordId: int, wordDefinitionId: int;
    definitionId, wordId, wordDefinitionId, sql, orders := WriteWords(wd.definitions, wd.words, keys, sql0);
    ghost var st := VisitWords(wd.definitions, keys, orders);
    sql := WriteTrailer(sql, definitionId - 1, wordId - 1, wordDefinitionId - 1);
    OrdersForAll(wd.words, keys, orders);
    BodyTextSplit(st);
    TrailerOfCounters(definitionId - 1, wordId - 1, wordDefinitionId - 1,
                      st.nextDefinitionId - 1, st.nextWordId - 1, st.nextWordDefinitionId - 1);
    Concat3(sql0, RowsText(st.rows), SequenceTrailer(definitionId - 1, wordId - 1, wordDefinitionId - 1));
  }

  /**
   * `dump_sql`: the pragma, the transaction start and the three tables, then the same
   * two loops as `create_word_database` writing each row as an `INSERT` with its id,
   * then the `sqlite_sequence` trailer. The script is the text of the id-assignment
   * fold's final state for the visiting orders returned in `orders`.
   */
  method DumpSql(wd: WordData) returns (sql: string, ghost orders: seq<seq<nat>>)
    ensures ValidOrders(wd, orders)
    ensures sql == DumpText(Export(wd, orders))
  {
    sql := WritePrologue();
    sql, orders := WriteRowsAndTrailer(wd, sql);
  }
}
