/**
 * The id-assignment loop shared by the two exporters of src/db_handler/mod.rs, as a
 * fold over the word table in key order. Word ids count up from 1; a definition gets
 * the next definition id the first time one of its offsets is met; a word_definition
 * row links the current word to the id of every offset that has a definition.
 */
module IdAssignment {
  import opened Text
  import opened IndexLine
  import opened KeyOrder
  import opened Iteration
  import opened DictionaryHandler

  /**
   * A row as the exporters emit it, with the ids their counters give it. `offset` in a
   * definition or word_definition row records which data-file offset the row stands
   * for; neither exporter writes it out.
   */
  datatype Row =
    | WordRow(wordId: nat, word: string)
    | DefinitionRow(definitionId: nat, offset: nat, definition: Definition)
    | WordDefinitionRow(wordDefinitionId: nat, definitionId: nat, wordId: nat, offset: nat)

  /**
   * The exporters' mutable state: the `definition_ids` map, the three id counters, and
   * the rows emitted so far, in emission order.
   */
  datatype ExportState = ExportState(
    definitionIds: map<nat, nat>,
    nextDefinitionId: nat,
    nextWordId: nat,
    nextWordDefinitionId: nat,
    rows: seq<Row>)

  function Start(): ExportState {
    ExportState(map[], 1, 1, 1, [])
  }

  // ----- The id-assignment loop as a fold -----

  /** The `Entry::Vacant` branch: an unseen offset with a definition gets the next id and a row. */
  function AssignDefinition(st: ExportState, defs: Definitions, o: nat): ExportState {
    if o !in st.definitionIds && o in defs then
      st.(definitionIds := st.definitionIds[o := st.nextDefinitionId],
          nextDefinitionId := st.nextDefinitionId + 1,
          rows := st.rows + [DefinitionRow(st.nextDefinitionId, o, defs[o])])
    else st
  }

  /** The `definition_ids.get` branch: an offset with an id links it to the current word. */
  function AddJoin(st: ExportState, o: nat): ExportState {
    if o in st.definitionIds then
      st.(nextWordDefinitionId := st.nextWordDefinitionId + 1,
          rows := st.rows + [WordDefinitionRow(st.nextWordDefinitionId, st.definitionIds[o], st.nextWordId, o)])
    else st
  }

  /** One pass of the inner `for offset in offsets` loop. */
  function VisitOffset(st: ExportState, defs: Definitions, o: nat): ExportState {
    AddJoin(AssignDefinition(st, defs, o), o)
  }

  /** The inner loop over a word's offsets in the visiting order `order`. */
  function VisitOffsets(st: ExportState, defs: Definitions, order: seq<nat>): ExportState
    decreases |order|
  {
    if |order| == 0 then st
    else VisitOffset(VisitOffsets(st, defs, order[..|order| - 1]), defs, order[|order| - 1])
  }

  /** The word's row, emitted before its offsets are visited. */
  function StartWord(st: ExportState, w: string): ExportState {
    st.(rows := st.rows + [WordRow(st.nextWordId, w)])
  }

  /** One pass of the outer `for (word, offsets) in words` loop. */
  function VisitWord(st: ExportState, defs: Definitions, w: string, order: seq<nat>): ExportState {
    var st' := VisitOffsets(StartWord(st, w), defs, order);
    st'.(nextWordId := st'.nextWordId + 1)
  }

  /** The outer loop over the words `ws`, the i-th word's offsets visited in `orders[i]`. */
  function VisitWords(defs: Definitions, ws: seq<string>, orders: seq<seq<nat>>): ExportState
    requires |orders| == |ws|
    decreases |ws|
  {
    if |ws| == 0 then Start()
    else
      VisitWord(VisitWords(defs, ws[..|ws| - 1], orders[..|ws| - 1]), defs, ws[|ws| - 1], orders[|ws| - 1])
  }

  /** The outer loop's fold unrolled by one word at its end. */
  lemma VisitWordsSnoc(defs: Definitions, ws: seq<string>, orders: seq<seq<nat>>, w: string, order: seq<nat>)
    requires |orders| == |ws|
    ensures VisitWords(defs, ws + [w], orders + [order]) == VisitWord(VisitWords(defs, ws, orders), defs, w, order)
  {
    assert (ws + [w])[..|ws|] == ws;
    assert (orders + [order])[..|ws|] == orders;
  }

  /** `orders[i]` is a possible visiting order of the offset set of the i-th word in key order. */
  ghost predicate ValidOrders(wd: WordData, orders: seq<seq<nat>>) {
    var keys := SortedKeys(wd.words.Keys);
    |orders| == |keys| && forall i :: 0 <= i < |keys| ==> Enumerates(orders[i], wd.words[keys[i]])
  }

  /** The state after the loops, for the offset-set visiting orders `orders`. */
  function Export(wd: WordData, orders: seq<seq<nat>>): ExportState
    requires |orders| == |SortedKeys(wd.words.Keys)|
  {
    VisitWords(wd.definitions, SortedKeys(wd.words.Keys), orders)
  }

  // ----- The three tables within the emitted rows -----

  function WordRowsOf(rows: seq<Row>): (r: seq<Row>)
    ensures forall k :: 0 <= k < |r| ==> r[k].WordRow?
    decreases |rows|
  {
    if |rows| == 0 then []
    else
      var last := rows[|rows| - 1];
      WordRowsOf(rows[..|rows| - 1]) + (if last.WordRow? then [last] else [])
  }

  function DefinitionRowsOf(rows: seq<Row>): (r: seq<Row>)
    ensures forall k :: 0 <= k < |r| ==> r[k].DefinitionRow?
    decreases |rows|
  {
    if |rows| == 0 then []
    else
      var last := rows[|rows| - 1];
      DefinitionRowsOf(rows[..|rows| - 1]) + (if last.DefinitionRow? then [last] else [])
  }

  function JoinRowsOf(rows: seq<Row>): (r: seq<Row>)
    ensures forall k :: 0 <= k < |r| ==> r[k].WordDefinitionRow?
    decreases |rows|
  {
    if |rows| == 0 then []
    else
      var last := rows[|rows| - 1];
      JoinRowsOf(rows[..|rows| - 1]) + (if last.WordDefinitionRow? then [last] else [])
  }

  /** How many word_definition rows link to word id `n`. */
  function CountJoins(rows: seq<Row>, n: nat): nat
    decreases |rows|
  {
    if |rows| == 0 then 0
    else
      var last := rows[|rows| - 1];
      CountJoins(rows[..|rows| - 1], n) + (if last.WordDefinitionRow? && last.wordId == n then 1 else 0)
  }

  /** The offsets of the word_definition rows linking to word id `n`. */
  function JoinOffsets(rows: seq<Row>, n: nat): (r: set<nat>)
    ensures forall o :: o in r ==> exists x :: x in rows && x.WordDefinitionRow? && x.wordId == n && x.offset == o
    decreases |rows|
  {
    if |rows| == 0 then {}
    else
      var last := rows[|rows| - 1];
      JoinOffsets(rows[..|rows| - 1], n) + (if last.WordDefinitionRow? && last.wordId == n then {last.offset} else {})
  }

  /** Each table holds exactly the rows of its kind. */
  lemma {:induction false} RowsOfMembers(rows: seq<Row>)
    ensures forall x :: x in WordRowsOf(rows) <==> x in rows && x.WordRow?
    ensures forall x :: x in DefinitionRowsOf(rows) <==> x in rows && x.DefinitionRow?
    ensures forall x :: x in JoinRowsOf(rows) <==> x in rows && x.WordDefinitionRow?
    decreases |rows|
  {
    if |rows| > 0 {
      var init := rows[..|rows| - 1];
      assert rows == init + [rows[|rows| - 1]];
      RowsOfMembers(init);
      RowsAppend(init, rows[|rows| - 1]);
    }
  }

  lemma RowsAppend(rows: seq<Row>, r: Row)
    ensures WordRowsOf(rows + [r]) == WordRowsOf(rows) + (if r.WordRow? then [r] else [])
    ensures DefinitionRowsOf(rows + [r]) == DefinitionRowsOf(rows) + (if r.DefinitionRow? then [r] else [])
    ensures JoinRowsOf(rows + [r]) == JoinRowsOf(rows) + (if r.WordDefinitionRow? then [r] else [])
  {
    assert (rows + [r])[..|rows|] == rows;
  }

  lemma JoinsAppend(rows: seq<Row>, r: Row)
    ensures forall n :: CountJoins(rows + [r], n) == CountJoins(rows, n) + (if r.WordDefinitionRow? && r.wordId == n then 1 else 0)
    ensures forall n :: JoinOffsets(rows + [r], n) == JoinOffsets(rows, n) + (if r.WordDefinitionRow? && r.wordId == n then {r.offset} else {})
  {
    assert (rows + [r])[..|rows|] == rows;
  }

  // ----- The invariant the loops keep -----

  /** Word rows carry the ids 1, 2, 3, … in emission order. */
  ghost predicate NumberedWords(W: seq<Row>) {
    forall k :: 0 <= k < |W| ==> W[k].WordRow? && W[k].wordId == k + 1
  }

  /**
   * Definition rows carry the ids 1, 2, 3, … and the definition of their offset; `ids`
   * maps exactly the offsets of those rows to their ids, so it is injective with range
   * 1..|D|, and it maps only offsets that have a definition.
   */
  ghost predicate NumberedDefinitions(D: seq<Row>, ids: map<nat, nat>, defs: Definitions) {
    && (forall k :: 0 <= k < |D| ==>
          && D[k].DefinitionRow?
          && D[k].definitionId == k + 1
          && D[k].offset in defs && D[k].definition == defs[D[k].offset]
          && D[k].offset in ids && ids[D[k].offset] == k + 1)
    && (forall o :: o in ids ==> o in defs && 1 <= ids[o] <= |D| && D[ids[o] - 1].offset == o)
  }

  /** Word_definition rows carry the ids 1, 2, 3, … and the id `ids` gives their offset. */
  ghost predicate NumberedJoins(J: seq<Row>, ids: map<nat, nat>) {
    forall k :: 0 <= k < |J| ==>
      && J[k].WordDefinitionRow?
      && J[k].wordDefinitionId == k + 1
      && J[k].offset in ids && J[k].definitionId == ids[J[k].offset]
  }

  /** Every word_definition row links to one of the first `bound` word ids. */
  ghost predicate JoinsReferToWords(rows: seq<Row>, bound: nat) {
    forall k :: 0 <= k < |JoinRowsOf(rows)| ==> 1 <= JoinRowsOf(rows)[k].wordId <= bound
  }

  ghost predicate Good(st: ExportState, defs: Definitions) {
    && NumberedWords(WordRowsOf(st.rows))
    && st.nextDefinitionId == |DefinitionRowsOf(st.rows)| + 1
    && NumberedDefinitions(DefinitionRowsOf(st.rows), st.definitionIds, defs)
    && st.nextWordDefinitionId == |JoinRowsOf(st.rows)| + 1
    && NumberedJoins(JoinRowsOf(st.rows), st.definitionIds)
    && JoinsReferToWords(st.rows, |WordRowsOf(st.rows)|)
  }

  /** Between words: the word counter is the next word id. */
  ghost predicate Between(st: ExportState) {
    st.nextWordId == |WordRowsOf(st.rows)| + 1
  }

  /** Inside a word: the word counter is the id of the last word row. */
  ghost predicate Inside(st: ExportState) {
    st.nextWordId == |WordRowsOf(st.rows)| && st.nextWordId >= 1
  }

  lemma NumberedWordsExtend(W: seq<Row>, w: string)
    requires NumberedWords(W)
    ensures NumberedWords(W + [WordRow(|W| + 1, w)])
  {
  }

  lemma NumberedDefinitionsExtend(D: seq<Row>, ids: map<nat, nat>, defs: Definitions, o: nat)
    requires NumberedDefinitions(D, ids, defs)
    requires o !in ids && o in defs
    ensures NumberedDefinitions(D + [DefinitionRow(|D| + 1, o, defs[o])], ids[o := |D| + 1], defs)
  {
    var D' := D + [DefinitionRow(|D| + 1, o, defs[o])];
    var ids' := ids[o := |D| + 1];
    forall k | 0 <= k < |D'|
      ensures D'[k].DefinitionRow? && D'[k].definitionId == k + 1
      ensures D'[k].offset in defs && D'[k].definition == defs[D'[k].offset]
      ensures D'[k].offset in ids' && ids'[D'[k].offset] == k + 1
    {
      if k < |D| {
        assert D'[k] == D[k];
        assert D[k].offset != o;
      }
    }
    forall o' | o' in ids'
      ensures o' in defs && 1 <= ids'[o'] <= |D'| && D'[ids'[o'] - 1].offset == o'
    {
      if o' != o {
        assert D'[ids[o'] - 1] == D[ids[o'] - 1];
      }
    }
  }

  lemma NumberedJoinsGrowIds(J: seq<Row>, ids: map<nat, nat>, o: nat, v: nat)
    requires NumberedJoins(J, ids) && o !in ids
    ensures NumberedJoins(J, ids[o := v])
  {
    forall k | 0 <= k < |J|
      ensures J[k].offset != o
    {
    }
  }

  lemma NumberedJoinsExtend(J: seq<Row>, ids: map<nat, nat>, o: nat, w: nat)
    requires NumberedJoins(J, ids) && o in ids
    ensures NumberedJoins(J + [WordDefinitionRow(|J| + 1, ids[o], w, o)], ids)
  {
    var J' := J + [WordDefinitionRow(|J| + 1, ids[o], w, o)];
    forall k | 0 <= k < |J|
      ensures J'[k] == J[k]
    {
    }
  }

  lemma JoinsReferAppend(rows: seq<Row>, r: Row, bound: nat, bound': nat)
    requires JoinsReferToWords(rows, bound) && bound <= bound'
    requires r.WordDefinitionRow? ==> 1 <= r.wordId <= bound'
    ensures JoinsReferToWords(rows + [r], bound')
  {
    RowsAppend(rows, r);
  }

  lemma StartWordGood(st: ExportState, defs: Definitions, w: string)
    requires Good(st, defs) && Between(st)
    ensures Good(StartWord(st, w), defs) && Inside(StartWord(st, w))
  {
    var r := WordRow(st.nextWordId, w);
    RowsAppend(st.rows, r);
    NumberedWordsExtend(WordRowsOf(st.rows), w);
    JoinsReferAppend(st.rows, r, |WordRowsOf(st.rows)|, |WordRowsOf(st.rows)| + 1);
  }

  lemma AssignDefinitionGood(st: ExportState, defs: Definitions, o: nat)
    requires Good(st, defs) && Inside(st)
    ensures Good(AssignDefinition(st, defs, o), defs) && Inside(AssignDefinition(st, defs, o))
  {
    if o !in st.definitionIds && o in defs {
      var D := DefinitionRowsOf(st.rows);
      var r := DefinitionRow(st.nextDefinitionId, o, defs[o]);
      RowsAppend(st.rows, r);
      NumberedDefinitionsExtend(D, st.definitionIds, defs, o);
      NumberedJoinsGrowIds(JoinRowsOf(st.rows), st.definitionIds, o, st.nextDefinitionId);
      JoinsReferAppend(st.rows, r, |WordRowsOf(st.rows)|, |WordRowsOf(st.rows)|);
    }
  }

  lemma AddJoinGood(st: ExportState, defs: Definitions, o: nat)
    requires Good(st, defs) && Inside(st)
    ensures Good(AddJoin(st, o), defs) && Inside(AddJoin(st, o))
  {
    if o in st.definitionIds {
      var r := WordDefinitionRow(st.nextWordDefinitionId, st.definitionIds[o], st.nextWordId, o);
      RowsAppend(st.rows, r);
      NumberedJoinsExtend(JoinRowsOf(st.rows), st.definitionIds, o, st.nextWordId);
      JoinsReferAppend(st.rows, r, |WordRowsOf(st.rows)|, |WordRowsOf(st.rows)|);
    }
  }

  /**
   * The effect of visiting offsets within one word: the word counter and the word rows
   * stay, `definition_ids` gains the offsets of `added` that have a definition, and the
   * current word gains `count` links, to the offsets of `added` that have a definition,
   * while no other word gains one.
   */
  ghost predicate Step(st: ExportState, st': ExportState, defs: Definitions, added: set<nat>, count: nat) {
    && st'.nextWordId == st.nextWordId
    && WordRowsOf(st'.rows) == WordRowsOf(st.rows)
    && st'.definitionIds.Keys == st.definitionIds.Keys + (added * defs.Keys)
    && (forall n :: n != st.nextWordId ==> CountJoins(st'.rows, n) == CountJoins(st.rows, n))
    && (forall n :: n != st.nextWordId ==> JoinOffsets(st'.rows, n) == JoinOffsets(st.rows, n))
    && CountJoins(st'.rows, st.nextWordId) == CountJoins(st.rows, st.nextWordId) + count
    && JoinOffsets(st'.rows, st.nextWordId) == JoinOffsets(st.rows, st.nextWordId) + (added * defs.Keys)
  }

  lemma StepCompose(s0: ExportState, s1: ExportState, s2: ExportState, defs: Definitions,
                    a: set<nat>, b: set<nat>, ca: nat, cb: nat)
    requires Step(s0, s1, defs, a, ca) && Step(s1, s2, defs, b, cb)
    ensures Step(s0, s2, defs, a + b, ca + cb)
  {
  }

  lemma AssignDefinitionEffect(st: ExportState, defs: Definitions, o: nat)
    ensures var st' := AssignDefinition(st, defs, o);
      && st'.nextWordId == st.nextWordId
      && WordRowsOf(st'.rows) == WordRowsOf(st.rows)
      && st'.definitionIds.Keys == st.definitionIds.Keys + ({o} * defs.Keys)
      && (forall n :: CountJoins(st'.rows, n) == CountJoins(st.rows, n))
      && (forall n :: JoinOffsets(st'.rows, n) == JoinOffsets(st.rows, n))
  {
    if o !in st.definitionIds && o in defs {
      RowsAppend(st.rows, DefinitionRow(st.nextDefinitionId, o, defs[o]));
      JoinsAppend(st.rows, DefinitionRow(st.nextDefinitionId, o, defs[o]));
    }
  }

  lemma AddJoinEffect(st: ExportState, o: nat)
    ensures var st' := AddJoin(st, o);
      && st'.nextWordId == st.nextWordId
      && WordRowsOf(st'.rows) == WordRowsOf(st.rows)
      && st'.definitionIds == st.definitionIds
      && (forall n :: n != st.nextWordId ==> CountJoins(st'.rows, n) == CountJoins(st.rows, n))
      && (forall n :: n != st.nextWordId ==> JoinOffsets(st'.rows, n) == JoinOffsets(st.rows, n))
      && CountJoins(st'.rows, st.nextWordId) == CountJoins(st.rows, st.nextWordId) + (if o in st.definitionIds then 1 else 0)
      && JoinOffsets(st'.rows, st.nextWordId) == JoinOffsets(st.rows, st.nextWordId) + (if o in st.definitionIds then {o} else {})
  {
    if o in st.definitionIds {
      var r := WordDefinitionRow(st.nextWordDefinitionId, st.definitionIds[o], st.nextWordId, o);
      RowsAppend(st.rows, r);
      JoinsAppend(st.rows, r);
    }
  }

  lemma VisitOffsetStep(st: ExportState, defs: Definitions, o: nat)
    requires st.definitionIds.Keys <= defs.Keys
    ensures Step(st, VisitOffset(st, defs, o), defs, {o}, if o in defs then 1 else 0)
  {
    var st1 := AssignDefinition(st, defs, o);
    AssignDefinitionEffect(st, defs, o);
    AddJoinEffect(st1, o);
    assert o in st1.definitionIds <==> o in defs;
  }

  lemma VisitOffsetGood(st: ExportState, defs: Definitions, o: nat)
    requires Good(st, defs) && Inside(st)
    ensures Good(VisitOffset(st, defs, o), defs) && Inside(VisitOffset(st, defs, o))
  {
    AssignDefinitionGood(st, defs, o);
    AddJoinGood(AssignDefinition(st, defs, o), defs, o);
  }

  lemma {:induction false} VisitOffsetsGood(st: ExportState, defs: Definitions, order: seq<nat>)
    requires Good(st, defs) && Inside(st)
    ensures Good(VisitOffsets(st, defs, order), defs) && Inside(VisitOffsets(st, defs, order))
    decreases |order|
  {
    if |order| > 0 {
      var init := order[..|order| - 1];
      VisitOffsetsGood(st, defs, init);
      VisitOffsetGood(VisitOffsets(st, defs, init), defs, order[|order| - 1]);
    }
  }

  /**
   * Visiting a word's offsets in any order gives an id to exactly the visited offsets
   * that have a definition, and links the current word once per visited offset with a
   * definition; no other word gains a link.
   */
  lemma {:induction false} VisitOffsetsStep(st: ExportState, defs: Definitions, order: seq<nat>)
    requires st.definitionIds.Keys <= defs.Keys
    ensures Step(st, VisitOffsets(st, defs, order), defs, Elems(order), CountIn(order, defs.Keys))
    decreases |order|
  {
    if |order| > 0 {
      var init := order[..|order| - 1];
      var last := order[|order| - 1];
      var mid := VisitOffsets(st, defs, init);
      assert order == init + [last];
      assert Elems(order) == Elems(init) + {last};
      VisitOffsetsStep(st, defs, init);
      VisitOffsetStep(mid, defs, last);
      StepCompose(st, mid, VisitOffset(mid, defs, last), defs, Elems(init), {last},
                  CountIn(init, defs.Keys), if last in defs then 1 else 0);
    }
  }

  lemma {:induction false} NoJoinsBeyond(rows: seq<Row>, bound: nat, n: nat)
    requires JoinsReferToWords(rows, bound) && n > bound
    ensures CountJoins(rows, n) == 0 && JoinOffsets(rows, n) == {}
    decreases |rows|
  {
    if |rows| > 0 {
      var init := rows[..|rows| - 1];
      assert rows == init + [rows[|rows| - 1]];
      RowsAppend(init, rows[|rows| - 1]);
      assert JoinsReferToWords(init, bound) by {
        assert forall k :: 0 <= k < |JoinRowsOf(init)| ==> JoinRowsOf(init)[k] == JoinRowsOf(rows)[k];
      }
      NoJoinsBeyond(init, bound, n);
      if rows[|rows| - 1].WordDefinitionRow? {
        assert JoinRowsOf(rows)[|JoinRowsOf(init)|] == rows[|rows| - 1];
      }
    }
  }

  /** A state between words has no link to the next word id, and ids only for defined offsets. */
  lemma GoodBetween(st: ExportState, defs: Definitions)
    requires Good(st, defs) && Between(st)
    ensures st.definitionIds.Keys <= defs.Keys
    ensures CountJoins(st.rows, st.nextWordId) == 0 && JoinOffsets(st.rows, st.nextWordId) == {}
  {
    NoJoinsBeyond(st.rows, |WordRowsOf(st.rows)|, st.nextWordId);
  }

  lemma VisitWordGood(st: ExportState, defs: Definitions, w: string, order: seq<nat>)
    requires Good(st, defs) && Between(st)
    ensures Good(VisitWord(st, defs, w, order), defs) && Between(VisitWord(st, defs, w, order))
  {
    StartWordGood(st, defs, w);
    VisitOffsetsGood(StartWord(st, w), defs, order);
    VisitOffsetsStep(StartWord(st, w), defs, order);
  }

  /** One pass of the outer loop emits the word's row with the current word id. */
  lemma VisitWordRows(st: ExportState, defs: Definitions, w: string, order: seq<nat>)
    ensures var st' := VisitWord(st, defs, w, order);
      && WordRowsOf(st'.rows) == WordRowsOf(st.rows) + [WordRow(st.nextWordId, w)]
      && st'.nextWordId == st.nextWordId + 1
  {
    RowsAppend(st.rows, WordRow(st.nextWordId, w));
    VisitOffsetsRows(StartWord(st, w), defs, order);
  }

  lemma {:induction false} VisitOffsetsRows(st: ExportState, defs: Definitions, order: seq<nat>)
    ensures WordRowsOf(VisitOffsets(st, defs, order).rows) == WordRowsOf(st.rows)
    ensures VisitOffsets(st, defs, order).nextWordId == st.nextWordId
    decreases |order|
  {
    if |order| > 0 {
      var init := order[..|order| - 1];
      var mid := VisitOffsets(st, defs, init);
      VisitOffsetsRows(st, defs, init);
      AssignDefinitionEffect(mid, defs, order[|order| - 1]);
      AddJoinEffect(AssignDefinition(mid, defs, order[|order| - 1]), order[|order| - 1]);
    }
  }

  /**
   * One pass of the outer loop gives ids to the word's offsets that have a definition,
   * and links the current word id once to each of them.
   */
  lemma VisitWordJoins(st: ExportState, defs: Definitions, w: string, order: seq<nat>)
    requires st.definitionIds.Keys <= defs.Keys
    requires CountJoins(st.rows, st.nextWordId) == 0 && JoinOffsets(st.rows, st.nextWordId) == {}
    ensures var st' := VisitWord(st, defs, w, order);
      && st'.definitionIds.Keys == st.definitionIds.Keys + (Elems(order) * defs.Keys)
      && (forall n :: n != st.nextWordId ==> CountJoins(st'.rows, n) == CountJoins(st.rows, n))
      && (forall n :: n != st.nextWordId ==> JoinOffsets(st'.rows, n) == JoinOffsets(st.rows, n))
      && CountJoins(st'.rows, st.nextWordId) == CountIn(order, defs.Keys)
      && JoinOffsets(st'.rows, st.nextWordId) == Elems(order) * defs.Keys
  {
    JoinsAppend(st.rows, WordRow(st.nextWordId, w));
    VisitOffsetsStep(StartWord(st, w), defs, order);
  }

  /** Every offset some visiting order lists. */
  function UnionOf(orders: seq<seq<nat>>): (r: set<nat>)
    ensures forall o :: o in r <==> exists i :: 0 <= i < |orders| && o in orders[i]
    decreases |orders|
  {
    if |orders| == 0 then {}
    else
      var init := orders[..|orders| - 1];
      var r := UnionOf(init) + Elems(orders[|orders| - 1]);
      assert forall o :: o in UnionOf(init) <==> exists i :: 0 <= i < |orders| - 1 && o in orders[i] by {
        forall o ensures o in UnionOf(init) <==> exists i :: 0 <= i < |orders| - 1 && o in orders[i] {
          if o in UnionOf(init) {
            var i :| 0 <= i < |init| && o in init[i];
            assert init[i] == orders[i];
          }
          if exists i :: 0 <= i < |orders| - 1 && o in orders[i] {
            var i :| 0 <= i < |orders| - 1 && o in orders[i];
            assert init[i] == orders[i];
          }
        }
      }
      r
  }

  lemma StartGood(defs: Definitions)
    ensures Good(Start(), defs) && Between(Start())
    ensures WordRowsOf(Start().rows) == [] && CountJoins(Start().rows, 1) == 0
  {
  }

  /** The word rows of the words `ws`, numbered from 1 in order. */
  function NumberedWordRows(ws: seq<string>): (W: seq<Row>)
    ensures |W| == |ws|
    ensures forall k :: 0 <= k < |ws| ==> W[k] == WordRow(k + 1, ws[k])
    decreases |ws|
  {
    if |ws| == 0 then []
    else
      var init := ws[..|ws| - 1];
      var W := NumberedWordRows(init) + [WordRow(|ws|, ws[|ws| - 1])];
      assert forall k :: 0 <= k < |init| ==> W[k] == WordRow(k + 1, init[k]);
      W
  }

  /** The outer loop emits one word row per word, in order, numbered from 1. */
  lemma {:induction false} VisitWordsRows(defs: Definitions, ws: seq<string>, orders: seq<seq<nat>>)
    requires |orders| == |ws|
    ensures VisitWords(defs, ws, orders).nextWordId == |ws| + 1
    ensures WordRowsOf(VisitWords(defs, ws, orders).rows) == NumberedWordRows(ws)
    decreases |ws|
  {
    if |ws| > 0 {
      var n := |ws| - 1;
      var prev := VisitWords(defs, ws[..n], orders[..n]);
      VisitWordsRows(defs, ws[..n], orders[..n]);
      var st := VisitWord(prev, defs, ws[n], orders[n]);
      VisitWordRows(prev, defs, ws[n], orders[n]);
      assert WordRowsOf(st.rows) == WordRowsOf(prev.rows) + [WordRow(prev.nextWordId, ws[n])];
      assert VisitWords(defs, ws, orders) == st;
    }
  }

  /** The outer loop keeps the invariant. */
  lemma {:induction false} VisitWordsGood(defs: Definitions, ws: seq<string>, orders: seq<seq<nat>>)
    requires |orders| == |ws|
    ensures Good(VisitWords(defs, ws, orders), defs) && Between(VisitWords(defs, ws, orders))
    decreases |ws|
  {
    if |ws| == 0 {
      StartGood(defs);
    } else {
      var n := |ws| - 1;
      VisitWordsGood(defs, ws[..n], orders[..n]);
      VisitWordGood(VisitWords(defs, ws[..n], orders[..n]), defs, ws[n], orders[n]);
    }
  }

  /** After the outer loop only offsets with a definition have ids, and no row links past the last word. */
  lemma VisitWordsBetween(defs: Definitions, ws: seq<string>, orders: seq<seq<nat>>)
    requires |orders| == |ws|
    ensures var st := VisitWords(defs, ws, orders);
      && st.definitionIds.Keys <= defs.Keys
      && CountJoins(st.rows, st.nextWordId) == 0 && JoinOffsets(st.rows, st.nextWordId) == {}
  {
    VisitWordsGood(defs, ws, orders);
    GoodBetween(VisitWords(defs, ws, orders), defs);
  }

  lemma {:induction false} VisitWordsCounter(defs: Definitions, ws: seq<string>, orders: seq<seq<nat>>)
    requires |orders| == |ws|
    ensures VisitWords(defs, ws, orders).nextWordId == |ws| + 1
    decreases |ws|
  {
    if |ws| > 0 {
      var n := |ws| - 1;
      VisitWordsCounter(defs, ws[..n], orders[..n]);
      VisitWordRows(VisitWords(defs, ws[..n], orders[..n]), defs, ws[n], orders[n]);
    }
  }

  /** After the outer loop `definition_ids` holds exactly the visited offsets that have a definition. */
  lemma {:induction false} VisitWordsIds(defs: Definitions, ws: seq<string>, orders: seq<seq<nat>>)
    requires |orders| == |ws|
    ensures VisitWords(defs, ws, orders).definitionIds.Keys == UnionOf(orders) * defs.Keys
    decreases |ws|
  {
    if |ws| == 0 {
      assert UnionOf(orders) == {};
    } else {
      var n := |ws| - 1;
      var prev := VisitWords(defs, ws[..n], orders[..n]);
      VisitWordsIds(defs, ws[..n], orders[..n]);
      VisitWordsBetween(defs, ws[..n], orders[..n]);
      var st := VisitWord(prev, defs, ws[n], orders[n]);
      VisitWordJoins(prev, defs, ws[n], orders[n]);
      assert VisitWords(defs, ws, orders) == st;
      assert orders == orders[..n] + [orders[n]];
      assert UnionOf(orders) == UnionOf(orders[..n]) + Elems(orders[n]);
    }
  }

  /**
   * After the outer loop word id n is linked once to each offset of the n-th word that
   * has a definition, and to nothing else.
   */
  lemma {:induction false} VisitWordsJoins(defs: Definitions, ws: seq<string>, orders: seq<seq<nat>>)
    requires |orders| == |ws|
    ensures forall n :: 1 <= n <= |ws| ==>
      && CountJoins(VisitWords(defs, ws, orders).rows, n) == CountIn(orders[n - 1], defs.Keys)
      && JoinOffsets(VisitWords(defs, ws, orders).rows, n) == Elems(orders[n - 1]) * defs.Keys
    decreases |ws|
  {
    if |ws| > 0 {
      var n := |ws| - 1;
      var prev := VisitWords(defs, ws[..n], orders[..n]);
      VisitWordsJoins(defs, ws[..n], orders[..n]);
      VisitWordsCounter(defs, ws[..n], orders[..n]);
      VisitWordsBetween(defs, ws[..n], orders[..n]);
      var st := VisitWord(prev, defs, ws[n], orders[n]);
      VisitWordJoins(prev, defs, ws[n], orders[n]);
      assert VisitWords(defs, ws, orders) == st;
      forall m | 1 <= m <= |ws|
        ensures CountJoins(st.rows, m) == CountIn(orders[m - 1], defs.Keys)
        ensures JoinOffsets(st.rows, m) == Elems(orders[m - 1]) * defs.Keys
      {
        if m <= n {
          assert orders[..n][m - 1] == orders[m - 1];
        }
      }
    }
  }

  // ----- What the loops emit, for any visiting orders -----

  lemma UnionOfWords(wd: WordData, orders: seq<seq<nat>>)
    requires ValidOrders(wd, orders)
    ensures forall o :: o in UnionOf(orders) <==> exists w :: w in wd.words && o in wd.words[w]
  {
    var keys := SortedKeys(wd.words.Keys);
    forall o
      ensures o in UnionOf(orders) <==> exists w :: w in wd.words && o in wd.words[w]
    {
      if o in UnionOf(orders) {
        var i :| 0 <= i < |orders| && o in orders[i];
        assert o in Elems(orders[i]);
        assert keys[i] in wd.words;
      }
      if exists w :: w in wd.words && o in wd.words[w] {
        var w :| w in wd.words && o in wd.words[w];
        var i :| 0 <= i < |keys| && keys[i] == w;
        assert o in Elems(orders[i]);
      }
    }
  }

  /**
   * Word ids are 1..n in key order, one per word, whether or not the word has a
   * definition.
   */
  lemma ExportWords(wd: WordData, orders: seq<seq<nat>>)
    requires ValidOrders(wd, orders)
    ensures Export(wd, orders).nextWordId - 1 == |SortedKeys(wd.words.Keys)|
    ensures |WordRowsOf(Export(wd, orders).rows)| == |SortedKeys(wd.words.Keys)|
    ensures forall k :: 0 <= k < |SortedKeys(wd.words.Keys)| ==>
      WordRowsOf(Export(wd, orders).rows)[k] == WordRow(k + 1, SortedKeys(wd.words.Keys)[k])
  {
    VisitWordsRows(wd.definitions, SortedKeys(wd.words.Keys), orders);
  }

  /**
   * What the invariant says about definition rows and ids: `definition_ids` maps
   * offsets injectively onto 1..|D|; the k-th definition row has id k+1 and the
   * definition of its offset; no two definition rows share an offset.
   */
  lemma GoodDefinitionFacts(st: ExportState, defs: Definitions)
    requires Good(st, defs)
    ensures st.nextDefinitionId - 1 == |DefinitionRowsOf(st.rows)|
    ensures forall o :: o in st.definitionIds ==> 1 <= st.definitionIds[o] <= |DefinitionRowsOf(st.rows)|
    ensures forall o1, o2 ::
      o1 in st.definitionIds && o2 in st.definitionIds && st.definitionIds[o1] == st.definitionIds[o2] ==> o1 == o2
    ensures forall k :: 0 <= k < |DefinitionRowsOf(st.rows)| ==>
      && DefinitionRowsOf(st.rows)[k].offset in defs
      && DefinitionRowsOf(st.rows)[k] == DefinitionRow(k + 1, DefinitionRowsOf(st.rows)[k].offset,
           defs[DefinitionRowsOf(st.rows)[k].offset])
      && DefinitionRowsOf(st.rows)[k].offset in st.definitionIds
      && st.definitionIds[DefinitionRowsOf(st.rows)[k].offset] == k + 1
    ensures forall k, m :: 0 <= k < m < |DefinitionRowsOf(st.rows)| ==>
      DefinitionRowsOf(st.rows)[k].offset != DefinitionRowsOf(st.rows)[m].offset
  {
    var D := DefinitionRowsOf(st.rows);
    forall o1, o2 | o1 in st.definitionIds && o2 in st.definitionIds && st.definitionIds[o1] == st.definitionIds[o2]
      ensures o1 == o2
    {
      assert D[st.definitionIds[o1] - 1].offset == o1;
    }
  }

  /**
   * What the invariant says about word_definition rows: the k-th has id k+1, the id of
   * its offset, which is the id of that offset's definition row, and an emitted word id.
   */
  lemma GoodJoinFacts(st: ExportState, defs: Definitions)
    requires Good(st, defs)
    ensures st.nextWordDefinitionId - 1 == |JoinRowsOf(st.rows)|
    ensures forall k :: 0 <= k < |JoinRowsOf(st.rows)| ==>
      && JoinRowsOf(st.rows)[k].wordDefinitionId == k + 1
      && JoinRowsOf(st.rows)[k].offset in st.definitionIds
      && JoinRowsOf(st.rows)[k].definitionId == st.definitionIds[JoinRowsOf(st.rows)[k].offset]
      && 1 <= JoinRowsOf(st.rows)[k].definitionId <= |DefinitionRowsOf(st.rows)|
      && DefinitionRowsOf(st.rows)[JoinRowsOf(st.rows)[k].definitionId - 1].offset == JoinRowsOf(st.rows)[k].offset
      && 1 <= JoinRowsOf(st.rows)[k].wordId <= |WordRowsOf(st.rows)|
  {
  }

  /** Numbered definition rows stand for distinct offsets, exactly the offsets that have an id. */
  lemma NumberedDefinitionsOffsets(D: seq<Row>, ids: map<nat, nat>, defs: Definitions)
    requires NumberedDefinitions(D, ids, defs)
    ensures |D| == |ids.Keys|
    ensures forall o :: o in ids <==> exists k :: 0 <= k < |D| && D[k].offset == o
  {
    var offsets := seq(|D|, k requires 0 <= k < |D| => D[k].offset);
    forall i, j | 0 <= i < j < |offsets|
      ensures offsets[i] != offsets[j]
    {
      assert ids[D[i].offset] == i + 1 && ids[D[j].offset] == j + 1;
    }
    forall o | o in ids
      ensures o in Elems(offsets)
    {
      assert offsets[ids[o] - 1] == o;
    }
    assert Elems(offsets) == ids.Keys;
    DistinctSize(offsets);
  }

  /** Each word_definition row lies within the emitted words and among its word's linked offsets. */
  lemma JoinRowsListed(rows: seq<Row>, bound: nat)
    requires JoinsReferToWords(rows, bound)
    ensures forall k :: 0 <= k < |JoinRowsOf(rows)| ==>
      && 1 <= JoinRowsOf(rows)[k].wordId <= bound
      && JoinRowsOf(rows)[k].offset in JoinOffsets(rows, JoinRowsOf(rows)[k].wordId)
  {
    var J := JoinRowsOf(rows);
    RowsOfMembers(rows);
    forall k | 0 <= k < |J|
      ensures 1 <= J[k].wordId <= bound && J[k].offset in JoinOffsets(rows, J[k].wordId)
    {
      assert J[k] in rows;
      JoinOffsetsComplete(rows, J[k]);
    }
  }

  /** After both loops the invariant holds, whatever the visiting orders. */
  lemma ExportGood(wd: WordData, orders: seq<seq<nat>>)
    requires |orders| == |SortedKeys(wd.words.Keys)|
    ensures Good(Export(wd, orders), wd.definitions) && Between(Export(wd, orders))
  {
    VisitWordsGood(wd.definitions, SortedKeys(wd.words.Keys), orders);
  }

  /** `definition_ids` maps exactly the offsets that some word lists and that have a definition. */
  lemma ExportDefinitionIds(wd: WordData, orders: seq<seq<nat>>)
    requires ValidOrders(wd, orders)
    ensures forall o :: o in Export(wd, orders).definitionIds <==>
      o in wd.definitions && exists w :: w in wd.words && o in wd.words[w]
  {
    VisitWordsIds(wd.definitions, SortedKeys(wd.words.Keys), orders);
    UnionOfWords(wd, orders);
  }

  /** Counting visits in each word's order is counting that word's offsets. */
  lemma LinksFromOrders(wd: WordData, orders: seq<seq<nat>>, rows: seq<Row>)
    requires ValidOrders(wd, orders)
    requires forall n :: 1 <= n <= |orders| ==>
      && CountJoins(rows, n) == CountIn(orders[n - 1], wd.definitions.Keys)
      && JoinOffsets(rows, n) == Elems(orders[n - 1]) * wd.definitions.Keys
    ensures forall n :: 1 <= n <= |SortedKeys(wd.words.Keys)| ==>
      && CountJoins(rows, n) == |wd.words[SortedKeys(wd.words.Keys)[n - 1]] * wd.definitions.Keys|
      && JoinOffsets(rows, n) == wd.words[SortedKeys(wd.words.Keys)[n - 1]] * wd.definitions.Keys
  {
    var keys := SortedKeys(wd.words.Keys);
    forall n | 1 <= n <= |keys|
      ensures CountJoins(rows, n) == |wd.words[keys[n - 1]] * wd.definitions.Keys|
    {
      CountInEnumeration(orders[n - 1], wd.words[keys[n - 1]], wd.definitions.Keys);
    }
  }

  /**
   * Word id n is linked once to each offset of the n-th word that has a definition,
   * and to no other offset, whatever order the offsets are visited in.
   */
  lemma ExportLinksPerWord(wd: WordData, orders: seq<seq<nat>>)
    requires ValidOrders(wd, orders)
    ensures forall n :: 1 <= n <= |SortedKeys(wd.words.Keys)| ==>
      && CountJoins(Export(wd, orders).rows, n) == |wd.words[SortedKeys(wd.words.Keys)[n - 1]] * wd.definitions.Keys|
      && JoinOffsets(Export(wd, orders).rows, n) == wd.words[SortedKeys(wd.words.Keys)[n - 1]] * wd.definitions.Keys
  {
    VisitWordsJoins(wd.definitions, SortedKeys(wd.words.Keys), orders);
    LinksFromOrders(wd, orders, Export(wd, orders).rows);
  }

  /** An offset without a definition gets no id, no definition row and no word_definition row. */
  lemma ExportMissingOffset(wd: WordData, orders: seq<seq<nat>>, o: nat)
    requires ValidOrders(wd, orders)
    requires o !in wd.definitions
    ensures o !in Export(wd, orders).definitionIds
    ensures forall r :: r in Export(wd, orders).rows && r.DefinitionRow? ==> r.offset != o
    ensures forall r :: r in Export(wd, orders).rows && r.WordDefinitionRow? ==> r.offset != o
  {
    var st := Export(wd, orders);
    ExportGood(wd, orders);
    var D := DefinitionRowsOf(st.rows);
    var J := JoinRowsOf(st.rows);
    RowsOfMembers(st.rows);
    forall r | r in st.rows && r.DefinitionRow?
      ensures r.offset != o
    {
      assert r in D;
    }
    forall r | r in st.rows && r.WordDefinitionRow?
      ensures r.offset != o
    {
      assert r in J;
    }
  }

  /** A word_definition row's offset is among the offsets linked to its word id. */
  lemma {:induction false} JoinOffsetsComplete(rows: seq<Row>, x: Row)
    requires x in rows && x.WordDefinitionRow?
    ensures x.offset in JoinOffsets(rows, x.wordId)
    decreases |rows|
  {
    var init := rows[..|rows| - 1];
    assert rows == init + [rows[|rows| - 1]];
    if x != rows[|rows| - 1] {
      JoinOffsetsComplete(init, x);
    }
  }

  // ----- Rows come after the rows they refer to -----

  /**
   * Each word_definition row comes after its word's row, while that word is the latest
   * one emitted (its word id is the number of word rows before it), and after the row
   * of its definition (its definition id is at most the number of definition rows
   * before it).
   */
  ghost predicate JoinsAfterReferents(rows: seq<Row>) {
    forall p :: 0 <= p < |rows| && rows[p].WordDefinitionRow? ==>
      && rows[p].wordId == |WordRowsOf(rows[..p])|
      && 1 <= rows[p].definitionId <= |DefinitionRowsOf(rows[..p])|
  }

  lemma JoinsAfterReferentsAppend(rows: seq<Row>, r: Row)
    requires JoinsAfterReferents(rows)
    requires r.WordDefinitionRow? ==>
      r.wordId == |WordRowsOf(rows)| && 1 <= r.definitionId <= |DefinitionRowsOf(rows)|
    ensures JoinsAfterReferents(rows + [r])
  {
    var rows' := rows + [r];
    forall p | 0 <= p < |rows'| && rows'[p].WordDefinitionRow?
      ensures rows'[p].wordId == |WordRowsOf(rows'[..p])|
      ensures 1 <= rows'[p].definitionId <= |DefinitionRowsOf(rows'[..p])|
    {
      if p < |rows| {
        assert rows'[..p] == rows[..p];
      } else {
        assert rows'[..p] == rows;
      }
    }
  }

  lemma AssignDefinitionOrder(st: ExportState, defs: Definitions, o: nat)
    requires JoinsAfterReferents(st.rows)
    ensures JoinsAfterReferents(AssignDefinition(st, defs, o).rows)
  {
    if o !in st.definitionIds && o in defs {
      JoinsAfterReferentsAppend(st.rows, DefinitionRow(st.nextDefinitionId, o, defs[o]));
    }
  }

  lemma AddJoinOrder(st: ExportState, defs: Definitions, o: nat)
    requires Good(st, defs) && Inside(st) && JoinsAfterReferents(st.rows)
    ensures JoinsAfterReferents(AddJoin(st, o).rows)
  {
    if o in st.definitionIds {
      JoinsAfterReferentsAppend(st.rows,
        WordDefinitionRow(st.nextWordDefinitionId, st.definitionIds[o], st.nextWordId, o));
    }
  }

  lemma VisitOffsetOrder(st: ExportState, defs: Definitions, o: nat)
    requires Good(st, defs) && Inside(st) && JoinsAfterReferents(st.rows)
    ensures JoinsAfterReferents(VisitOffset(st, defs, o).rows)
  {
    AssignDefinitionGood(st, defs, o);
    AssignDefinitionOrder(st, defs, o);
    AddJoinOrder(AssignDefinition(st, defs, o), defs, o);
  }

  lemma {:induction false} VisitOffsetsOrder(st: ExportState, defs: Definitions, order: seq<nat>)
    requires Good(st, defs) && Inside(st) && JoinsAfterReferents(st.rows)
    ensures JoinsAfterReferents(VisitOffsets(st, defs, order).rows)
    decreases |order|
  {
    if |order| > 0 {
      var init := order[..|order| - 1];
      VisitOffsetsOrder(st, defs, init);
      VisitOffsetsGood(st, defs, init);
      VisitOffsetOrder(VisitOffsets(st, defs, init), defs, order[|order| - 1]);
    }
  }

  lemma VisitWordOrder(st: ExportState, defs: Definitions, w: string, order: seq<nat>)
    requires Good(st, defs) && Between(st) && JoinsAfterReferents(st.rows)
    ensures JoinsAfterReferents(VisitWord(st, defs, w, order).rows)
  {
    JoinsAfterReferentsAppend(st.rows, WordRow(st.nextWordId, w));
    StartWordGood(st, defs, w);
    VisitOffsetsOrder(StartWord(st, w), defs, order);
  }

  lemma {:induction false} VisitWordsOrder(defs: Definitions, ws: seq<string>, orders: seq<seq<nat>>)
    requires |orders| == |ws|
    ensures JoinsAfterReferents(VisitWords(defs, ws, orders).rows)
    decreases |ws|
  {
    if |ws| > 0 {
      var n := |ws| - 1;
      var prev := VisitWords(defs, ws[..n], orders[..n]);
      VisitWordsOrder(defs, ws[..n], orders[..n]);
      VisitWordsGood(defs, ws[..n], orders[..n]);
      VisitWordOrder(prev, defs, ws[n], orders[n]);
      assert VisitWords(defs, ws, orders) == VisitWord(prev, defs, ws[n], orders[n]);
    }
  }

  /** The definition rows emitted before position `p` are the first definition rows. */
  lemma {:induction false} DefinitionRowsPrefix(rows: seq<Row>, p: nat)
    requires p <= |rows|
    ensures DefinitionRowsOf(rows[..p]) <= DefinitionRowsOf(rows)
    decreases |rows|
  {
    if p < |rows| {
      var init := rows[..|rows| - 1];
      assert rows[..p] == init[..p];
      DefinitionRowsPrefix(init, p);
    } else {
      assert rows[..p] == rows;
    }
  }

  /**
   * Whatever the visiting orders, every word_definition row is emitted while its word is
   * the current one, after the definition row carrying its definition id.
   */
  lemma ExportOrder(wd: WordData, orders: seq<seq<nat>>)
    requires |orders| == |SortedKeys(wd.words.Keys)|
    ensures JoinsAfterReferents(Export(wd, orders).rows)
    ensures forall p :: 0 <= p < |Export(wd, orders).rows| && Export(wd, orders).rows[p].WordDefinitionRow? ==>
      exists q :: 0 <= q < p && Export(wd, orders).rows[q].DefinitionRow?
        && Export(wd, orders).rows[q].definitionId == Export(wd, orders).rows[p].definitionId
  {
    var rows := Export(wd, orders).rows;
    VisitWordsOrder(wd.definitions, SortedKeys(wd.words.Keys), orders);
    ExportGood(wd, orders);
    forall p | 0 <= p < |rows| && rows[p].WordDefinitionRow?
      ensures exists q :: 0 <= q < p && rows[q].DefinitionRow? && rows[q].definitionId == rows[p].definitionId
    {
      var id := rows[p].definitionId;
      DefinitionRowsPrefix(rows, p);
      var x := DefinitionRowsOf(rows[..p])[id - 1];
      assert x == DefinitionRowsOf(rows)[id - 1];
      RowsOfMembers(rows[..p]);
      assert x in rows[..p];
      var q :| 0 <= q < p && rows[..p][q] == x;
      assert rows[q] == x;
    }
  }
}
