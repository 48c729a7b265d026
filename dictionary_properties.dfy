/**
 * What a run of `get_word_data` promises, proved about the fold `Aggregate` that
 * the method `GetWordData` is verified against.
 */
module DictionaryProperties {
  import opened Wrappers
  import opened Text
  import opened Args
  import opened IndexLine
  import opened DataLine
  import opened Iteration
  import opened DictionaryHandler

  // ----- Reference definitions: the kept lines, listed independently of the tables -----

  /** The entries of the kept lines of one index file, in line order. */
  function KeptEntries(args: FilterArgs, lines: seq<string>): (es: seq<IndexEntry>)
    ensures |es| <= |lines|
    decreases |lines|
  {
    if |lines| == 0 then [] else LineEntries(args, lines[0]) + KeptEntries(args, lines[1..])
  }

  /** The entry of one line, if it is kept. */
  function LineEntries(args: FilterArgs, line: string): (es: seq<IndexEntry>)
    ensures |es| <= 1
    ensures forall e :: e in es ==> ParseIndexLine(args, line) == Some(e)
  {
    match ParseIndexLine(args, line)
    case None => []
    case Some(e) => [e]
  }

  /** Each kept entry is the parse of one of the lines. */
  lemma {:induction false} KeptEntriesSound(args: FilterArgs, lines: seq<string>)
    ensures forall e :: e in KeptEntries(args, lines) ==> exists l :: l in lines && ParseIndexLine(args, l) == Some(e)
    decreases |lines|
  {
    if |lines| > 0 {
      KeptEntriesSound(args, lines[1..]);
      forall e | e in KeptEntries(args, lines)
        ensures exists l :: l in lines && ParseIndexLine(args, l) == Some(e)
      {
        if e !in LineEntries(args, lines[0]) {
          var l :| l in lines[1..] && ParseIndexLine(args, l) == Some(e);
          assert l in lines;
        }
      }
    }
  }

  /** The entries of the kept lines of every pair, pair after pair. */
  function AllKeptEntries(args: FilterArgs, pairs: seq<SourcePair>): seq<IndexEntry>
    decreases |pairs|
  {
    if |pairs| == 0 then []
    else KeptEntries(args, pairs[0].indexLines) + AllKeptEntries(args, pairs[1..])
  }

  /** Each kept entry of a run is the parse of a line of one of the pairs' index files. */
  lemma {:induction false} AllKeptEntriesSound(args: FilterArgs, pairs: seq<SourcePair>)
    ensures forall e :: e in AllKeptEntries(args, pairs) ==>
      exists p, l :: 0 <= p < |pairs| && l in pairs[p].indexLines && ParseIndexLine(args, l) == Some(e)
    decreases |pairs|
  {
    if |pairs| > 0 {
      AllKeptEntriesSound(args, pairs[1..]);
      KeptEntriesSound(args, pairs[0].indexLines);
      forall e | e in AllKeptEntries(args, pairs)
        ensures exists p, l :: 0 <= p < |pairs| && l in pairs[p].indexLines && ParseIndexLine(args, l) == Some(e)
      {
        if e in KeptEntries(args, pairs[0].indexLines) {
          var l :| l in pairs[0].indexLines && ParseIndexLine(args, l) == Some(e);
        } else {
          assert e in AllKeptEntries(args, pairs[1..]);
          var p, l :| 0 <= p < |pairs| - 1 && l in pairs[1..][p].indexLines && ParseIndexLine(args, l) == Some(e);
          assert pairs[1..][p] == pairs[p + 1];
        }
      }
    }
  }

  function WordsIn(es: seq<IndexEntry>): set<string> {
    set e | e in es :: e.word
  }

  function OffsetsFor(es: seq<IndexEntry>, w: string): set<nat> {
    set e, o | e in es && e.word == w && o in e.offsets :: o
  }

  function OffsetsIn(es: seq<IndexEntry>): set<nat> {
    set e, o | e in es && o in e.offsets :: o
  }

  /** The offsets one pair's kept index lines list. */
  function PairOffsets(args: FilterArgs, pair: SourcePair): set<nat> {
    OffsetsIn(KeptEntries(args, pair.indexLines))
  }

  /** The offsets each pair's kept index lines list, pair by pair. */
  function ListedPerPair(args: FilterArgs, pairs: seq<SourcePair>): (r: seq<set<nat>>)
    ensures |r| == |pairs|
    ensures forall q :: 0 <= q < |pairs| ==> r[q] == PairOffsets(args, pairs[q])
  {
    seq(|pairs|, q requires 0 <= q < |pairs| => PairOffsets(args, pairs[q]))
  }

  /** The index of the first of the sets `ss` that holds `o`, if any does. */
  function FirstIn(ss: seq<set<nat>>, o: nat): (r: Option<nat>)
    ensures r.Some? ==> r.value < |ss| && o in ss[r.value]
    ensures r.Some? ==> forall q :: 0 <= q < r.value ==> o !in ss[q]
    ensures r.None? ==> forall q :: 0 <= q < |ss| ==> o !in ss[q]
    decreases |ss|
  {
    if |ss| == 0 then None
    else if o in ss[0] then Some(0)
    else
      match FirstIn(ss[1..], o)
      case None => None
      case Some(q) => Some(q + 1)
  }

  /** The first pair whose kept index lines list offset `o`. */
  function FirstListing(args: FilterArgs, pairs: seq<SourcePair>, o: nat): (r: Option<nat>)
    ensures r.Some? ==> r.value < |pairs|
  {
    FirstIn(ListedPerPair(args, pairs), o)
  }

  /** The first pair listing `o` is the head if it lists `o`, and otherwise the first tail pair listing it. */
  lemma FirstListingTail(args: FilterArgs, pairs: seq<SourcePair>, o: nat)
    requires |pairs| > 0
    ensures o in PairOffsets(args, pairs[0]) ==> FirstListing(args, pairs, o) == Some(0)
    ensures o !in PairOffsets(args, pairs[0]) && FirstListing(args, pairs[1..], o).Some? ==>
      FirstListing(args, pairs, o) == Some(FirstListing(args, pairs[1..], o).value + 1)
  {
    var ss := ListedPerPair(args, pairs);
    ListedPerPairTail(args, pairs);
    FirstInTail(ss, o);
    assert ss[0] == PairOffsets(args, pairs[0]);
    assert FirstListing(args, pairs, o) == FirstIn(ss, o);
    assert FirstListing(args, pairs[1..], o) == FirstIn(ss[1..], o);
  }

  lemma FirstInTail(ss: seq<set<nat>>, o: nat)
    requires |ss| > 0
    ensures o in ss[0] ==> FirstIn(ss, o) == Some(0)
    ensures o !in ss[0] && FirstIn(ss[1..], o).Some? ==> FirstIn(ss, o) == Some(FirstIn(ss[1..], o).value + 1)
  {}

  lemma ListedPerPairTail(args: FilterArgs, pairs: seq<SourcePair>)
    requires |pairs| > 0
    ensures ListedPerPair(args, pairs)[1..] == ListedPerPair(args, pairs[1..])
  {
    var ss := ListedPerPair(args, pairs);
    forall q | 0 <= q < |pairs| - 1
      ensures ss[1..][q] == ListedPerPair(args, pairs[1..])[q]
    {
      assert pairs[1..][q] == pairs[q + 1];
    }
  }

  /** The definition a pair's data file gives offset `o`. */
  predicate ResolvedBy(pair: SourcePair, o: nat, d: Definition) {
    pair.dataLineAt(o).Some? && d == Definition(Gloss(pair.dataLineAt(o).value), pair.partOfSpeech)
  }

  lemma EntriesAppend(a: seq<IndexEntry>, b: seq<IndexEntry>)
    ensures WordsIn(a + b) == WordsIn(a) + WordsIn(b)
    ensures OffsetsIn(a + b) == OffsetsIn(a) + OffsetsIn(b)
    ensures forall w :: OffsetsFor(a + b, w) == OffsetsFor(a, w) + OffsetsFor(b, w)
  {
  }

  lemma EntriesSingle(e: IndexEntry)
    ensures WordsIn([e]) == {e.word}
    ensures OffsetsIn([e]) == Elems(e.offsets)
    ensures forall w :: OffsetsFor([e], w) == if w == e.word then Elems(e.offsets) else {}
  {
  }

  // ----- The effect of the fold on an arbitrary starting state -----

  /** The word table grew by the entries `es`: new words appear, offset sets only gain. */
  ghost predicate WordsExtended(words: Words, words': Words, es: seq<IndexEntry>) {
    && words'.Keys == words.Keys + WordsIn(es)
    && forall w :: w in words' ==> words'[w] == Lookup(words, w) + OffsetsFor(es, w)
  }

  /** The definition table gained the offsets `added` and kept every existing definition. */
  ghost predicate DefinitionsExtended(defs: Definitions, defs': Definitions, added: set<nat>) {
    && defs'.Keys == defs.Keys + added
    && forall o :: o in defs ==> defs'[o] == defs[o]
  }

  /** Every definition added between `defs` and `defs'` was read from `pair`'s data file. */
  ghost predicate ResolvedFrom(defs: Definitions, defs': Definitions, pair: SourcePair) {
    forall o :: o in defs' && o !in defs ==> ResolvedBy(pair, o, defs'[o])
  }

  lemma OffsetsForAppend(a: seq<IndexEntry>, b: seq<IndexEntry>, w: string)
    ensures OffsetsFor(a + b, w) == OffsetsFor(a, w) + OffsetsFor(b, w)
  {
  }

  lemma OffsetsForAbsent(es: seq<IndexEntry>, w: string)
    requires w !in WordsIn(es)
    ensures OffsetsFor(es, w) == {}
  {
  }

  lemma WordsExtendedComposeAt(w0: Words, w1: Words, w2: Words, a: seq<IndexEntry>, b: seq<IndexEntry>, w: string)
    requires WordsExtended(w0, w1, a) && WordsExtended(w1, w2, b)
    requires w in w2
    ensures w2[w] == Lookup(w0, w) + OffsetsFor(a + b, w)
  {
    OffsetsForAppend(a, b, w);
    if w in w1 {
      assert Lookup(w1, w) == Lookup(w0, w) + OffsetsFor(a, w);
    } else {
      assert w !in w0 && w !in WordsIn(a);
      OffsetsForAbsent(a, w);
    }
  }

  lemma WordsExtendedCompose(w0: Words, w1: Words, w2: Words, a: seq<IndexEntry>, b: seq<IndexEntry>)
    requires WordsExtended(w0, w1, a) && WordsExtended(w1, w2, b)
    ensures WordsExtended(w0, w2, a + b)
  {
    EntriesAppend(a, b);
    forall w | w in w2
      ensures w2[w] == Lookup(w0, w) + OffsetsFor(a + b, w)
    {
      WordsExtendedComposeAt(w0, w1, w2, a, b, w);
    }
  }

  lemma DefinitionsExtendedCompose(d0: Definitions, d1: Definitions, d2: Definitions, a: set<nat>, b: set<nat>)
    requires DefinitionsExtended(d0, d1, a) && DefinitionsExtended(d1, d2, b)
    ensures DefinitionsExtended(d0, d2, a + b)
  {
  }

  lemma ResolvedFromCompose(d0: Definitions, d1: Definitions, d2: Definitions, added: set<nat>, pair: SourcePair)
    requires ResolvedFrom(d0, d1, pair) && ResolvedFrom(d1, d2, pair) && DefinitionsExtended(d1, d2, added)
    requires d0.Keys <= d1.Keys
    ensures ResolvedFrom(d0, d2, pair)
  {
  }

  lemma {:induction false} ResolveOffsetsEffect(defs: Definitions, pair: SourcePair, offsets: seq<nat>)
    requires ResolveOffsets(defs, pair, offsets).Some?
    ensures var defs' := ResolveOffsets(defs, pair, offsets).value;
      DefinitionsExtended(defs, defs', Elems(offsets)) && ResolvedFrom(defs, defs', pair)
    decreases |offsets|
  {
    if |offsets| > 0 {
      var o := offsets[0];
      var line := pair.dataLineAt(o).value;
      var defs1 := if o in defs then defs else defs[o := Definition(Gloss(line), pair.partOfSpeech)];
      ResolveOffsetsEffect(defs1, pair, offsets[1..]);
      var defs' := ResolveOffsets(defs1, pair, offsets[1..]).value;
      assert Elems(offsets) == {o} + Elems(offsets[1..]);
      assert DefinitionsExtended(defs, defs1, {o});
      DefinitionsExtendedCompose(defs, defs1, defs', {o}, Elems(offsets[1..]));
      ResolvedFromCompose(defs, defs1, defs', Elems(offsets[1..]), pair);
    }
  }

  lemma LineEffect(wd: WordData, args: FilterArgs, pair: SourcePair, line: string)
    requires AddLine(wd, args, pair, line).Ok?
    ensures var wd' := AddLine(wd, args, pair, line).value;
      var es := LineEntries(args, line);
      && WordsExtended(wd.words, wd'.words, es)
      && DefinitionsExtended(wd.definitions, wd'.definitions, OffsetsIn(es))
      && ResolvedFrom(wd.definitions, wd'.definitions, pair)
  {
    match ParseIndexLine(args, line)
    case None =>
    case Some(e) =>
      EntriesSingle(e);
      ResolveOffsetsEffect(wd.definitions, pair, e.offsets);
  }

  /**
   * Every kept line of one pair adds its offsets to its word's set and resolves the
   * offsets not yet in the definition table from this pair's data file; nothing that is
   * already in either table is removed or overwritten.
   */
  lemma {:induction false} AddLinesEffect(wd: WordData, args: FilterArgs, pair: SourcePair, lines: seq<string>)
    requires AddLines(wd, args, pair, lines).Ok?
    ensures var wd' := AddLines(wd, args, pair, lines).value;
      var es := KeptEntries(args, lines);
      && WordsExtended(wd.words, wd'.words, es)
      && DefinitionsExtended(wd.definitions, wd'.definitions, OffsetsIn(es))
      && ResolvedFrom(wd.definitions, wd'.definitions, pair)
    decreases |lines|
  {
    var es := KeptEntries(args, lines);
    if |lines| == 0 {
      assert es == [];
    } else {
      var wd1 := AddLine(wd, args, pair, lines[0]).value;
      var wd' := AddLines(wd1, args, pair, lines[1..]).value;
      var head := LineEntries(args, lines[0]);
      var tail := KeptEntries(args, lines[1..]);
      LineEffect(wd, args, pair, lines[0]);
      AddLinesEffect(wd1, args, pair, lines[1..]);
      assert es == head + tail;
      EntriesAppend(head, tail);
      WordsExtendedCompose(wd.words, wd1.words, wd'.words, head, tail);
      DefinitionsExtendedCompose(wd.definitions, wd1.definitions, wd'.definitions, OffsetsIn(head), OffsetsIn(tail));
      ResolvedFromCompose(wd.definitions, wd1.definitions, wd'.definitions, OffsetsIn(tail), pair);
    }
  }

  /** The tables only grow over a run, and by exactly the kept entries of all pairs. */
  lemma {:induction false} AddPairsEffect(wd: WordData, args: FilterArgs, pairs: seq<SourcePair>)
    requires AddPairs(wd, args, pairs).Ok?
    ensures var wd' := AddPairs(wd, args, pairs).value;
      var es := AllKeptEntries(args, pairs);
      && WordsExtended(wd.words, wd'.words, es)
      && DefinitionsExtended(wd.definitions, wd'.definitions, OffsetsIn(es))
    decreases |pairs|
  {
    var es := AllKeptEntries(args, pairs);
    if |pairs| == 0 {
      assert es == [];
    } else {
      var wd1 := AddLines(wd, args, pairs[0], pairs[0].indexLines).value;
      var wd' := AddPairs(wd1, args, pairs[1..]).value;
      var head := KeptEntries(args, pairs[0].indexLines);
      var tail := AllKeptEntries(args, pairs[1..]);
      AddLinesEffect(wd, args, pairs[0], pairs[0].indexLines);
      AddPairsEffect(wd1, args, pairs[1..]);
      EntriesAppend(head, tail);
      WordsExtendedCompose(wd.words, wd1.words, wd'.words, head, tail);
      DefinitionsExtendedCompose(wd.definitions, wd1.definitions, wd'.definitions, OffsetsIn(head), OffsetsIn(tail));
    }
  }

  /**
   * First writer wins across pairs: a definition a run adds for offset `o` is the one
   * read from the data file of the first pair whose kept index lines list `o`, with
   * that pair's part of speech; later pairs listing `o` change nothing.
   */
  lemma {:induction false} AddPairsFirstWriter(wd: WordData, args: FilterArgs, pairs: seq<SourcePair>)
    requires AddPairs(wd, args, pairs).Ok?
    ensures var wd' := AddPairs(wd, args, pairs).value;
      forall o :: o in wd'.definitions && o !in wd.definitions ==>
        FirstListing(args, pairs, o).Some? &&
        ResolvedBy(pairs[FirstListing(args, pairs, o).value], o, wd'.definitions[o])
    decreases |pairs|
  {
    if |pairs| > 0 {
      var wd1 := AddLines(wd, args, pairs[0], pairs[0].indexLines).value;
      var wd' := AddPairs(wd1, args, pairs[1..]).value;
      AddLinesEffect(wd, args, pairs[0], pairs[0].indexLines);
      AddPairsEffect(wd1, args, pairs[1..]);
      AddPairsFirstWriter(wd1, args, pairs[1..]);
      forall o | o in wd'.definitions && o !in wd.definitions
        ensures FirstListing(args, pairs, o).Some?
        ensures ResolvedBy(pairs[FirstListing(args, pairs, o).value], o, wd'.definitions[o])
      {
        FirstListingTail(args, pairs, o);
        if o in wd1.definitions {
          assert o in PairOffsets(args, pairs[0]);
          assert wd'.definitions[o] == wd1.definitions[o];
        } else {
          assert o !in PairOffsets(args, pairs[0]);
          var q := FirstListing(args, pairs[1..], o).value;
          assert pairs[1..][q] == pairs[q + 1];
        }
      }
    }
  }

  // ----- What a run returns -----

  /**
   * The word table of a successful run holds exactly the escaped words of the kept
   * index lines, each with the union of the offsets its kept lines list, whichever
   * pairs they come from.
   */
  lemma {:induction false} AggregateWords(pairs: seq<SourcePair>, args: FilterArgs)
    requires Aggregate(pairs, args).Ok?
    ensures var wd := Aggregate(pairs, args).value;
      var es := AllKeptEntries(args, pairs);
      && wd.words.Keys == WordsIn(es)
      && forall w :: w in wd.words ==> wd.words[w] == OffsetsFor(es, w)
  {
    AddPairsEffect(Empty(), args, pairs);
  }

  /** When offsets and words both come from the same entries, each offset is held by some word. */
  lemma EntriesCoverOffsets(es: seq<IndexEntry>, defs: Definitions, words: Words)
    requires defs.Keys == OffsetsIn(es)
    requires words.Keys == WordsIn(es) && forall w :: w in words ==> words[w] == OffsetsFor(es, w)
    ensures forall o :: o in defs <==> exists w :: w in words && o in words[w]
  {
    forall o
      ensures o in defs <==> exists w :: w in words && o in words[w]
    {
      if o in defs {
        var e :| e in es && o in e.offsets;
        assert e.word in WordsIn(es);
        assert o in OffsetsFor(es, e.word);
      }
      if exists w :: w in words && o in words[w] {
        var w :| w in words && o in words[w];
        assert o in OffsetsFor(es, w);
      }
    }
  }

  /** The definition table of a successful run is keyed by exactly the offsets the kept lines list. */
  lemma AggregateDefinitionKeys(pairs: seq<SourcePair>, args: FilterArgs)
    requires Aggregate(pairs, args).Ok?
    ensures Aggregate(pairs, args).value.definitions.Keys == OffsetsIn(AllKeptEntries(args, pairs))
  {
    AddPairsEffect(Empty(), args, pairs);
  }

  /** The definition stored for an offset comes from the first pair listing it. */
  lemma AggregateFirstWriter(pairs: seq<SourcePair>, args: FilterArgs)
    requires Aggregate(pairs, args).Ok?
    ensures var wd := Aggregate(pairs, args).value;
      forall o :: o in wd.definitions ==>
        FirstListing(args, pairs, o).Some? &&
        ResolvedBy(pairs[FirstListing(args, pairs, o).value], o, wd.definitions[o])
  {
    AddPairsFirstWriter(Empty(), args, pairs);
  }

  /**
   * The definition table of a successful run is keyed by exactly the offsets the kept
   * lines list, so every definition is referenced by some stored word and every offset
   * a stored word holds has a definition; the definition stored for an offset is the
   * gloss read from the data file of the first pair listing it, with that pair's part
   * of speech.
   */
  lemma AggregateDefinitions(pairs: seq<SourcePair>, args: FilterArgs)
    requires Aggregate(pairs, args).Ok?
    ensures var wd := Aggregate(pairs, args).value;
      && wd.definitions.Keys == OffsetsIn(AllKeptEntries(args, pairs))
      && (forall o :: o in wd.definitions <==> exists w :: w in wd.words && o in wd.words[w])
      && forall o :: o in wd.definitions ==>
           FirstListing(args, pairs, o).Some? &&
           ResolvedBy(pairs[FirstListing(args, pairs, o).value], o, wd.definitions[o])
  {
    var wd := Aggregate(pairs, args).value;
    AggregateDefinitionKeys(pairs, args);
    AggregateWords(pairs, args);
    EntriesCoverOffsets(AllKeptEntries(args, pairs), wd.definitions, wd.words);
    AggregateFirstWriter(pairs, args);
  }

  /** Every word of a successful run passes the digit, whole-word and length filters. */
  lemma {:induction false} AggregateFilter(pairs: seq<SourcePair>, args: FilterArgs)
    requires Aggregate(pairs, args).Ok?
    ensures forall w :: w in Aggregate(pairs, args).value.words ==>
      && (!args.keepNumbers ==> !HasDigit(w))
      && (args.onlyWholeWords ==> !HasPunctOrSpace(w))
      && LengthAccepted(args, Utf8Len(w))
  {
    var wd := Aggregate(pairs, args).value;
    var es := AllKeptEntries(args, pairs);
    AddPairsEffect(Empty(), args, pairs);
    AllKeptEntriesSound(args, pairs);
    forall w | w in wd.words
      ensures !args.keepNumbers ==> !HasDigit(w)
      ensures args.onlyWholeWords ==> !HasPunctOrSpace(w)
      ensures LengthAccepted(args, Utf8Len(w))
    {
      var e :| e in es && e.word == w;
      var p, l :| 0 <= p < |pairs| && l in pairs[p].indexLines && ParseIndexLine(args, l) == Some(e);
    }
  }

  // ----- When a run fails -----

  /** Some offset listed by the entries `es` cannot be read from `pair`'s data file. */
  ghost predicate ReadFails(pair: SourcePair, es: seq<IndexEntry>) {
    exists e :: e in es && exists k :: 0 <= k < |e.offsets| && pair.dataLineAt(e.offsets[k]).None?
  }

  /** Some pair's kept lines list an offset its data file cannot give a line for. */
  ghost predicate SomeReadFails(args: FilterArgs, pairs: seq<SourcePair>) {
    exists p :: 0 <= p < |pairs| && ReadFails(pairs[p], KeptEntries(args, pairs[p].indexLines))
  }

  lemma {:induction false} ResolveOffsetsFails(defs: Definitions, pair: SourcePair, offsets: seq<nat>)
    ensures ResolveOffsets(defs, pair, offsets).None? <==>
      exists k :: 0 <= k < |offsets| && pair.dataLineAt(offsets[k]).None?
    decreases |offsets|
  {
    if |offsets| > 0 && pair.dataLineAt(offsets[0]).Some? {
      var o := offsets[0];
      var defs' := if o in defs then defs else defs[o := Definition(Gloss(pair.dataLineAt(o).value), pair.partOfSpeech)];
      ResolveOffsetsFails(defs', pair, offsets[1..]);
      if exists k :: 0 <= k < |offsets| && pair.dataLineAt(offsets[k]).None? {
        var k :| 0 <= k < |offsets| && pair.dataLineAt(offsets[k]).None?;
        assert offsets[1..][k - 1] == offsets[k];
      }
      if exists k :: 0 <= k < |offsets| - 1 && pair.dataLineAt(offsets[1..][k]).None? {
        var k :| 0 <= k < |offsets| - 1 && pair.dataLineAt(offsets[1..][k]).None?;
        assert offsets[k + 1] == offsets[1..][k];
      }
    }
  }

  lemma ReadFailsAppend(pair: SourcePair, a: seq<IndexEntry>, b: seq<IndexEntry>)
    ensures ReadFails(pair, a + b) <==> ReadFails(pair, a) || ReadFails(pair, b)
  {
    if ReadFails(pair, a + b) {
      var e :| e in a + b && exists k :: 0 <= k < |e.offsets| && pair.dataLineAt(e.offsets[k]).None?;
      assert e in a || e in b;
    }
    if ReadFails(pair, a) {
      var e :| e in a && exists k :: 0 <= k < |e.offsets| && pair.dataLineAt(e.offsets[k]).None?;
      assert e in a + b;
    }
    if ReadFails(pair, b) {
      var e :| e in b && exists k :: 0 <= k < |e.offsets| && pair.dataLineAt(e.offsets[k]).None?;
      assert e in a + b;
    }
  }

  /**
   * A pair's lines fail exactly when some kept line lists an unreadable offset: every
   * listed offset is read, including those already resolved.
   */
  lemma {:induction false} AddLinesFails(wd: WordData, args: FilterArgs, pair: SourcePair, lines: seq<string>)
    ensures AddLines(wd, args, pair, lines).IoError? <==> ReadFails(pair, KeptEntries(args, lines))
    decreases |lines|
  {
    if |lines| == 0 {
      assert KeptEntries(args, lines) == [];
    } else {
      var head := LineEntries(args, lines[0]);
      var tail := KeptEntries(args, lines[1..]);
      assert KeptEntries(args, lines) == head + tail;
      ReadFailsAppend(pair, head, tail);
      match ParseIndexLine(args, lines[0])
      case None =>
        assert head == [];
        AddLinesFails(wd, args, pair, lines[1..]);
      case Some(e) =>
        assert head == [e];
        ResolveOffsetsFails(wd.definitions, pair, e.offsets);
        assert ReadFails(pair, head) <==> exists k :: 0 <= k < |e.offsets| && pair.dataLineAt(e.offsets[k]).None?;
        match ResolveOffsets(wd.definitions, pair, e.offsets)
        case None =>
        case Some(defs) =>
          AddLinesFails(WordData(defs, AddEntry(wd.words, e)), args, pair, lines[1..]);
    }
  }

  /** A run fails exactly when some pair's kept lines list an offset its data file cannot give. */
  lemma {:induction false} AddPairsFails(wd: WordData, args: FilterArgs, pairs: seq<SourcePair>)
    ensures AddPairs(wd, args, pairs).IoError? <==> SomeReadFails(args, pairs)
    decreases |pairs|
  {
    if |pairs| > 0 {
      AddLinesFails(wd, args, pairs[0], pairs[0].indexLines);
      match AddLines(wd, args, pairs[0], pairs[0].indexLines)
      case IoError =>
      case Ok(wd') =>
        AddPairsFails(wd', args, pairs[1..]);
        if SomeReadFails(args, pairs) {
          var p :| 0 <= p < |pairs| && ReadFails(pairs[p], KeptEntries(args, pairs[p].indexLines));
          assert p > 0;
          assert pairs[1..][p - 1] == pairs[p];
        }
        if SomeReadFails(args, pairs[1..]) {
          var p :| 0 <= p < |pairs| - 1 && ReadFails(pairs[1..][p], KeptEntries(args, pairs[1..][p].indexLines));
          assert pairs[p + 1] == pairs[1..][p];
        }
    }
  }

  // ----- License lines -----

  /** A license line changes nothing, wherever it sits in an index file. */
  lemma {:induction false} LicenseLineIgnored(wd: WordData, args: FilterArgs, pair: SourcePair,
                                              before: seq<string>, line: string, after: seq<string>)
    requires IsLicenseLine(line)
    ensures AddLines(wd, args, pair, before + [line] + after) == AddLines(wd, args, pair, before + after)
    decreases |before|
  {
    if |before| == 0 {
      assert before + [line] + after == [line] + after;
      assert ([line] + after)[1..] == after;
      assert before + after == after;
    } else {
      assert (before + [line] + after)[0] == before[0];
      assert (before + [line] + after)[1..] == before[1..] + [line] + after;
      assert (before + after)[0] == before[0];
      assert (before + after)[1..] == before[1..] + after;
      match AddLine(wd, args, pair, before[0])
      case IoError =>
      case Ok(wd') =>
        LicenseLineIgnored(wd', args, pair, before[1..], line, after);
    }
  }

  // ----- The JSON records of a run -----

  /**
   * After a successful run no definition is lost on the way to JSON: whatever order a
   * word's offset set is visited in, its record lists one definition per offset, and
   * exactly the definitions of those offsets.
   */
  lemma {:induction false} JsonRecordOfRun(pairs: seq<SourcePair>, args: FilterArgs, w: string, order: seq<nat>)
    requires Aggregate(pairs, args).Ok?
    requires w in Aggregate(pairs, args).value.words
    requires Enumerates(order, Aggregate(pairs, args).value.words[w])
    ensures var wd := Aggregate(pairs, args).value;
      && |DefinitionsOf(order, wd.definitions)| == |wd.words[w]|
      && forall d :: d in DefinitionsOf(order, wd.definitions) <==>
           exists o :: o in wd.words[w] && o in wd.definitions && wd.definitions[o] == d
  {
    var wd := Aggregate(pairs, args).value;
    AggregateDefinitions(pairs, args);
    assert wd.words[w] <= wd.definitions.Keys;
    assert wd.words[w] * wd.definitions.Keys == wd.words[w];
    DefinitionsOfEnumeration(order, wd.words[w], wd.definitions);
  }
}
