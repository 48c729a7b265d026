/**
 * One line of a WordNet index file, as `get_word_data` reads it: the license
 * test, the head word with its quotes doubled, the three word filters and the
 * byte offsets found by the regex `\s{1}(?<offset>\d{8})`.
 */
module IndexLine {
  import opened Wrappers
  import opened Text
  import opened Args

  /** A kept index line: the escaped word and the offsets in the order they occur. */
  datatype IndexEntry = IndexEntry(word: string, offsets: seq<nat>)

  /** `line.starts_with("  ")`: a license or header line. */
  predicate IsLicenseLine(line: string) {
    |line| >= 2 && line[0] == ' ' && line[1] == ' '
  }

  /** `line.split(' ')` first piece: everything before the first space, or the whole line. */
  function HeadToken(line: string): (w: string)
    ensures w <= line
    ensures forall i :: 0 <= i < |w| ==> w[i] != ' '
    ensures |w| < |line| ==> line[|w|] == ' '
  {
    if |line| == 0 || line[0] == ' ' then ""
    else [line[0]] + HeadToken(line[1..])
  }

  /** The length filter on the byte length `n` of the escaped word. */
  predicate LengthAccepted(args: FilterArgs, n: nat) {
    if |args.charCounts| > 0 then n in args.charCounts
    else args.minChars <= n <= args.maxChars
  }

  /** The digit, whole-word and length filters, in the order the parser applies them. */
  predicate WordAccepted(args: FilterArgs, word: string) {
    && !(!args.keepNumbers && HasDigit(word))
    && !(args.onlyWholeWords && HasPunctOrSpace(word))
    && LengthAccepted(args, Utf8Len(word))
  }

  /**
   * With the command line's defaults a word is kept exactly when it has no digit and
   * is at most 45 bytes long; punctuation and spaces are allowed.
   */
  lemma DefaultsAccept(word: string)
    ensures WordAccepted(Defaults(), word) <==> !HasDigit(word) && Utf8Len(word) <= 45
  {}

  /** The offset regex matches at `p`: one whitespace character followed by eight digits. */
  predicate OffsetAt(line: string, p: nat) {
    p + 9 <= |line| && IsSpace(line[p]) && forall k :: p + 1 <= k < p + 9 ==> IsDigit(line[k])
  }

  function Pow10(n: nat): (r: nat)
    ensures r >= 1
  {
    if n == 0 then 1 else 10 * Pow10(n - 1)
  }

  /** `parse::<u64>()` of a string of decimal digits. */
  function DecimalValue(ds: string): (v: nat)
    requires forall k :: 0 <= k < |ds| ==> IsDigit(ds[k])
    ensures v < Pow10(|ds|)
  {
    if |ds| == 0 then 0
    else
      var init := DecimalValue(ds[..|ds| - 1]);
      assert IsDigit(ds[|ds| - 1]);
      var d := ds[|ds| - 1] as int - '0' as int;
      assert init + 1 <= Pow10(|ds| - 1);
      assert (init + 1) * 10 <= Pow10(|ds| - 1) * 10;
      init * 10 + d
  }

  /**
   * Start positions of the matches `captures_iter` finds from `from` on: scanning left
   * to right, a match is taken and the scan resumes after its nine characters.
   */
  function MatchesFrom(line: string, from: nat): (ps: seq<nat>)
    ensures forall k :: 0 <= k < |ps| ==> from <= ps[k] && OffsetAt(line, ps[k])
    ensures forall k :: 0 <= k < |ps| - 1 ==> ps[k] + 9 <= ps[k + 1]
    decreases |line| - from
  {
    if from + 9 > |line| then []
    else if OffsetAt(line, from) then [from] + MatchesFrom(line, from + 9)
    else MatchesFrom(line, from + 1)
  }

  /**
   * No match is missed: every place the regex matches is taken. (Two matches cannot
   * overlap, since a match starts with whitespace and continues with digits.)
   */
  lemma {:induction false} MatchesFromComplete(line: string, from: nat, q: nat)
    requires from <= q && OffsetAt(line, q)
    ensures q in MatchesFrom(line, from)
    decreases |line| - from
  {
    var ps := MatchesFrom(line, from);
    if OffsetAt(line, from) {
      if q == from {
        assert ps[0] == q;
      } else {
        if q < from + 9 {
          assert false;
        }
        MatchesFromComplete(line, from + 9, q);
        assert ps == [from] + MatchesFrom(line, from + 9);
      }
    } else {
      assert q != from;
      MatchesFromComplete(line, from + 1, q);
    }
  }

  /** `parse::<u64>()` of the eight digits of the match at `p`: the value fits in eight digits. */
  function OffsetValue(line: string, p: nat): (v: nat)
    requires OffsetAt(line, p)
    ensures v < 100_000_000
  {
    var ds := line[p + 1..p + 9];
    assert forall k :: 0 <= k < |ds| ==> ds[k] == line[p + 1 + k];
    assert |ds| == 8 && Pow10(8) == 100_000_000;
    DecimalValue(ds)
  }

  /** The byte offsets of an index line, in the order they occur. */
  function OffsetsOf(line: string): (os: seq<nat>)
    ensures |os| == |MatchesFrom(line, 0)|
    ensures forall k :: 0 <= k < |os| ==> os[k] < 100_000_000
  {
    var ps := MatchesFrom(line, 0);
    seq(|ps|, k requires 0 <= k < |ps| => OffsetValue(line, ps[k]))
  }

  /** Every offset collected is the value of a match of the regex. */
  lemma OffsetsOfSound(line: string, k: nat)
    requires k < |OffsetsOf(line)|
    ensures exists p :: OffsetAt(line, p) && OffsetsOf(line)[k] == OffsetValue(line, p)
  {
    var p := MatchesFrom(line, 0)[k];
    assert OffsetsOf(line)[k] == OffsetValue(line, p);
  }

  /** The value of every match of the regex is collected. */
  lemma OffsetsOfComplete(line: string, p: nat)
    requires OffsetAt(line, p)
    ensures OffsetValue(line, p) in OffsetsOf(line)
  {
    var ps := MatchesFrom(line, 0);
    MatchesFromComplete(line, 0, p);
    var k :| 0 <= k < |ps| && ps[k] == p;
    assert OffsetsOf(line)[k] == OffsetValue(line, p);
  }

  /** What `get_word_data` keeps of one index line, or `None` for a skipped one. */
  function ParseIndexLine(args: FilterArgs, line: string): (r: Option<IndexEntry>)
    ensures IsLicenseLine(line) ==> r.None?
    ensures r.None? && !IsLicenseLine(line) ==> !WordAccepted(args, EscapeQuotes(HeadToken(line)))
    ensures r.Some? ==> r.value.word == EscapeQuotes(HeadToken(line)) && r.value.offsets == OffsetsOf(line)
    ensures r.Some? && !args.keepNumbers ==> forall i :: 0 <= i < |r.value.word| ==> !IsDigit(r.value.word[i])
    ensures r.Some? && args.onlyWholeWords ==>
      forall i :: 0 <= i < |r.value.word| ==> !IsPunct(r.value.word[i]) && !IsSpace(r.value.word[i])
    ensures r.Some? && |args.charCounts| > 0 ==> Utf8Len(r.value.word) in args.charCounts
    ensures r.Some? && |args.charCounts| == 0 ==> args.minChars <= Utf8Len(r.value.word) <= args.maxChars
  {
    if IsLicenseLine(line) then None
    else
      var word := EscapeQuotes(HeadToken(line));
      if WordAccepted(args, word) then Some(IndexEntry(word, OffsetsOf(line))) else None
  }
}
