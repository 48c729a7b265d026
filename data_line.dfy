/**
 * The gloss of a data-file line: the capture group of the regex
 * `\|\s{1}(?<definition>[^;]+[^\s;]+)` with its single quotes doubled, or the
 * empty string when the regex finds no match.
 */
module DataLine {
  import opened Wrappers
  import opened Text

  /**
   * The regex can match at `p` with its capture ending at `e`: a `|`, one whitespace
   * character, then `line[p + 2..e]`, which holds no `;`, is at least two characters
   * long and ends in a character that is neither whitespace nor `;`.
   */
  predicate GlossMatch(line: string, p: nat, e: nat) {
    && p + 4 <= e <= |line|
    && line[p] == '|'
    && IsSpace(line[p + 1])
    && (forall k :: p + 2 <= k < e ==> line[k] != ';')
    && !IsSpace(line[e - 1])
  }

  /** The first `;` at or after `from`, or the end of the line. */
  function RunEnd(line: string, from: nat): (stop: nat)
    requires from <= |line|
    ensures from <= stop <= |line|
    ensures forall k :: from <= k < stop ==> line[k] != ';'
    ensures stop < |line| ==> line[stop] == ';'
    decreases |line| - from
  {
    if from == |line| || line[from] == ';' then from else RunEnd(line, from + 1)
  }

  /** The last position in `[lo, hi)` that holds a non-whitespace character. */
  function LastSolid(line: string, lo: nat, hi: nat): (r: Option<nat>)
    requires hi <= |line|
    ensures r.Some? ==> lo <= r.value < hi && !IsSpace(line[r.value])
    ensures r.Some? ==> forall k :: r.value < k < hi ==> IsSpace(line[k])
    ensures r.None? ==> forall k :: lo <= k < hi ==> IsSpace(line[k])
    decreases hi
  {
    if hi <= lo then None
    else if !IsSpace(line[hi - 1]) then Some(hi - 1)
    else LastSolid(line, lo, hi - 1)
  }

  /**
   * Where the match at `p` ends. Both quantifiers are greedy, so of all the ends the
   * regex could reach from `p` it takes the last one.
   */
  function MatchEnd(line: string, p: nat): (r: Option<nat>)
    ensures r.Some? ==> GlossMatch(line, p, r.value)
    ensures r.Some? ==> forall e: nat :: GlossMatch(line, p, e) ==> e <= r.value
    ensures r.None? ==> forall e: nat :: !GlossMatch(line, p, e)
  {
    if p + 2 <= |line| && line[p] == '|' && IsSpace(line[p + 1]) then
      var stop := RunEnd(line, p + 2);
      match LastSolid(line, p + 3, stop)
      case Some(k) => Some(k + 1)
      case None => None
    else None
  }

  /** The leftmost match at or after `from`, with the end its greedy quantifiers give it. */
  function FirstMatch(line: string, from: nat): (r: Option<(nat, nat)>)
    ensures r.Some? ==> from <= r.value.0 && GlossMatch(line, r.value.0, r.value.1)
    ensures r.Some? ==> forall e: nat :: GlossMatch(line, r.value.0, e) ==> e <= r.value.1
    ensures r.Some? ==> forall p: nat, e: nat :: from <= p < r.value.0 ==> !GlossMatch(line, p, e)
    ensures r.None? ==> forall p: nat, e: nat :: from <= p ==> !GlossMatch(line, p, e)
    decreases |line| - from
  {
    if from >= |line| then None
    else
      match MatchEnd(line, from)
      case Some(e) => Some((from, e))
      case None => FirstMatch(line, from + 1)
  }

  /** `definition_regex.captures(line)`, quotes doubled; `""` when nothing matches. */
  function Gloss(line: string): string {
    match FirstMatch(line, 0)
    case Some((p, e)) => EscapeQuotes(line[p + 2..e])
    case None => ""
  }

  /** The gloss is the escaped capture of the leftmost match, taken as long as it can be. */
  lemma GlossIsLeftmostLongest(line: string, p: nat, e: nat)
    requires GlossMatch(line, p, e)
    requires forall p': nat, e': nat :: GlossMatch(line, p', e') ==> p < p' || (p == p' && e' <= e)
    ensures Gloss(line) == EscapeQuotes(line[p + 2..e])
  {
    var m := FirstMatch(line, 0);
    assert m.Some?;
    var p0, e0 := m.value.0, m.value.1;
    assert GlossMatch(line, p0, e0);
    assert p <= p0;
    assert p0 <= p;
    assert e0 <= e;
    assert e <= e0;
  }

  /** A line without a match gives the empty gloss, and only such a line does: no error is raised. */
  lemma GlossEmptyIffNoMatch(line: string)
    ensures Gloss(line) == "" <==> forall p: nat, e: nat :: !GlossMatch(line, p, e)
  {
    var m := FirstMatch(line, 0);
    if m.Some? {
      var p, e := m.value.0, m.value.1;
      assert |EscapeQuotes(line[p + 2..e])| >= 2;
    }
  }
}
