/**
 * The six fixed regular expressions of genstrings_swift.py, each as a hand-written
 * scanner. For each pattern a ghost predicate states when the expression matches at a
 * given place (all the ways Python's `re` could parse it there), and the scanner is
 * proved to return the parse that `re` picks: the leftmost start, and at that start
 * the one that greedy backtracking tries first.
 */
module Patterns {
  import opened Outcome
  import opened Text

  /** A match starting at `at` whose (first) group is `t[lo..hi]`. */
  datatype Match = Match(at: nat, lo: nat, hi: nat)

  predicate AllSpace(t: string, a: int, b: int)
    requires 0 <= a <= b <= |t|
  {
    forall q :: a <= q < b ==> IsSpace(t[q])
  }

  predicate NoNewline(t: string, a: int, b: int)
    requires 0 <= a <= b <= |t|
  {
    forall q :: a <= q < b ==> t[q] != '\n'
  }

  predicate NoQuote(t: string, a: int, b: int)
    requires 0 <= a <= b <= |t|
  {
    forall q :: a <= q < b ==> t[q] != '"'
  }

  /** The end of the longest run of `\s` characters starting at `a`. */
  function SpaceEnd(t: string, a: nat): (r: nat)
    requires a <= |t|
    ensures a <= r <= |t|
    ensures r < |t| ==> !IsSpace(t[r])
    decreases |t| - a
  {
    if a < |t| && IsSpace(t[a]) then SpaceEnd(t, a + 1) else a
  }

  /** Everything `SpaceEnd` skips is a space. */
  lemma {:induction false} SpaceEndSpec(t: string, a: nat)
    requires a <= |t|
    ensures AllSpace(t, a, SpaceEnd(t, a))
    decreases |t| - a
  {
    if a < |t| && IsSpace(t[a]) {
      SpaceEndSpec(t, a + 1);
    }
  }

  // ---------------------------------------------------------------------------
  // string_pattern = 'NSLocalizedString\(\s*(.+)\)'
  // ---------------------------------------------------------------------------

  const Macro: string := "NSLocalizedString("

  /** `\s*(.+)\)` matches from `a`: the spaces end at `j`, the group is `t[j..p]`, `)` is at `p`. */
  ghost predicate ArgsParse(t: string, a: int, j: int, p: int) {
    0 <= a <= j < p < |t| && AllSpace(t, a, j) && NoNewline(t, j, p) && t[p] == ')'
  }

  /** The whole locator pattern matches at `i` with the group `t[j..p]`. */
  ghost predicate CallParse(t: string, i: int, j: int, p: int) {
    OccursAt(t, Macro, i) && ArgsParse(t, i + |Macro|, j, p)
  }

  ghost predicate NoCallAt(t: string, i: int) {
    forall j, p :: !CallParse(t, i, j, p)
  }

  /**
   * `m` is the match `re` reports at `m.at`: backtracking tries the longest `\s*`
   * first and, for it, the longest `.+`, so among all parses at `m.at` it has the
   * largest `j`, and for that `j` the largest `p`.
   */
  ghost predicate Chosen(t: string, m: Match) {
    CallParse(t, m.at, m.lo, m.hi)
    && forall j, p :: CallParse(t, m.at, j, p) ==> j < m.lo || (j == m.lo && p <= m.hi)
  }

  /** The first newline at or after `j`, or the end of the text: where `.` stops. */
  function LineEnd(t: string, j: nat): (r: nat)
    requires j <= |t|
    ensures j <= r <= |t|
    ensures r < |t| ==> t[r] == '\n'
    decreases |t| - j
  {
    if j < |t| && t[j] != '\n' then LineEnd(t, j + 1) else j
  }

  /** There is no newline before the one `LineEnd` stops at. */
  lemma {:induction false} LineEndSpec(t: string, j: nat)
    requires j <= |t|
    ensures NoNewline(t, j, LineEnd(t, j))
    decreases |t| - j
  {
    if j < |t| && t[j] != '\n' {
      LineEndSpec(t, j + 1);
    }
  }

  /** The last `)` strictly after `j` and before `e`. */
  function LastClose(t: string, j: nat, e: nat): (r: Option<nat>)
    requires j <= e <= |t|
    ensures r.Some? ==> j < r.value < e && t[r.value] == ')'
    decreases e
  {
    if e <= j + 1 then None
    else if t[e - 1] == ')' then Some(e - 1)
    else LastClose(t, j, e - 1)
  }

  /** `LastClose` passes over no `)`: none after the one it finds, none at all when it finds none. */
  lemma {:induction false} LastCloseSpec(t: string, j: nat, e: nat)
    requires j <= e <= |t|
    ensures LastClose(t, j, e).Some? ==> forall q :: LastClose(t, j, e).value < q < e ==> t[q] != ')'
    ensures LastClose(t, j, e).None? ==> forall q :: j < q < e ==> t[q] != ')'
    decreases e
  {
    if e > j + 1 && t[e - 1] != ')' {
      LastCloseSpec(t, j, e - 1);
    }
  }

  /** Whatever `)` ends a parse of `.+` from `j` lies before the end of the line. */
  lemma CloseBeforeLineEnd(t: string, a: int, j: nat, p: int)
    requires j <= |t| && ArgsParse(t, a, j, p)
    ensures p < LineEnd(t, j)
  {
  }

  /**
   * Backtracking over `\s*`: tries the space run ending at `j`, then shorter ones;
   * for each, `.+` takes the longest stretch of the line that ends before a `)`.
   * `TryArgsSpec` says which parse this is.
   */
  function TryArgs(t: string, a: nat, j: nat): (r: Option<(nat, nat)>)
    requires a <= j <= |t|
    ensures r.Some? ==> a <= r.value.0 <= j && r.value.0 < r.value.1 < |t| && t[r.value.1] == ')'
    decreases j
  {
    match LastClose(t, j, LineEnd(t, j))
    case Some(p) => Some((j, p))
    case None => if j == a then None else TryArgs(t, a, j - 1)
  }

  /**
   * When no parse uses more spaces than `j`, `TryArgs` finds the parse with the most
   * spaces and, for those, the longest group; it fails only when there is no parse.
   */
  lemma {:induction false} TryArgsSpec(t: string, a: nat, j: nat)
    requires a <= j <= |t| && AllSpace(t, a, j)
    requires forall j', p' :: j < j' ==> !ArgsParse(t, a, j', p')
    ensures TryArgs(t, a, j).Some? ==> ArgsParse(t, a, TryArgs(t, a, j).value.0, TryArgs(t, a, j).value.1)
    ensures TryArgs(t, a, j).Some? ==> forall j', p' :: ArgsParse(t, a, j', p') ==>
      j' < TryArgs(t, a, j).value.0 || (j' == TryArgs(t, a, j).value.0 && p' <= TryArgs(t, a, j).value.1)
    ensures TryArgs(t, a, j).None? ==> forall j', p' :: !ArgsParse(t, a, j', p')
    decreases j
  {
    LineEndSpec(t, j);
    LastCloseSpec(t, j, LineEnd(t, j));
    match LastClose(t, j, LineEnd(t, j))
    case Some(p) =>
      assert ArgsParse(t, a, j, p);
      forall p' | ArgsParse(t, a, j, p') ensures p' <= p {
        CloseBeforeLineEnd(t, a, j, p');
      }
    case None =>
      forall p' | ArgsParse(t, a, j, p') ensures false {
        CloseBeforeLineEnd(t, a, j, p');
      }
      if j > a {
        TryArgsSpec(t, a, j - 1);
      }
  }

  /** `string_pattern.match(t, i)`: the locator pattern anchored at `i`. */
  function CallAt(t: string, i: nat): (r: Option<Match>)
    ensures r.Some? ==> r.value.at == i && i + |Macro| <= r.value.lo < r.value.hi < |t|
  {
    if OccursAt(t, Macro, i) then
      var a := i + |Macro|;
      var e := SpaceEnd(t, a);
      match TryArgs(t, a, e)
      case Some((j, p)) => Some(Match(i, j, p))
      case None => None
    else None
  }

  /** The anchored match is the parse `re` reports at `i`, and it fails only where the pattern cannot match. */
  lemma CallAtSpec(t: string, i: nat)
    ensures CallAt(t, i).Some? ==> Chosen(t, CallAt(t, i).value)
    ensures CallAt(t, i).None? ==> NoCallAt(t, i)
  {
    if OccursAt(t, Macro, i) {
      var a := i + |Macro|;
      var e := SpaceEnd(t, a);
      SpaceEndSpec(t, a);
      forall j', p' | e < j' ensures !ArgsParse(t, a, j', p') {
      }
      TryArgsSpec(t, a, e);
    }
  }

  /** The next match of the locator at or after `pos`, as `finditer` searches for it. */
  function NextCall(t: string, pos: nat): (r: Option<Match>)
    ensures r.Some? ==> pos <= r.value.at && r.value.at + |Macro| <= r.value.lo < r.value.hi < |t|
    decreases |t| - pos, 1
  {
    if pos >= |t| then None else CallFrom(t, pos)
  }

  /** One step of the search: the match anchored at `pos`, or else the search from `pos + 1`. */
  function CallFrom(t: string, pos: nat): (r: Option<Match>)
    requires pos < |t|
    ensures r.Some? ==> pos <= r.value.at && r.value.at + |Macro| <= r.value.lo < r.value.hi < |t|
    decreases |t| - pos, 0
  {
    match CallAt(t, pos)
    case Some(m) => Some(m)
    case None => NextCall(t, pos + 1)
  }

  /** Where the anchored pattern matches, the search stops. */
  lemma NextCallHere(t: string, pos: nat)
    requires pos < |t| && CallAt(t, pos).Some?
    ensures NextCall(t, pos) == CallAt(t, pos)
  {
    assert NextCall(t, pos) == CallFrom(t, pos);
  }

  /** Where it does not, the search moves on by one character. */
  lemma NextCallOn(t: string, pos: nat)
    requires pos < |t| && CallAt(t, pos).None?
    ensures NextCall(t, pos) == NextCall(t, pos + 1)
  {
    assert NextCall(t, pos) == CallFrom(t, pos);
  }

  /** The next match is parsed as `re` parses it at its start. */
  lemma {:induction false} NextCallChosen(t: string, pos: nat)
    ensures NextCall(t, pos).Some? ==> Chosen(t, NextCall(t, pos).value)
    decreases |t| - pos
  {
    if pos < |t| {
      CallAtSpec(t, pos);
      if CallAt(t, pos).Some? {
        NextCallHere(t, pos);
      } else {
        NextCallOn(t, pos);
        NextCallChosen(t, pos + 1);
      }
    }
  }

  /** Position `i` lies in no span of `ms`, a span running from the macro name to its closing `)`. */
  ghost predicate Outside(ms: seq<Match>, i: int) {
    forall k :: 0 <= k < |ms| ==> i < ms[k].at || ms[k].hi < i
  }

  /**
   * `string_pattern.finditer(t)` resumed at `pos`: after each match the search resumes
   * just past its `)`. `FindCallsSound`, `FindCallsComplete` and `FindCallsOrdered`
   * say which matches these are and in what order they come.
   */
  function FindCalls(t: string, pos: nat): (r: seq<Match>)
    ensures forall k :: 0 <= k < |r| ==> pos <= r[k].at && r[k].at + |Macro| <= r[k].lo < r[k].hi < |t|
    decreases |t| - pos
  {
    match NextCall(t, pos)
    case None => []
    case Some(m) =>
      var rest := FindCalls(t, m.hi + 1);
      var r := [m] + rest;
      assert forall k :: 0 < k < |r| ==> r[k] == rest[k - 1];
      r
  }

  lemma OutsideCons(ms: seq<Match>, rest: seq<Match>, i: int)
    requires ms != [] && ms == [ms[0]] + rest && Outside(ms, i)
    ensures i < ms[0].at || ms[0].hi < i
    ensures Outside(rest, i)
  {
    forall k | 0 <= k < |rest| ensures i < rest[k].at || rest[k].hi < i {
      ConsAt(ms[0], rest, k + 1);
    }
  }

  /** After a match, `finditer` resumes at the character after its `)`. */
  lemma FindCallsCons(t: string, pos: nat)
    ensures FindCalls(t, pos) != [] ==>
      FindCalls(t, pos) == [FindCalls(t, pos)[0]] + FindCalls(t, FindCalls(t, pos)[0].hi + 1)
  {
  }

  /** `finditer` reports nothing exactly when the search finds nothing; otherwise it first reports what the search finds. */
  lemma FindCallsHead(t: string, pos: nat)
    ensures FindCalls(t, pos) == [] <==> NextCall(t, pos).None?
    ensures FindCalls(t, pos) != [] ==> NextCall(t, pos) == Some(FindCalls(t, pos)[0])
  {
  }

  /** Where `finditer` resumes searching before it finds its `k`-th match. */
  function SearchPos(t: string, pos: nat, k: nat): (p: nat)
    requires k < |FindCalls(t, pos)|
    ensures FindCalls(t, p) != [] && FindCalls(t, p)[0] == FindCalls(t, pos)[k]
    decreases k
  {
    FindCallsCons(t, pos);
    if k == 0 then pos
    else
      ConsAt(FindCalls(t, pos)[0], FindCalls(t, FindCalls(t, pos)[0].hi + 1), k);
      SearchPos(t, FindCalls(t, pos)[0].hi + 1, k - 1)
  }

  /** Every reported match is the one `re` reports where it starts. */
  lemma FindCallsSound(t: string, pos: nat, k: nat)
    requires k < |FindCalls(t, pos)|
    ensures Chosen(t, FindCalls(t, pos)[k])
  {
    var p := SearchPos(t, pos, k);
    FindCallsHead(t, p);
    NextCallChosen(t, p);
  }

  /** Each match starts after the `)` of every earlier one. */
  ghost predicate Ordered(ms: seq<Match>) {
    forall j, k :: 0 <= j < k < |ms| ==> ms[j].hi < ms[k].at
  }

  lemma OrderedCons(ms: seq<Match>, rest: seq<Match>)
    requires ms != [] && ms == [ms[0]] + rest && Ordered(rest)
    requires forall k :: 0 <= k < |rest| ==> ms[0].hi < rest[k].at
    ensures Ordered(ms)
  {
    forall j, k | 0 <= j < k < |ms| ensures ms[j].hi < ms[k].at {
      ConsAt(ms[0], rest, k);
      if j > 0 {
        ConsAt(ms[0], rest, j);
      }
    }
  }

  /** The matches come in file order and do not overlap. */
  lemma {:induction false} FindCallsOrdered(t: string, pos: nat)
    ensures Ordered(FindCalls(t, pos))
    decreases |t| - pos
  {
    FindCallsCons(t, pos);
    if FindCalls(t, pos) != [] {
      FindCallsOrdered(t, FindCalls(t, pos)[0].hi + 1);
      OrderedCons(FindCalls(t, pos), FindCalls(t, FindCalls(t, pos)[0].hi + 1));
    }
  }

  /** Before the first reported match (or anywhere, when there is none) the pattern matches nowhere. */
  lemma {:induction false} NoCallBeforeFirst(t: string, pos: nat, i: int)
    requires pos <= i
    requires FindCalls(t, pos) != [] ==> i < FindCalls(t, pos)[0].at
    ensures NoCallAt(t, i)
    decreases |t| - pos
  {
    if pos < |t| {
      CallAtSpec(t, pos);
      FindCallsHead(t, pos);
      if CallAt(t, pos).Some? {
        NextCallHere(t, pos);
      } else {
        NextCallOn(t, pos);
        FindCallsHead(t, pos + 1);
        if pos < i {
          NoCallBeforeFirst(t, pos + 1, i);
        }
      }
    }
  }

  /** No match is skipped: the pattern matches nowhere outside the reported matches. */
  lemma {:induction false} FindCallsComplete(t: string, pos: nat, i: int)
    requires pos <= i && Outside(FindCalls(t, pos), i)
    ensures NoCallAt(t, i)
    decreases |t| - pos
  {
    FindCallsCons(t, pos);
    if FindCalls(t, pos) != [] {
      OutsideCons(FindCalls(t, pos), FindCalls(t, FindCalls(t, pos)[0].hi + 1), i);
    }
    if FindCalls(t, pos) != [] && FindCalls(t, pos)[0].hi < i {
      FindCallsComplete(t, FindCalls(t, pos)[0].hi + 1, i);
    } else {
      NoCallBeforeFirst(t, pos, i);
    }
  }

  /** The groups of a list of matches, in order. */
  function Groups(t: string, ms: seq<Match>): (r: seq<string>)
    requires forall k :: 0 <= k < |ms| ==> ms[k].lo <= ms[k].hi <= |t|
    ensures |r| == |ms|
    ensures forall k :: 0 <= k < |ms| ==> r[k] == t[ms[k].lo..ms[k].hi]
  {
    if ms == [] then [] else [t[ms[0].lo..ms[0].hi]] + Groups(t, ms[1..])
  }

  /** The argument text of every `NSLocalizedString(...)` call in `t`, in file order. */
  function Captures(t: string): (r: seq<string>)
    ensures forall k :: 0 <= k < |r| ==> |r[k]| > 0 && '\n' !in r[k]
  {
    var ms := FindCalls(t, 0);
    var r := Groups(t, ms);
    assert forall k :: 0 <= k < |r| ==> |r[k]| > 0 && '\n' !in r[k] by {
      forall k | 0 <= k < |r| ensures |r[k]| > 0 && '\n' !in r[k] {
        FindCallsSound(t, 0, k);
        assert CallParse(t, ms[k].at, ms[k].lo, ms[k].hi);
        assert NoNewline(t, ms[k].lo, ms[k].hi);
      }
    }
    r
  }

  // ---------------------------------------------------------------------------
  // key_pattern, value_pattern, comment_pattern = '<tag>:\s*"([^"]*)"'
  // empty_pattern = '"([^"]*)"'
  // ---------------------------------------------------------------------------

  const KeyLabel: string := "key:"
  const ValueLabel: string := "value:"
  const CommentLabel: string := "comment:"

  /** `tag\s*"([^"]*)"` matches at `i`; the group `s[lo..hi]` sits between the quotes at `lo - 1` and `hi`. */
  ghost predicate LabelParse(s: string, tag: string, i: int, lo: int, hi: int) {
    OccursAt(s, tag, i) && i + |tag| < lo <= hi < |s|
    && AllSpace(s, i + |tag|, lo - 1) && s[lo - 1] == '"' && s[hi] == '"' && NoQuote(s, lo, hi)
  }

  ghost predicate NoLabelAt(s: string, tag: string, i: int) {
    forall lo, hi :: !LabelParse(s, tag, i, lo, hi)
  }

  /** `re.search` finds nothing: the pattern matches nowhere in `s`. */
  ghost predicate NoLabel(s: string, tag: string) {
    forall i :: 0 <= i ==> NoLabelAt(s, tag, i)
  }

  /** The leftmost match of the pattern in `s`, the one `re.search` reports. */
  ghost predicate FirstLabelParse(s: string, tag: string, i: int, lo: int, hi: int) {
    LabelParse(s, tag, i, lo, hi) && forall i' :: 0 <= i' < i ==> NoLabelAt(s, tag, i')
  }

  /** The labelled pattern anchored at `i`; where it matches, it matches in one way only. */
  function LabelAt(s: string, tag: string, i: nat): (r: Option<Match>)
    ensures r.Some? ==> r.value.at == i && LabelParse(s, tag, i, r.value.lo, r.value.hi)
    ensures r.Some? ==> forall lo, hi :: LabelParse(s, tag, i, lo, hi) ==>
      lo == r.value.lo && hi == r.value.hi
    ensures r.None? ==> NoLabelAt(s, tag, i)
  {
    if !OccursAt(s, tag, i) then None
    else
      var j := SpaceEnd(s, i + |tag|);
      SpaceEndSpec(s, i + |tag|);
      if j < |s| && s[j] == '"' then
        match FindChar(s, '"', j + 1)
        case Some(e) => Some(Match(i, j + 1, e))
        case None => None
      else None
  }

  /** `re.search` with a labelled pattern, from `from` on. */
  function SearchLabel(s: string, tag: string, from: nat): (r: Option<Match>)
    ensures r.Some? ==> from <= r.value.at && LabelParse(s, tag, r.value.at, r.value.lo, r.value.hi)
    ensures r.Some? ==> forall lo, hi :: LabelParse(s, tag, r.value.at, lo, hi) ==>
      lo == r.value.lo && hi == r.value.hi
    ensures r.Some? ==> forall i :: from <= i < r.value.at ==> NoLabelAt(s, tag, i)
    ensures r.None? ==> forall i :: from <= i ==> NoLabelAt(s, tag, i)
    decreases |s| - from
  {
    if from >= |s| then None
    else match LabelAt(s, tag, from)
      case Some(m) => Some(m)
      case None => SearchLabel(s, tag, from + 1)
  }

  /** The group of `re.search(tag…, s)`, if it matches anywhere. */
  function LabelGroup(s: string, tag: string): (r: Option<string>)
    ensures r.Some? ==> '"' !in r.value
    ensures r.None? <==> NoLabel(s, tag)
    ensures forall i, lo, hi :: FirstLabelParse(s, tag, i, lo, hi) ==> r == Some(s[lo..hi])
  {
    match SearchLabel(s, tag, 0)
    case None =>
      forall i, lo, hi ensures !FirstLabelParse(s, tag, i, lo, hi) {
        if 0 <= i {
          assert NoLabelAt(s, tag, i);
        }
      }
      None
    case Some(m) =>
      assert LabelParse(s, tag, m.at, m.lo, m.hi);
      assert !NoLabelAt(s, tag, m.at);
      forall i, lo, hi
        ensures FirstLabelParse(s, tag, i, lo, hi) ==> i == m.at && lo == m.lo && hi == m.hi
      {
        if 0 <= i < m.at {
          assert NoLabelAt(s, tag, i);
        } else if i > m.at {
          assert !NoLabelAt(s, tag, m.at);
        }
      }
      assert NoQuote(s, m.lo, m.hi);
      Some(s[m.lo..m.hi])
  }

  /** `"([^"]*)"` matches at the start of `s`, the group ending at the quote at `hi`. */
  ghost predicate LeadingParse(s: string, hi: int) {
    0 < hi < |s| && s[0] == '"' && s[hi] == '"' && NoQuote(s, 1, hi)
  }

  /** The group of `empty_pattern.match(s)`: a quoted string at the very start, whatever follows it. */
  function LeadingQuoted(s: string): (r: Option<string>)
    ensures r.Some? ==> '"' !in r.value
    ensures r.None? <==> forall hi :: !LeadingParse(s, hi)
    ensures forall hi :: LeadingParse(s, hi) ==> r == Some(s[1..hi])
  {
    if |s| > 0 && s[0] == '"' then
      match FindChar(s, '"', 1)
      case Some(e) =>
        assert NoQuote(s, 1, e) && LeadingParse(s, e);
        Some(s[1..e])
      case None => None
    else None
  }

  // ---------------------------------------------------------------------------
  // var_pattern = '%(.)'
  // ---------------------------------------------------------------------------

  /** One match of `%(.)`: the `%` at `at` and its conversion character, the group. */
  datatype VarMatch = VarMatch(at: nat, conv: char)

  predicate PlaceholderAt(s: string, i: int) {
    0 <= i && i + 1 < |s| && s[i] == '%' && s[i + 1] != '\n'
  }

  /** `m` is a match of `%(.)` in `s`: its group is the character after the `%`. */
  predicate IsVarMatch(s: string, m: VarMatch) {
    PlaceholderAt(s, m.at) && m.conv == s[m.at + 1]
  }

  /** The first `%` at or after `from` that is followed by a character other than a newline. */
  function NextPlaceholder(s: string, from: nat): (r: Option<nat>)
    ensures r.Some? ==> from <= r.value && PlaceholderAt(s, r.value)
    ensures r.Some? ==> forall i :: from <= i < r.value ==> !PlaceholderAt(s, i)
    ensures r.None? ==> forall i :: from <= i ==> !PlaceholderAt(s, i)
    decreases |s| - from
  {
    if from + 1 >= |s| then None
    else if PlaceholderAt(s, from) then Some(from)
    else NextPlaceholder(s, from + 1)
  }

  /** Position `i` is the `%` or the conversion character of one of the matches `ms`. */
  ghost predicate Consumed(ms: seq<VarMatch>, i: int) {
    exists k :: 0 <= k < |ms| && (ms[k].at == i || ms[k].at + 1 == i)
  }

  /**
   * `var_pattern.finditer(s)` resumed at `from`: non-overlapping matches left to right,
   * each carrying its conversion character.
   */
  function ScanVars(s: string, from: nat): (r: seq<VarMatch>)
    ensures forall k :: 0 <= k < |r| ==> from <= r[k].at && IsVarMatch(s, r[k])
    ensures forall j, k :: 0 <= j < k < |r| ==> r[j].at + 2 <= r[k].at
    decreases |s| - from
  {
    match NextPlaceholder(s, from)
    case None => []
    case Some(q) => [VarMatch(q, s[q + 1])] + ScanVars(s, q + 2)
  }

  /**
   * No match is skipped: every `%` from `from` on that could start a match is either
   * reported or is the conversion character of the match before it.
   */
  lemma {:induction false} ScanVarsComplete(s: string, from: nat, i: int)
    requires from <= i && PlaceholderAt(s, i)
    ensures Consumed(ScanVars(s, from), i)
    decreases |s| - from
  {
    match NextPlaceholder(s, from)
    case None =>
    case Some(q) =>
      if i == q || i == q + 1 {
        assert ScanVars(s, from)[0].at == q;
      } else if i > q + 1 {
        ScanVarsComplete(s, q + 2, i);
        ConsumedCons(VarMatch(q, s[q + 1]), ScanVars(s, q + 2), i);
      }
  }

  lemma ConsumedCons(m: VarMatch, rest: seq<VarMatch>, i: int)
    requires Consumed(rest, i)
    ensures Consumed([m] + rest, i)
  {
    var k :| 0 <= k < |rest| && (rest[k].at == i || rest[k].at + 1 == i);
    ConsAt(m, rest, k + 1);
  }

  /** `list(var_pattern.finditer(value))`. */
  function Placeholders(s: string): seq<VarMatch> {
    ScanVars(s, 0)
  }
}
