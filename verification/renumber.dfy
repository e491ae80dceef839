/**
 * `replace_vars`: when a value holds two or more matches of `%(.)`, each one, in
 * match order, is rewritten by `value.replace('%c', '%k$c', 1)`, where `k` counts the
 * matches from 1. The replacement hits the leftmost `%c` of the value as it stands,
 * which is not always the match it was found for; `Positional` is what the loop is
 * meant to produce. The two agree on every value with two or more matches in which
 * no `%` is followed by `%` or a digit; outside that case they can differ.
 */
module Renumber {
  import opened Outcome
  import opened Text
  import opened Patterns

  /** `'%{}${}'.format(k, c)`: the positional spelling of the placeholder `%c`. */
  function Positioned(k: nat, c: char): string {
    "%" + Decimal(k) + "$" + [c]
  }

  /** `result.group(0)`: the text of a placeholder match. */
  function Spelled(m: VarMatch): string {
    ['%', m.conv]
  }

  /** The loop body applied to the matches `ms`, the first of them numbered `k`. */
  function ReplaceEach(v: string, ms: seq<VarMatch>, k: nat): string
    decreases |ms|
  {
    if ms == [] then v
    else ReplaceEach(ReplaceFirst(v, Spelled(ms[0]), Positioned(k, ms[0].conv)), ms[1..], k + 1)
  }

  /** What `replace_vars(value)` returns. */
  function ReplacedVars(value: string): string {
    var ms := Placeholders(value);
    if |ms| > 1 then ReplaceEach(value, ms, 1) else value
  }

  /** The reference rewriting: each match of `%(.)` from `from` on becomes `%k$c` where it stands. */
  function Positional(s: string, from: nat, k: nat): string
    decreases |s| - from
  {
    if from >= |s| then []
    else if PlaceholderAt(s, from) then Positioned(k, s[from + 1]) + Positional(s, from + 2, k + 1)
    else [s[from]] + Positional(s, from + 1, k)
  }

  /** The `%` at `i`, if there is one, is followed by neither `%` nor a digit. */
  predicate CleanAt(s: string, i: int)
    requires 0 <= i < |s| - 1
  {
    s[i] == '%' ==> s[i + 1] != '%' && !IsDigit(s[i + 1])
  }

  /** No `%` is followed by `%` or by a digit. */
  predicate Clean(s: string) {
    forall i :: 0 <= i < |s| - 1 ==> CleanAt(s, i)
  }

  /**
   * Text in which no placeholder can be found again: every `%` is followed by a newline
   * or a digit, and the text does not end in `%`.
   */
  predicate Inert(t: string) {
    (forall i :: 0 <= i < |t| - 1 ==> InertAt(t, i))
    && (|t| > 0 ==> t[|t| - 1] != '%')
  }

  /** The `%` at `i`, if there is one, is followed by a newline or a digit. */
  predicate InertAt(t: string, i: int)
    requires 0 <= i < |t| - 1
  {
    t[i] == '%' ==> t[i + 1] == '\n' || IsDigit(t[i + 1])
  }

  lemma InertAppend(a: string, b: string)
    requires Inert(a) && Inert(b)
    ensures Inert(a + b)
  {
    var t := a + b;
    forall i | 0 <= i < |t| - 1 ensures InertAt(t, i) {
      if i < |a| - 1 {
        assert InertAt(a, i);
        assert t[i] == a[i] && t[i + 1] == a[i + 1];
      } else if i >= |a| {
        assert InertAt(b, i - |a|);
        assert t[i] == b[i - |a|] && t[i + 1] == b[i + 1 - |a|];
      } else {
        assert t[i] == a[i];
      }
    }
    if |b| > 0 {
      assert t[|t| - 1] == b[|b| - 1];
    }
  }

  lemma InertPositioned(k: nat, c: char)
    requires c != '%'
    ensures Inert(Positioned(k, c))
  {
    var d := Decimal(k);
    var t := Positioned(k, c);
    assert t == ['%'] + d + ['$', c];
    forall i | 0 <= i < |t| - 1 ensures InertAt(t, i) {
      if i == 0 {
        assert t[1] == d[0];
      }
    }
  }

  /** A stretch free of placeholders, ending just before one, is inert. */
  lemma InertGap(s: string, from: nat, q: nat)
    requires from <= q && PlaceholderAt(s, q)
    requires forall i :: from <= i < q ==> !PlaceholderAt(s, i)
    ensures Inert(s[from..q])
  {
    var t := s[from..q];
    forall i | 0 <= i < |t| - 1 ensures InertAt(t, i) {
      assert !PlaceholderAt(s, from + i);
    }
    if |t| > 0 {
      assert !PlaceholderAt(s, q - 1);
    }
  }

  /** Between `from` and the next placeholder `q`, the reference copies the text unchanged. */
  lemma {:induction false} PositionalSkip(s: string, from: nat, q: nat, k: nat)
    requires from <= q <= |s|
    requires forall i :: from <= i < q ==> !PlaceholderAt(s, i)
    ensures Positional(s, from, k) == s[from..q] + Positional(s, q, k)
    decreases q - from
  {
    if from < q {
      assert Positional(s, from, k) == [s[from]] + Positional(s, from + 1, k);
      PositionalSkip(s, from + 1, q, k);
      Assoc([s[from]], s[from + 1..q], Positional(s, q, k));
      assert [s[from]] + s[from + 1..q] == s[from..q];
    }
  }

  /** An occurrence of a two-character pattern, character by character. */
  lemma OccursAtPair(t: string, a: char, b: char, j: int)
    ensures OccursAt(t, [a, b], j) <==> 0 <= j && j + 1 < |t| && t[j] == a && t[j + 1] == b
  {
    if 0 <= j && j + 1 < |t| {
      assert t[j..j + 2][0] == t[j] && t[j..j + 2][1] == t[j + 1];
    }
  }

  /**
   * In `t = p + s[from..]`, with `p` inert and `q` the next placeholder of `s`, the
   * leftmost occurrence of `%c` (`c` the conversion character at `q`) is the one at `q`.
   */
  lemma FirstOccurrenceIsNext(s: string, p: string, t: string, pat: string, from: nat, q: nat)
    requires Clean(s) && Inert(p) && from <= q && PlaceholderAt(s, q)
    requires forall i :: from <= i < q ==> !PlaceholderAt(s, i)
    requires t == p + s[from..] && pat == ['%', s[q + 1]]
    ensures OccursAt(t, pat, |p| + q - from)
    ensures forall j :: 0 <= j < |p| + q - from ==> !OccursAt(t, pat, j)
  {
    var c := s[q + 1];
    var at := |p| + q - from;
    assert CleanAt(s, q);
    assert t[at] == s[q] && t[at + 1] == s[q + 1];
    OccursAtPair(t, '%', c, at);
    forall j | 0 <= j < at ensures !OccursAt(t, ['%', c], j) {
      OccursAtPair(t, '%', c, j);
      if j < |p| - 1 {
        assert InertAt(p, j);
        assert t[j] == p[j] && t[j + 1] == p[j + 1];
      } else if j == |p| - 1 {
        assert t[j] == p[j];
      } else {
        var i := from + j - |p|;
        assert t[j] == s[i] && t[j + 1] == s[i + 1];
        assert !PlaceholderAt(s, i);
      }
    }
  }

  /**
   * One turn of the loop on a clean value: the leftmost `%c` is the next match `q`, and
   * the text up to and including its rewriting is inert again.
   */
  lemma StepClean(s: string, p: string, from: nat, q: nat, k: nat)
    requires Clean(s) && Inert(p) && from <= q && PlaceholderAt(s, q)
    requires forall i :: from <= i < q ==> !PlaceholderAt(s, i)
    ensures ReplaceFirst(p + s[from..], ['%', s[q + 1]], Positioned(k, s[q + 1]))
      == (p + s[from..q] + Positioned(k, s[q + 1])) + s[q + 2..]
    ensures Inert(p + s[from..q] + Positioned(k, s[q + 1]))
  {
    var c := s[q + 1];
    var t := p + s[from..];
    var at := |p| + q - from;
    var rep := Positioned(k, c);
    FirstOccurrenceIsNext(s, p, t, ['%', c], from, q);
    ReplaceFirstAt(t, ['%', c], rep, at);
    assert t[..at] == p + s[from..q];
    assert t[at + 2..] == s[q + 2..];
    InertGap(s, from, q);
    assert CleanAt(s, q);
    InertPositioned(k, c);
    InertAppend(p, s[from..q]);
    InertAppend(p + s[from..q], rep);
  }

  lemma ScanVarsNext(s: string, from: nat, q: nat)
    requires NextPlaceholder(s, from) == Some(q)
    ensures ScanVars(s, from) == [VarMatch(q, s[q + 1])] + ScanVars(s, q + 2)
  {
  }

  lemma PositionalAt(s: string, q: nat, k: nat)
    requires PlaceholderAt(s, q)
    ensures Positional(s, q, k) == Positioned(k, s[q + 1]) + Positional(s, q + 2, k + 1)
  {
  }

  /**
   * The loop on a clean value: with the text before `from` already rewritten (inert
   * `p`), the remaining replacements rewrite exactly the remaining matches in place.
   */
  lemma {:induction false} EachClean(s: string, p: string, from: nat, k: nat)
    requires Clean(s) && Inert(p) && from <= |s|
    ensures ReplaceEach(p + s[from..], ScanVars(s, from), k) == p + Positional(s, from, k)
    decreases |s| - from
  {
    match NextPlaceholder(s, from)
    case None =>
      PositionalSkip(s, from, |s|, k);
      assert s[from..|s|] == s[from..];
    case Some(q) =>
      var c := s[q + 1];
      var m := VarMatch(q, c);
      var rest := ScanVars(s, q + 2);
      var rep := Positioned(k, c);
      var p' := p + s[from..q] + rep;
      StepEach(s, p, from, q, k);
      EachClean(s, p', q + 2, k + 1);
      StepPositional(s, p, from, q, k);
  }

  /** The first turn of the loop, seen on the whole remaining list of matches. */
  lemma StepEach(s: string, p: string, from: nat, q: nat, k: nat)
    requires Clean(s) && Inert(p) && NextPlaceholder(s, from) == Some(q)
    ensures ReplaceEach(p + s[from..], ScanVars(s, from), k)
      == ReplaceEach((p + s[from..q] + Positioned(k, s[q + 1])) + s[q + 2..], ScanVars(s, q + 2), k + 1)
    ensures Inert(p + s[from..q] + Positioned(k, s[q + 1]))
  {
    var m := VarMatch(q, s[q + 1]);
    ScanVarsNext(s, from, q);
    ReplaceEachCons(p + s[from..], m, ScanVars(s, q + 2), k);
    StepClean(s, p, from, q, k);
  }

  /** The reference, unfolded over the gap before the next match and the match itself. */
  lemma StepPositional(s: string, p: string, from: nat, q: nat, k: nat)
    requires NextPlaceholder(s, from) == Some(q)
    ensures p + Positional(s, from, k)
      == (p + s[from..q] + Positioned(k, s[q + 1])) + Positional(s, q + 2, k + 1)
  {
    PositionalSkip(s, from, q, k);
    PositionalAt(s, q, k);
  }

  lemma ReplaceEachCons(v: string, m: VarMatch, rest: seq<VarMatch>, k: nat)
    ensures ReplaceEach(v, [m] + rest, k)
      == ReplaceEach(ReplaceFirst(v, ['%', m.conv], Positioned(k, m.conv)), rest, k + 1)
  {
    assert ([m] + rest)[0] == m && ([m] + rest)[1..] == rest;
  }

  /** On a clean value with two or more matches the loop renumbers each match in place: the intended result. */
  lemma ReplacedVarsClean(value: string)
    requires Clean(value) && |Placeholders(value)| >= 2
    ensures ReplacedVars(value) == Positional(value, 0, 1)
  {
    EachClean(value, [], 0, 1);
    assert [] + value[0..] == value;
    assert [] + Positional(value, 0, 1) == Positional(value, 0, 1);
  }

  /** With fewer than two matches, `replace_vars` returns its argument. */
  lemma ReplacedVarsFew(value: string)
    requires |Placeholders(value)| < 2
    ensures ReplacedVars(value) == value
  {
  }

  lemma {:induction false} CountAbsent(t: string, c: char)
    requires c !in t
    ensures Count(t, c) == 0
    decreases |t|
  {
    if t != [] {
      assert c !in t[1..];
      CountAbsent(t[1..], c);
    }
  }

  /** `%c` and `%k$c` hold the same number of `%`. */
  lemma PositionedPercents(k: nat, c: char)
    ensures Count(Positioned(k, c), '%') == Count(['%', c], '%')
  {
    var d := Decimal(k);
    assert '%' !in d;
    CountAbsent(d, '%');
    CountAppend(['%'], d, '%');
    CountAppend(['%'] + d, ['$'], '%');
    CountAppend(['%'] + d + ['$'], [c], '%');
    assert Positioned(k, c) == ['%'] + d + ['$'] + [c];
    CountAppend(['%'], [c], '%');
    assert ['%', c] == ['%'] + [c];
  }

  lemma {:induction false} EachKeepsPercents(v: string, ms: seq<VarMatch>, k: nat)
    ensures Count(ReplaceEach(v, ms, k), '%') == Count(v, '%')
    decreases |ms|
  {
    if ms != [] {
      PositionedPercents(k, ms[0].conv);
      ReplaceFirstCount(v, Spelled(ms[0]), Positioned(k, ms[0].conv), '%');
      EachKeepsPercents(ReplaceFirst(v, Spelled(ms[0]), Positioned(k, ms[0].conv)), ms[1..], k + 1);
    }
  }

  /** `replace_vars` never changes how many `%` the value holds. */
  lemma ReplacedVarsPercents(value: string)
    ensures Count(ReplacedVars(value), '%') == Count(value, '%')
  {
    EachKeepsPercents(value, Placeholders(value), 1);
  }

  /**
   * A character the value lacks, that is no digit, `%` or `$`, and that no match has as
   * its conversion character, is absent from the result of the loop.
   */
  lemma {:induction false} EachAvoids(v: string, ms: seq<VarMatch>, k: nat, ch: char)
    requires ch !in v && !IsDigit(ch) && ch != '%' && ch != '$'
    requires forall i :: 0 <= i < |ms| ==> ms[i].conv != ch
    ensures ch !in ReplaceEach(v, ms, k)
    decreases |ms|
  {
    if ms != [] {
      var rep := Positioned(k, ms[0].conv);
      assert rep == ['%'] + Decimal(k) + ['$', ms[0].conv];
      assert ch !in rep;
      ReplaceFirstAvoids(v, Spelled(ms[0]), rep, ch);
      EachAvoids(ReplaceFirst(v, Spelled(ms[0]), rep), ms[1..], k + 1, ch);
    }
  }

  /** Renumbering adds no newline and no `"` that the value did not hold. */
  lemma ReplacedVarsAvoids(value: string, ch: char)
    requires ch !in value && (ch == '\n' || ch == '"')
    ensures ch !in ReplacedVars(value)
  {
    var ms := Placeholders(value);
    forall i | 0 <= i < |ms| ensures ms[i].conv != ch {
      assert IsVarMatch(value, ms[i]);
    }
    if |ms| > 1 {
      EachAvoids(value, ms, 1, ch);
    }
  }

  /** In `%%d %d` the matches are `%%` and `%d`. */
  lemma PlaceholdersExample()
    ensures Placeholders("%%d %d") == [VarMatch(0, '%'), VarMatch(4, 'd')]
  {
    var s := "%%d %d";
    assert PlaceholderAt(s, 0) && !PlaceholderAt(s, 2) && !PlaceholderAt(s, 3) && PlaceholderAt(s, 4);
    assert NextPlaceholder(s, 6) == None;
    assert NextPlaceholder(s, 2) == Some(4);
    assert ScanVars(s, 2) == [VarMatch(4, 'd')];
  }

  /** The first step of `replace_vars("%%d %d")` turns the leading `%%` into `%1$%`. */
  lemma FirstStepExample()
    ensures ReplaceFirst("%%d %d", ['%', '%'], Positioned(1, '%')) == "%1$%d %d"
  {
    var s := "%%d %d";
    assert Decimal(1) == "1";
    assert Positioned(1, '%') == "%1$%";
    OccursAtPair(s, '%', '%', 0);
    ReplaceFirstAt(s, "%%", "%1$%", 0);
  }

  /** The second step finds `%d` inside what the first step wrote, not at the end. */
  lemma SecondStepExample()
    ensures ReplaceFirst("%1$%d %d", ['%', 'd'], Positioned(2, 'd')) == "%1$%2$d %d"
  {
    var once := "%1$%d %d";
    assert Decimal(2) == "2";
    assert Positioned(2, 'd') == "%2$d";
    forall j | 0 <= j < 3 ensures !OccursAt(once, "%d", j) {
      OccursAtPair(once, '%', 'd', j);
    }
    OccursAtPair(once, '%', 'd', 3);
    ReplaceFirstAt(once, "%d", "%2$d", 3);
  }

  /** `replace_vars("%%d %d")`: the second step rewrites the `%d` the first step wrote. */
  lemma ReplacedVarsExample()
    ensures ReplacedVars("%%d %d") == "%1$%2$d %d"
  {
    var m0, m1 := VarMatch(0, '%'), VarMatch(4, 'd');
    PlaceholdersExample();
    FirstStepExample();
    SecondStepExample();
    ReplaceEachCons("%%d %d", m0, [m1], 1);
    ReplaceEachCons("%1$%d %d", m1, [], 2);
    assert [m0] + [m1] == [m0, m1];
    assert [m1] + [] == [m1];
  }

  lemma PositionalExample()
    ensures Positional("%%d %d", 0, 1) == "%1$%d %2$d"
  {
    var s := "%%d %d";
    assert Decimal(1) == "1" && Decimal(2) == "2";
    assert Positional(s, 4, 2) == "%2$d";
    assert Positional(s, 3, 2) == " %2$d";
    assert Positional(s, 2, 2) == "d %2$d";
    assert Positioned(1, '%') == "%1$%";
  }

  /**
   * Outside the clean case the two can differ. In `%%d %d` the matches are `%%` and `%d`.
   * After `%%` becomes `%1$%`, the text `%d` first occurs inside that replacement, so
   * the second step rewrites what the first one wrote, and the `%d` at the end keeps
   * no position.
   */
  lemma FirstOccurrenceMisses()
    ensures Placeholders("%%d %d") == [VarMatch(0, '%'), VarMatch(4, 'd')]
    ensures ReplacedVars("%%d %d") == "%1$%2$d %d"
    ensures Positional("%%d %d", 0, 1) == "%1$%d %2$d"
    ensures ReplacedVars("%%d %d") != Positional("%%d %d", 0, 1)
  {
    PlaceholdersExample();
    ReplacedVarsExample();
    PositionalExample();
    var a := "%1$%2$d %d";
    var b := "%1$%d %2$d";
    assert a[4] != b[4];
  }

  /** `replace_vars` as the source writes it: a loop over the matches that rewrites the value in turn. */
  method ReplaceVars(value: string) returns (r: string)
    ensures r == ReplacedVars(value)
    ensures |Placeholders(value)| < 2 ==> r == value
    ensures Count(r, '%') == Count(value, '%')
    ensures Clean(value) && |Placeholders(value)| >= 2 ==> r == Positional(value, 0, 1)
  {
    var matches := Placeholders(value);
    r := value;
    if |matches| > 1 {
      for idx := 0 to |matches|
        invariant ReplaceEach(r, matches[idx..], idx + 1) == ReplaceEach(value, matches, 1)
      {
        assert matches[idx..][1..] == matches[idx + 1..];
        r := ReplaceFirst(r, Spelled(matches[idx]), Positioned(idx + 1, matches[idx].conv));
      }
    }
    ReplacedVarsPercents(value);
    if Clean(value) && |matches| >= 2 {
      ReplacedVarsClean(value);
    }
  }
}
