/**
 * `generate_string`: turns the argument text of one `NSLocalizedString(...)` call into
 * a (key, value, comment) record, by ordered searches with the fixed patterns.
 * The fallback comment (`--emptynote` on the command line) is a parameter.
 */
module Extract {
  import opened Outcome
  import opened Text
  import opened Patterns
  import opened Renumber

  /** One row of the string table, the `String` named tuple. */
  datatype Entry = Entry(key: string, value: string, comment: string)

  /**
   * Neither key form matched. The source reaches `key_result.group(0)` with
   * `key_result` None at this point, so the call raises instead of returning.
   */
  datatype Unresolved = Unresolved(params: string)

  /** Neither `key:"…"` anywhere nor a quoted string at the start. */
  ghost predicate KeyUnresolvable(params: string) {
    NoLabel(params, KeyLabel) && forall hi :: !LeadingParse(params, hi)
  }

  /**
   * The key: the group of the first `key:\s*"…"` anywhere in `params`; failing that,
   * the quoted text `params` starts with, whatever follows it.
   */
  function ResolveKey(params: string): (r: Option<string>)
    ensures forall i, lo, hi :: FirstLabelParse(params, KeyLabel, i, lo, hi) ==> r == Some(params[lo..hi])
    ensures forall hi :: NoLabel(params, KeyLabel) && LeadingParse(params, hi) ==> r == Some(params[1..hi])
    ensures r.None? <==> KeyUnresolvable(params)
    ensures r.Some? ==> '"' !in r.value
  {
    match LabelGroup(params, KeyLabel)
    case Some(k) => Some(k)
    case None => LeadingQuoted(params)
  }

  /** The value before renumbering: the group of the first `value:\s*"…"`, else the key. */
  function ResolveValue(params: string, key: string): (r: string)
    ensures forall i, lo, hi :: FirstLabelParse(params, ValueLabel, i, lo, hi) ==> r == params[lo..hi]
    ensures NoLabel(params, ValueLabel) ==> r == key
    ensures '"' !in key ==> '"' !in r
  {
    match LabelGroup(params, ValueLabel)
    case Some(v) => v
    case None => key
  }

  /** The comment: the group of the first `comment:\s*"…"` when it is not empty, else the fallback note. */
  function ResolveComment(params: string, note: string): (r: string)
    ensures forall i, lo, hi :: FirstLabelParse(params, CommentLabel, i, lo, hi) ==>
      r == if lo < hi then params[lo..hi] else note
    ensures NoLabel(params, CommentLabel) ==> r == note
  {
    match LabelGroup(params, CommentLabel)
    case Some(c) => if c != "" then c else note
    case None => note
  }

  /** A slice of a text without `ch` has no `ch` either. */
  lemma SliceAvoids(s: string, lo: int, hi: int, ch: char)
    requires 0 <= lo <= hi <= |s| && ch !in s
    ensures ch !in s[lo..hi]
  {
    forall k | 0 <= k < hi - lo ensures s[lo..hi][k] != ch {
      assert s[lo..hi][k] == s[lo + k];
    }
  }

  /** Every labelled group lies inside `params`, so it avoids what `params` avoids. */
  lemma LabelGroupAvoids(params: string, tag: string, ch: char)
    requires ch !in params
    ensures LabelGroup(params, tag).Some? ==> ch !in LabelGroup(params, tag).value
  {
    match SearchLabel(params, tag, 0)
    case None =>
    case Some(m) => SliceAvoids(params, m.lo, m.hi, ch);
  }

  lemma LeadingQuotedAvoids(params: string, ch: char)
    requires ch !in params
    ensures LeadingQuoted(params).Some? ==> ch !in LeadingQuoted(params).value
  {
    if |params| > 0 && params[0] == '"' {
      match FindChar(params, '"', 1)
      case None =>
      case Some(e) => SliceAvoids(params, 1, e, ch);
    }
  }

  /**
   * `generate_string(params)`: fails exactly when no key form matches; otherwise the
   * value is passed through `replace_vars` once, and neither key nor value holds a `"`,
   * nor a newline when `params` has none.
   */
  function GenerateString(params: string, note: string): (r: Result<Entry, Unresolved>)
    ensures r.Failure? <==> KeyUnresolvable(params)
    ensures r.Failure? ==> r.error == Unresolved(params)
    ensures r.Success? ==> ResolveKey(params) == Some(r.value.key)
    ensures r.Success? ==> r.value.value == ReplacedVars(ResolveValue(params, r.value.key))
    ensures r.Success? ==> r.value.comment == ResolveComment(params, note)
    ensures r.Success? ==> '"' !in r.value.key && '"' !in r.value.value
    ensures r.Success? && '\n' !in params ==>
      '\n' !in r.value.key && '\n' !in r.value.value && ('\n' !in note ==> '\n' !in r.value.comment)
  {
    match ResolveKey(params)
    case None => Failure(Unresolved(params))
    case Some(key) =>
      var raw := ResolveValue(params, key);
      var e := Entry(key, ReplacedVars(raw), ResolveComment(params, note));
      ReplacedVarsAvoids(raw, '"');
      if '\n' in params then Success(e)
      else
        LabelGroupAvoids(params, KeyLabel, '\n');
        LabelGroupAvoids(params, ValueLabel, '\n');
        LabelGroupAvoids(params, CommentLabel, '\n');
        LeadingQuotedAvoids(params, '\n');
        ReplacedVarsAvoids(raw, '\n');
        Success(e)
  }

  /** A text whose only quotes are its first and last character holds no labelled argument. */
  lemma QuotedAloneHasNoLabel(params: string, x: string, tag: string)
    requires params == "\"" + x + "\"" && '"' !in x && |tag| > 0
    ensures NoLabel(params, tag)
  {
    forall q | 1 <= q <= |x| ensures params[q] != '"' {
      assert params[q] == x[q - 1];
    }
  }

  /**
   * The argument text `"X"` of the positional call style: `X` is the key, the value is
   * `X` renumbered, and the comment is the fallback note.
   */
  lemma PositionalCall(x: string, note: string)
    requires '"' !in x
    ensures GenerateString("\"" + x + "\"", note) == Success(Entry(x, ReplacedVars(x), note))
  {
    var params := "\"" + x + "\"";
    QuotedAloneHasNoLabel(params, x, KeyLabel);
    QuotedAloneHasNoLabel(params, x, ValueLabel);
    QuotedAloneHasNoLabel(params, x, CommentLabel);
    assert NoQuote(params, 1, |x| + 1) by {
      forall q | 1 <= q < |x| + 1 ensures params[q] != '"' {
        assert params[q] == x[q - 1];
      }
    }
    assert LeadingParse(params, |x| + 1);
    assert params[1..|x| + 1] == x;
  }

  /**
   * The named call style: when `params` is `pre`, then `key:`, spaces and `"K"`, then
   * anything, and `key:` does not occur in `pre`, the key is `K` whatever the other
   * arguments are and in whatever order they come.
   */
  lemma NamedKey(params: string, pre: string, ws: string, k: string, post: string)
    requires params == pre + KeyLabel + ws + "\"" + k + "\"" + post
    requires forall i :: 0 <= i < |ws| ==> IsSpace(ws[i])
    requires '"' !in k
    requires forall i :: 0 <= i < |pre| ==> !OccursAt(params, KeyLabel, i)
    ensures ResolveKey(params) == Some(k)
  {
    var at := |pre|;
    var lo := at + |KeyLabel| + |ws| + 1;
    var hi := lo + |k|;
    assert params[at..at + |KeyLabel|] == KeyLabel;
    assert AllSpace(params, at + |KeyLabel|, lo - 1) by {
      forall q | at + |KeyLabel| <= q < lo - 1 ensures IsSpace(params[q]) {
        assert params[q] == ws[q - at - |KeyLabel|];
      }
    }
    assert NoQuote(params, lo, hi) by {
      forall q | lo <= q < hi ensures params[q] != '"' {
        assert params[q] == k[q - lo];
      }
    }
    assert params[lo - 1] == '"' && params[hi] == '"';
    assert LabelParse(params, KeyLabel, at, lo, hi);
    assert FirstLabelParse(params, KeyLabel, at, lo, hi);
    assert params[lo..hi] == k;
  }
}
