/**
 * The driver: `grep_file` runs the locator over every file's text and turns each
 * call into an entry, and `save_strings` writes each entry as one block of the
 * `.strings` table. File contents arrive already read; writing them out is not modelled.
 */
module GenStrings {
  import opened Outcome
  import opened Text
  import opened Patterns
  import opened Extract

  /** The argument texts of every call in every file: files in the given order, calls in file order. */
  function AllCaptures(files: seq<string>): seq<string> {
    if files == [] then [] else Captures(files[0]) + AllCaptures(files[1..])
  }

  /** Captures of consecutive groups of files are concatenated in the same order. */
  lemma {:induction false} AllCapturesAppend(a: seq<string>, b: seq<string>)
    ensures AllCaptures(a + b) == AllCaptures(a) + AllCaptures(b)
    decreases |a|
  {
    if a == [] {
      assert a + b == b;
    } else {
      assert (a + b)[0] == a[0] && (a + b)[1..] == a[1..] + b;
      AllCapturesAppend(a[1..], b);
      Assoc(Captures(a[0]), AllCaptures(a[1..]), AllCaptures(b));
    }
  }

  /** Every captured argument text is non-empty and lies on one line. */
  lemma {:induction false} AllCapturesOneLine(files: seq<string>)
    ensures forall k :: 0 <= k < |AllCaptures(files)| ==> |AllCaptures(files)[k]| > 0 && '\n' !in AllCaptures(files)[k]
    decreases |files|
  {
    if files != [] {
      var here := Captures(files[0]);
      var rest := AllCaptures(files[1..]);
      AllCapturesOneLine(files[1..]);
      forall k | 0 <= k < |here + rest| ensures |(here + rest)[k]| > 0 && '\n' !in (here + rest)[k] {
        if k < |here| {
          assert (here + rest)[k] == here[k];
        } else {
          assert (here + rest)[k] == rest[k - |here|];
        }
      }
    }
  }

  /** The outcome of `generate_string` on each argument text. */
  function Outcomes(ps: seq<string>, note: string): (r: seq<Result<Entry, Unresolved>>)
    ensures |r| == |ps|
  {
    if ps == [] then [] else [GenerateString(ps[0], note)] + Outcomes(ps[1..], note)
  }

  lemma {:induction false} OutcomesAppend(a: seq<string>, b: seq<string>, note: string)
    ensures Outcomes(a + b, note) == Outcomes(a, note) + Outcomes(b, note)
    decreases |a|
  {
    if a == [] {
      assert a + b == b;
    } else {
      assert (a + b)[0] == a[0] && (a + b)[1..] == a[1..] + b;
      OutcomesAppend(a[1..], b, note);
    }
  }

  lemma OutcomesAt(ps: seq<string>, note: string, k: nat)
    requires k < |ps|
    ensures Outcomes(ps, note)[k] == GenerateString(ps[k], note)
    decreases k
  {
    if k > 0 {
      assert ps[1..][k - 1] == ps[k];
      OutcomesAt(ps[1..], note, k - 1);
    }
  }

  /** The entries of a run of outcomes, or the first failure in it. */
  function Gather(rs: seq<Result<Entry, Unresolved>>): (r: Result<seq<Entry>, Unresolved>)
    ensures r.Success? ==> |r.value| == |rs|
  {
    if rs == [] then Success([])
    else match rs[0]
      case Failure(e) => Failure(e)
      case Success(s) =>
        match Gather(rs[1..])
        case Failure(e) => Failure(e)
        case Success(rest) => Success([s] + rest)
  }

  /** The index of the first failure in `rs`, or `|rs|` when there is none. */
  function FirstFailure(rs: seq<Result<Entry, Unresolved>>): (k: nat)
    ensures k <= |rs|
    ensures forall j :: 0 <= j < k ==> rs[j].Success?
    ensures k < |rs| ==> rs[k].Failure?
  {
    if rs == [] || rs[0].Failure? then 0 else 1 + FirstFailure(rs[1..])
  }

  /** `Gather` keeps every entry in order when nothing fails, and otherwise reports the first failure. */
  lemma {:induction false} GatherSpec(rs: seq<Result<Entry, Unresolved>>)
    ensures Gather(rs).Success? <==> FirstFailure(rs) == |rs|
    ensures Gather(rs).Success? ==> forall k :: 0 <= k < |rs| ==> rs[k] == Success(Gather(rs).value[k])
    ensures Gather(rs).Failure? ==> Gather(rs).error == rs[FirstFailure(rs)].error
    decreases |rs|
  {
    if rs != [] {
      GatherSpec(rs[1..]);
      var r := Gather(rs);
      if r.Success? {
        var rest := Gather(rs[1..]).value;
        assert r.value == [rs[0].value] + rest;
        forall k | 0 < k < |rs| ensures rs[k] == Success(r.value[k]) {
          assert rs[k] == rs[1..][k - 1] && r.value[k] == rest[k - 1];
        }
      }
    }
  }

  /** After a run without failure, gathering continues with what follows: its failure or its entries. */
  lemma {:induction false} GatherAfter(a: seq<Result<Entry, Unresolved>>, b: seq<Result<Entry, Unresolved>>, es: seq<Entry>)
    requires Gather(a) == Success(es)
    ensures Gather(b).Failure? ==> Gather(a + b) == Gather(b)
    ensures Gather(b).Success? ==> Gather(a + b) == Success(es + Gather(b).value)
    decreases |a|
  {
    if a == [] {
      assert a + b == b;
      assert es == [];
      if Gather(b).Success? {
        assert es + Gather(b).value == Gather(b).value;
      }
    } else {
      assert (a + b)[0] == a[0] && (a + b)[1..] == a[1..] + b;
      var rest := Gather(a[1..]).value;
      GatherAfter(a[1..], b, rest);
      assert es == [a[0].value] + rest;
      if Gather(b).Success? {
        assert [a[0].value] + (rest + Gather(b).value) == es + Gather(b).value;
      }
    }
  }

  /**
   * `generate_string` applied to each argument text in turn: the entries in order,
   * or the first text neither key form matches, where the run stops.
   */
  function GenerateAll(ps: seq<string>, note: string): Result<seq<Entry>, Unresolved> {
    Gather(Outcomes(ps, note))
  }

  /** `generate_string` returns (rather than raising) for this argument text. */
  predicate Resolves(params: string) {
    ResolveKey(params).Some?
  }

  /**
   * One entry per argument text, in order, when every text resolves; otherwise the
   * run reports the first text that does not, and none of the entries.
   */
  lemma GenerateAllSpec(ps: seq<string>, note: string)
    ensures GenerateAll(ps, note).Success? <==> forall k :: 0 <= k < |ps| ==> Resolves(ps[k])
    ensures GenerateAll(ps, note).Success? ==> |GenerateAll(ps, note).value| == |ps|
    ensures GenerateAll(ps, note).Success? ==>
      forall k :: 0 <= k < |ps| ==> GenerateString(ps[k], note) == Success(GenerateAll(ps, note).value[k])
    ensures GenerateAll(ps, note).Failure? ==>
      (exists k :: 0 <= k < |ps| && !Resolves(ps[k]) && GenerateAll(ps, note).error == Unresolved(ps[k])
        && (forall j :: 0 <= j < k ==> Resolves(ps[j])))
  {
    var rs := Outcomes(ps, note);
    GatherSpec(rs);
    forall k | 0 <= k < |ps| ensures rs[k] == GenerateString(ps[k], note) {
      OutcomesAt(ps, note, k);
    }
    var n := FirstFailure(rs);
    if n < |ps| {
      assert !Resolves(ps[n]);
      assert forall j :: 0 <= j < n ==> Resolves(ps[j]);
    }
  }

  lemma GatherOne(e: Entry)
    ensures Gather([Success(e)]) == Success([e])
  {
    var one: seq<Result<Entry, Unresolved>> := [Success(e)];
    assert one[1..] == [];
    assert [e] + [] == [e];
  }

  /** One more argument text that resolves extends a successful run by its entry. */
  lemma GenerateAllSnoc(done: seq<string>, params: string, note: string, es: seq<Entry>, e: Entry)
    requires GenerateAll(done, note) == Success(es)
    requires GenerateString(params, note) == Success(e)
    ensures GenerateAll(done + [params], note) == Success(es + [e])
  {
    OutcomesAppend(done, [params], note);
    var one: seq<Result<Entry, Unresolved>> := [Success(e)];
    assert [params][1..] == [];
    assert Outcomes([params], note) == one;
    GatherOne(e);
    GatherAfter(Outcomes(done, note), one, es);
  }

  /** An argument text that does not resolve, after a successful run, ends the whole run. */
  lemma GenerateAllStops(done: seq<string>, params: string, tail: seq<string>, note: string, es: seq<Entry>)
    requires GenerateAll(done, note) == Success(es)
    requires GenerateString(params, note).Failure?
    ensures GenerateAll(done + ([params] + tail), note) == Failure(GenerateString(params, note).error)
  {
    OutcomesAppend(done, [params] + tail, note);
    var rest := Outcomes([params] + tail, note);
    assert ([params] + tail)[0] == params;
    assert rest[0] == GenerateString(params, note);
    GatherAfter(Outcomes(done, note), rest, es);
  }

  /** The captures of the files from `f` on: those of file `f`, then those of the rest. */
  lemma AllCapturesFrom(files: seq<string>, f: nat)
    requires f < |files|
    ensures AllCaptures(files[f..]) == Captures(files[f]) + AllCaptures(files[f + 1..])
  {
    assert files[f..][0] == files[f] && files[f..][1..] == files[f + 1..];
  }

  /** A successful run over more argument texts extends a successful run by its entries. */
  lemma GenerateAllConcat(done: seq<string>, more: seq<string>, note: string, es: seq<Entry>, fs: seq<Entry>)
    requires GenerateAll(done, note) == Success(es)
    requires GenerateAll(more, note) == Success(fs)
    ensures GenerateAll(done + more, note) == Success(es + fs)
  {
    OutcomesAppend(done, more, note);
    GatherAfter(Outcomes(done, note), Outcomes(more, note), es);
  }

  /** A failing run over more argument texts, after a successful one, fails the same way. */
  lemma GenerateAllConcatFails(done: seq<string>, more: seq<string>, tail: seq<string>, note: string, es: seq<Entry>)
    requires GenerateAll(done, note) == Success(es)
    requires GenerateAll(more, note).Failure?
    ensures GenerateAll(done + (more + tail), note) == GenerateAll(more, note)
  {
    OutcomesAppend(more, tail, note);
    GatherAfter([], Outcomes(more, note), []);
    assert Gather(Outcomes(more, note) + Outcomes(tail, note)) == GenerateAll(more, note) by {
      FailureAbsorbs(Outcomes(more, note), Outcomes(tail, note));
    }
    OutcomesAppend(done, more + tail, note);
    GatherAfter(Outcomes(done, note), Outcomes(more + tail, note), es);
  }

  /** Whatever follows a failure is never looked at. */
  lemma {:induction false} FailureAbsorbs(a: seq<Result<Entry, Unresolved>>, b: seq<Result<Entry, Unresolved>>)
    requires Gather(a).Failure?
    ensures Gather(a + b) == Gather(a)
    decreases |a|
  {
    assert (a + b)[0] == a[0] && (a + b)[1..] == a[1..] + b;
    if a[0].Success? {
      FailureAbsorbs(a[1..], b);
    }
  }

  /**
   * The body of `grep_file` for one file's text: a loop over the matches `finditer`
   * yields, in order, calling `generate_string` on each group.
   */
  method GrepContent(content: string, note: string) returns (r: Result<seq<Entry>, Unresolved>)
    ensures r == GenerateAll(Captures(content), note)
  {
    var calls := FindCalls(content, 0);
    ghost var found := Captures(content);
    var strings: seq<Entry> := [];
    var i := 0;
    while i < |calls|
      invariant 0 <= i <= |calls| == |found|
      invariant GenerateAll(found[..i], note) == Success(strings)
    {
      var params := content[calls[i].lo..calls[i].hi];
      assert params == found[i];
      SplitAt(found, i);
      match GenerateString(params, note)
      case Failure(e) =>
        GenerateAllStops(found[..i], params, found[i + 1..], note, strings);
        return Failure(e);
      case Success(s) =>
        GenerateAllSnoc(found[..i], params, note, strings, s);
        strings := strings + [s];
        i := i + 1;
    }
    assert found[..i] == found;
    return Success(strings);
  }

  /**
   * `grep_file` over the already-read texts of the files, in the given order. The
   * entries are those of `GenerateAll` on every capture, files in order; an argument
   * text with no key aborts the whole run, as the source's exception does.
   */
  method GrepFiles(files: seq<string>, note: string) returns (r: Result<seq<Entry>, Unresolved>)
    ensures r == GenerateAll(AllCaptures(files), note)
  {
    ghost var all := AllCaptures(files);
    var strings: seq<Entry> := [];
    ghost var done: seq<string> := [];
    var f := 0;
    while f < |files|
      invariant 0 <= f <= |files|
      invariant all == done + AllCaptures(files[f..])
      invariant GenerateAll(done, note) == Success(strings)
    {
      AllCapturesFrom(files, f);
      ghost var here := Captures(files[f]);
      ghost var later := AllCaptures(files[f + 1..]);
      var part := GrepContent(files[f], note);
      if part.Failure? {
        GenerateAllConcatFails(done, here, later, note, strings);
        return part;
      }
      GenerateAllConcat(done, here, note, strings, part.value);
      Assoc(done, here, later);
      strings := strings + part.value;
      done := done + here;
      f := f + 1;
    }
    assert files[f..] == [];
    AppendNil(done, AllCaptures(files[f..]));
    return Success(strings);
  }

  /** `OUTPUT_LINE_PATTERN.format(...)`: the comment line, the assignment line and a blank line. */
  function Format(e: Entry): string {
    "/* " + e.comment + " */\n\"" + e.key + "\" = \"" + e.value + "\";\n\n"
  }

  /** `writelines` of the formatted entries: the whole text of the table. */
  function Serialize(es: seq<Entry>): string {
    if es == [] then [] else Format(es[0]) + Serialize(es[1..])
  }

  /** The text before the first newline and the text after it. */
  function SplitLine(t: string): (r: Option<(string, string)>)
    ensures r.Some? ==> t == r.value.0 + "\n" + r.value.1 && '\n' !in r.value.0
    ensures r.None? ==> '\n' !in t
  {
    match FindChar(t, '\n', 0)
    case None => None
    case Some(n) =>
      assert t == t[..n] + "\n" + t[n + 1..];
      Some((t[..n], t[n + 1..]))
  }

  /** `/* c */` gives back `c`. */
  function ParseComment(line: string): Option<string> {
    if |line| >= 6 && line[..3] == "/* " && line[|line| - 3..] == " */" then Some(line[3..|line| - 3])
    else None
  }

  /** `"k" = "v";` gives back `k` and `v`; the key ends at its first quote. */
  function ParseAssignment(line: string): Option<(string, string)> {
    if |line| >= 2 && line[0] == '"' then
      match FindChar(line, '"', 1)
      case None => None
      case Some(q) =>
        if q + 5 <= |line| - 2 && line[q..q + 5] == "\" = \"" && line[|line| - 2..] == "\";"
        then Some((line[1..q], line[q + 5..|line| - 2]))
        else None
    else None
  }

  /** Reads one block of the table back: comment line, assignment line, blank line. */
  function ParseBlock(t: string): (r: Option<(Entry, string)>)
    ensures r.Some? ==> |r.value.1| < |t|
  {
    match SplitLine(t)
    case None => None
    case Some((first, t1)) =>
      match SplitLine(t1)
      case None => None
      case Some((second, t2)) =>
        match SplitLine(t2)
        case None => None
        case Some((blank, t3)) =>
          match (ParseComment(first), ParseAssignment(second))
          case (Some(c), Some((k, v))) => if blank == "" then Some((Entry(k, v, c), t3)) else None
          case _ => None
  }

  /** Reads a whole table back. */
  function ParseTable(t: string): Option<seq<Entry>>
    decreases |t|
  {
    if t == [] then Some([])
    else match ParseBlock(t)
      case None => None
      case Some((e, rest)) =>
        match ParseTable(rest)
        case None => None
        case Some(es) => Some([e] + es)
  }

  /** What the format needs to be read back: one line per field, and a key without `"`. */
  predicate WellFormed(e: Entry) {
    '\n' !in e.comment && '\n' !in e.key && '\n' !in e.value && '"' !in e.key
  }

  lemma SplitLineAt(a: string, b: string)
    requires '\n' !in a
    ensures SplitLine(a + "\n" + b) == Some((a, b))
  {
    var t := a + "\n" + b;
    assert t[|a|] == '\n';
    assert forall i :: 0 <= i < |a| ==> t[i] == a[i];
    assert t[..|a|] == a && t[|a| + 1..] == b;
  }

  lemma ParseCommentFormat(c: string)
    ensures ParseComment("/* " + c + " */") == Some(c)
  {
    var line := "/* " + c + " */";
    assert line[..3] == "/* " && line[|line| - 3..] == " */" && line[3..|line| - 3] == c;
  }

  lemma ParseAssignmentFormat(k: string, v: string)
    requires '"' !in k
    ensures ParseAssignment("\"" + k + "\" = \"" + v + "\";") == Some((k, v))
  {
    var line := "\"" + k + "\" = \"" + v + "\";";
    var q := |k| + 1;
    assert forall i :: 1 <= i < q ==> line[i] == k[i - 1];
    assert line[q] == '"';
    assert FindChar(line, '"', 1) == Some(q);
    assert line[q..q + 5] == "\" = \"";
    assert line[|line| - 2..] == "\";";
    assert line[1..q] == k && line[q + 5..|line| - 2] == v;
  }

  /** A well-formed entry's block reads back as that entry, leaving what followed it. */
  lemma BlockRoundTrip(e: Entry, rest: string)
    requires WellFormed(e)
    ensures ParseBlock(Format(e) + rest) == Some((e, rest))
  {
    var first := "/* " + e.comment + " */";
    var second := "\"" + e.key + "\" = \"" + e.value + "\";";
    var t2 := "" + "\n" + rest;
    var t1 := second + "\n" + t2;
    assert Format(e) + rest == first + "\n" + t1;
    SplitLineAt(first, t1);
    SplitLineAt(second, t2);
    SplitLineAt("", rest);
    ParseCommentFormat(e.comment);
    ParseAssignmentFormat(e.key, e.value);
  }

  /** A well-formed entry's block in front of a table that reads back adds that entry in front. */
  lemma TableStep(e: Entry, rest: string, es: seq<Entry>)
    requires WellFormed(e) && ParseTable(rest) == Some(es)
    ensures ParseTable(Format(e) + rest) == Some([e] + es)
  {
    BlockRoundTrip(e, rest);
  }

  /** One more entry in front of a table that reads back. */
  lemma TableCons(es: seq<Entry>)
    requires es != [] && WellFormed(es[0]) && ParseTable(Serialize(es[1..])) == Some(es[1..])
    ensures ParseTable(Serialize(es)) == Some(es)
  {
    assert Serialize(es) == Format(es[0]) + Serialize(es[1..]);
    TableStep(es[0], Serialize(es[1..]), es[1..]);
    assert [es[0]] + es[1..] == es;
  }

  /** The whole table reads back as the entries that produced it. */
  lemma {:induction false} TableRoundTrip(es: seq<Entry>)
    requires forall k :: 0 <= k < |es| ==> WellFormed(es[k])
    ensures ParseTable(Serialize(es)) == Some(es)
    decreases |es|
  {
    if es != [] {
      TableRoundTrip(es[1..]);
      TableCons(es);
    }
  }

  /**
   * End to end: when the run succeeds and the fallback note is one line, the written
   * table has one block per call and reads back as exactly the collected entries.
   */
  lemma CollectedTableReadsBack(files: seq<string>, note: string, es: seq<Entry>)
    requires '\n' !in note
    requires GenerateAll(AllCaptures(files), note) == Success(es)
    ensures |es| == |AllCaptures(files)|
    ensures ParseTable(Serialize(es)) == Some(es)
  {
    var ps := AllCaptures(files);
    AllCapturesOneLine(files);
    GenerateAllSpec(ps, note);
    forall k | 0 <= k < |es| ensures WellFormed(es[k]) {
      assert GenerateString(ps[k], note) == Success(es[k]);
    }
    TableRoundTrip(es);
  }
}
