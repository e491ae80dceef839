/**
 * Character classes and the few string operations of Python's `str` that the
 * extractor relies on: `'{}'.format(n)` for a positive integer, `str.replace`
 * with a count of one, and counting a character.
 */
module Text {
  import opened Outcome

  /** Python 3's `\s` in a `str` pattern: exactly the characters `str.isspace` accepts. */
  predicate IsSpace(c: char) {
    var n := c as int;
    (9 <= n <= 13) || (28 <= n <= 32) || n == 0x85 || n == 0xA0 || n == 0x1680
    || (0x2000 <= n <= 0x200A) || n == 0x2028 || n == 0x2029 || n == 0x202F
    || n == 0x205F || n == 0x3000
  }

  predicate IsDigit(c: char) {
    '0' <= c <= '9'
  }

  function DigitChar(d: nat): (c: char)
    requires d < 10
    ensures IsDigit(c)
  {
    ('0' as int + d) as char
  }

  /** The decimal text `str(n)` of a natural number, without leading zeros. */
  function Decimal(n: nat): (r: string)
    ensures |r| >= 1
    ensures forall i :: 0 <= i < |r| ==> IsDigit(r[i])
    ensures n > 0 ==> r[0] != '0'
    decreases n
  {
    if n < 10 then [DigitChar(n)] else Decimal(n / 10) + [DigitChar(n % 10)]
  }

  /** The number a string of decimal digits denotes; the partner of `Decimal`. */
  function DigitsValue(s: string): nat
    requires forall i :: 0 <= i < |s| ==> IsDigit(s[i])
  {
    if s == [] then 0
    else
      assert IsDigit(s[|s| - 1]);
      10 * DigitsValue(s[..|s| - 1]) + (s[|s| - 1] as int - '0' as int)
  }

  lemma {:induction false} DecimalRoundTrip(n: nat)
    ensures DigitsValue(Decimal(n)) == n
    decreases n
  {
    if n >= 10 {
      var r := Decimal(n);
      assert r[..|r| - 1] == Decimal(n / 10);
      DecimalRoundTrip(n / 10);
    }
  }

  /** The first index at or after `from` that holds `c`, as `str.find` reports it. */
  function FindChar(t: string, c: char, from: nat): (r: Option<nat>)
    ensures r.Some? ==> from <= r.value < |t| && t[r.value] == c
    ensures r.Some? ==> forall i :: from <= i < r.value ==> t[i] != c
    ensures r.None? ==> forall i :: from <= i < |t| ==> t[i] != c
    decreases |t| - from
  {
    if from >= |t| then None
    else if t[from] == c then Some(from)
    else FindChar(t, c, from + 1)
  }

  predicate OccursAt(t: string, pat: string, i: int) {
    0 <= i && i + |pat| <= |t| && t[i..i + |pat|] == pat
  }

  /** The first occurrence of `pat` in `t` at or after `from`. */
  function Find(t: string, pat: string, from: nat): (r: Option<nat>)
    ensures r.Some? ==> from <= r.value && OccursAt(t, pat, r.value)
    ensures r.Some? ==> forall i :: from <= i < r.value ==> !OccursAt(t, pat, i)
    ensures r.None? ==> forall i :: from <= i ==> !OccursAt(t, pat, i)
    decreases |t| - from
  {
    if from + |pat| > |t| then None
    else if t[from..from + |pat|] == pat then Some(from)
    else Find(t, pat, from + 1)
  }

  /** Python's `t.replace(pat, rep, 1)`: only the leftmost occurrence of `pat` is replaced. */
  function ReplaceFirst(t: string, pat: string, rep: string): string {
    match Find(t, pat, 0)
    case None => t
    case Some(i) => t[..i] + rep + t[i + |pat|..]
  }

  /** Replacing the leftmost occurrence, characterised without `Find`. */
  lemma ReplaceFirstAt(t: string, pat: string, rep: string, i: nat)
    requires OccursAt(t, pat, i)
    requires forall j :: 0 <= j < i ==> !OccursAt(t, pat, j)
    ensures ReplaceFirst(t, pat, rep) == t[..i] + rep + t[i + |pat|..]
  {
  }

  /** Without an occurrence, `str.replace` returns its input. */
  lemma ReplaceFirstAbsent(t: string, pat: string, rep: string)
    requires forall j :: 0 <= j ==> !OccursAt(t, pat, j)
    ensures ReplaceFirst(t, pat, rep) == t
  {
  }

  /** How many times `c` occurs in `t`. */
  function Count(t: string, c: char): nat {
    if t == [] then 0 else (if t[0] == c then 1 else 0) + Count(t[1..], c)
  }

  lemma {:induction false} CountAppend(a: string, b: string, c: char)
    ensures Count(a + b, c) == Count(a, c) + Count(b, c)
    decreases |a|
  {
    if a != [] {
      assert (a + b)[0] == a[0] && (a + b)[1..] == a[1..] + b;
      CountAppend(a[1..], b, c);
      assert Count(a + b, c) == (if a[0] == c then 1 else 0) + Count(a[1..] + b, c);
    } else {
      assert a + b == b;
    }
  }

  /** Replacing one occurrence of `pat` by `rep` changes the count of `c` by their difference. */
  lemma ReplaceFirstCount(t: string, pat: string, rep: string, c: char)
    requires Count(pat, c) == Count(rep, c)
    ensures Count(ReplaceFirst(t, pat, rep), c) == Count(t, c)
  {
    match Find(t, pat, 0)
    case None =>
    case Some(i) =>
      assert t == t[..i] + pat + t[i + |pat|..];
      CountAppend(t[..i] + pat, t[i + |pat|..], c);
      CountAppend(t[..i], pat, c);
      CountAppend(t[..i] + rep, t[i + |pat|..], c);
      CountAppend(t[..i], rep, c);
  }

  /** Replacing can only bring in characters of the replacement. */
  lemma ReplaceFirstAvoids(t: string, pat: string, rep: string, c: char)
    requires c !in t && c !in rep
    ensures c !in ReplaceFirst(t, pat, rep)
  {
    match Find(t, pat, 0)
    case None =>
    case Some(i) =>
      var r := t[..i] + rep + t[i + |pat|..];
      forall k | 0 <= k < |r| ensures r[k] != c {
        if k < i {
          assert r[k] == t[k];
        } else if k < i + |rep| {
          assert r[k] == rep[k - i];
        } else {
          assert r[k] == t[k - |rep| + |pat|];
        }
      }
  }

  // ---------------------------------------------------------------------------
  // Sequence algebra the solver does not find on its own in larger contexts
  // ---------------------------------------------------------------------------

  /** Concatenation is associative. */
  lemma Assoc<T>(a: seq<T>, b: seq<T>, c: seq<T>)
    ensures a + (b + c) == (a + b) + c
  {
  }

  lemma AppendNil<T>(a: seq<T>, b: seq<T>)
    requires b == []
    ensures a + b == a
  {
  }

  /** Cutting a sequence around position `i`. */
  lemma SplitAt<T>(s: seq<T>, i: nat)
    requires i < |s|
    ensures s == s[..i] + ([s[i]] + s[i + 1..])
    ensures s[..i + 1] == s[..i] + [s[i]]
  {
  }

  /** Indexing past the head of `[x] + s`. */
  lemma ConsAt<T>(x: T, s: seq<T>, k: nat)
    requires 0 < k <= |s|
    ensures ([x] + s)[k] == s[k - 1]
  {
  }
}
