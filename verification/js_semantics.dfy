/** The few JavaScript built-ins the tool relies on, with their ECMAScript
    meaning written out: `Array.prototype.slice`, BigInt division (which
    truncates toward zero, unlike Dafny's Euclidean `/`), and the string
    methods `startsWith`, `endsWith`, `indexOf` and `replace` with a string
    pattern. */
module JsSemantics {
  import opened Outcomes

  function Min(a: int, b: int): int { if a <= b then a else b }

  function Max(a: int, b: int): int { if a >= b then a else b }

  function Abs(a: int): int { if a < 0 then -a else a }

  /** An index argument of `slice` resolved against length `len`: a negative
      index counts from the end, and the result is clamped to `0..len`. */
  function RelativeIndex(i: int, len: nat): (r: nat)
    ensures r <= len
    ensures 0 <= i ==> r == Min(i, len)
  {
    if i < 0 then (if len + i < 0 then 0 else len + i)
    else if i > len then len
    else i
  }

  /** `s.slice(start, end)`. */
  function Slice<T>(s: seq<T>, start: int, end: int): (r: seq<T>)
    ensures |r| <= |s|
    ensures 0 <= start <= end ==> r == s[Min(start, |s|)..Min(end, |s|)]
  {
    var from := RelativeIndex(start, |s|);
    var to := RelativeIndex(end, |s|);
    if from < to then s[from..to] else []
  }

  /** BigInt `a / b`: the quotient truncated toward zero, so the remainder
      takes the sign of the dividend. */
  function TruncDiv(a: int, b: int): (q: int)
    requires b != 0
    ensures 0 <= a ==> 0 <= a - q * b < Abs(b)
    ensures a < 0 ==> -Abs(b) < a - q * b <= 0
  {
    var n := Abs(a) / Abs(b);
    var q := if (a >= 0) == (b > 0) then n else -n;
    TruncDivRemainder(a, b, n, q);
    q
  }

  lemma TruncDivRemainder(a: int, b: int, n: int, q: int)
    requires b != 0
    requires n == Abs(a) / Abs(b)
    requires q == if (a >= 0) == (b > 0) then n else -n
    ensures 0 <= a ==> 0 <= a - q * b < Abs(b)
    ensures a < 0 ==> -Abs(b) < a - q * b <= 0
  {
    var rem := Abs(a) - n * Abs(b);
    assert 0 <= rem < Abs(b);
    // In every sign combination q * b has the sign of a and magnitude n * |b|.
    if a >= 0 && b > 0 {
      assert q * b == n * Abs(b);
    } else if a >= 0 {
      assert q * b == (-n) * b == n * (-b) == n * Abs(b);
    } else if b > 0 {
      assert q * b == (-n) * b == -(n * Abs(b));
    } else {
      assert q * b == n * b == -(n * (-b)) == -(n * Abs(b));
    }
  }

  predicate StartsWith(s: string, prefix: string) {
    |prefix| <= |s| && s[..|prefix|] == prefix
  }

  predicate EndsWith(s: string, suffix: string) {
    |suffix| <= |s| && s[|s| - |suffix|..] == suffix
  }

  predicate OccursAt(s: string, pat: string, i: nat) {
    i + |pat| <= |s| && s[i..i + |pat|] == pat
  }

  /** First position at or after `from` where `pat` occurs in `s`. */
  function IndexFrom(s: string, pat: string, from: nat): (r: Option<nat>)
    requires from <= |s|
    ensures r.Some? ==> from <= r.value && OccursAt(s, pat, r.value)
    ensures r.Some? ==> forall j :: from <= j < r.value ==> !OccursAt(s, pat, j)
    ensures r.None? ==> forall j :: from <= j <= |s| ==> !OccursAt(s, pat, j)
    decreases |s| - from
  {
    if OccursAt(s, pat, from) then Some(from)
    else if from == |s| then None
    else IndexFrom(s, pat, from + 1)
  }

  /** `s.indexOf(pat)`, with `None` for JavaScript's -1. */
  function IndexOf(s: string, pat: string): (r: Option<nat>)
    ensures r.Some? ==> OccursAt(s, pat, r.value)
    ensures r.Some? ==> forall j :: 0 <= j < r.value ==> !OccursAt(s, pat, j)
    ensures r.None? ==> forall j :: 0 <= j <= |s| ==> !OccursAt(s, pat, j)
  {
    IndexFrom(s, pat, 0)
  }

  /** The first occurrence is the one `IndexOf` reports. */
  lemma IndexOfIsFirstOccurrence(s: string, pat: string, i: nat)
    requires OccursAt(s, pat, i)
    requires forall j :: 0 <= j < i ==> !OccursAt(s, pat, j)
    ensures IndexOf(s, pat) == Some(i)
  {
  }

  /** `s.replace(pat, rep)` with a string pattern and a replacement that
      holds no `$` (JavaScript expands `$&`, `$$`, `` $` `` and `$'` in
      the replacement; ".ts" has none): only the FIRST occurrence is
      replaced, and `s` is returned unchanged when there is none. */
  function ReplaceFirst(s: string, pat: string, rep: string): (r: string)
    ensures IndexOf(s, pat).None? ==> r == s
    ensures IndexOf(s, pat).Some? ==>
      var i := IndexOf(s, pat).value;
      r == s[..i] + rep + s[i + |pat|..]
  {
    match IndexOf(s, pat)
    case None => s
    case Some(i) => s[..i] + rep + s[i + |pat|..]
  }
}
