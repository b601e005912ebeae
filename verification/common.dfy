/** Shared value types and the few PHP string primitives the parser relies on. */
module Common {

  /** A step that PHP either completes or aborts with a fatal user error. */
  datatype Result<T> = Ok(value: T) | Abort(message: string) {
    predicate IsFailure() { Abort? }
    function PropagateFailure<U>(): Result<U>
      requires Abort?
    {
      Abort(message)
    }
    function Extract(): T
      requires Ok?
    {
      value
    }
  }

  datatype Option<T> = None | Some(value: T) {
    function GetOr(default: T): T {
      if Some? then value else default
    }
  }

  /** `pat` starts at position `i` of `s`. */
  predicate OccursAt(s: string, pat: string, i: nat) {
    i + |pat| <= |s| && s[i..i + |pat|] == pat
  }

  /** `pat` occurs somewhere in `s`. */
  ghost predicate Contains(s: string, pat: string) {
    exists i: nat :: OccursAt(s, pat, i)
  }

  /** `i` is the first position at or after `from` where `pat` occurs in `s`. */
  ghost predicate FirstAt(s: string, pat: string, from: nat, i: nat) {
    from <= i && OccursAt(s, pat, i) && forall j: nat :: from <= j < i ==> !OccursAt(s, pat, j)
  }

  /** PHP `strpos($s, $pat, $from)`: the first occurrence at or after `from`, or false (None). */
  function IndexOf(s: string, pat: string, from: nat): (r: Option<nat>)
    decreases |s| - from
    ensures r.Some? ==> FirstAt(s, pat, from, r.value)
    ensures r.None? ==> forall j: nat :: from <= j ==> !OccursAt(s, pat, j)
  {
    if from + |pat| > |s| then None
    else if OccursAt(s, pat, from) then Some(from)
    else IndexOf(s, pat, from + 1)
  }

  /** Occurrences in a suffix `s[p..]` are occurrences in `s`, shifted by `p`. */
  lemma OccursInSuffix(s: string, pat: string, p: nat, j: nat)
    requires p <= |s|
    ensures OccursAt(s[p..], pat, j) <==> OccursAt(s, pat, p + j)
  {
    if p + j + |pat| <= |s| {
      assert s[p..][j..j + |pat|] == s[p + j..p + j + |pat|];
    }
  }

  /** Occurrences in a prefix `s[..q]` are the occurrences in `s` that end by `q`. */
  lemma OccursInPrefix(s: string, pat: string, q: nat, j: nat)
    requires q <= |s|
    ensures OccursAt(s[..q], pat, j) <==> (j + |pat| <= q && OccursAt(s, pat, j))
  {
    if j + |pat| <= q {
      assert s[..q][j..j + |pat|] == s[j..j + |pat|];
    }
  }

  predicate IsDigit(c: char) { '0' <= c <= '9' }

  /** PHP's decimal rendering of a non-negative integer (string interpolation of an int). */
  function NatToString(n: nat): (r: string)
    ensures |r| >= 1 && forall i | 0 <= i < |r| :: IsDigit(r[i])
    ensures r[0] == '0' ==> n == 0
  {
    if n < 10 then [Digit(n)] else NatToString(n / 10) + [Digit(n % 10)]
  }

  function Digit(d: nat): (c: char)
    requires d < 10
    ensures IsDigit(c) && c as int - '0' as int == d
  {
    ('0' as int + d) as char
  }

  /** The value of a string of decimal digits (how a data-tagid attribute is read back as an index). */
  function DecimalValue(s: string): nat
    requires forall i | 0 <= i < |s| :: IsDigit(s[i])
  {
    if s == [] then 0
    else
      assert IsDigit(s[|s| - 1]);
      DecimalValue(s[..|s| - 1]) * 10 + (s[|s| - 1] as int - '0' as int)
  }

  /** A marker's data-tagid attribute reads back as the token index it was written from. */
  lemma {:induction false} TagIdRoundTrip(n: nat)
    ensures DecimalValue(NatToString(n)) == n
  {
    if n >= 10 {
      var r := NatToString(n);
      assert r[..|r| - 1] == NatToString(n / 10);
      TagIdRoundTrip(n / 10);
    }
  }

  /** PHP `strtolower` on ASCII letters. */
  function ToLower(s: string): string {
    if s == [] then []
    else [if 'A' <= s[0] <= 'Z' then (s[0] as int + 32) as char else s[0]] + ToLower(s[1..])
  }

  /** The characters PHP's `trim` removes by default: space, \t, \n, \r, \0 and \x0B. */
  predicate IsTrimmed(c: char) {
    c == ' ' || c == '\t' || c == '\n' || c == '\r' || c == '\0' || c == '\U{0B}'
  }

  /** Every character of `w` is one `trim` removes. */
  predicate AllTrimmed(w: string) {
    forall i | 0 <= i < |w| :: IsTrimmed(w[i])
  }

  /**
   * PHP `trim($s)` with the default character list. It is empty exactly when `s` is all
   * padding; otherwise it starts and ends with a character `trim` keeps, and
   * `TrimPadded` below shows it is the text between the padding at both ends.
   */
  function Trim(s: string): (r: string)
    ensures |r| <= |s|
    ensures r != [] ==> !IsTrimmed(r[0]) && !IsTrimmed(r[|r| - 1])
    ensures r == [] <==> AllTrimmed(s)
  {
    if s == [] then []
    else if IsTrimmed(s[0]) then Trim(s[1..])
    else if IsTrimmed(s[|s| - 1]) then Trim(s[..|s| - 1])
    else s
  }

  /**
   * `trim` removes exactly the padding: text that neither starts nor ends with a trimmed
   * character comes back as it was, whatever trimmed characters surround it.
   */
  lemma {:induction false} TrimPadded(w1: string, x: string, w2: string)
    requires AllTrimmed(w1) && AllTrimmed(w2)
    requires x != [] && !IsTrimmed(x[0]) && !IsTrimmed(x[|x| - 1])
    ensures Trim(w1 + x + w2) == x
    decreases |w1| + |w2|
  {
    var s := w1 + x + w2;
    if w1 != [] {
      assert s[0] == w1[0];
      assert s[1..] == w1[1..] + x + w2;
      TrimPadded(w1[1..], x, w2);
    } else if w2 != [] {
      assert s[0] == x[0];
      assert s[|s| - 1] == w2[|w2| - 1];
      assert s[..|s| - 1] == w1 + x + w2[..|w2| - 1];
      TrimPadded(w1, x, w2[..|w2| - 1]);
    } else {
      assert s == x;
    }
  }

  /** PHP truthiness of a string: only "" and "0" are false. */
  predicate IsFalsy(s: string) {
    s == "" || s == "0"
  }
}
