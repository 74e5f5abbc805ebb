/**
 * Character classes, decimal rendering, splitting, joining and searching:
 * the small pieces of Python's `str`, `str()` and `re` behaviour that the
 * retrieval and analysis scripts rely on.  Character classes are the ASCII
 * parts of Python's `\w`, `\d` and `\s`.
 */
module Text {

  datatype Option<+T> = None | Some(value: T)

  // ---------------------------------------------------------------------
  // Character classes
  // ---------------------------------------------------------------------

  /** Python's `\d`, restricted to ASCII. */
  predicate IsDigit(c: char) { '0' <= c <= '9' }

  /** Python's `\w`, restricted to ASCII: letters, digits and the underscore. */
  predicate IsWordChar(c: char) {
    IsDigit(c) || ('a' <= c <= 'z') || ('A' <= c <= 'Z') || c == '_'
  }

  /** Python's `\s` (and `str.isspace`), restricted to ASCII. */
  predicate IsSpace(c: char) {
    c == ' ' || ('\t' <= c <= '\r') || ('\U{1C}' <= c <= '\U{1F}')
  }

  predicate NotSpace(c: char) { !IsSpace(c) }

  predicate AllDigits(s: string) { forall i :: 0 <= i < |s| ==> IsDigit(s[i]) }

  predicate AllWordChars(s: string) { forall i :: 0 <= i < |s| ==> IsWordChar(s[i]) }

  /** `str.lower()` on ASCII letters; every other character is kept. */
  function LowerChar(c: char): (d: char)
    ensures 'A' <= c <= 'Z' ==> d != c && 'a' <= d <= 'z'
    ensures !('A' <= c <= 'Z') ==> d == c
  {
    if 'A' <= c <= 'Z' then (c as int + 32) as char else c
  }

  function Lower(s: string): (r: string)
    ensures |r| == |s|
    ensures forall i :: 0 <= i < |s| ==> r[i] == LowerChar(s[i])
  {
    seq(|s|, i requires 0 <= i < |s| => LowerChar(s[i]))
  }

  predicate StartsWith(s: string, prefix: string) {
    |prefix| <= |s| && s[..|prefix|] == prefix
  }

  predicate EndsWith(s: string, suffix: string) {
    |suffix| <= |s| && s[|s| - |suffix|..] == suffix
  }

  // ---------------------------------------------------------------------
  // Decimal rendering, as Python's `str(int)` and f-strings do it
  // ---------------------------------------------------------------------

  function DigitChar(d: nat): (c: char)
    requires d < 10
    ensures IsDigit(c)
  {
    (48 + d) as char
  }

  function DigitValue(c: char): (d: nat)
    requires IsDigit(c)
    ensures d < 10 && DigitChar(d) == c
  {
    c as int - 48
  }

  /** Decimal digits of `n`, most significant first, without leading zeros. */
  function NatToString(n: nat): (s: string)
    ensures |s| >= 1 && AllDigits(s)
    ensures |s| > 1 ==> s[0] != '0'
    decreases n
  {
    if n < 10 then [DigitChar(n)] else NatToString(n / 10) + [DigitChar(n % 10)]
  }

  /** The value of a string of decimal digits (Python's `int()` on such a string). */
  function DigitsValue(s: string): nat
    requires AllDigits(s)
  {
    if s == [] then 0 else 10 * DigitsValue(s[..|s| - 1]) + DigitValue(s[|s| - 1])
  }

  /** Reading back what `NatToString` wrote gives the number. */
  lemma {:induction false} DigitsValueOfNatToString(n: nat)
    ensures DigitsValue(NatToString(n)) == n
    decreases n
  {
    var s := NatToString(n);
    if n >= 10 {
      DigitsValueOfNatToString(n / 10);
      assert s[..|s| - 1] == NatToString(n / 10);
    }
  }

  /** Python's `str(i)` for an integer. */
  function IntToString(i: int): (s: string)
    ensures |s| >= 1
    ensures i >= 0 <==> IsDigit(s[0])
    ensures i >= 0 ==> AllDigits(s)
  {
    if i < 0 then "-" + NatToString(-i) else NatToString(i)
  }

  /** Two different integers never print the same. */
  lemma IntToStringInjective(a: int, b: int)
    requires IntToString(a) == IntToString(b)
    ensures a == b
  {
    if a >= 0 && b >= 0 {
      DigitsValueOfNatToString(a);
      DigitsValueOfNatToString(b);
    } else if a < 0 && b < 0 {
      assert NatToString(-a) == IntToString(a)[1..];
      assert NatToString(-b) == IntToString(b)[1..];
      DigitsValueOfNatToString(-a);
      DigitsValueOfNatToString(-b);
    }
  }

  // ---------------------------------------------------------------------
  // Runs, searches, splitting and joining
  // ---------------------------------------------------------------------

  /** End of the longest run of characters satisfying `p` that starts at `i`. */
  function RunEnd(s: string, i: nat, p: char -> bool): (j: nat)
    requires i <= |s|
    ensures i <= j <= |s|
    ensures forall k :: i <= k < j ==> p(s[k])
    ensures j == |s| || !p(s[j])
    decreases |s| - i
  {
    if i < |s| && p(s[i]) then RunEnd(s, i + 1, p) else i
  }

  /** `pattern` occurs in `s` at position `k`. */
  predicate OccursAt(s: string, pattern: string, k: nat) {
    k + |pattern| <= |s| && s[k..k + |pattern|] == pattern
  }

  /**
   * The leftmost position in `lo..hi` satisfying `p`, as a leftmost regex
   * search reports it; `None` when there is none.
   */
  function First(lo: nat, hi: nat, p: nat -> bool): (r: Option<nat>)
    ensures r.Some? ==> lo <= r.value < hi && p(r.value)
    ensures r.Some? ==> forall j :: lo <= j < r.value ==> !p(j)
    ensures r.None? ==> forall j :: lo <= j < hi ==> !p(j)
    decreases hi - lo
  {
    if lo >= hi then None else if p(lo) then Some(lo) else First(lo + 1, hi, p)
  }

  /** `re.search(pattern, s[lo..])` for a literal pattern, as a position in `s`. */
  function FindFrom(s: string, pattern: string, lo: nat): (r: Option<nat>)
    ensures r.Some? ==> lo <= r.value && OccursAt(s, pattern, r.value)
    ensures r.Some? ==> forall j :: lo <= j < r.value ==> !OccursAt(s, pattern, j)
    ensures r.None? ==> forall j :: lo <= j <= |s| ==> !OccursAt(s, pattern, j)
    decreases |s| + 1 - lo
  {
    if lo > |s| then None
    else if OccursAt(s, pattern, lo) then Some(lo)
    else FindFrom(s, pattern, lo + 1)
  }

  /** `re.search(pattern, s)` for a literal pattern: the first occurrence. */
  function Find(s: string, pattern: string): (r: Option<nat>)
    ensures r.Some? ==> OccursAt(s, pattern, r.value)
    ensures r.Some? ==> forall j :: 0 <= j < r.value ==> !OccursAt(s, pattern, j)
    ensures r.None? ==> forall j :: 0 <= j <= |s| ==> !OccursAt(s, pattern, j)
  {
    FindFrom(s, pattern, 0)
  }

  /** Python's `sep.join(parts)`. */
  function Join(parts: seq<string>, sep: string): (j: string)
    ensures parts == [] ==> j == ""
    ensures parts != [] ==> parts[0] <= j
  {
    if parts == [] then ""
    else if |parts| == 1 then parts[0]
    else parts[0] + sep + Join(parts[1..], sep)
  }

  /** Python's `s.split(c)`: the pieces between occurrences of `c`, empty ones included. */
  function Split(s: string, c: char): (parts: seq<string>)
    ensures |parts| >= 1
    decreases |s|
  {
    if s == [] then [""]
    else if s[0] == c then [""] + Split(s[1..], c)
    else
      var rest := Split(s[1..], c);
      [[s[0]] + rest[0]] + rest[1..]
  }

  /** Splitting and joining again gives back the string. */
  lemma {:induction false} JoinSplit(s: string, c: char)
    ensures Join(Split(s, c), [c]) == s
    decreases |s|
  {
    if s != [] {
      JoinSplit(s[1..], c);
      var rest := Split(s[1..], c);
      if s[0] == c {
        assert Split(s, c) == [""] + rest;
        assert Join([""] + rest, [c]) == "" + [c] + Join(rest, [c]);
      } else if |rest| == 1 {
        assert Split(s, c) == [[s[0]] + rest[0]];
      } else {
        var parts := Split(s, c);
        assert parts[1..] == rest[1..];
        assert Join(rest, [c]) == rest[0] + [c] + Join(rest[1..], [c]);
      }
    }
  }

  /** Joining pieces that do not contain the separator and splitting again gives back the pieces. */
  lemma {:induction false} SplitJoin(parts: seq<string>, c: char)
    requires |parts| >= 1
    requires forall k :: 0 <= k < |parts| ==> c !in parts[k]
    ensures Split(Join(parts, [c]), c) == parts
    decreases |parts|, |parts[0]|
  {
    if |parts| == 1 {
      SplitPlain(parts[0], c);
    } else if parts[0] == [] {
      SplitJoin(parts[1..], c);
      assert Join(parts, [c]) == [c] + Join(parts[1..], [c]);
      assert Join(parts, [c])[1..] == Join(parts[1..], [c]);
      assert parts == [""] + parts[1..];
    } else {
      var head := parts[0];
      var shorter := [head[1..]] + parts[1..];
      assert forall k :: 0 <= k < |shorter| ==> c !in shorter[k] by {
        forall k | 0 <= k < |shorter| ensures c !in shorter[k] {
          if k == 0 { assert forall x :: x in head[1..] ==> x in head; }
          else { assert shorter[k] == parts[k]; }
        }
      }
      SplitJoin(shorter, c);
      assert shorter[1..] == parts[1..];
      var s := Join(parts, [c]);
      assert s == head + [c] + Join(parts[1..], [c]);
      assert Join(shorter, [c]) == head[1..] + [c] + Join(parts[1..], [c]);
      assert s[1..] == Join(shorter, [c]);
      assert s[0] == head[0] && head[0] != c;
      assert [head[0]] + head[1..] == head;
    }
  }

  /** A separator between two strings separates their pieces. */
  lemma {:induction false} SplitAppend(a: string, c: char, b: string)
    ensures Split(a + [c] + b, c) == Split(a, c) + Split(b, c)
    decreases |a|
  {
    var s := a + [c] + b;
    if a == [] {
      assert s == [c] + b && s[1..] == b;
    } else {
      SplitAppend(a[1..], c, b);
      SplitStep(a, c, b);
    }
  }

  /** One step of `SplitAppend`: the first character of `a` either separates or joins the first piece. */
  lemma SplitStep(a: string, c: char, b: string)
    requires a != []
    requires Split(a[1..] + [c] + b, c) == Split(a[1..], c) + Split(b, c)
    ensures Split(a + [c] + b, c) == Split(a, c) + Split(b, c)
  {
    var s := a + [c] + b;
    assert s[0] == a[0] && s[1..] == a[1..] + [c] + b;
    if a[0] == c {
      SplitStepSeparator(a, s, c, Split(a[1..], c), Split(b, c));
    } else {
      SplitStepJoin(a, s, c, Split(a[1..], c), Split(b, c));
    }
  }

  lemma SplitStepSeparator(a: string, s: string, c: char, left: seq<string>, right: seq<string>)
    requires a != [] && s != [] && a[0] == c && s[0] == c
    requires left == Split(a[1..], c) && Split(s[1..], c) == left + right
    ensures Split(s, c) == Split(a, c) + right
  {
    SplitSeparatorFirst(s, c);
    SplitSeparatorFirst(a, c);
    AppendAssoc([""], left, right);
  }

  lemma AppendAssoc<T>(xs: seq<T>, ys: seq<T>, zs: seq<T>)
    ensures xs + (ys + zs) == (xs + ys) + zs
  {
  }

  lemma SplitStepJoin(a: string, s: string, c: char, left: seq<string>, right: seq<string>)
    requires a != [] && s != [] && a[0] != c && s[0] == a[0]
    requires left == Split(a[1..], c) && Split(s[1..], c) == left + right
    ensures Split(s, c) == Split(a, c) + right
  {
    SplitJoinsFirst(s, c);
    SplitJoinsFirst(a, c);
    ConsFirst([a[0]] + left[0], left, right);
  }

  /** Unfolding `Split` once when the first character is the separator. */
  lemma SplitSeparatorFirst(x: string, c: char)
    requires x != [] && x[0] == c
    ensures Split(x, c) == [""] + Split(x[1..], c)
  {
  }

  /** Unfolding `Split` once when the first character is not the separator. */
  lemma SplitJoinsFirst(x: string, c: char)
    requires x != [] && x[0] != c
    ensures Split(x, c) == [[x[0]] + Split(x[1..], c)[0]] + Split(x[1..], c)[1..]
  {
  }

  /** Replacing the first element of a non-empty sequence commutes with appending. */
  lemma ConsFirst<T>(h: T, xs: seq<T>, ys: seq<T>)
    requires xs != []
    ensures [h] + (xs + ys)[1..] == ([h] + xs[1..]) + ys
  {
    assert (xs + ys)[1..] == xs[1..] + ys;
  }

  /** A string without the separator splits into itself. */
  lemma {:induction false} SplitPlain(s: string, c: char)
    requires c !in s
    ensures Split(s, c) == [s]
    decreases |s|
  {
    if s != [] {
      assert s[0] in s;
      assert forall x :: x in s[1..] ==> x in s;
      SplitPlain(s[1..], c);
      assert [s[0]] + s[1..] == s;
    }
  }

  // ---------------------------------------------------------------------
  // Whitespace tokens: `[w for w in re.split(r'\s+', text) if w]`
  // ---------------------------------------------------------------------

  /** The non-empty whitespace-separated tokens of `s`, in order. */
  function Tokens(s: string): (ts: seq<string>)
    ensures forall k :: 0 <= k < |ts| ==> |ts[k]| > 0
    ensures forall k, i :: 0 <= k < |ts| && 0 <= i < |ts[k]| ==> !IsSpace(ts[k][i])
    decreases |s|
  {
    if s == [] then []
    else if IsSpace(s[0]) then Tokens(s[1..])
    else
      var n := RunEnd(s, 0, NotSpace);
      [s[..n]] + Tokens(s[n..])
  }

  /** A non-empty run without whitespace is a single token. */
  lemma TokensOfWord(w: string)
    requires w != [] && forall i :: 0 <= i < |w| ==> !IsSpace(w[i])
    ensures Tokens(w) == [w]
  {
    RunEndUnique(w, 0, NotSpace, |w|);
    assert w[..|w|] == w && w[|w|..] == [];
  }

  /** `s` with every whitespace character removed. */
  function NonSpace(s: string): string {
    if s == [] then "" else (if IsSpace(s[0]) then "" else [s[0]]) + NonSpace(s[1..])
  }

  /** Concatenation of a sequence of strings. */
  function Concat(ts: seq<string>): string {
    if ts == [] then "" else ts[0] + Concat(ts[1..])
  }

  lemma {:induction false} NonSpaceAppend(a: string, b: string)
    ensures NonSpace(a + b) == NonSpace(a) + NonSpace(b)
    decreases |a|
  {
    if a != [] {
      var head := if IsSpace(a[0]) then "" else [a[0]];
      assert (a + b)[0] == a[0] && (a + b)[1..] == a[1..] + b;
      NonSpaceAppend(a[1..], b);
      calc {
        NonSpace(a + b);
        head + NonSpace(a[1..] + b);
        head + (NonSpace(a[1..]) + NonSpace(b));
        (head + NonSpace(a[1..])) + NonSpace(b);
        NonSpace(a) + NonSpace(b);
      }
    } else {
      assert a + b == b;
    }
  }

  lemma {:induction false} NonSpaceOfSpaceless(s: string)
    requires forall i :: 0 <= i < |s| ==> !IsSpace(s[i])
    ensures NonSpace(s) == s
    decreases |s|
  {
    if s != [] {
      NonSpaceOfSpaceless(s[1..]);
      assert [s[0]] + s[1..] == s;
    }
  }

  /**
   * Tokenisation loses only whitespace: the tokens, glued back together,
   * are exactly the non-whitespace characters of `s`.
   */
  lemma {:induction false} TokensKeepNonSpace(s: string)
    ensures Concat(Tokens(s)) == NonSpace(s)
    decreases |s|
  {
    if s != [] {
      if IsSpace(s[0]) {
        TokensKeepNonSpace(s[1..]);
      } else {
        var n := RunEnd(s, 0, NotSpace);
        TokensKeepNonSpace(s[n..]);
        assert Tokens(s) == [s[..n]] + Tokens(s[n..]);
        assert Concat(Tokens(s)) == s[..n] + Concat(Tokens(s[n..]));
        NonSpaceOfSpaceless(s[..n]);
        NonSpaceAppend(s[..n], s[n..]);
        assert s[..n] + s[n..] == s;
      }
    }
  }

  /** Text that is all whitespace has no tokens. */
  lemma {:induction false} TokensOfBlank(s: string)
    requires forall i :: 0 <= i < |s| ==> IsSpace(s[i])
    ensures Tokens(s) == []
    decreases |s|
  {
    if s != [] { TokensOfBlank(s[1..]); }
  }

  /** A whitespace character between two texts separates their tokens. */
  lemma {:induction false} TokensAppendSpace(a: string, sp: char, b: string)
    requires IsSpace(sp)
    ensures Tokens(a + [sp] + b) == Tokens(a) + Tokens(b)
    decreases |a|
  {
    var s := a + [sp] + b;
    if a == [] {
      assert s[1..] == b;
    } else if IsSpace(a[0]) {
      assert s[1..] == a[1..] + [sp] + b;
      TokensAppendSpace(a[1..], sp, b);
    } else {
      var n := RunEnd(a, 0, NotSpace);
      RunEndAppend(a, [sp] + b, n);
      assert a + ([sp] + b) == s;
      assert s[..n] == a[..n];
      if n == |a| {
        assert s[n..] == [sp] + b;
        assert ([sp] + b)[1..] == b;
        assert a[n..] == [];
      } else {
        assert s[n..] == a[n..] + [sp] + b;
        TokensAppendSpace(a[n..], sp, b);
      }
    }
  }

  /** `RunEnd` is the one position its contract describes. */
  lemma {:induction false} RunEndUnique(s: string, i: nat, p: char -> bool, j: nat)
    requires i <= j <= |s|
    requires forall k :: i <= k < j ==> p(s[k])
    requires j == |s| || !p(s[j])
    ensures RunEnd(s, i, p) == j
    decreases j - i
  {
    if i < j { RunEndUnique(s, i + 1, p, j); }
  }

  /** A non-space run of `a` followed by a space in `a + b` is the same run there. */
  lemma RunEndAppend(a: string, b: string, n: nat)
    requires n == RunEnd(a, 0, NotSpace)
    requires b != [] && IsSpace(b[0])
    ensures RunEnd(a + b, 0, NotSpace) == n
  {
    var s := a + b;
    assert forall k :: 0 <= k < n ==> s[k] == a[k];
    assert n == |s| || !NotSpace(s[n]) by {
      if n < |a| { assert s[n] == a[n]; } else { assert s[n] == b[0]; }
    }
    RunEndUnique(s, 0, NotSpace, n);
  }
}
