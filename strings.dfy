/**
 The pieces of Python's string handling that the command handlers rely on:
 `str.split(" ")`, `str.split(" ", n)`, the pattern `^[0-9]{1,4}$` under
 `re.match`, and `int()` applied to the matched text.
 */
module Strings {
  import opened Wrappers

  const SPACE: char := ' '
  const NEWLINE: char := '\n'

  function Min(a: int, b: int): int { if a <= b then a else b }

  /** Number of occurrences of `c` in `s`. */
  function Count(s: string, c: char): nat
  {
    if s == [] then 0 else (if s[0] == c then 1 else 0) + Count(s[1..], c)
  }

  lemma {:induction false} CountAbsent(s: string, c: char)
    ensures c !in s <==> Count(s, c) == 0
  {
    if s != [] {
      assert s == [s[0]] + s[1..];
      CountAbsent(s[1..], c);
    }
  }

  /** Counting after the first occurrence of `c`, which sits at index `k`. */
  lemma {:induction false} CountFromFirst(s: string, c: char, k: nat)
    requires k < |s| && s[k] == c && c !in s[..k]
    ensures Count(s, c) == 1 + Count(s[k + 1..], c)
  {
    if k > 0 {
      assert s[1..][..k - 1] == s[..k][1..];
      assert s[1..][k - 1] == c;
      assert s[1..][k..] == s[k + 1..];
      CountFromFirst(s[1..], c, k - 1);
    }
  }

  /** Python's `s.find(c)`, with `None` for -1: the first index holding `c`. */
  function IndexOf(s: string, c: char): (r: Option<nat>)
    ensures r.None? ==> c !in s
    ensures r.Some? ==> r.value < |s| && s[r.value] == c && c !in s[..r.value]
  {
    if s == [] then None
    else if s[0] == c then Some(0)
    else match IndexOf(s[1..], c)
      case None => None
      case Some(k) =>
        assert s[..k + 1] == [s[0]] + s[1..][..k];
        Some(k + 1)
  }

  /** The first occurrence is the one `IndexOf` finds. */
  lemma {:induction false} IndexOfFirst(s: string, c: char, k: nat)
    requires k < |s| && s[k] == c && c !in s[..k]
    ensures IndexOf(s, c) == Some(k)
  {
    if k > 0 {
      assert s[0] == s[..k][0];
      assert s[1..][..k - 1] == s[..k][1..];
      IndexOfFirst(s[1..], c, k - 1);
    }
  }

  /** Python's `s.split(" ")`: every piece between two spaces, empty pieces included. */
  function Split(s: string): (parts: seq<string>)
    ensures |parts| == Count(s, SPACE) + 1
    ensures forall p :: p in parts ==> SPACE !in p
    decreases |s|
  {
    match IndexOf(s, SPACE)
    case None =>
      CountAbsent(s, SPACE);
      [s]
    case Some(k) =>
      CountFromFirst(s, SPACE, k);
      [s[..k]] + Split(s[k + 1..])
  }

  /** Python's `s.split(" ", n)`: at most `n` splits, the rest kept whole in the last piece. */
  function SplitAtMost(s: string, n: nat): (parts: seq<string>)
    ensures 1 <= |parts| <= n + 1
    ensures forall i :: 0 <= i < |parts| - 1 ==> SPACE !in parts[i]
    decreases n
  {
    if n == 0 then [s]
    else match IndexOf(s, SPACE)
      case None => [s]
      case Some(k) => [s[..k]] + SplitAtMost(s[k + 1..], n - 1)
  }

  /** The bounded split makes one piece per space, up to `n` splits. */
  lemma {:induction false} SplitAtMostLength(s: string, n: nat)
    ensures |SplitAtMost(s, n)| == Min(Count(s, SPACE), n) + 1
    decreases n
  {
    if n > 0 {
      match IndexOf(s, SPACE)
      case None =>
        CountAbsent(s, SPACE);
      case Some(k) =>
        CountFromFirst(s, SPACE, k);
        SplitAtMostLength(s[k + 1..], n - 1);
    }
  }

  /** Python's `" ".join(parts)`. */
  function JoinBySpace(parts: seq<string>): string
  {
    if parts == [] then ""
    else if |parts| == 1 then parts[0]
    else parts[0] + [SPACE] + JoinBySpace(parts[1..])
  }

  lemma JoinCons(p: string, rest: seq<string>)
    requires rest != []
    ensures JoinBySpace([p] + rest) == p + [SPACE] + JoinBySpace(rest)
  {
    assert ([p] + rest)[1..] == rest;
  }

  /** Splitting on spaces loses nothing: joining the pieces back gives the text. */
  lemma {:induction false} JoinSplit(s: string)
    ensures JoinBySpace(Split(s)) == s
    decreases |s|
  {
    match IndexOf(s, SPACE)
    case None =>
    case Some(k) =>
      var rest := Split(s[k + 1..]);
      JoinSplit(s[k + 1..]);
      JoinCons(s[..k], rest);
      assert s == s[..k] + [SPACE] + s[k + 1..];
  }

  /** The same round trip for the bounded split. */
  lemma {:induction false} JoinSplitAtMost(s: string, n: nat)
    ensures JoinBySpace(SplitAtMost(s, n)) == s
    decreases n, 1
  {
    var found := IndexOf(s, SPACE);
    if n > 0 && found.Some? {
      JoinSplitAtMostAt(s, n, found.value);
    }
  }

  lemma {:induction false} JoinSplitAtMostAt(s: string, n: nat, k: nat)
    requires n > 0 && IndexOf(s, SPACE) == Some(k)
    ensures JoinBySpace(SplitAtMost(s, n)) == s
    decreases n, 0
  {
    var rest := SplitAtMost(s[k + 1..], n - 1);
    assert SplitAtMost(s, n) == [s[..k]] + rest;
    JoinSplitAtMost(s[k + 1..], n - 1);
    JoinAround(s, k, rest);
  }

  /** Joining the piece before a space to pieces that join to the text after it gives the text. */
  lemma JoinAround(s: string, k: nat, rest: seq<string>)
    requires k < |s| && s[k] == SPACE && rest != [] && JoinBySpace(rest) == s[k + 1..]
    ensures JoinBySpace([s[..k]] + rest) == s
  {
    JoinCons(s[..k], rest);
    assert s[..k] + [s[k]] + s[k + 1..] == s;
  }

  /**
   For a word without spaces, the first piece of the split is that word and
   there is a second piece exactly when the text starts with the word and a space.
   */
  lemma {:induction false} SplitStartsWith(s: string, w: string)
    requires SPACE !in w
    ensures (|Split(s)| >= 2 && Split(s)[0] == w) <==> (|s| > |w| && s[..|w| + 1] == w + [SPACE])
  {
    assert |s| > |w| ==> s[..|w| + 1][|w|] == s[|w|];
    match IndexOf(s, SPACE)
    case None =>
    case Some(k) =>
      assert Split(s)[0] == s[..k];
      assert s[..k + 1] == s[..k] + [s[k]];
      assert |s| > |w| && k < |w| ==> s[..|w| + 1][k] == s[k];
      assert |w| < k ==> s[..k][|w|] == s[|w|];
  }

  /** The whole text is one piece exactly when it holds no space. */
  lemma SplitSingle(s: string)
    ensures |Split(s)| == 1 <==> SPACE !in s
    ensures |Split(s)| == 1 ==> Split(s) == [s]
  {
    CountAbsent(s, SPACE);
  }

  predicate IsDigit(ch: char) { '0' <= ch <= '9' }

  predicate AllDigits(d: string) { forall i :: 0 <= i < |d| ==> IsDigit(d[i]) }

  /**
   `re.match(r"^[0-9]{1,4}$", t)` succeeds: one to four ASCII digits, then the
   end of the text or a newline that ends the text (Python's `$` matches there too).
   */
  predicate MatchesDaysPattern(t: string)
    ensures MatchesDaysPattern(t) <==>
      (1 <= |t| <= 4 && AllDigits(t)) ||
      (2 <= |t| <= 5 && t[|t| - 1] == NEWLINE && AllDigits(t[..|t| - 1]))
  {
    var d := WithoutFinalNewline(t);
    1 <= |d| <= 4 && AllDigits(d)
  }

  /** The text with one final newline removed, if there is one. */
  function WithoutFinalNewline(t: string): string
  {
    if |t| > 0 && t[|t| - 1] == NEWLINE then t[..|t| - 1] else t
  }

  function Pow10(k: nat): (p: nat)
    ensures p >= 1
  {
    if k == 0 then 1 else 10 * Pow10(k - 1)
  }

  function DigitValue(ch: char): nat
    requires IsDigit(ch)
  {
    ch as int - '0' as int
  }

  /** Python's `int(d)` on a run of ASCII digits (leading zeros allowed). */
  function DecimalValue(d: string): (n: nat)
    requires AllDigits(d)
    ensures n < Pow10(|d|)
  {
    if d == [] then 0
    else DecimalValue(d[..|d| - 1]) * 10 + DigitValue(d[|d| - 1])
  }

  /** The shortest decimal spelling of `n`, as Python's `str(n)` prints it. */
  function DecimalString(n: nat): (d: string)
    ensures 1 <= |d| && AllDigits(d)
  {
    if n < 10 then ['0' + n as char]
    else DecimalString(n / 10) + ['0' + (n % 10) as char]
  }

  /** Reading back what `DecimalString` printed gives the number. */
  lemma {:induction false} DecimalRoundTrip(n: nat)
    ensures DecimalValue(DecimalString(n)) == n
  {
    var d := DecimalString(n);
    if n >= 10 {
      DecimalRoundTrip(n / 10);
      assert d[..|d| - 1] == DecimalString(n / 10);
    }
  }

  /** A number below `10^k` is spelt with at most `k` digits. */
  lemma {:induction false} DecimalStringLength(n: nat, k: nat)
    requires 1 <= k && n < Pow10(k)
    ensures |DecimalString(n)| <= k
  {
    if n >= 10 {
      DecimalStringLength(n / 10, k - 1);
    }
  }
}
