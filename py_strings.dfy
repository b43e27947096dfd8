/**
 * The few Python `str` operations the application relies on: `lower`,
 * `capitalize`, `strip`, the `in` operator, `find`, slicing a prefix,
 * `sep.join(parts)` and `str(int)`.  Case mapping and whitespace are
 * modelled on ASCII (see README).
 */
module PyStrings {
  import opened Wrappers

  /** ASCII lower-casing of one character, as `str.lower` does on ASCII. */
  function LowerChar(c: char): char {
    if 'A' <= c <= 'Z' then (c as int + 32) as char else c
  }

  function UpperChar(c: char): char {
    if 'a' <= c <= 'z' then (c as int - 32) as char else c
  }

  /** `s.lower()` */
  function Lower(s: string): (r: string)
    ensures |r| == |s|
  {
    if s == [] then [] else [LowerChar(s[0])] + Lower(s[1..])
  }

  /** `s.capitalize()`: first character upper-cased, the rest lower-cased. */
  function Capitalize(s: string): (r: string)
    ensures |r| == |s|
  {
    if s == [] then [] else [UpperChar(s[0])] + Lower(s[1..])
  }

  /** The ASCII characters for which `str.isspace` holds: space, \t \n \v \f \r and \x1c-\x1f. */
  predicate IsSpace(c: char) {
    c == ' ' || 9 <= c as int <= 13 || 28 <= c as int <= 31
  }

  /** `\d`, read as the ASCII digits 0-9 (other Unicode decimal digits are not modelled). */
  predicate IsDigit(c: char) {
    '0' <= c <= '9'
  }

  /** `s.lstrip()`: drops the whitespace at the start of `s`. */
  function StripLeft(s: string): string {
    if s != [] && IsSpace(s[0]) then StripLeft(s[1..]) else s
  }

  /** `s.rstrip()`: drops the whitespace at the end of `s`. */
  function StripRight(s: string): string {
    if s != [] && IsSpace(s[|s| - 1]) then StripRight(s[..|s| - 1]) else s
  }

  /** `s.strip()` */
  function Strip(s: string): string {
    StripRight(StripLeft(s))
  }

  /** `p` occurs in `s` starting at index `i`. */
  predicate OccursAt(s: string, p: string, i: nat) {
    i + |p| <= |s| && s[i..i + |p|] == p
  }

  /** `s.find(p)`, with `None` for Python's -1: the first index at which `p` occurs. */
  function Find(s: string, p: string): (r: Option<nat>)
    ensures r.Some? ==> OccursAt(s, p, r.value)
    ensures r.Some? ==> forall j :: 0 <= j < r.value ==> !OccursAt(s, p, j)
    ensures r.None? ==> forall j :: 0 <= j <= |s| ==> !OccursAt(s, p, j)
    decreases |s|
  {
    if |s| < |p| then None
    else if s[..|p|] == p then Some(0)
    else
      assert !OccursAt(s, p, 0) by { assert s[0..|p|] == s[..|p|]; }
      match Find(s[1..], p)
      case Some(k) =>
        assert forall j :: 1 <= j < k + 1 ==> !OccursAt(s, p, j) by {
          forall j | 1 <= j < k + 1 ensures !OccursAt(s, p, j) { OccursShift(s, p, j - 1); }
        }
        OccursShift(s, p, k);
        Some(k + 1)
      case None =>
        assert forall j :: 1 <= j <= |s| ==> !OccursAt(s, p, j) by {
          forall j | 1 <= j <= |s| ensures !OccursAt(s, p, j) { OccursShift(s, p, j - 1); }
        }
        None
  }

  /** An occurrence in the tail of `s` is an occurrence in `s`, one place further on. */
  lemma OccursShift(s: string, p: string, j: nat)
    requires |s| > 0
    ensures OccursAt(s[1..], p, j) <==> OccursAt(s, p, j + 1)
  {
    if j + 1 + |p| <= |s| {
      assert s[1..][j..j + |p|] == s[j + 1..j + 1 + |p|];
    }
  }

  /** Python's `p in s` on strings. */
  predicate Contains(s: string, p: string) {
    Find(s, p).Some?
  }

  /** `s.split(sep)[0]`: `s` up to the first occurrence of `sep`. */
  function SplitHead(s: string, sep: string): string {
    match Find(s, sep)
    case Some(j) => s[..j]
    case None => s
  }

  /** `s.split(sep)[1] if sep in s else ""`: the text between the first and the second `sep`. */
  function SplitSecond(s: string, sep: string): string {
    match Find(s, sep)
    case None => ""
    case Some(i) => SplitHead(s[i + |sep|..], sep)
  }

  /** `s[:n]`: the prefix of `s` of length at most `n`. */
  function Truncate(s: string, n: nat): (r: string)
    ensures r <= s
    ensures |r| == if |s| <= n then |s| else n
  {
    if |s| <= n then s else s[..n]
  }

  /** `sep.join(parts)` */
  function Join(sep: string, parts: seq<string>): string
    decreases |parts|
  {
    if parts == [] then ""
    else if |parts| == 1 then parts[0]
    else parts[0] + sep + Join(sep, parts[1..])
  }

  /** The digits of a natural number in base ten (Python's `str(n)` for `n >= 0`). */
  function NatToString(n: nat): (r: string)
    ensures r != [] && forall i :: 0 <= i < |r| ==> IsDigit(r[i])
  {
    var d := ['0' + (n % 10) as char];
    if n < 10 then d else NatToString(n / 10) + d
  }

  /** Python's `str(i)` for an `int`. */
  function IntToString(i: int): string {
    if i < 0 then "-" + NatToString(-i) else NatToString(i)
  }

  /** The number a string of decimal digits denotes, read as Python's `int(s)` does. */
  function DigitsValue(s: string): nat
    requires forall i :: 0 <= i < |s| ==> IsDigit(s[i])
  {
    if s == [] then 0
    else
      assert IsDigit(s[|s| - 1]);
      10 * DigitsValue(s[..|s| - 1]) + (s[|s| - 1] as int - '0' as int)
  }

  /** `int(str(n)) == n` for a natural number. */
  lemma {:induction false} NatToStringValue(n: nat)
    ensures DigitsValue(NatToString(n)) == n
    decreases n
  {
    var d := ['0' + (n % 10) as char];
    if n >= 10 {
      var r := NatToString(n / 10) + d;
      assert r[..|r| - 1] == NatToString(n / 10);
      NatToStringValue(n / 10);
    }
  }

  /** `str(i)` starts with a minus sign exactly for a negative `i`, followed by the digits of `abs(i)`. */
  lemma IntToStringValue(i: int)
    ensures var r := IntToString(i);
            && r != []
            && (r[0] == '-' <==> i < 0)
            && var digits := if i < 0 then r[1..] else r;
               && (forall k :: 0 <= k < |digits| ==> IsDigit(digits[k]))
               && DigitsValue(digits) == if i < 0 then -i else i
  {
    if i < 0 {
      NatToStringValue(-i);
      assert IntToString(i)[1..] == NatToString(-i);
    } else {
      NatToStringValue(i);
    }
  }

  // ---------------------------------------------------------------- lemmas

  /** Dropping a leading character that cannot start `p` keeps `p in s` unchanged. */
  lemma ContainsTail(s: string, p: string)
    requires |s| > 0 && p != [] && p[0] != s[0]
    ensures Contains(s[1..], p) <==> Contains(s, p)
  {
    if Contains(s, p) {
      var i := Find(s, p).value;
      assert s[i] == p[0];
      OccursShift(s, p, i - 1);
    }
    if Contains(s[1..], p) {
      OccursShift(s, p, Find(s[1..], p).value);
    }
  }

  /** An occurrence in the tail of `s` is an occurrence in `s`. */
  lemma ContainsOfTail(s: string, p: string)
    requires |s| > 0 && Contains(s[1..], p)
    ensures Contains(s, p)
  {
    OccursShift(s, p, Find(s[1..], p).value);
  }

  /** An occurrence that ends within the first `n` characters is an occurrence in `s[:n]`, and back. */
  lemma OccursPrefix(s: string, n: nat, p: string, k: nat)
    requires n <= |s| && k + |p| <= n
    ensures OccursAt(s[..n], p, k) <==> OccursAt(s, p, k)
  {
    assert s[..n][k..k + |p|] == s[k..k + |p|];
  }

  /** Before the first occurrence of `p` there is no whole occurrence of `p`. */
  lemma NothingBeforeFirst(s: string, p: string, j: nat)
    requires p != [] && Find(s, p) == Some(j)
    ensures !Contains(s[..j], p)
  {
    if Contains(s[..j], p) {
      var k := Find(s[..j], p).value;
      OccursPrefix(s, j, p, k);
    }
  }

  /** Dropping a trailing character that cannot end `p` keeps `p in s` unchanged. */
  lemma ContainsInit(s: string, p: string)
    requires |s| > 0 && p != [] && p[|p| - 1] != s[|s| - 1]
    ensures Contains(s[..|s| - 1], p) <==> Contains(s, p)
  {
    if Contains(s, p) {
      var i := Find(s, p).value;
      assert s[i..i + |p|][|p| - 1] == s[i + |p| - 1];
      OccursPrefix(s, |s| - 1, p, i);
    }
    if Contains(s[..|s| - 1], p) {
      OccursPrefix(s, |s| - 1, p, Find(s[..|s| - 1], p).value);
    }
  }

  /** An occurrence cannot straddle the end of `a` when the first character of `b` is nowhere in `p`. */
  lemma ContainsConcat(a: string, b: string, p: string)
    requires b != [] && b[0] !in p
    ensures Contains(a + b, p) <==> Contains(a, p) || Contains(b, p)
  {
    if Contains(a + b, p) {
      OccursInPart(a, b, p, Find(a + b, p).value);
    }
    if Contains(a, p) {
      var k := Find(a, p).value;
      assert (a + b)[k..k + |p|] == a[k..k + |p|];
      assert OccursAt(a + b, p, k);
    }
    if Contains(b, p) {
      var k := Find(b, p).value;
      assert (a + b)[|a| + k..|a| + k + |p|] == b[k..k + |p|];
      assert OccursAt(a + b, p, |a| + k);
    }
  }

  lemma OccursInPart(a: string, b: string, p: string, k: nat)
    requires b != [] && b[0] !in p && OccursAt(a + b, p, k)
    ensures OccursAt(a, p, k) || (k >= |a| && OccursAt(b, p, k - |a|))
  {
    var s := a + b;
    forall t | k <= t < k + |p| ensures s[t] in p {
      assert s[k..k + |p|][t - k] == s[t];
    }
    assert s[|a|] == b[0];
    if k + |p| <= |a| {
      assert s[k..k + |p|] == a[k..k + |p|];
    } else if k >= |a| {
      assert s[k..k + |p|] == b[k - |a|..k - |a| + |p|];
    }
  }

  /** `s.lower()` maps every character. */
  lemma {:induction false} LowerChars(s: string)
    ensures forall i :: 0 <= i < |s| ==> Lower(s)[i] == LowerChar(s[i])
    decreases |s|
  {
    if s != [] {
      LowerChars(s[1..]);
      assert forall i :: 1 <= i < |s| ==> Lower(s)[i] == Lower(s[1..])[i - 1];
    }
  }

  /** `lstrip` returns the longest suffix of `s` that does not start with whitespace. */
  lemma {:induction false} StripLeftShape(s: string)
    ensures var r := StripLeft(s);
            && |r| <= |s| && r == s[|s| - |r|..]
            && (forall i :: 0 <= i < |s| - |r| ==> IsSpace(s[i]))
            && (r == [] || !IsSpace(r[0]))
    decreases |s|
  {
    if s != [] && IsSpace(s[0]) {
      StripLeftShape(s[1..]);
      var r := StripLeft(s);
      assert s[1..][|s| - 1 - |r|..] == s[|s| - |r|..];
    }
  }

  /** `rstrip` returns the longest prefix of `s` that does not end with whitespace. */
  lemma {:induction false} StripRightShape(s: string)
    ensures var r := StripRight(s);
            && |r| <= |s| && r == s[..|r|]
            && (forall i :: |r| <= i < |s| ==> IsSpace(s[i]))
            && (r == [] || !IsSpace(r[|r| - 1]))
    decreases |s|
  {
    if s != [] && IsSpace(s[|s| - 1]) {
      StripRightShape(s[..|s| - 1]);
      var r := StripRight(s);
      assert s[..|s| - 1][..|r|] == s[..|r|];
    }
  }

  lemma {:induction false} StripLeftKeepsOccurrence(s: string, p: string)
    requires p != [] && !IsSpace(p[0])
    ensures Contains(StripLeft(s), p) <==> Contains(s, p)
    decreases |s|
  {
    if s != [] && IsSpace(s[0]) {
      ContainsTail(s, p);
      StripLeftKeepsOccurrence(s[1..], p);
    }
  }

  lemma {:induction false} StripRightKeepsOccurrence(s: string, p: string)
    requires p != [] && !IsSpace(p[|p| - 1])
    ensures Contains(StripRight(s), p) <==> Contains(s, p)
    decreases |s|
  {
    if s != [] && IsSpace(s[|s| - 1]) {
      ContainsInit(s, p);
      StripRightKeepsOccurrence(s[..|s| - 1], p);
    }
  }

  /** Stripping keeps every occurrence of a pattern that does not begin or end with whitespace. */
  lemma StripKeepsOccurrence(s: string, p: string)
    requires p != [] && !IsSpace(p[0]) && !IsSpace(p[|p| - 1])
    ensures Contains(Strip(s), p) <==> Contains(s, p)
  {
    StripLeftKeepsOccurrence(s, p);
    StripRightKeepsOccurrence(StripLeft(s), p);
  }

  /** Joining a concatenation puts one separator between the two joins. */
  lemma {:induction false} JoinAppend(sep: string, a: seq<string>, b: seq<string>)
    requires a != [] && b != []
    ensures Join(sep, a + b) == Join(sep, a) + sep + Join(sep, b)
    decreases |a|
  {
    if |a| > 1 {
      assert (a + b)[1..] == a[1..] + b;
      JoinAppend(sep, a[1..], b);
    }
  }

  /** `split(sep)[0]` stops at the first `sep`, or takes everything when there is none. */
  lemma SplitHeadFirst(s: string, sep: string)
    requires sep != []
    ensures var head := SplitHead(s, sep);
            && head <= s
            && !Contains(head, sep)
            && (head == s || sep <= s[|head|..])
  {
    match Find(s, sep)
    case None =>
    case Some(j) =>
      NothingBeforeFirst(s, sep, j);
      assert s[j..][..|sep|] == s[j..j + |sep|];
  }

  /** The second part is the head of what follows the first `sep`. */
  lemma SplitSecondOf(s: string, sep: string, i: nat, rest: string)
    requires Find(s, sep) == Some(i)
    requires i + |sep| <= |s| && s[i + |sep|..] == rest
    ensures SplitSecond(s, sep) == SplitHead(rest, sep)
  {
  }

  /** Without a second `sep`, the second part is everything after the first. */
  lemma SplitHeadWhole(s: string, sep: string)
    requires !Contains(s, sep)
    ensures SplitHead(s, sep) == s
  {
  }
}
