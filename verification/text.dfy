/**
 * Character and string helpers with the meaning Python's `str` methods have
 * on ASCII text: `isdigit`/`\d`, `isspace`/`strip`, `lower`, `rfind`,
 * `endswith`, and the code-point ordering that `<` and `sorted` use.
 */
module Text {
  import opened Wrappers

  /** An ASCII decimal digit, what `\d` matches on ASCII input. */
  predicate IsDigit(c: char) {
    '0' <= c <= '9'
  }

  /** The ASCII characters for which Python's `str.isspace` holds:
      tab, line feed, vertical tab, form feed, carriage return,
      the four information separators 0x1C-0x1F, and space. */
  predicate IsSpace(c: char) {
    c == ' ' || 9 <= c as int <= 13 || 28 <= c as int <= 31
  }

  /** ASCII lower-casing of one character. */
  function LowerChar(c: char): (r: char)
    ensures IsDigit(r) <==> IsDigit(c)
    ensures r == '.' <==> c == '.'
    ensures r == '/' <==> c == '/'
    ensures !('A' <= r <= 'Z')
  {
    if 'A' <= c <= 'Z' then (c as int + 32) as char else c
  }

  /** `s.lower()` restricted to ASCII letters. */
  function Lower(s: string): (r: string)
    ensures |r| == |s|
    ensures forall i :: 0 <= i < |s| ==> r[i] == LowerChar(s[i])
    ensures forall i :: 0 <= i < |r| ==> !('A' <= r[i] <= 'Z')
  {
    seq(|s|, i requires 0 <= i < |s| => LowerChar(s[i]))
  }

  /** Lower-casing commutes with slicing. */
  lemma LowerSlice(s: string, i: nat, j: nat)
    requires i <= j <= |s|
    ensures Lower(s[i..j]) == Lower(s)[i..j]
  {
  }

  /** `str.endswith`: `suffix` is the last `|suffix|` characters of `s`. */
  predicate EndsWith(s: string, suffix: string) {
    |suffix| <= |s| && s[|s| - |suffix|..] == suffix
  }

  /** `s` ends with `suffix` exactly when it is some text followed by it. */
  lemma EndsWithIff(s: string, suffix: string)
    ensures EndsWith(s, suffix) <==> exists p :: s == p + suffix
  {
    if EndsWith(s, suffix) {
      var p := s[..|s| - |suffix|];
      assert s == p + suffix;
    }
    forall p | s == p + suffix
      ensures EndsWith(s, suffix)
    {
      assert s[|p|..] == suffix;
    }
  }

  /** A name whose lower-cased form ends with `.{e}`, where `e` has no
      '.', has its last '.' just before that suffix. */
  lemma LowerEndsWithDot(s: string, e: string)
    requires '.' !in e && EndsWith(Lower(s), "." + e)
    ensures var k := |s| - |e| - 1;
            s[k] == '.' && (forall i :: k < i < |s| ==> s[i] != '.') && Lower(s[k + 1..]) == e
  {
    var low := Lower(s);
    var k := |s| - |e| - 1;
    assert low[k..] == "." + e;
    assert low[k] == '.';
    forall i | k < i < |s| ensures s[i] != '.' {
      assert low[i] == e[i - k - 1];
    }
    assert low[k + 1..] == low[k..][1..] == e;
    LowerSlice(s, k + 1, |s|);
  }

  /** `str.rfind(c)`: the index of the last occurrence of `c`, or None
      where Python would return -1. */
  function RFind(s: string, c: char): (r: Option<nat>)
    ensures r.None? <==> c !in s
    ensures r.Some? ==> r.value < |s| && s[r.value] == c
    ensures r.Some? ==> forall i :: r.value < i < |s| ==> s[i] != c
  {
    if |s| == 0 then None
    else if s[|s| - 1] == c then Some(|s| - 1)
    else
      assert s == s[..|s| - 1] + [s[|s| - 1]];
      RFind(s[..|s| - 1], c)
  }

  /** Any position holding `c` with no `c` after it is where `rfind` stops. */
  lemma RFindAt(s: string, c: char, k: nat)
    requires k < |s| && s[k] == c
    requires forall i :: k < i < |s| ==> s[i] != c
    ensures RFind(s, c) == Some(k)
  {
  }

  /** "`c` does not occur after position `k`", stated on the slice. */
  lemma NotInSuffix(s: string, c: char, k: nat)
    requires k < |s|
    ensures c !in s[k + 1..] <==> forall i :: k < i < |s| ==> s[i] != c
  {
    if c in s[k + 1..] {
      var m :| 0 <= m < |s[k + 1..]| && s[k + 1..][m] == c;
      assert s[k + 1 + m] == c;
    }
  }

  /** Leading whitespace removed, as `str.lstrip()`. */
  function TrimStart(s: string): (r: string)
    ensures |r| <= |s| && r == s[|s| - |r|..]
    ensures forall i :: 0 <= i < |s| - |r| ==> IsSpace(s[i])
    ensures |r| > 0 ==> !IsSpace(r[0])
  {
    if |s| > 0 && IsSpace(s[0]) then TrimStart(s[1..]) else s
  }

  /** Trailing whitespace removed, as `str.rstrip()`. */
  function TrimEnd(s: string): (r: string)
    ensures |r| <= |s| && r == s[..|r|]
    ensures forall i :: |r| <= i < |s| ==> IsSpace(s[i])
    ensures |r| > 0 ==> !IsSpace(r[|r| - 1])
  {
    if |s| > 0 && IsSpace(s[|s| - 1]) then TrimEnd(s[..|s| - 1]) else s
  }

  /** The number of whitespace characters `str.strip()` removes at the front. */
  function LeadingSpace(s: string): (k: nat)
    ensures k <= |s|
    ensures forall i :: 0 <= i < k ==> IsSpace(s[i])
    ensures k < |s| ==> !IsSpace(s[k])
  {
    |s| - |TrimStart(s)|
  }

  /** `str.strip()`: the infix of `s` that neither starts nor ends with
      whitespace, everything around it being whitespace. */
  function Strip(s: string): (r: string)
    ensures |r| > 0 ==> !IsSpace(r[0]) && !IsSpace(r[|r| - 1])
    ensures LeadingSpace(s) + |r| <= |s| && r == s[LeadingSpace(s)..LeadingSpace(s) + |r|]
    ensures forall i :: LeadingSpace(s) + |r| <= i < |s| ==> IsSpace(s[i])
  {
    TrimEnd(TrimStart(s))
  }

  /** Text that neither starts nor ends with whitespace is its own strip. */
  lemma StripStripped(s: string)
    requires |s| > 0 ==> !IsSpace(s[0]) && !IsSpace(s[|s| - 1])
    ensures Strip(s) == s
  {
  }

  /** Whitespace around a trimmed text is exactly what `str.strip()` removes. */
  lemma StripSurrounded(pre: string, t: string, post: string)
    requires forall i :: 0 <= i < |pre| ==> IsSpace(pre[i])
    requires forall i :: 0 <= i < |post| ==> IsSpace(post[i])
    requires |t| > 0 && !IsSpace(t[0]) && !IsSpace(t[|t| - 1])
    ensures Strip(pre + t + post) == t
  {
    var s := pre + t + post;
    var k := LeadingSpace(s);
    var r := Strip(s);
    assert forall i :: 0 <= i < |pre| ==> s[i] == pre[i];
    assert forall i :: 0 <= i < |t| ==> s[|pre| + i] == t[i];
    assert forall i :: 0 <= i < |post| ==> s[|pre| + |t| + i] == post[i];
    assert s[|pre|] == t[0] && s[|pre| + |t| - 1] == t[|t| - 1];
    assert k == |pre|;
    assert |r| > 0 ==> r[|r| - 1] == s[|pre| + |r| - 1];
    assert |r| == |t|;
    assert s[|pre|..|pre| + |t|] == t;
  }

  /** Python's `a <= b` on strings: lexicographic by code point, a prefix
      ordering first. */
  function LexLe(a: string, b: string): (r: bool)
    ensures |a| <= |b| && a == b[..|a|] ==> r
    ensures r && |a| > 0 ==> |b| > 0 && a[0] <= b[0]
  {
    assert 0 < |a| <= |b| && a == b[..|a|] ==> a[1..] == b[1..][..|a| - 1];
    |a| == 0 || (|b| > 0 && (a[0] < b[0] || (a[0] == b[0] && LexLe(a[1..], b[1..]))))
  }

  /** Any two strings are comparable. */
  lemma {:induction false} LexLeTotal(a: string, b: string)
    ensures LexLe(a, b) || LexLe(b, a)
  {
    if |a| > 0 && |b| > 0 && a[0] == b[0] {
      LexLeTotal(a[1..], b[1..]);
    }
  }

  /** Strings that are each at most the other are equal. */
  lemma {:induction false} LexLeAntisym(a: string, b: string)
    requires LexLe(a, b) && LexLe(b, a)
    ensures a == b
  {
    if |a| > 0 {
      LexLeAntisym(a[1..], b[1..]);
      assert a == [a[0]] + a[1..] && b == [b[0]] + b[1..];
    }
  }

  /** The order is transitive. */
  lemma {:induction false} LexLeTrans(a: string, b: string, c: string)
    requires LexLe(a, b) && LexLe(b, c)
    ensures LexLe(a, c)
  {
    if |a| > 0 && a[0] == b[0] && b[0] == c[0] {
      LexLeTrans(a[1..], b[1..], c[1..]);
    }
  }

  /** Comparing two strings that start with equally long prefixes: the
      prefixes decide unless they are equal, in which case the rests do. */
  lemma {:induction false} LexLeConcat(a1: string, a2: string, b1: string, b2: string)
    requires |a1| == |b1|
    ensures LexLe(a1 + a2, b1 + b2) <==> (a1 != b1 && LexLe(a1, b1)) || (a1 == b1 && LexLe(a2, b2))
  {
    if |a1| > 0 {
      assert (a1 + a2)[1..] == a1[1..] + a2;
      assert (b1 + b2)[1..] == b1[1..] + b2;
      LexLeConcat(a1[1..], a2, b1[1..], b2);
      assert a1 == [a1[0]] + a1[1..] && b1 == [b1[0]] + b1[1..];
    } else {
      assert a1 + a2 == a2 && b1 + b2 == b2;
    }
  }
}
