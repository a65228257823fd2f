/** The handful of Python 2 `str` operations the collector relies on:
    `strip()`, `split(sep)`, `sub in s`, `int(s)` and `str(n)`.
    Strings are sequences of characters; a "whitespace" character is one for
    which Python 2's `str.isspace` holds. */
module PyStr {
  import opened Wrappers

  /** `c.isspace()` for a byte string: space, tab, newline, carriage return,
      vertical tab and form feed. */
  predicate IsSpace(c: char) {
    c == ' ' || c == '\t' || c == '\n' || c == '\r' || c == '\U{000B}' || c == '\U{000C}'
  }

  predicate AllSpace(s: string) {
    forall i :: 0 <= i < |s| ==> IsSpace(s[i])
  }

  /** Neither end of `s` is whitespace: what `strip()` leaves behind. */
  predicate Stripped(s: string) {
    s == [] || (!IsSpace(s[0]) && !IsSpace(s[|s| - 1]))
  }

  /** `s.lstrip()`: drops the longest all-whitespace prefix. */
  function StripLeft(s: string): (r: string)
    ensures |r| <= |s| && r == s[|s| - |r|..]
    ensures forall i :: 0 <= i < |s| - |r| ==> IsSpace(s[i])
    ensures r == [] || !IsSpace(r[0])
    ensures r == [] <==> AllSpace(s)
    decreases |s|
  {
    if |s| > 0 && IsSpace(s[0]) then
      var rest := s[1..];
      var r := StripLeft(rest);
      assert forall i :: 0 < i < |s| ==> s[i] == rest[i - 1];
      assert rest[|rest| - |r|..] == s[|s| - |r|..];
      r
    else
      s
  }

  /** `s.rstrip()`: drops the longest all-whitespace suffix. */
  function StripRight(s: string): (r: string)
    ensures |r| <= |s| && r == s[..|r|]
    ensures forall i :: |r| <= i < |s| ==> IsSpace(s[i])
    ensures r == [] || !IsSpace(r[|r| - 1])
    ensures r == [] <==> AllSpace(s)
    decreases |s|
  {
    if |s| > 0 && IsSpace(s[|s| - 1]) then
      var rest := s[..|s| - 1];
      var r := StripRight(rest);
      assert forall i :: 0 <= i < |s| - 1 ==> s[i] == rest[i];
      assert rest[..|r|] == s[..|r|];
      r
    else
      s
  }

  /** `s.strip()`. */
  function Strip(s: string): (r: string)
    ensures Stripped(r)
    ensures |r| <= |s|
    ensures r == [] <==> AllSpace(s)
    ensures Stripped(s) ==> r == s
  {
    StripRight(StripLeft(s))
  }

  /** A character absent from a text stays absent once the text is stripped. */
  lemma StripKeepsOut(s: string, c: char)
    requires c !in s
    ensures c !in Strip(s)
  {
    var l := StripLeft(s);
    var r := StripRight(l);
    forall k | 0 <= k < |r| ensures r[k] != c {
      assert r[k] == l[k] == s[|s| - |l| + k];
    }
  }

  /** Whitespace around a string does not survive `strip()`. */
  lemma {:induction false} StripPadding(pre: string, s: string, post: string)
    requires AllSpace(pre) && AllSpace(post)
    ensures Strip(pre + s + post) == Strip(s)
  {
    assert pre + s + post == pre + (s + post);
    StripLeftPadding(pre, s + post);
    StripLeftSuffix(s, post);
    if StripLeft(s + post) == StripLeft(s) + post {
      StripRightPadding(StripLeft(s), post);
    }
  }

  lemma {:induction false} StripLeftPadding(pre: string, s: string)
    requires AllSpace(pre)
    ensures StripLeft(pre + s) == StripLeft(s)
    decreases |pre|
  {
    if pre != [] {
      var ps := pre + s;
      assert ps[0] == pre[0] && IsSpace(ps[0]);
      assert ps[1..] == pre[1..] + s;
      assert StripLeft(ps) == StripLeft(ps[1..]);
      StripLeftPadding(pre[1..], s);
    } else {
      assert pre + s == s;
    }
  }

  /** Stripping the left end commutes with appending whitespace, as long
      as the left end is not whitespace all the way through. */
  lemma {:induction false} StripLeftSuffix(s: string, post: string)
    requires AllSpace(post)
    ensures StripLeft(s + post) == StripLeft(s) + post
            || (StripLeft(s) == [] && StripLeft(s + post) == [])
    decreases |s|
  {
    if s == [] {
      assert s + post == post;
    } else if IsSpace(s[0]) {
      assert (s + post)[1..] == s[1..] + post;
      StripLeftSuffix(s[1..], post);
    } else {
    }
  }

  lemma {:induction false} StripRightPadding(s: string, post: string)
    requires AllSpace(post)
    ensures StripRight(s + post) == StripRight(s)
    decreases |post|
  {
    if post != [] {
      assert (s + post)[..|s + post| - 1] == s + post[..|post| - 1];
      StripRightPadding(s, post[..|post| - 1]);
    } else {
      assert s + post == s;
    }
  }

  /** Left-stripping stops at a non-whitespace character. */
  lemma {:induction false} StripLeftBefore(a: string, b: string)
    requires b != [] && !IsSpace(b[0])
    ensures StripLeft(a + b) == StripLeft(a) + b
    decreases |a|
  {
    if a == [] {
      assert a + b == b;
    } else if IsSpace(a[0]) {
      assert (a + b)[1..] == a[1..] + b;
      StripLeftBefore(a[1..], b);
    } else {
      assert (a + b)[0] == a[0];
    }
  }

  /** Right-stripping stops at a non-whitespace character. */
  lemma {:induction false} StripRightAfter(a: string, b: string)
    requires a != [] && !IsSpace(a[|a| - 1])
    ensures StripRight(a + b) == a + StripRight(b)
    decreases |b|
  {
    if b == [] {
      assert a + b == a;
    } else if IsSpace(b[|b| - 1]) {
      assert (a + b)[..|a + b| - 1] == a + b[..|b| - 1];
      StripRightAfter(a, b[..|b| - 1]);
    } else {
      assert (a + b)[|a + b| - 1] == b[|b| - 1];
    }
  }

  /** Stripping what `lstrip()` left is stripping the text. */
  lemma StripOfLeft(s: string)
    ensures Strip(StripLeft(s)) == Strip(s)
  {
    var l := StripLeft(s);
    var pre := s[..|s| - |l|];
    assert AllSpace(pre) by {
      forall i | 0 <= i < |pre| ensures IsSpace(pre[i]) {
        assert pre[i] == s[i];
      }
    }
    assert pre + l + [] == s;
    StripPadding(pre, l, []);
  }

  /** Stripping what `rstrip()` left is stripping the text. */
  lemma StripOfRight(s: string)
    ensures Strip(StripRight(s)) == Strip(s)
  {
    var r := StripRight(s);
    var post := s[|r|..];
    assert AllSpace(post) by {
      forall i | 0 <= i < |post| ensures IsSpace(post[i]) {
        assert post[i] == s[|r| + i];
      }
    }
    assert [] + r + post == s;
    StripPadding([], r, post);
  }

  /** A character absent from a text stays absent once `lstrip()` ran. */
  lemma StripLeftKeepsOut(s: string, c: char)
    requires c !in s
    ensures c !in StripLeft(s)
  {
    var l := StripLeft(s);
    assert l == s[|s| - |l|..];
  }

  /** A character absent from a text stays absent once `rstrip()` ran. */
  lemma StripRightKeepsOut(s: string, c: char)
    requires c !in s
    ensures c !in StripRight(s)
  {
    var r := StripRight(s);
    assert r == s[..|r|];
  }

  /** `lstrip()` of a join of two or more parts only touches the first. */
  lemma JoinStripLeft(parts: seq<string>, sep: char)
    requires |parts| >= 2 && !IsSpace(sep)
    ensures StripLeft(Join(parts, sep)) == Join([StripLeft(parts[0])] + parts[1..], sep)
  {
    var f1 := [StripLeft(parts[0])] + parts[1..];
    assert f1[0] == StripLeft(parts[0]) && f1[1..] == parts[1..];
    JoinCons(parts, sep);
    JoinCons(f1, sep);
    StripLeftBefore(parts[0], [sep] + Join(parts[1..], sep));
  }

  /** Joining two or more parts: the first, then the separator and the
      join of the rest. */
  lemma JoinCons(parts: seq<string>, sep: char)
    requires |parts| >= 2
    ensures Join(parts, sep) == parts[0] + ([sep] + Join(parts[1..], sep))
  {
    assert parts[0] + [sep] + Join(parts[1..], sep) == parts[0] + ([sep] + Join(parts[1..], sep));
  }

  /** `rstrip()` of a join of two or more parts only touches the last. */
  lemma JoinStripRight(parts: seq<string>, sep: char)
    requires |parts| >= 2 && !IsSpace(sep)
    ensures StripRight(Join(parts, sep)) == Join(parts[..|parts| - 1] + [StripRight(parts[|parts| - 1])], sep)
  {
    var n := |parts|;
    var t := parts[..n - 1] + [StripRight(parts[n - 1])];
    JoinLast(parts, sep);
    JoinLast(t, sep);
    assert t[..n - 1] == parts[..n - 1];
    var head := Join(parts[..n - 1], sep);
    StripRightAfter(head + [sep], parts[n - 1]);
    assert Join(parts, sep) == (head + [sep]) + parts[n - 1];
  }

  /** The parts as `strip()` of their join leaves them: whitespace goes
      from the front of the first part and the back of the last. */
  function StripEnds(parts: seq<string>): (t: seq<string>)
    requires |parts| >= 2
    ensures |t| == |parts|
  {
    [StripLeft(parts[0])] + parts[1..|parts| - 1] + [StripRight(parts[|parts| - 1])]
  }

  /** `strip()` of a join of two or more parts is the join of `StripEnds`. */
  lemma StripEndsJoin(parts: seq<string>, sep: char)
    requires |parts| >= 2 && !IsSpace(sep)
    ensures Strip(Join(parts, sep)) == Join(StripEnds(parts), sep)
  {
    var f1 := [StripLeft(parts[0])] + parts[1..];
    JoinStripLeft(parts, sep);
    StripRightEnds(parts, f1, sep);
  }

  /** The second half of `StripEndsJoin`: `rstrip()` after `lstrip()`. */
  lemma StripRightEnds(parts: seq<string>, f1: seq<string>, sep: char)
    requires |parts| >= 2 && !IsSpace(sep)
    requires f1 == [StripLeft(parts[0])] + parts[1..]
    ensures StripRight(Join(f1, sep)) == Join(StripEnds(parts), sep)
  {
    var n := |parts|;
    JoinStripRight(f1, sep);
    StripEndsSplit(parts, f1);
  }

  /** `StripEnds` as the left-stripped parts with the last one right-stripped. */
  lemma StripEndsSplit(parts: seq<string>, f1: seq<string>)
    requires |parts| >= 2
    requires f1 == [StripLeft(parts[0])] + parts[1..]
    ensures StripEnds(parts) == f1[..|f1| - 1] + [StripRight(f1[|f1| - 1])]
  {
    var n := |parts|;
    assert f1[..n - 1] == [StripLeft(parts[0])] + parts[1..n - 1];
    assert f1[n - 1] == parts[n - 1];
  }

  /** A character no part holds is held by no part of `StripEnds`. */
  lemma StripEndsKeepOut(parts: seq<string>, c: char)
    requires |parts| >= 2
    requires forall i :: 0 <= i < |parts| ==> c !in parts[i]
    ensures forall i :: 0 <= i < |parts| ==> c !in StripEnds(parts)[i]
  {
    forall i | 0 <= i < |parts| ensures c !in StripEnds(parts)[i] {
      StripEndsAt(parts, i, c);
    }
  }

  /** Each part of `StripEnds` strips to what the original part strips to,
      and gains no character. */
  lemma StripEndsAt(parts: seq<string>, i: int, c: char)
    requires |parts| >= 2 && 0 <= i < |parts|
    requires c !in parts[i]
    ensures c !in StripEnds(parts)[i]
    ensures Strip(StripEnds(parts)[i]) == Strip(parts[i])
  {
    var t := StripEnds(parts);
    var n := |parts|;
    if i == 0 {
      assert t[0] == StripLeft(parts[0]);
      StripLeftKeepsOut(parts[0], c);
      StripOfLeft(parts[0]);
    } else if i == n - 1 {
      assert t[i] == StripRight(parts[i]);
      StripRightKeepsOut(parts[i], c);
      StripOfRight(parts[i]);
    } else {
      assert t[i] == parts[1..n - 1][i - 1] == parts[i];
    }
  }

  /** Joining with a final part split off. */
  lemma {:induction false} JoinLast(parts: seq<string>, sep: char)
    requires |parts| >= 2
    ensures Join(parts, sep) == Join(parts[..|parts| - 1], sep) + [sep] + parts[|parts| - 1]
    decreases |parts|
  {
    var n := |parts|;
    if n > 2 {
      JoinLast(parts[1..], sep);
      assert parts[1..][..n - 2] == parts[..n - 1][1..];
      assert parts[1..][n - 2] == parts[n - 1];
    } else {
      assert parts[..1] == [parts[0]];
      assert parts[1..] == [parts[1]];
    }
  }

  /** Position of the first `c` in `s`. */
  function IndexOf(s: string, c: char): (r: nat)
    requires c in s
    ensures r < |s| && s[r] == c && c !in s[..r]
    decreases |s|
  {
    if s[0] == c then 0
    else
      var r := 1 + IndexOf(s[1..], c);
      assert s[..r] == [s[0]] + s[1..][..r - 1];
      r
  }

  /** `s.split(sep)` for a one-character separator: the pieces between
      consecutive separators, so one more piece than there are separators. */
  function Split(s: string, sep: char): (r: seq<string>)
    ensures |r| >= 1
    ensures |r| >= 2 <==> sep in s
    ensures forall i :: 0 <= i < |r| ==> sep !in r[i]
    decreases |s|
  {
    if sep !in s then
      [s]
    else
      var i := IndexOf(s, sep);
      [s[..i]] + Split(s[i + 1..], sep)
  }

  /** `s.split(sep)` has one more piece than `s` has separators. */
  lemma {:induction false} SplitCount(s: string, sep: char)
    ensures |Split(s, sep)| == multiset(s)[sep] + 1
    decreases |s|
  {
    if sep in s {
      var i := IndexOf(s, sep);
      SplitCount(s[i + 1..], sep);
      assert s == s[..i] + [sep] + s[i + 1..];
      assert multiset(s[..i])[sep] == 0;
    } else {
      assert multiset(s)[sep] == 0;
    }
  }

  /** `sep.join(parts)`. */
  function Join(parts: seq<string>, sep: char): (r: string)
    requires |parts| >= 1
    ensures parts[0] <= r
    ensures |parts| == 1 ==> r == parts[0]
    ensures |parts| > 1 ==> |r| > |parts[0]| && r[|parts[0]|] == sep
    decreases |parts|
  {
    if |parts| == 1 then parts[0] else parts[0] + [sep] + Join(parts[1..], sep)
  }

  /** Joining undoes splitting. */
  lemma {:induction false} JoinSplit(s: string, sep: char)
    ensures Join(Split(s, sep), sep) == s
    decreases |s|
  {
    if sep in s {
      var i := IndexOf(s, sep);
      JoinSplit(s[i + 1..], sep);
      var r := Split(s, sep);
      assert r[0] == s[..i] && r[1..] == Split(s[i + 1..], sep);
      assert s == s[..i] + [sep] + s[i + 1..];
    }
  }

  /** Splitting undoes joining when no piece holds the separator. */
  lemma {:induction false} SplitJoin(parts: seq<string>, sep: char)
    requires |parts| >= 1
    requires forall i :: 0 <= i < |parts| ==> sep !in parts[i]
    ensures Split(Join(parts, sep), sep) == parts
    decreases |parts|
  {
    if |parts| == 1 {
      SplitNoSep(parts[0], sep);
    } else {
      SplitJoin(parts[1..], sep);
      SplitAfterPiece(parts[0], sep, Join(parts[1..], sep));
      assert parts == [parts[0]] + parts[1..];
    }
  }

  lemma SplitNoSep(s: string, sep: char)
    requires sep !in s
    ensures Split(s, sep) == [s]
  {
  }

  /** A separator-free piece followed by the separator splits off first. */
  lemma SplitAfterPiece(a: string, sep: char, rest: string)
    requires sep !in a
    ensures Split(a + [sep] + rest, sep) == [a] + Split(rest, sep)
  {
    var s := a + [sep] + rest;
    assert s[|a|] == sep;
    var i := IndexOf(s, sep);
    assert s[..|a|] == a;
    assert i == |a|;
    assert s[..i] == a;
    assert s[i + 1..] == rest;
  }

  /** `sub in s`: some window of `s` equals `sub`. */
  predicate Contains(s: string, sub: string)
    decreases |s|
  {
    sub <= s || (|s| > 0 && Contains(s[1..], sub))
  }

  /** The window of `s` starting at `i` spells `sub`. */
  predicate WindowAt(s: string, sub: string, i: int) {
    0 <= i <= |s| - |sub| && s[i..i + |sub|] == sub
  }

  /** `Contains` agrees with the window-by-window definition of `in`. */
  lemma ContainsIff(s: string, sub: string)
    ensures Contains(s, sub) <==> exists i :: WindowAt(s, sub, i)
  {
    if Contains(s, sub) {
      var i := ContainsWitness(s, sub);
    }
    if exists i :: WindowAt(s, sub, i) {
      var i :| WindowAt(s, sub, i);
      WindowContains(s, sub, i);
    }
  }

  /** Where a contained `sub` starts. */
  lemma {:induction false} ContainsWitness(s: string, sub: string) returns (i: int)
    requires Contains(s, sub)
    ensures WindowAt(s, sub, i)
    decreases |s|
  {
    if sub <= s {
      i := 0;
    } else {
      var j := ContainsWitness(s[1..], sub);
      i := j + 1;
      forall k | 0 <= k < |sub| ensures s[i..i + |sub|][k] == sub[k] {
        assert s[i..i + |sub|][k] == s[i + k] == s[1..][j + k] == s[1..][j..j + |sub|][k];
      }
    }
  }

  /** A window spelling `sub` makes `sub` contained. */
  lemma {:induction false} WindowContains(s: string, sub: string, i: int)
    requires WindowAt(s, sub, i)
    ensures Contains(s, sub)
    decreases i
  {
    if i == 0 {
      assert sub == s[..|sub|];
    } else {
      assert s[1..][i - 1..i - 1 + |sub|] == s[i..i + |sub|];
      WindowContains(s[1..], sub, i - 1);
    }
  }

  /** A character of a substring is a character of the string. */
  lemma {:induction false} ContainsChar(s: string, sub: string, c: char)
    requires Contains(s, sub) && c in sub
    ensures c in s
    decreases |s|
  {
    if sub <= s {
      var k :| 0 <= k < |sub| && sub[k] == c;
      assert s[k] == c;
    } else {
      ContainsChar(s[1..], sub, c);
    }
  }

  predicate IsDigit(c: char) {
    '0' <= c <= '9'
  }

  predicate AllDigits(s: string) {
    forall i :: 0 <= i < |s| ==> IsDigit(s[i])
  }

  /** The number a string of decimal digits spells, most significant first. */
  function DigitsValue(s: string): nat
    requires AllDigits(s)
    decreases |s|
  {
    if s == [] then 0
    else DigitsValue(s[..|s| - 1]) * 10 + ((s[|s| - 1] as int) - ('0' as int))
  }

  /** `str(n)` for a non-negative integer: decimal digits, no leading zero. */
  function Decimal(n: nat): (r: string)
    ensures |r| >= 1 && AllDigits(r)
    ensures r[0] == '0' ==> n == 0
    ensures DigitsValue(r) == n
  {
    var last := ((n % 10) + ('0' as int)) as char;
    if n < 10 then
      [last]
    else
      var r := Decimal(n / 10) + [last];
      assert r[..|r| - 1] == Decimal(n / 10);
      r
  }

  /** `str(n)` for any integer. */
  function IntToStr(n: int): string {
    if n < 0 then "-" + Decimal(-n) else Decimal(n)
  }

  /** A sign at `t[0]`, whitespace up to `k`, and decimal digits from `k`
      to the end. */
  predicate SignedAt(t: string, k: int) {
    && 1 <= k < |t|
    && (t[0] == '+' || t[0] == '-')
    && AllSpace(t[1..k])
    && AllDigits(t[k..])
  }

  /** What base-10 `int()` accepts once the surrounding whitespace is
      gone: one or more decimal digits, or a sign, optional whitespace and
      one or more decimal digits. */
  predicate IntSyntax(t: string) {
    (t != [] && AllDigits(t)) || exists k :: 1 <= k < |t| && SignedAt(t, k)
  }

  /** The value of the digits `d` under the sign `sign`. */
  function Signed(sign: char, d: string): int
    requires AllDigits(d)
  {
    if sign == '-' then -(DigitsValue(d) as int) else DigitsValue(d)
  }

  /** The value of a signed literal whose digits start at `k`. */
  function SignedValue(t: string, k: int): int
    requires SignedAt(t, k)
  {
    Signed(t[0], t[k..])
  }

  /** `int(s)` with base 10: surrounding whitespace around the syntax
      `IntSyntax` accepts; anything else raises ValueError, modelled as
      None. */
  function ParseInt(s: string): (r: Option<int>)
    ensures r.Some? <==> IntSyntax(Strip(s))
    ensures AllDigits(Strip(s)) && Strip(s) != [] ==> r == Some(DigitsValue(Strip(s)))
    ensures forall k :: SignedAt(Strip(s), k) ==> r == Some(SignedValue(Strip(s), k))
  {
    ParseSignedSyntax(Strip(s));
    ParseSigned(Strip(s))
  }

  /** `int(t)` once the surrounding whitespace is gone. After a sign the
      digits may follow more whitespace, as `PyOS_strtoul` skips it. */
  function ParseSigned(t: string): (r: Option<int>)
    ensures r.Some? ==> t != [] && IsDigit(t[|t| - 1])
    ensures r.Some? && r.value < 0 ==> t[0] == '-'
    ensures t != [] && AllDigits(t) ==> r == Some(DigitsValue(t))
  {
    if |t| > 0 && (t[0] == '-' || t[0] == '+') then
      var k := SkipSpace(t, 1);
      if k < |t| && AllDigits(t[k..]) then
        assert t[|t| - 1] == t[k..][|t| - 1 - k];
        Some(Signed(t[0], t[k..]))
      else
        None
    else if |t| > 0 && AllDigits(t) then
      Some(DigitsValue(t))
    else
      None
  }

  /** The first index from `i` on that is not whitespace. */
  function SkipSpace(t: string, i: nat): (j: nat)
    requires i <= |t|
    ensures i <= j <= |t|
    ensures forall p :: i <= p < j ==> IsSpace(t[p])
    ensures j == |t| || !IsSpace(t[j])
    decreases |t| - i
  {
    if i < |t| && IsSpace(t[i]) then SkipSpace(t, i + 1) else i
  }

  /** `ParseSigned` accepts exactly `IntSyntax`, with the signed value. */
  lemma ParseSignedSyntax(t: string)
    ensures ParseSigned(t).Some? <==> IntSyntax(t)
    ensures forall k :: SignedAt(t, k) ==> ParseSigned(t) == Some(SignedValue(t, k))
  {
    if |t| > 0 && (t[0] == '-' || t[0] == '+') {
      SignedSyntax(t);
    } else {
      assert forall k :: !SignedAt(t, k);
    }
  }

  /** The signed case of `ParseSignedSyntax`. */
  lemma SignedSyntax(t: string)
    requires |t| > 0 && (t[0] == '-' || t[0] == '+')
    ensures ParseSigned(t).Some? <==> IntSyntax(t)
    ensures forall k :: SignedAt(t, k) ==> ParseSigned(t) == Some(SignedValue(t, k))
  {
    assert !IsDigit(t[0]);
    var k := SkipSpace(t, 1);
    if k < |t| && AllDigits(t[k..]) {
      assert forall i :: 0 <= i < k - 1 ==> t[1..k][i] == t[i + 1];
      assert SignedAt(t, k);
    }
    forall j | SignedAt(t, j) ensures ParseSigned(t) == Some(SignedValue(t, j)) {
      SignedDigits(t, j);
    }
  }

  /** Behind the sign and the whitespace, the skip stops at the digits. */
  lemma SignedDigits(t: string, k: int)
    requires SignedAt(t, k)
    ensures SkipSpace(t, 1) == k
  {
    var j := SkipSpace(t, 1);
    assert t[k] == t[k..][0] && !IsSpace(t[k]);
  }

  /** A sign, whitespace, then digits: `int("+ 5") == 5` and
      `int("- 5") == -5`. */
  lemma SignThenSpace(sign: char, mid: string, n: nat)
    requires sign == '+' || sign == '-'
    requires AllSpace(mid)
    ensures ParseSigned([sign] + mid + Decimal(n)) == Some(if sign == '-' then -(n as int) else n as int)
  {
    var d := Decimal(n);
    var t := [sign] + mid + d;
    var k := 1 + |mid|;
    assert t[1..k] == mid && t[k..] == d;
    assert SignedAt(t, k);
    ParseSignedSyntax(t);
  }

  /** The two spellings with a space after the sign. */
  lemma SpacedSigns()
    ensures ParseInt("+ 5") == Some(5)
    ensures ParseInt("- 5") == Some(-5)
  {
    SpacedSign('+');
    SpacedSign('-');
    assert "+ 5" == ['+', ' ', '5'];
    assert "- 5" == ['-', ' ', '5'];
  }

  /** A sign, a space and the digit 5. */
  lemma SpacedSign(sign: char)
    requires sign == '+' || sign == '-'
    ensures ParseInt([sign, ' ', '5']) == Some(if sign == '-' then -5 else 5)
  {
    var t := [sign, ' ', '5'];
    assert Stripped(t);
    assert Decimal(5) == ['5'];
    assert t == [sign] + [' '] + Decimal(5);
    SignThenSpace(sign, [' '], 5);
  }

  /** `int(str(n)) == n`. */
  lemma IntToStrParses(n: int)
    ensures ParseSigned(IntToStr(n)) == Some(n)
  {
    var t := IntToStr(n);
    if n < 0 {
      assert t[1..] == Decimal(-n);
    }
  }

  /** `int(str(n)) == n`, whatever whitespace surrounds the text. */
  lemma {:induction false} ParseIntRoundTrip(pre: string, n: int, post: string)
    requires AllSpace(pre) && AllSpace(post)
    ensures ParseInt(pre + IntToStr(n) + post) == Some(n)
  {
    var t := IntToStr(n);
    StripPadding(pre, t, post);
    IntToStrStripped(n);
    assert Strip(t) == t;
    IntToStrParses(n);
  }

  lemma IntToStrStripped(n: int)
    ensures Stripped(IntToStr(n))
  {
    var t := IntToStr(n);
    if n < 0 {
      var d := Decimal(-n);
      assert t[|t| - 1] == d[|d| - 1];
      assert IsDigit(d[|d| - 1]);
    }
  }
}
