/** The parts of Python 2's `str` that the info module relies on: prefix and
    substring tests, `replace`, `split`, `join`, `strip`, `lower`, and the
    conversions between integers and their decimal or hexadecimal text. */
module Text {

  predicate IsWhitespace(c: char) {
    c == ' ' || 9 <= c as int <= 13
  }

  predicate StartsWith(s: string, p: string) {
    |p| <= |s| && s[..|p|] == p
  }

  predicate EndsWith(s: string, p: string) {
    |p| <= |s| && s[|s| - |p|..] == p
  }

  /** Python's `p in s` for strings. */
  predicate Contains(s: string, p: string)
    decreases |s|
  {
    StartsWith(s, p) || (|s| > |p| && Contains(s[1..], p))
  }

  /** `p` occurs in `s` starting at index `i`. */
  predicate OccursAt(s: string, p: string, i: int) {
    0 <= i && i + |p| <= |s| && s[i..i + |p|] == p
  }

  lemma {:induction false} ContainsAt(s: string, p: string)
    ensures Contains(s, p) <==> exists i :: OccursAt(s, p, i)
    decreases |s|
  {
    if StartsWith(s, p) {
      assert s[..|p|] == s[0..0 + |p|];
      assert OccursAt(s, p, 0);
    } else if |s| > |p| {
      ContainsAt(s[1..], p);
      if i :| OccursAt(s, p, i) {
        assert i != 0 by { assert s[..|p|] == s[0..0 + |p|]; }
        assert s[1..][i - 1..i - 1 + |p|] == s[i..i + |p|];
        assert OccursAt(s[1..], p, i - 1);
      }
      if Contains(s[1..], p) {
        var i :| OccursAt(s[1..], p, i);
        assert s[i + 1..i + 1 + |p|] == s[1..][i..i + |p|];
        assert OccursAt(s, p, i + 1);
      }
    }
  }

  lemma ContainsFirstChar(s: string, p: string)
    requires |p| > 0 && p[0] !in s
    ensures !Contains(s, p)
  {
    ContainsAt(s, p);
  }

  /** `p` is not in `s` when no place where `s` has the first character of
      `p` has the last character of `p` at the matching distance. */
  lemma EndsAbsent(s: string, p: string)
    requires |p| > 0
    requires forall i :: 0 <= i && i + |p| <= |s| && s[i] == p[0] ==> s[i + |p| - 1] != p[|p| - 1]
    ensures !Contains(s, p)
  {
    ContainsAt(s, p);
    forall i | 0 <= i && i + |p| <= |s| ensures !OccursAt(s, p, i) {
      assert s[i..i + |p|][0] == s[i] && s[i..i + |p|][|p| - 1] == s[i + |p| - 1];
    }
  }

  /** Python's `s.replace(pat, rep)`: every non-overlapping occurrence of `pat`,
      scanning from the left, is replaced. */
  function Replace(s: string, pat: string, rep: string): string
    requires |pat| > 0
    decreases |s|
  {
    if |s| < |pat| then s
    else if s[..|pat|] == pat then rep + Replace(s[|pat|..], pat, rep)
    else [s[0]] + Replace(s[1..], pat, rep)
  }

  lemma {:induction false} ReplaceAbsent(s: string, pat: string, rep: string)
    requires |pat| > 0
    requires !Contains(s, pat)
    ensures Replace(s, pat, rep) == s
    decreases |s|
  {
    if |s| >= |pat| {
      ReplaceAbsent(s[1..], pat, rep);
      assert [s[0]] + s[1..] == s;
    }
  }

  /** Index of the first `c` in `s`, or `|s|` when there is none. */
  function IndexOf(s: string, c: char): (i: nat)
    ensures i <= |s|
    ensures i < |s| ==> s[i] == c
    ensures forall j :: 0 <= j < i ==> s[j] != c
  {
    if |s| == 0 then 0
    else if s[0] == c then 0
    else 1 + IndexOf(s[1..], c)
  }

  /** Python's `s.split(c)` for a one-character separator. */
  function Split(s: string, c: char): (parts: seq<string>)
    ensures |parts| >= 1
    ensures |parts| >= 2 <==> c in s
    decreases |s|
  {
    var i := IndexOf(s, c);
    if i == |s| then [s] else [s[..i]] + Split(s[i + 1..], c)
  }

  /** The first field of a split ends at the first separator, or at the end. */
  lemma SplitHead(s: string, c: char, i: nat)
    requires i <= |s| && (i == |s| || s[i] == c)
    requires forall j :: 0 <= j < i ==> s[j] != c
    ensures Split(s, c)[0] == s[..i]
    ensures i < |s| ==> Split(s, c) == [s[..i]] + Split(s[i + 1..], c)
  {
    assert IndexOf(s, c) == i;
  }

  /** Python's `sep.join(xs)`. */
  function Join(xs: seq<string>, sep: string): string {
    if |xs| == 0 then ""
    else if |xs| == 1 then xs[0]
    else xs[0] + sep + Join(xs[1..], sep)
  }

  lemma SplitOfPrefix(a: string, c: char, b: string)
    requires c !in a
    ensures Split(a + [c] + b, c) == [a] + Split(b, c)
  {
    var s := a + [c] + b;
    var i := IndexOf(s, c);
    assert s[|a|] == c;
    assert forall j :: 0 <= j < |a| ==> s[j] == a[j];
    assert i == |a|;
    assert s[..i] == a;
    assert s[i + 1..] == b;
  }

  lemma SplitNoSeparator(s: string, c: char)
    requires c !in s
    ensures Split(s, c) == [s]
  {
  }

  lemma JoinCons(a: string, rest: seq<string>, sep: string)
    requires |rest| >= 1
    ensures Join([a] + rest, sep) == a + sep + Join(rest, sep)
  {
    assert ([a] + rest)[1..] == rest;
  }

  /** A text is what comes before position `i`, the character there and what
      comes after. */
  lemma CutAt(s: string, i: nat)
    requires i < |s|
    ensures s == s[..i] + [s[i]] + s[i + 1..]
  {
    assert s[i..] == [s[i]] + s[i + 1..];
    assert s == s[..i] + s[i..];
  }

  /** Joining what `split` cut apart gives back the text. */
  lemma {:induction false} JoinSplit(s: string, c: char)
    ensures Join(Split(s, c), [c]) == s
    decreases |s|
  {
    var i := IndexOf(s, c);
    if i < |s| {
      CutAt(s, i);
      JoinSplit(s[i + 1..], c);
      JoinCons(s[..i], Split(s[i + 1..], c), [c]);
    }
  }

  /** Splitting a join gives back the pieces, when none holds the separator. */
  lemma {:induction false} SplitJoin(xs: seq<string>, c: char)
    requires |xs| >= 1
    requires forall k :: 0 <= k < |xs| ==> c !in xs[k]
    ensures Split(Join(xs, [c]), c) == xs
    decreases |xs|
  {
    if |xs| == 1 {
      SplitNoSeparator(xs[0], c);
    } else {
      SplitJoin(xs[1..], c);
      SplitOfPrefix(xs[0], c, Join(xs[1..], [c]));
      assert xs == [xs[0]] + xs[1..];
    }
  }

  /** The fields after the first separator, joined again, are the text after the
      first separator. */
  lemma AfterFirstSeparator(s: string, c: char)
    requires c in s
    ensures Join(Split(s, c)[1..], [c]) == s[IndexOf(s, c) + 1..]
  {
    var i := IndexOf(s, c);
    assert i < |s|;
    var rest := Split(s[i + 1..], c);
    assert Split(s, c)[1..] == rest;
    JoinSplit(s[i + 1..], c);
  }

  function DropWhitespace(s: string): (t: string)
    ensures |t| <= |s| && t == s[|s| - |t|..]
    ensures |t| > 0 ==> !IsWhitespace(t[0])
  {
    if |s| > 0 && IsWhitespace(s[0]) then DropWhitespace(s[1..]) else s
  }

  function TokenLength(s: string): (n: nat)
    ensures n <= |s|
    ensures forall j :: 0 <= j < n ==> !IsWhitespace(s[j])
    ensures n < |s| ==> IsWhitespace(s[n])
  {
    if |s| > 0 && !IsWhitespace(s[0]) then 1 + TokenLength(s[1..]) else 0
  }

  /** Python's `s.split()`: the maximal runs of non-whitespace, in order. */
  function SplitWhitespace(s: string): seq<string>
    decreases |s|
  {
    var t := DropWhitespace(s);
    if |t| == 0 then []
    else
      var n := TokenLength(t);
      [t[..n]] + SplitWhitespace(t[n..])
  }

  /** The tokens are nonempty and hold no whitespace. */
  lemma {:induction false} SplitWhitespaceTokens(s: string)
    ensures forall k :: 0 <= k < |SplitWhitespace(s)| ==> |SplitWhitespace(s)[k]| > 0
    ensures forall k, j :: 0 <= k < |SplitWhitespace(s)| && 0 <= j < |SplitWhitespace(s)[k]| ==>
      !IsWhitespace(SplitWhitespace(s)[k][j])
    decreases |s|
  {
    var t := DropWhitespace(s);
    if |t| > 0 {
      var n := TokenLength(t);
      SplitWhitespaceTokens(t[n..]);
      var tokens := SplitWhitespace(s);
      assert tokens[1..] == SplitWhitespace(t[n..]);
      forall k, j | 0 <= k < |tokens| && 0 <= j < |tokens[k]| ensures !IsWhitespace(tokens[k][j]) {
        if k == 0 {
          assert tokens[0][j] == t[j];
        } else {
          assert tokens[k] == tokens[1..][k - 1];
        }
      }
    }
  }

  /** The first token of `a + rest` is `a` when whitespace or the end
      follows it. */
  lemma TokenLengthOf(a: string, rest: string)
    requires |a| > 0 && forall j :: 0 <= j < |a| ==> !IsWhitespace(a[j])
    requires |rest| == 0 || IsWhitespace(rest[0])
    ensures TokenLength(a + rest) == |a|
  {
    var s := a + rest;
    var n := TokenLength(s);
    assert forall j :: 0 <= j < |a| ==> s[j] == a[j];
    assert |a| < |s| ==> s[|a|] == rest[0];
  }

  /** A leading token followed by whitespace or the end is split off whole. */
  lemma SplitWhitespaceHead(a: string, rest: string)
    requires |a| > 0 && forall j :: 0 <= j < |a| ==> !IsWhitespace(a[j])
    requires |rest| == 0 || IsWhitespace(rest[0])
    ensures SplitWhitespace(a + rest) == [a] + SplitWhitespace(rest)
  {
    var s := a + rest;
    assert DropWhitespace(s) == s by { assert s[0] == a[0]; }
    TokenLengthOf(a, rest);
    assert s[..|a|] == a && s[|a|..] == rest;
  }

  /** A leading blank does not change the split. */
  lemma SplitWhitespaceBlank(s: string)
    ensures SplitWhitespace(" " + s) == SplitWhitespace(s)
  {
    assert (" " + s)[1..] == s;
    assert DropWhitespace(" " + s) == DropWhitespace(s);
  }

  /** Tokens separated by single blanks split back into those tokens (the
      text is written right-nested, as the split takes it apart). */
  lemma SplitThreeTokens(a: string, b: string, c: string)
    requires |a| > 0 && forall j :: 0 <= j < |a| ==> !IsWhitespace(a[j])
    requires |b| > 0 && forall j :: 0 <= j < |b| ==> !IsWhitespace(b[j])
    requires |c| > 0 && forall j :: 0 <= j < |c| ==> !IsWhitespace(c[j])
    ensures SplitWhitespace(a + (" " + (b + (" " + c)))) == [a, b, c]
  {
    var mid := b + (" " + c);
    SplitTwoTokens(b, c);
    SplitWhitespaceBlank(mid);
    SplitWhitespaceHead(a, " " + mid);
  }

  lemma SplitTwoTokens(b: string, c: string)
    requires |b| > 0 && forall j :: 0 <= j < |b| ==> !IsWhitespace(b[j])
    requires |c| > 0 && forall j :: 0 <= j < |c| ==> !IsWhitespace(c[j])
    ensures SplitWhitespace(b + (" " + c)) == [b, c]
  {
    SplitLastToken(c);
    SplitWhitespaceHead(b, " " + c);
  }

  lemma SplitLastToken(c: string)
    requires |c| > 0 && forall j :: 0 <= j < |c| ==> !IsWhitespace(c[j])
    ensures SplitWhitespace(" " + c) == [c]
  {
    SplitWhitespaceBlank(c);
    SplitWhitespaceHead(c, "");
    assert c + "" == c;
  }

  function DropTrailingWhitespace(s: string): (t: string)
    ensures |t| <= |s| && t == s[..|t|]
    ensures |t| > 0 ==> !IsWhitespace(t[|t| - 1])
  {
    if |s| > 0 && IsWhitespace(s[|s| - 1]) then DropTrailingWhitespace(s[..|s| - 1]) else s
  }

  /** Python's `s.strip()`. */
  function Strip(s: string): string {
    DropTrailingWhitespace(DropWhitespace(s))
  }

  /** Text without whitespace is its own strip. */
  lemma StripNoWhitespace(s: string)
    requires forall k :: 0 <= k < |s| ==> !IsWhitespace(s[k])
    ensures Strip(s) == s
  {
    if |s| > 0 {
      assert !IsWhitespace(s[0]) && !IsWhitespace(s[|s| - 1]);
    }
  }

  /** Text with non-blank ends, after one leading blank, strips to itself. */
  lemma StripLeadingBlank(s: string)
    requires |s| > 0 && !IsWhitespace(s[0]) && !IsWhitespace(s[|s| - 1])
    ensures Strip(" " + s) == s
  {
    assert (" " + s)[1..] == s;
    assert DropWhitespace(s) == s;
  }

  /** A number read from a one-line file loses its line end and nothing else. */
  lemma StripDigitsLine(s: string)
    requires IsDigits(s)
    ensures Strip(s) == s
    ensures Strip(s + "\n") == s
  {
    assert !IsWhitespace(s[0]) && !IsWhitespace(s[|s| - 1]);
    var t := s + "\n";
    assert DropWhitespace(t) == t;
    assert t[..|t| - 1] == s;
    assert DropTrailingWhitespace(t) == DropTrailingWhitespace(s);
  }

  function LowerChar(c: char): char {
    if 'A' <= c <= 'Z' then (c as int + 32) as char else c
  }

  /** Python 2's `s.lower()` on ASCII text. */
  function Lower(s: string): (t: string)
    ensures |t| == |s|
    ensures forall k :: 0 <= k < |s| ==> t[k] == LowerChar(s[k])
  {
    seq(|s|, k requires 0 <= k < |s| => LowerChar(s[k]))
  }

  // Decimal and hexadecimal numerals

  predicate IsDigit(c: char) {
    '0' <= c <= '9'
  }

  function DigitChar(d: nat): (c: char)
    requires d < 10
    ensures IsDigit(c) && c as int - '0' as int == d
  {
    (d + '0' as int) as char
  }

  function DigitValue(c: char): nat
    requires IsDigit(c)
  {
    c as int - '0' as int
  }

  /** `"%d" % n` for a non-negative `n`. */
  function NatToString(n: nat): (s: string)
    ensures |s| > 0
    ensures forall k :: 0 <= k < |s| ==> IsDigit(s[k])
  {
    if n < 10 then [DigitChar(n)] else NatToString(n / 10) + [DigitChar(n % 10)]
  }

  /** `"%d" % n`. */
  function IntToString(n: int): (s: string)
    ensures |s| > 0
  {
    if n < 0 then "-" + NatToString(-n) else NatToString(n)
  }

  /** `"%.2d" % n` for a non-negative `n`: at least two digits. */
  function TwoDigits(n: nat): string {
    if n < 10 then "0" + NatToString(n) else NatToString(n)
  }

  predicate IsDigits(s: string) {
    |s| > 0 && forall k :: 0 <= k < |s| ==> IsDigit(s[k])
  }

  /** What Python's `int(s)` accepts here: an optional sign and decimal digits. */
  predicate IsIntLiteral(s: string) {
    IsDigits(s) || (|s| > 1 && (s[0] == '-' || s[0] == '+') && IsDigits(s[1..]))
  }

  function ParseNat(s: string): nat
    requires forall k :: 0 <= k < |s| ==> IsDigit(s[k])
  {
    if |s| == 0 then 0 else ParseNat(s[..|s| - 1]) * 10 + DigitValue(s[|s| - 1])
  }

  /** Python's `int(s)`. */
  function ParseInt(s: string): int
    requires IsIntLiteral(s)
  {
    if IsDigits(s) then ParseNat(s)
    else if s[0] == '-' then -(ParseNat(s[1..]) as int)
    else ParseNat(s[1..])
  }

  lemma {:induction false} ParseNatToString(n: nat)
    ensures ParseNat(NatToString(n)) == n
  {
    if n >= 10 {
      var s := NatToString(n);
      assert s[..|s| - 1] == NatToString(n / 10);
      ParseNatToString(n / 10);
    }
  }

  /** `int("%d" % n) == n`, and the text is a literal `int` accepts. */
  lemma ParseIntToString(n: int)
    ensures IsIntLiteral(IntToString(n))
    ensures ParseInt(IntToString(n)) == n
  {
    if n < 0 {
      var s := IntToString(n);
      assert s[1..] == NatToString(-n);
      assert !IsDigit(s[0]);
      ParseNatToString(-n);
    } else {
      ParseNatToString(n);
    }
  }

  lemma IntToStringHasNo(n: int, c: char)
    requires c != '-' && !IsDigit(c)
    ensures c !in IntToString(n)
  {
    var s := IntToString(n);
    forall k | 0 <= k < |s| ensures s[k] != c {
      if n < 0 && k > 0 {
        assert s[k] == NatToString(-n)[k - 1];
      }
    }
  }

  predicate IsHexDigit(c: char) {
    IsDigit(c) || 'a' <= c <= 'f'
  }

  predicate IsHexDigits(s: string) {
    |s| > 0 && forall k :: 0 <= k < |s| ==> IsHexDigit(s[k])
  }

  function HexDigitValue(c: char): (v: nat)
    requires IsHexDigit(c)
    ensures v < 16
  {
    if IsDigit(c) then c as int - '0' as int else c as int - 'a' as int + 10
  }

  function ParseHexDigits(s: string): nat
    requires forall k :: 0 <= k < |s| ==> IsHexDigit(s[k])
  {
    if |s| == 0 then 0 else ParseHexDigits(s[..|s| - 1]) * 16 + HexDigitValue(s[|s| - 1])
  }

  /** Python's `int(s, 16)` on lower-case hexadecimal digits. */
  function ParseHex(s: string): nat
    requires IsHexDigits(s)
  {
    ParseHexDigits(s)
  }
}
