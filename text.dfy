/** The .NET string operations the game's logic relies on, over `seq<char>`:
    ordinal StartsWith/EndsWith, String.Split(char), String.Join, String.Trim()
    and the decimal rendering of an int inside an interpolated string. */
module Text {

  /** String.StartsWith(prefix), ordinal comparison. */
  predicate StartsWith(s: string, prefix: string) {
    |prefix| <= |s| && s[..|prefix|] == prefix
  }

  /** String.EndsWith(suffix), ordinal comparison. */
  predicate EndsWith(s: string, suffix: string) {
    |suffix| <= |s| && s[|s| - |suffix|..] == suffix
  }

  lemma EndsWithAppend(s: string, suffix: string)
    ensures EndsWith(s + suffix, suffix)
  {
    assert (s + suffix)[|s|..] == suffix;
  }

  /** String.Join(sep, parts): the parts with one separator between neighbours. */
  function Join(parts: seq<string>, sep: char): string
  {
    if |parts| == 0 then ""
    else if |parts| == 1 then parts[0]
    else parts[0] + [sep] + Join(parts[1..], sep)
  }

  /** Joining one more part appends the separator and that part. */
  lemma {:induction false} JoinAppend(parts: seq<string>, last: string, sep: char)
    requires |parts| >= 1
    ensures Join(parts + [last], sep) == Join(parts, sep) + [sep] + last
    decreases |parts|
  {
    if |parts| == 1 {
      assert (parts + [last])[1..] == [last];
    } else {
      JoinAppend(parts[1..], last, sep);
      assert (parts + [last])[1..] == parts[1..] + [last];
    }
  }

  /** String.Split(char): the maximal separator-free pieces, empty pieces kept.
      Splitting is undone by joining, and no piece holds the separator. */
  function Split(s: string, sep: char): (parts: seq<string>)
    ensures |parts| >= 1
    ensures forall i :: 0 <= i < |parts| ==> sep !in parts[i]
    ensures Join(parts, sep) == s
    decreases |s|
  {
    if s == [] then [""]
    else
      var rest := Split(s[1..], sep);
      if s[0] == sep then
        assert Join([""] + rest, sep) == "" + [sep] + Join(rest, sep) by {
          assert ([""] + rest)[1..] == rest;
        }
        [""] + rest
      else
        var parts := [[s[0]] + rest[0]] + rest[1..];
        assert parts[1..] == rest[1..];
        assert Join(parts, sep) == [s[0]] + Join(rest, sep) by {
          if |rest| > 1 {
            assert Join(rest, sep) == rest[0] + [sep] + Join(rest[1..], sep);
          }
        }
        parts
  }

  /** The converse of Split's round trip: pieces without the separator are
      recovered from their join. */
  lemma {:induction false} SplitJoin(parts: seq<string>, sep: char)
    requires |parts| >= 1
    requires forall i :: 0 <= i < |parts| ==> sep !in parts[i]
    ensures Split(Join(parts, sep), sep) == parts
    decreases |parts|, |parts[0]|
  {
    if |parts| == 1 {
      SplitPiece(parts[0], sep);
    } else if parts[0] == [] {
      var rest := parts[1..];
      SplitJoin(rest, sep);
      assert Join(parts, sep) == [sep] + Join(rest, sep);
      assert ([sep] + Join(rest, sep))[1..] == Join(rest, sep);
      assert [""] + rest == parts;
    } else {
      var c := parts[0][0];
      var shorter := [parts[0][1..]] + parts[1..];
      assert shorter[1..] == parts[1..];
      assert forall i :: 0 <= i < |shorter| ==> sep !in shorter[i] by {
        forall i | 0 <= i < |shorter| ensures sep !in shorter[i] {
          if i == 0 {
            assert forall k :: 0 <= k < |parts[0][1..]| ==> parts[0][1..][k] == parts[0][k + 1];
          } else {
            assert shorter[i] == parts[i];
          }
        }
      }
      SplitJoin(shorter, sep);
      SplitJoinHead(parts, sep, shorter);
    }
  }

  /** The step of SplitJoin that puts the first character of the first
      piece back in front. */
  lemma SplitJoinHead(parts: seq<string>, sep: char, shorter: seq<string>)
    requires |parts| >= 1 && parts[0] != [] && sep !in parts[0]
    requires shorter == [parts[0][1..]] + parts[1..]
    requires Split(Join(shorter, sep), sep) == shorter
    ensures Split(Join(parts, sep), sep) == parts
  {
    var c := parts[0][0];
    var j := Join(parts, sep);
    assert shorter[1..] == parts[1..];
    assert j == [c] + Join(shorter, sep) by {
      assert parts[0] == [c] + parts[0][1..];
      if |parts| > 1 {
        assert parts[1..] == shorter[1..];
      }
    }
    assert j[1..] == Join(shorter, sep);
    assert c != sep by { assert parts[0][0] in parts[0]; }
    assert j != [] && j[0] == c;
    assert Split(j, sep) == [[c] + shorter[0]] + shorter[1..];
    assert [c] + shorter[0] == parts[0];
    assert [[c] + shorter[0]] + shorter[1..] == parts;
  }

  /** A piece without the separator splits to itself. */
  lemma {:induction false} SplitPiece(s: string, sep: char)
    requires sep !in s
    ensures Split(s, sep) == [s]
    decreases |s|
  {
    if s != [] {
      assert sep !in s[1..] by {
        assert forall k :: 0 <= k < |s[1..]| ==> s[1..][k] == s[k + 1];
      }
      SplitPiece(s[1..], sep);
      assert s[0] in s;
      assert [s[0]] + s[1..] == s;
    }
  }

  /** The characters Char.IsWhiteSpace accepts (Unicode Zs, Zl, Zp and the
      control characters U+0009 to U+000D and U+0085), which String.Trim()
      removes. */
  predicate IsWhiteSpace(c: char) {
    c == ' ' || c == '\t' || c == '\n' || c == '\U{000B}' || c == '\U{000C}' || c == '\r'
    || c == '\U{0085}' || c == '\U{00A0}' || c == '\U{1680}'
    || ('\U{2000}' <= c <= '\U{200A}')
    || c == '\U{2028}' || c == '\U{2029}' || c == '\U{202F}' || c == '\U{205F}' || c == '\U{3000}'
  }

  predicate AllWhiteSpace(s: string) {
    forall i :: 0 <= i < |s| ==> IsWhiteSpace(s[i])
  }

  /** The number of white-space characters `s` starts with. */
  function LeadingWhiteSpace(s: string): (n: nat)
    ensures n <= |s|
    decreases |s|
  {
    if s != [] && IsWhiteSpace(s[0]) then 1 + LeadingWhiteSpace(s[1..]) else 0
  }

  /** The number of white-space characters `s` ends with. */
  function TrailingWhiteSpace(s: string): (n: nat)
    ensures n <= |s|
    decreases |s|
  {
    if s != [] && IsWhiteSpace(s[|s| - 1]) then 1 + TrailingWhiteSpace(s[..|s| - 1]) else 0
  }

  /** The leading count is the longest white-space prefix. */
  lemma {:induction false} LeadingWhiteSpaceIsMaximal(s: string)
    ensures AllWhiteSpace(s[..LeadingWhiteSpace(s)])
    ensures LeadingWhiteSpace(s) == |s| || !IsWhiteSpace(s[LeadingWhiteSpace(s)])
    decreases |s|
  {
    if s != [] && IsWhiteSpace(s[0]) {
      LeadingWhiteSpaceIsMaximal(s[1..]);
      var n := LeadingWhiteSpace(s[1..]);
      assert s[..n + 1] == [s[0]] + s[1..][..n];
      assert n < |s[1..]| ==> s[n + 1] == s[1..][n];
    }
  }

  /** The trailing count is the longest white-space suffix. */
  lemma {:induction false} TrailingWhiteSpaceIsMaximal(s: string)
    ensures AllWhiteSpace(s[|s| - TrailingWhiteSpace(s)..])
    ensures TrailingWhiteSpace(s) == |s| || !IsWhiteSpace(s[|s| - 1 - TrailingWhiteSpace(s)])
    decreases |s|
  {
    if s != [] && IsWhiteSpace(s[|s| - 1]) {
      var t := s[..|s| - 1];
      TrailingWhiteSpaceIsMaximal(t);
      var n := TrailingWhiteSpace(t);
      assert s[|s| - (n + 1)..] == t[|t| - n..] + [s[|s| - 1]];
      assert n < |t| ==> s[|s| - 1 - (n + 1)] == t[|t| - 1 - n];
    }
  }

  /** String.TrimStart(): drops the leading white space. */
  function TrimStart(s: string): string
  {
    s[LeadingWhiteSpace(s)..]
  }

  /** String.TrimEnd(): drops the trailing white space. */
  function TrimEnd(s: string): string
  {
    s[..|s| - TrailingWhiteSpace(s)]
  }

  /** String.Trim(): both ends at once. */
  function Trim(s: string): (r: string)
    ensures |r| <= |s|
  {
    TrimEnd(TrimStart(s))
  }

  /** `s` is the trimmed string framed by white space on both sides, and the
      trimmed string neither starts nor ends with white space. */
  lemma TrimFramed(s: string)
    ensures exists i, j ::
              0 <= i <= j <= |s| && Trim(s) == s[i..j] && AllWhiteSpace(s[..i]) && AllWhiteSpace(s[j..])
    ensures Trim(s) == [] || (!IsWhiteSpace(Trim(s)[0]) && !IsWhiteSpace(Trim(s)[|Trim(s)| - 1]))
  {
    var t := TrimStart(s);
    var r := TrimEnd(t);
    var i := LeadingWhiteSpace(s);
    var j := i + |r|;
    LeadingWhiteSpaceIsMaximal(s);
    TrailingWhiteSpaceIsMaximal(t);
    assert r == s[i..j];
    assert s[j..] == t[|r|..];
    if r != [] {
      assert r[0] == s[i];
      assert r[|r| - 1] == t[|t| - 1 - TrailingWhiteSpace(t)];
    }
  }

  /** Trimming changes nothing on a string that has no white space at either end. */
  lemma TrimOfTrimmed(s: string)
    requires s == [] || (!IsWhiteSpace(s[0]) && !IsWhiteSpace(s[|s| - 1]))
    ensures Trim(s) == s
  {
  }

  /** Trimming is idempotent. */
  lemma TrimIdempotent(s: string)
    ensures Trim(Trim(s)) == Trim(s)
  {
    TrimFramed(s);
    TrimOfTrimmed(Trim(s));
  }

  function DigitChar(d: nat): (c: char)
    requires d < 10
    ensures '0' <= c <= '9'
  {
    ['0', '1', '2', '3', '4', '5', '6', '7', '8', '9'][d]
  }

  /** The decimal digits of `n` without leading zeros, as string interpolation
      writes a non-negative int. */
  function NatToString(n: nat): (s: string)
    ensures |s| >= 1
    ensures forall i :: 0 <= i < |s| ==> '0' <= s[i] <= '9'
    ensures s[0] == '0' ==> n == 0
    decreases n
  {
    if n < 10 then [DigitChar(n)] else NatToString(n / 10) + [DigitChar(n % 10)]
  }

  /** An int as string interpolation writes it: a minus sign before the digits
      of a negative number. */
  function IntToString(n: int): (s: string)
    ensures |s| >= 1
  {
    if n < 0 then "-" + NatToString(-n) else NatToString(n)
  }

  function DigitValue(c: char): (d: nat)
    requires '0' <= c <= '9'
    ensures d < 10 && DigitChar(d) == c
  {
    (c as int - '0' as int) as nat
  }

  /** Reads back a string of decimal digits. */
  function ParseNat(s: string): nat
    requires forall i :: 0 <= i < |s| ==> '0' <= s[i] <= '9'
  {
    if s == [] then 0 else 10 * ParseNat(s[..|s| - 1]) + DigitValue(s[|s| - 1])
  }

  lemma {:induction false} ParseNatToString(n: nat)
    ensures ParseNat(NatToString(n)) == n
    decreases n
  {
    var s := NatToString(n);
    if n < 10 {
      assert s[..|s| - 1] == [];
    } else {
      ParseNatToString(n / 10);
      assert s[..|s| - 1] == NatToString(n / 10);
    }
  }

  lemma NatToStringInjective(a: nat, b: nat)
    requires NatToString(a) == NatToString(b)
    ensures a == b
  {
    ParseNatToString(a);
    ParseNatToString(b);
  }

  /** A rendered int starts with a minus sign exactly when it is negative. */
  lemma IntToStringSign(n: int)
    ensures (IntToString(n)[0] == '-') <==> n < 0
    ensures n < 0 ==> IntToString(n)[1..] == NatToString(-n)
    ensures n >= 0 ==> IntToString(n) == NatToString(n)
  {
    if n >= 0 {
      var t := NatToString(n);
      assert '0' <= t[0] <= '9';
    }
  }

  /** Two ints render to the same text only when they are equal. */
  lemma IntToStringInjective(a: int, b: int)
    requires IntToString(a) == IntToString(b)
    ensures a == b
  {
    var s := IntToString(a);
    IntToStringSign(a);
    IntToStringSign(b);
    if s[0] == '-' {
      assert a < 0 && b < 0;
      assert NatToString(-a) == s[1..] == NatToString(-b);
      NatToStringInjective(-a, -b);
    } else {
      assert a >= 0 && b >= 0;
      assert NatToString(a) == s == NatToString(b);
      NatToStringInjective(a, b);
    }
  }

  /** Strings `p + x + q` with a fixed frame p, q are equal only when their
      middles are. */
  lemma FramedInjective(p: string, x: string, y: string, q: string)
    requires p + x + q == p + y + q
    ensures x == y
  {
    var a := p + x + q;
    var b := p + y + q;
    assert |x| == |y|;
    assert x == a[|p|..|p| + |x|];
    assert y == b[|p|..|p| + |y|];
  }
}
